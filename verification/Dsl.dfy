/**
  The rule language: its data model, and the two static checks, Validate for publishing and
  ValidateDraft for saving. Each check is a method with the program's loops and early returns,
  proved to decide a declarative predicate. Loops over Go maps pick the next key arbitrarily.
  */
module Dsl {
  import opened Values

  datatype FieldType = NumberField | StringField | BooleanField | EnumField | OtherField(name: string)

  datatype Direction = Input | Output | OtherDirection(name: string)

  datatype Strategy = FirstMatch | AllMatches | OtherStrategy(name: string)

  datatype Op = Eq | Ne | Gt | Gte | Lt | Lte | Contains | StartsWith | EndsWith | In | OtherOp(name: string)

  datatype FieldDef = FieldDef(kind: FieldType, direction: Direction, options: seq<string>)

  datatype Condition = Condition(field: string, op: Op, value: Value)

  datatype Rule = Rule(id: string, name: string, conditions: seq<Condition>, outputs: map<string, Value>)

  /** A nil Default and an empty one behave alike, so both are the empty map. */
  datatype RuleNode = RuleNode(id: string, name: string, strategy: Strategy, rules: seq<Rule>, default: map<string, Value>)

  datatype Edge = Edge(source: string, target: string, mapping: map<string, string>)

  type Schema = map<string, FieldDef>

  datatype Program = Program(dslVersion: string, schema: Schema, entry: string, nodes: seq<RuleNode>, edges: seq<Edge>)

  // ---------- Read-only checks ----------

  predicate FieldOk(fd: FieldDef) {
    && (fd.kind.NumberField? || fd.kind.StringField? || fd.kind.BooleanField? || (fd.kind.EnumField? && fd.options != []))
    && (fd.direction.Input? || fd.direction.Output?)
  }

  predicate OpAllowed(kind: FieldType, op: Op) {
    match kind
    case NumberField => op.Eq? || op.Ne? || op.Gt? || op.Gte? || op.Lt? || op.Lte?
    case StringField => op.Eq? || op.Ne? || op.Contains? || op.StartsWith? || op.EndsWith?
    case BooleanField => op.Eq? || op.Ne?
    case EnumField => op.Eq? || op.Ne? || op.In?
    case OtherField(_) => false
  }

  predicate IsOption(v: Value, options: seq<string>) {
    v.Text? && v.text in options
  }

  predicate OperandOk(cond: Condition, fd: FieldDef) {
    match fd.kind
    case NumberField => cond.value.Number?
    case StringField => cond.value.Text?
    case BooleanField => cond.value.Bool?
    case EnumField =>
      if cond.op.In? then
        cond.value.List? && forall v | v in cond.value.items :: IsOption(v, fd.options)
      else
        IsOption(cond.value, fd.options)
    case OtherField(_) => !cond.value.Null?
  }

  /** `extra` holds the fields that arrive over the node's incoming edges. */
  predicate ConditionOk(cond: Condition, schema: Schema, extra: set<string>) {
    && cond.field != ""
    && cond.field in schema
    && (schema[cond.field].direction.Input? || cond.field in extra)
    && OpAllowed(schema[cond.field].kind, cond.op)
    && OperandOk(cond, schema[cond.field])
  }

  /** A condition of one of the rules tests the field. */
  ghost predicate TestedBy(rules: seq<Rule>, field: string) {
    exists r, c | r in rules && c in r.conditions :: c.field == field
  }

  ghost predicate Tests(node: RuleNode, field: string) {
    TestedBy(node.rules, field)
  }

  // ---------- What the checks decide ----------

  ghost predicate FieldsOk(schema: Schema) {
    forall f | f in schema :: FieldOk(schema[f])
  }

  ghost function NodeIds(nodes: seq<RuleNode>): set<string> {
    set n | n in nodes :: n.id
  }

  ghost predicate NodeIdsOk(nodes: seq<RuleNode>) {
    && (forall i | 0 <= i < |nodes| :: nodes[i].id != "")
    && (forall i, j | 0 <= i < j < |nodes| :: nodes[i].id != nodes[j].id)
  }

  ghost predicate RuleIdsOk(rules: seq<Rule>) {
    && (forall i | 0 <= i < |rules| :: rules[i].id != "")
    && (forall i, j | 0 <= i < j < |rules| :: rules[i].id != rules[j].id)
  }

  ghost predicate EdgeOk(e: Edge, ids: set<string>, schema: Schema) {
    && e.source in ids
    && e.target in ids
    && e.source != e.target
    && (forall f | f in e.mapping :: e.mapping[f] in schema)
  }

  ghost predicate EdgesOk(edges: seq<Edge>, ids: set<string>, schema: Schema) {
    forall i | 0 <= i < |edges| :: EdgeOk(edges[i], ids, schema)
  }

  predicate StrategyOk(node: RuleNode) {
    node.strategy.FirstMatch? || node.strategy.AllMatches?
  }

  ghost predicate ConditionsOk(rule: Rule, schema: Schema, extra: set<string>) {
    forall j | 0 <= j < |rule.conditions| :: ConditionOk(rule.conditions[j], schema, extra)
  }

  ghost predicate IsOutputField(f: string, schema: Schema) {
    f in schema && schema[f].direction.Output?
  }

  /** What publishing demands of a rule beyond well-formed conditions. */
  ghost predicate RuleComplete(rule: Rule, schema: Schema) {
    && rule.conditions != []
    && rule.outputs != map[]
    && (forall f | f in rule.outputs :: IsOutputField(f, schema))
  }

  /** The fields an edge can write into the facts of its target. */
  ghost function Provided(e: Edge, schema: Schema): set<string> {
    if e.mapping == map[] then set f | f in schema && schema[f].direction.Output? else e.mapping.Values
  }

  ghost function Incoming(edges: seq<Edge>, schema: Schema, node: string): set<string> {
    set e, f | e in edges && e.target == node && f in Provided(e, schema) :: f
  }

  ghost predicate StrictNode(node: RuleNode, schema: Schema, extra: set<string>) {
    && StrategyOk(node)
    && RuleIdsOk(node.rules)
    && (forall i | 0 <= i < |node.rules| :: ConditionsOk(node.rules[i], schema, extra) && RuleComplete(node.rules[i], schema))
  }

  ghost predicate StrictlyValid(d: Program) {
    && d.dslVersion == "v1"
    && d.schema != map[] && d.entry != "" && d.nodes != []
    && FieldsOk(d.schema)
    && NodeIdsOk(d.nodes)
    && d.entry in NodeIds(d.nodes)
    && EdgesOk(d.edges, NodeIds(d.nodes), d.schema)
    && (forall i | 0 <= i < |d.nodes| :: StrictNode(d.nodes[i], d.schema, Incoming(d.edges, d.schema, d.nodes[i].id)))
  }

  ghost predicate LenientNode(node: RuleNode, schema: Schema, extra: set<string>) {
    && StrategyOk(node)
    && RuleIdsOk(node.rules)
    && (forall i | 0 <= i < |node.rules| :: ConditionsOk(node.rules[i], schema, extra))
  }

  ghost predicate LenientlyValid(d: Program) {
    && d.dslVersion == "v1"
    && FieldsOk(d.schema)
    && NodeIdsOk(d.nodes)
    && (d.entry == "" || d.entry in NodeIds(d.nodes))
    && EdgesOk(d.edges, NodeIds(d.nodes), d.schema)
    && (forall i | 0 <= i < |d.nodes| :: LenientNode(d.nodes[i], d.schema, Incoming(d.edges, d.schema, d.nodes[i].id)))
  }

  ghost predicate Complete(d: Program) {
    && d.schema != map[] && d.entry != "" && d.nodes != []
    && (forall n, r | n in d.nodes && r in n.rules :: RuleComplete(r, d.schema))
  }

  /** The published programs are exactly the drafts with nothing missing. */
  lemma StrictIffLenientAndComplete(d: Program)
    ensures StrictlyValid(d) <==> LenientlyValid(d) && Complete(d)
  {
    if LenientlyValid(d) && Complete(d) {
      forall i | 0 <= i < |d.nodes|
        ensures StrictNode(d.nodes[i], d.schema, Incoming(d.edges, d.schema, d.nodes[i].id))
      {
        var n := d.nodes[i];
        assert LenientNode(n, d.schema, Incoming(d.edges, d.schema, n.id));
        forall j | 0 <= j < |n.rules| ensures RuleComplete(n.rules[j], d.schema) {
          assert n in d.nodes && n.rules[j] in n.rules;
        }
      }
    }
    if StrictlyValid(d) {
      forall n, r | n in d.nodes && r in n.rules ensures RuleComplete(r, d.schema) {
        var i :| 0 <= i < |d.nodes| && d.nodes[i] == n;
        assert StrictNode(d.nodes[i], d.schema, Incoming(d.edges, d.schema, n.id));
      }
    }
  }

  // ---------- The checks as the program runs them ----------

  method CheckFields(schema: Schema) returns (ok: bool)
    ensures ok <==> FieldsOk(schema)
  {
    var rest := schema.Keys;
    while rest != {}
      invariant rest <= schema.Keys
      invariant forall f | f in schema && f !in rest :: FieldOk(schema[f])
      decreases rest
    {
      var f :| f in rest;
      if !FieldOk(schema[f]) {
        return false;
      }
      rest := rest - {f};
    }
    return true;
  }

  method CheckNodeIds(nodes: seq<RuleNode>) returns (ok: bool, ids: set<string>)
    ensures ok <==> NodeIdsOk(nodes)
    ensures ok ==> ids == NodeIds(nodes)
  {
    ids := {};
    for i := 0 to |nodes|
      invariant NodeIdsOk(nodes[..i])
      invariant ids == NodeIds(nodes[..i])
    {
      assert nodes[..i + 1] == nodes[..i] + [nodes[i]];
      if nodes[i].id == "" {
        return false, ids;
      }
      if nodes[i].id in ids {
        var n :| n in nodes[..i] && n.id == nodes[i].id;
        return false, ids;
      }
      ids := ids + {nodes[i].id};
    }
    assert nodes[..|nodes|] == nodes;
    return true, ids;
  }

  method CheckRuleIds(rules: seq<Rule>) returns (ok: bool)
    ensures ok <==> RuleIdsOk(rules)
  {
    var seen: set<string> := {};
    for i := 0 to |rules|
      invariant RuleIdsOk(rules[..i])
      invariant seen == set r | r in rules[..i] :: r.id
    {
      assert rules[..i + 1] == rules[..i] + [rules[i]];
      if rules[i].id == "" {
        return false;
      }
      if rules[i].id in seen {
        var r :| r in rules[..i] && r.id == rules[i].id;
        return false;
      }
      seen := seen + {rules[i].id};
    }
    assert rules[..|rules|] == rules;
    return true;
  }

  method CheckEdges(edges: seq<Edge>, ids: set<string>, schema: Schema) returns (ok: bool)
    ensures ok <==> EdgesOk(edges, ids, schema)
  {
    for i := 0 to |edges|
      invariant EdgesOk(edges[..i], ids, schema)
    {
      var e := edges[i];
      if e.source !in ids || e.target !in ids || e.source == e.target {
        return false;
      }
      var rest := e.mapping.Keys;
      while rest != {}
        invariant rest <= e.mapping.Keys
        invariant forall f | f in e.mapping && f !in rest :: e.mapping[f] in schema
        decreases rest
      {
        var f :| f in rest;
        if e.mapping[f] !in schema {
          return false;
        }
        rest := rest - {f};
      }
    }
    return true;
  }

  lemma IncomingGrows(edges: seq<Edge>, e: Edge, schema: Schema, n: string)
    ensures Incoming(edges + [e], schema, n) == Incoming(edges, schema, n) + (if e.target == n then Provided(e, schema) else {})
  {
    assert forall x :: x in edges + [e] <==> x in edges || x == e;
  }

  ghost predicate IsIncomingTable(incoming: map<string, set<string>>, edges: seq<Edge>, schema: Schema) {
    forall n: string :: (if n in incoming then incoming[n] else {}) == Incoming(edges, schema, n)
  }

  lemma TableGrows(was: map<string, set<string>>, edges: seq<Edge>, e: Edge, schema: Schema)
    requires IsIncomingTable(was, edges, schema)
    ensures var before := if e.target in was then was[e.target] else {};
      IsIncomingTable(was[e.target := before + Provided(e, schema)], edges + [e], schema)
  {
    var before := if e.target in was then was[e.target] else {};
    var now := was[e.target := before + Provided(e, schema)];
    forall n: string ensures (if n in now then now[n] else {}) == Incoming(edges + [e], schema, n) {
      IncomingGrows(edges, e, schema, n);
      assert (if n in was then was[n] else {}) == Incoming(edges, schema, n);
    }
  }

  /** The per-node sets of fields that arrive from upstream, built edge by edge. */
  method BuildNodeIncomingFields(edges: seq<Edge>, schema: Schema) returns (incoming: map<string, set<string>>)
    ensures IsIncomingTable(incoming, edges, schema)
  {
    incoming := map[];
    for i := 0 to |edges|
      invariant IsIncomingTable(incoming, edges[..i], schema)
    {
      ghost var was := incoming;
      var e := edges[i];
      assert edges[..i + 1] == edges[..i] + [e];
      var fields := {};
      if |e.mapping| == 0 {
        fields := OutputFields(schema);
      } else {
        fields := DestinationFields(e.mapping);
      }
      var before := if e.target in incoming then incoming[e.target] else {};
      incoming := incoming[e.target := before + fields];
      TableGrows(was, edges[..i], e, schema);
    }
    assert edges[..|edges|] == edges;
  }

  method OutputFields(schema: Schema) returns (fields: set<string>)
    ensures fields == set f | f in schema && schema[f].direction.Output?
  {
    fields := {};
    var rest := schema.Keys;
    while rest != {}
      invariant rest <= schema.Keys
      invariant fields == set f | f in schema && f !in rest && schema[f].direction.Output?
      decreases rest
    {
      var f :| f in rest;
      if schema[f].direction.Output? {
        fields := fields + {f};
      }
      rest := rest - {f};
    }
  }

  method DestinationFields(mapping: map<string, string>) returns (fields: set<string>)
    ensures fields == mapping.Values
  {
    fields := {};
    var rest := mapping.Keys;
    while rest != {}
      invariant rest <= mapping.Keys
      invariant fields == set f | f in mapping && f !in rest :: mapping[f]
      decreases rest
    {
      var f :| f in rest;
      fields := fields + {mapping[f]};
      rest := rest - {f};
    }
  }

  method CheckConditions(rule: Rule, schema: Schema, extra: set<string>) returns (ok: bool)
    ensures ok <==> ConditionsOk(rule, schema, extra)
  {
    for j := 0 to |rule.conditions|
      invariant forall k | 0 <= k < j :: ConditionOk(rule.conditions[k], schema, extra)
    {
      if !ConditionOk(rule.conditions[j], schema, extra) {
        return false;
      }
    }
    return true;
  }

  method CheckOutputs(rule: Rule, schema: Schema) returns (ok: bool)
    ensures ok <==> forall f | f in rule.outputs :: IsOutputField(f, schema)
  {
    var rest := rule.outputs.Keys;
    while rest != {}
      invariant rest <= rule.outputs.Keys
      invariant forall f | f in rule.outputs && f !in rest :: IsOutputField(f, schema)
      decreases rest
    {
      var f :| f in rest;
      if f !in schema || !schema[f].direction.Output? {
        return false;
      }
      rest := rest - {f};
    }
    return true;
  }

  method ValidateNode(node: RuleNode, schema: Schema, extra: set<string>) returns (ok: bool)
    ensures ok <==> StrictNode(node, schema, extra)
  {
    if !StrategyOk(node) {
      return false;
    }
    var seen: set<string> := {};
    for i := 0 to |node.rules|
      invariant RuleIdsOk(node.rules[..i])
      invariant seen == set r | r in node.rules[..i] :: r.id
      invariant forall k | 0 <= k < i :: ConditionsOk(node.rules[k], schema, extra) && RuleComplete(node.rules[k], schema)
    {
      var rule := node.rules[i];
      assert node.rules[..i + 1] == node.rules[..i] + [rule];
      if rule.id == "" {
        return false;
      }
      if rule.id in seen {
        var r :| r in node.rules[..i] && r.id == rule.id;
        return false;
      }
      seen := seen + {rule.id};
      if |rule.conditions| == 0 {
        return false;
      }
      var conditionsOk := CheckConditions(rule, schema, extra);
      if !conditionsOk {
        return false;
      }
      if |rule.outputs| == 0 {
        return false;
      }
      var outputsOk := CheckOutputs(rule, schema);
      if !outputsOk {
        return false;
      }
    }
    assert node.rules[..|node.rules|] == node.rules;
    return true;
  }

  method Validate(d: Program) returns (ok: bool)
    ensures ok <==> StrictlyValid(d)
  {
    if d.dslVersion != "v1" || |d.schema| == 0 || d.entry == "" || |d.nodes| == 0 {
      return false;
    }
    ok := CheckFields(d.schema);
    if !ok {
      return;
    }
    var ids;
    ok, ids := CheckNodeIds(d.nodes);
    if !ok {
      return;
    }
    if d.entry !in ids {
      return false;
    }
    ok := CheckEdges(d.edges, ids, d.schema);
    if !ok {
      return;
    }
    var incoming := BuildNodeIncomingFields(d.edges, d.schema);
    for i := 0 to |d.nodes|
      invariant forall k | 0 <= k < i :: StrictNode(d.nodes[k], d.schema, Incoming(d.edges, d.schema, d.nodes[k].id))
    {
      var n := d.nodes[i];
      ok := ValidateNode(n, d.schema, if n.id in incoming then incoming[n.id] else {});
      if !ok {
        return;
      }
    }
    return true;
  }

  ghost predicate DraftNodesOk(nodes: seq<RuleNode>) {
    NodeIdsOk(nodes) && forall k | 0 <= k < |nodes| :: StrategyOk(nodes[k]) && RuleIdsOk(nodes[k].rules)
  }

  method CheckDraftNodes(nodes: seq<RuleNode>) returns (ok: bool, ids: set<string>)
    ensures ok <==> DraftNodesOk(nodes)
    ensures ok ==> ids == NodeIds(nodes)
  {
    ids := {};
    for i := 0 to |nodes|
      invariant NodeIdsOk(nodes[..i])
      invariant ids == NodeIds(nodes[..i])
      invariant forall k | 0 <= k < i :: StrategyOk(nodes[k]) && RuleIdsOk(nodes[k].rules)
    {
      var n := nodes[i];
      assert nodes[..i + 1] == nodes[..i] + [n];
      if n.id == "" {
        return false, ids;
      }
      if n.id in ids {
        var twin :| twin in nodes[..i] && twin.id == n.id;
        return false, ids;
      }
      ids := ids + {n.id};
      if !StrategyOk(n) {
        return false, ids;
      }
      ok := CheckRuleIds(n.rules);
      if !ok {
        return;
      }
    }
    assert nodes[..|nodes|] == nodes;
    return true, ids;
  }

  method CheckDraftConditions(n: RuleNode, schema: Schema, extra: set<string>) returns (ok: bool)
    ensures ok <==> forall k | 0 <= k < |n.rules| :: ConditionsOk(n.rules[k], schema, extra)
  {
    for j := 0 to |n.rules|
      invariant forall k | 0 <= k < j :: ConditionsOk(n.rules[k], schema, extra)
    {
      ok := CheckConditions(n.rules[j], schema, extra);
      if !ok {
        return;
      }
    }
    return true;
  }

  method ValidateDraft(d: Program) returns (ok: bool)
    ensures ok <==> LenientlyValid(d)
  {
    if d.dslVersion != "v1" {
      return false;
    }
    ok := CheckFields(d.schema);
    if !ok {
      return;
    }
    var ids;
    ok, ids := CheckDraftNodes(d.nodes);
    if !ok {
      return;
    }
    if d.entry != "" && d.entry !in ids {
      return false;
    }
    ok := CheckEdges(d.edges, ids, d.schema);
    if !ok {
      return;
    }
    var incoming := BuildNodeIncomingFields(d.edges, d.schema);
    for i := 0 to |d.nodes|
      invariant forall k | 0 <= k < i :: LenientNode(d.nodes[k], d.schema, Incoming(d.edges, d.schema, d.nodes[k].id))
    {
      var n := d.nodes[i];
      ok := CheckDraftConditions(n, d.schema, if n.id in incoming then incoming[n.id] else {});
      if !ok {
        return;
      }
    }
    return true;
  }
}

/**
  What the static checks accept, said without them: through the evaluation of conditions and, for
  the rest, in full. Everything else proved about accepted programs takes acceptance as given.
  */
module Acceptance {
  import opened Wrappers
  import opened Values
  import opened Dsl
  import opened Conditions
  import opened TypeSoundness

  // ---------- Conditions ----------

  /** The edge writes the field into its target's facts: without a map any output field, with one a destination. */
  ghost predicate Writes(e: Edge, schema: Schema, field: string) {
    if e.mapping == map[] then field in schema && schema[field].direction.Output?
    else exists src :: src in e.mapping && e.mapping[src] == field
  }

  ghost predicate Arrives(edges: seq<Edge>, schema: Schema, node: string, field: string) {
    exists i :: 0 <= i < |edges| && edges[i].target == node && Writes(edges[i], schema, field)
  }

  ghost predicate AmongOptions(v: Value, options: seq<string>) {
    && (v.Text? ==> v.text in options)
    && (v.List? ==> forall i | 0 <= i < |v.items| :: v.items[i].Text? && v.items[i].text in options)
  }

  /** The condition's evaluation fails on no fact of the field's type. */
  ghost predicate NeverFails(cond: Condition, schema: Schema) {
    cond.field in schema &&
    forall node, rule, facts | Fits(schema[cond.field].kind, if cond.field in facts then facts[cond.field] else Null) ::
      EvalCondition(cond, node, rule, schema, facts).Ok?
  }

  ghost predicate Acceptable(cond: Condition, schema: Schema, edges: seq<Edge>, node: string) {
    && cond.field != "" && cond.field in schema
    && (schema[cond.field].direction.Input? || Arrives(edges, schema, node, cond.field))
    && !cond.value.Null?
    && (schema[cond.field].kind.EnumField? ==> AmongOptions(cond.value, schema[cond.field].options))
    && NeverFails(cond, schema)
  }

  lemma IncomingIff(edges: seq<Edge>, schema: Schema, node: string, field: string)
    ensures field in Incoming(edges, schema, node) <==> Arrives(edges, schema, node, field)
  {
    if field in Incoming(edges, schema, node) {
      var e :| e in edges && e.target == node && field in Provided(e, schema);
      var i :| 0 <= i < |edges| && edges[i] == e;
      assert Writes(edges[i], schema, field);
    }
    if i :| 0 <= i < |edges| && edges[i].target == node && Writes(edges[i], schema, field) {
      assert edges[i] in edges && field in Provided(edges[i], schema);
    }
  }

  lemma OperandIff(cond: Condition, schema: Schema)
    requires cond.field in schema
    ensures var fd := schema[cond.field];
      OpAllowed(fd.kind, cond.op) && OperandOk(cond, fd)
      <==> !cond.value.Null? && (fd.kind.EnumField? ==> AmongOptions(cond.value, fd.options)) && NeverFails(cond, schema)
  {
    var fd := schema[cond.field];
    if OpAllowed(fd.kind, cond.op) && OperandOk(cond, fd) {
      OperandNeverFails(cond, schema);
      if fd.kind.EnumField? && cond.op.In? {
        assert forall i | 0 <= i < |cond.value.items| :: cond.value.items[i] in cond.value.items;
      }
    }
    if !cond.value.Null? && (fd.kind.EnumField? ==> AmongOptions(cond.value, fd.options)) && NeverFails(cond, schema) {
      assert EvalCondition(cond, "", "", schema, map[]).Ok?;
    }
  }

  lemma OperandNeverFails(cond: Condition, schema: Schema)
    requires cond.field in schema && OpAllowed(schema[cond.field].kind, cond.op) && OperandOk(cond, schema[cond.field])
    ensures NeverFails(cond, schema)
  {
    forall node, rule, facts | Fits(schema[cond.field].kind, if cond.field in facts then facts[cond.field] else Null)
      ensures EvalCondition(cond, node, rule, schema, facts).Ok?
    {
      if schema[cond.field].kind.EnumField? && cond.op.In? {
        var raw := Fact(facts, cond.field);
        CheckedIn(if raw.Text? then raw.text else "", cond.value.items, schema[cond.field].options);
      }
    }
  }

  /**
    A condition is accepted at a node exactly when its field is named in the schema and is an input or
    written by some edge into the node, its operand is not null and for enums among the options, and
    its evaluation fails on no fact of the field's type.
    */
  lemma ConditionAcceptedIff(cond: Condition, schema: Schema, edges: seq<Edge>, node: string)
    ensures ConditionOk(cond, schema, Incoming(edges, schema, node)) <==> Acceptable(cond, schema, edges, node)
  {
    if cond.field in schema {
      IncomingIff(edges, schema, node, cond.field);
      OperandIff(cond, schema);
    }
  }

  // ---------- Fields ----------

  /** The value can be compared with every fact of the field's type. */
  ghost predicate Comparable(v: Value, fd: FieldDef) {
    && !v.Null? && (fd.kind.EnumField? ==> AmongOptions(v, fd.options))
    && NeverFails(Condition("f", Eq, v), map["f" := fd])
  }

  ghost predicate UsableField(fd: FieldDef) {
    (fd.direction.Input? || fd.direction.Output?) && exists v :: Comparable(v, fd)
  }

  /** A field is accepted exactly when its direction is known and some value can be compared with it. */
  lemma FieldAcceptedIff(fd: FieldDef)
    ensures FieldOk(fd) <==> UsableField(fd)
  {
    forall v ensures OperandOk(Condition("f", Eq, v), fd) && OpAllowed(fd.kind, Eq) <==> Comparable(v, fd) {
      OperandIff(Condition("f", Eq, v), map["f" := fd]);
    }
    if FieldOk(fd) {
      var v := match fd.kind
        case NumberField => Number(0.0)
        case StringField => Text("")
        case BooleanField => Bool(false)
        case EnumField => Text(fd.options[0])
        case OtherField(_) => Null;
      assert OperandOk(Condition("f", Eq, v), fd);
      assert Comparable(v, fd);
    }
  }

  // ---------- Whole programs ----------

  ghost predicate IsNode(d: Program, id: string) {
    exists i :: 0 <= i < |d.nodes| && d.nodes[i].id == id
  }

  ghost predicate GoodIds(ids: seq<string>) {
    (forall i | 0 <= i < |ids| :: ids[i] != "") && forall i, j | 0 <= i < |ids| && 0 <= j < |ids| && ids[i] == ids[j] :: i == j
  }

  function IdsOfNodes(nodes: seq<RuleNode>): seq<string> {
    seq(|nodes|, i requires 0 <= i < |nodes| => nodes[i].id)
  }

  function IdsOfRules(rules: seq<Rule>): seq<string> {
    seq(|rules|, i requires 0 <= i < |rules| => rules[i].id)
  }

  /** An edge joins two different nodes, and its map's destinations are fields. */
  ghost predicate Joins(d: Program, e: Edge) {
    && IsNode(d, e.source) && IsNode(d, e.target) && e.source != e.target
    && forall src | src in e.mapping :: e.mapping[src] in d.schema
  }

  ghost predicate SoundNode(d: Program, n: RuleNode) {
    && (n.strategy == FirstMatch || n.strategy == AllMatches)
    && GoodIds(IdsOfRules(n.rules))
    && forall i, j | 0 <= i < |n.rules| && 0 <= j < |n.rules[i].conditions| ::
         Acceptable(n.rules[i].conditions[j], d.schema, d.edges, n.id)
  }

  /** A sound draft. */
  ghost predicate Sound(d: Program) {
    && d.dslVersion == "v1"
    && (forall f | f in d.schema :: UsableField(d.schema[f]))
    && GoodIds(IdsOfNodes(d.nodes))
    && (d.entry != "" ==> IsNode(d, d.entry))
    && (forall i | 0 <= i < |d.edges| :: Joins(d, d.edges[i]))
    && (forall i | 0 <= i < |d.nodes| :: SoundNode(d, d.nodes[i]))
  }

  /** Nothing left to fill in: every rule tests something and writes output fields, and something. */
  ghost predicate Ready(d: Program) {
    && |d.schema| > 0 && d.entry != "" && |d.nodes| > 0
    && forall i, j | 0 <= i < |d.nodes| && 0 <= j < |d.nodes[i].rules| ::
         var r := d.nodes[i].rules[j];
         |r.conditions| > 0 && |r.outputs| > 0 && forall f | f in r.outputs :: f in d.schema && d.schema[f].direction == Output
  }

  lemma NodeSoundIff(d: Program, n: RuleNode)
    ensures LenientNode(n, d.schema, Incoming(d.edges, d.schema, n.id)) <==> SoundNode(d, n)
  {
    forall i, j | 0 <= i < |n.rules| && 0 <= j < |n.rules[i].conditions|
      ensures ConditionOk(n.rules[i].conditions[j], d.schema, Incoming(d.edges, d.schema, n.id))
         <==> Acceptable(n.rules[i].conditions[j], d.schema, d.edges, n.id)
    {
      ConditionAcceptedIff(n.rules[i].conditions[j], d.schema, d.edges, n.id);
    }
    RuleIdsIff(n.rules);
  }

  lemma RuleIdsIff(rules: seq<Rule>)
    ensures RuleIdsOk(rules) <==> GoodIds(IdsOfRules(rules))
  {
    var ids := IdsOfRules(rules);
    assert forall i | 0 <= i < |rules| :: ids[i] == rules[i].id;
  }

  lemma NodeIdsIff(nodes: seq<RuleNode>)
    ensures NodeIdsOk(nodes) <==> GoodIds(IdsOfNodes(nodes))
  {
    var ids := IdsOfNodes(nodes);
    assert forall i | 0 <= i < |nodes| :: ids[i] == nodes[i].id;
  }

  lemma FieldsIff(schema: Schema)
    ensures FieldsOk(schema) <==> forall f | f in schema :: UsableField(schema[f])
  {
    forall f | f in schema ensures FieldOk(schema[f]) <==> UsableField(schema[f]) {
      FieldAcceptedIff(schema[f]);
    }
  }

  /** Exactly the sound drafts may be saved. */
  lemma DraftAcceptedIff(d: Program)
    ensures LenientlyValid(d) <==> Sound(d)
  {
    FieldsIff(d.schema);
    NodeIdsIff(d.nodes);
    forall i | 0 <= i < |d.nodes|
      ensures LenientNode(d.nodes[i], d.schema, Incoming(d.edges, d.schema, d.nodes[i].id)) <==> SoundNode(d, d.nodes[i])
    {
      NodeSoundIff(d, d.nodes[i]);
    }
  }

  lemma ReadyIff(d: Program)
    ensures Complete(d) <==> Ready(d)
  {
    if Ready(d) {
      forall n, r | n in d.nodes && r in n.rules ensures RuleComplete(r, d.schema) {
        var i :| 0 <= i < |d.nodes| && d.nodes[i] == n;
        var j :| 0 <= j < |n.rules| && n.rules[j] == r;
        assert |d.nodes[i].rules[j].outputs| > 0;
      }
    }
    if Complete(d) {
      forall i, j | 0 <= i < |d.nodes| && 0 <= j < |d.nodes[i].rules| ensures RuleComplete(d.nodes[i].rules[j], d.schema) {
        assert d.nodes[i] in d.nodes && d.nodes[i].rules[j] in d.nodes[i].rules;
      }
    }
  }

  /** Exactly the sound drafts with nothing left to fill in may be published. */
  lemma ProgramAcceptedIff(d: Program)
    ensures StrictlyValid(d) <==> Sound(d) && Ready(d)
  {
    StrictIffLenientAndComplete(d);
    DraftAcceptedIff(d);
    ReadyIff(d);
  }

  // ---------- Adding a condition ----------

  function WithCondition(d: Program, i: nat, j: nat, cond: Condition): Program
    requires i < |d.nodes| && j < |d.nodes[i].rules|
  {
    var n := d.nodes[i];
    var r := n.rules[j];
    d.(nodes := d.nodes[i := n.(rules := n.rules[j := r.(conditions := r.conditions + [cond])])])
  }

  lemma NodesStaySound(d: Program, i: nat, j: nat, cond: Condition)
    requires i < |d.nodes| && j < |d.nodes[i].rules| && forall m | 0 <= m < |d.nodes| :: SoundNode(d, d.nodes[m])
    ensures var c := WithCondition(d, i, j, cond);
      (forall m | 0 <= m < |c.nodes| :: SoundNode(c, c.nodes[m])) <==> Acceptable(cond, d.schema, d.edges, d.nodes[i].id)
  {
    var c := WithCondition(d, i, j, cond);
    SameShape(d, i, j, cond);
    var conds := c.nodes[i].rules[j].conditions;
    assert conds[|conds| - 1] == cond;
    if forall m | 0 <= m < |c.nodes| :: SoundNode(c, c.nodes[m]) {
      assert SoundNode(c, c.nodes[i]);
    }
    if Acceptable(cond, d.schema, d.edges, d.nodes[i].id) {
      forall m | 0 <= m < |c.nodes| ensures SoundNode(c, c.nodes[m]) {
        assert SoundNode(d, d.nodes[m]);
      }
    }
  }

  /** A valid program with one more condition is valid exactly when the condition is acceptable at its node. */
  lemma ConditionMayBeAdded(d: Program, i: nat, j: nat, cond: Condition)
    requires StrictlyValid(d) && i < |d.nodes| && j < |d.nodes[i].rules|
    ensures StrictlyValid(WithCondition(d, i, j, cond)) <==> Acceptable(cond, d.schema, d.edges, d.nodes[i].id)
  {
    ProgramAcceptedIff(d);
    ProgramAcceptedIff(WithCondition(d, i, j, cond));
    SameShape(d, i, j, cond);
    NodesStaySound(d, i, j, cond);
  }

  lemma SameShape(d: Program, i: nat, j: nat, cond: Condition)
    requires i < |d.nodes| && j < |d.nodes[i].rules|
    ensures var c := WithCondition(d, i, j, cond);
      && IdsOfNodes(c.nodes) == IdsOfNodes(d.nodes)
      && (forall m | 0 <= m < |d.nodes| :: IdsOfRules(c.nodes[m].rules) == IdsOfRules(d.nodes[m].rules))
      && (forall id :: IsNode(c, id) <==> IsNode(d, id))
      && (Ready(d) ==> Ready(c))
      && ((forall k | 0 <= k < |d.edges| :: Joins(d, d.edges[k])) ==> forall k | 0 <= k < |c.edges| :: Joins(c, c.edges[k]))
  {
    var c := WithCondition(d, i, j, cond);
    forall id ensures IsNode(c, id) <==> IsNode(d, id) {
      if m :| 0 <= m < |d.nodes| && d.nodes[m].id == id {
        assert c.nodes[m].id == id;
      }
    }
  }
}

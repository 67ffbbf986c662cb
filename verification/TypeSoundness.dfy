/** What validation guarantees about the walk. */
module TypeSoundness {
  import opened Wrappers
  import opened Values
  import opened Dsl
  import opened Conditions
  import opened Graphs
  import opened Walk
  import opened Visits

  /** A fact of the wrong type, met by a condition that tests its field. */
  ghost predicate Misfit(schema: Schema, facts: Facts, e: EvalError) {
    && e.FactMismatch? && e.field in schema
    && e.fact == Fact(facts, e.field) && !Fits(schema[e.field].kind, e.fact)
  }

  // ---------- Validated tables fail only on ill-typed facts ----------

  lemma {:induction false} CheckedIn(fv: string, items: seq<Value>, options: seq<string>)
    requires forall v | v in items :: IsOption(v, options)
    ensures EvalIn(fv, items) == Ok(Text(fv) in items)
  {
    if items != [] {
      assert IsOption(items[0], options);
      CheckedIn(fv, items[1..], options);
    }
  }

  lemma CheckedCondition(cond: Condition, node: string, rule: string, schema: Schema, extra: set<string>, facts: Facts)
    requires ConditionOk(cond, schema, extra)
    ensures EvalCondition(cond, node, rule, schema, facts).Err?
       <==> !Fits(schema[cond.field].kind, Fact(facts, cond.field))
    ensures EvalCondition(cond, node, rule, schema, facts).Err?
        ==> EvalCondition(cond, node, rule, schema, facts).error == FactMismatch(cond.field, Fact(facts, cond.field))
  {
    if schema[cond.field].kind.EnumField? && cond.op.In? {
      var raw := Fact(facts, cond.field);
      CheckedIn(if raw.Text? then raw.text else "", cond.value.items, schema[cond.field].options);
    }
  }

  lemma {:induction false} CheckedConditions(conds: seq<Condition>, node: string, rule: string, schema: Schema, extra: set<string>, facts: Facts)
    requires forall j | 0 <= j < |conds| :: ConditionOk(conds[j], schema, extra)
    ensures var r := EvalConditions(conds, node, rule, schema, facts); r.Err? ==> Misfit(schema, facts, r.error) && exists c :: c in conds && c.field == r.error.field
  {
    if conds != [] {
      CheckedCondition(conds[0], node, rule, schema, extra, facts);
      CheckedConditions(conds[1..], node, rule, schema, extra, facts);
    }
  }

  lemma {:induction false} CheckedRules(node: string, rules: seq<Rule>, schema: Schema, extra: set<string>, facts: Facts)
    requires forall i | 0 <= i < |rules| :: ConditionsOk(rules[i], schema, extra)
    ensures var r := FirstMatching(node, rules, schema, facts); r.Err? ==> Misfit(schema, facts, r.error) && TestedBy(rules, r.error.field)
    ensures var r := AllMatching(node, rules, schema, facts); r.Err? ==> Misfit(schema, facts, r.error) && TestedBy(rules, r.error.field)
  {
    if rules != [] {
      CheckedConditions(rules[0].conditions, node, rules[0].id, schema, extra, facts);
      CheckedRules(node, rules[1..], schema, extra, facts);
      assert rules == [rules[0]] + rules[1..];
    }
  }

  lemma CheckedNode(d: Program, id: string, facts: Facts)
    requires StrictlyValid(d) && id in GraphOf(d).nodes
    ensures var r := NodeOutcome(GraphOf(d).nodes[id], d.schema, facts);
      r.Err? ==> Misfit(d.schema, facts, r.error) && Tests(GraphOf(d).nodes[id], r.error.field)
  {
    NodeIndexKeys(d.nodes);
    var node := GraphOf(d).nodes[id];
    var i :| 0 <= i < |d.nodes| && d.nodes[i] == node;
    assert StrictNode(d.nodes[i], d.schema, Incoming(d.edges, d.schema, node.id));
    CheckedRules(node.id, node.rules, d.schema, Incoming(d.edges, d.schema, node.id), facts);
  }

  lemma EdgesStayInside(d: Program, id: string, i: nat)
    requires StrictlyValid(d) && i < |GraphOf(d).Out(id)|
    ensures GraphOf(d).Out(id)[i].target in GraphOf(d).nodes
  {
    OutOfProgram(d, id);
    NodeIndexKeys(d.nodes);
    assert GraphOf(d).Out(id)[i] in d.edges;
    var k :| 0 <= k < |d.edges| && d.edges[k] == GraphOf(d).Out(id)[i];
    assert EdgeOk(d.edges[k], NodeIds(d.nodes), d.schema);
  }

  /**
    On any facts at all, a validated program stops with an error only because, at a node it reached,
    a condition tests a field whose fact there does not fit the field's type. In particular no type
    assertion fails and no node is missing.
    */
  lemma ValidatedRunErrors(d: Program, input: Facts, run: Run)
    requires StrictlyValid(d) && IsRun(GraphOf(d), d.entry, input, run) && Outcome(run).Err?
    ensures var g, at, e := GraphOf(d), StopOf(run, input), Outcome(run).error;
      && at.id in g.nodes && Reachable(g, d.entry, at.id)
      && NodeOutcome(g.nodes[at.id], d.schema, at.facts) == Err(e)
      && Misfit(d.schema, at.facts, e) && Tests(g.nodes[at.id], e.field)
  {
    var g := GraphOf(d);
    NodeIndexKeys(d.nodes);
    assert IsPath(g, d.entry, []) && End(g, d.entry, []) == d.entry;
    var inv: (string, Facts) -> bool := (m, _) => m in g.nodes && Reachable(g, d.entry, m);
    forall m, f, local, i, remap | inv(m, f) && Crosses(g, m, f, local, i, remap)
      ensures inv(g.Out(m)[i].target, f + local.output + remap)
    {
      EdgesStayInside(d, m, i);
      ReachableStep(g, d.entry, m, i);
    }
    InvariantAlongRun(g, inv, d.entry, input, run);
    CheckedNode(d, StopOf(run, input).id, StopOf(run, input).facts);
  }

  // ---------- Facts keep whatever the program's values and edges keep ----------

  /** A value a node can produce under a key: from a rule, or from its default. */
  ghost predicate Produces(node: RuleNode, k: string, v: Value) {
    || (exists r | r in node.rules :: k in r.outputs && r.outputs[k] == v)
    || (k in node.default && node.default[k] == v)
  }

  lemma OutputIsProduced(node: RuleNode, schema: Schema, facts: Facts, k: string)
    requires NodeOutcome(node, schema, facts).Ok? && k in NodeOutcome(node, schema, facts).value.output
    ensures Produces(node, k, NodeOutcome(node, schema, facts).value.output[k])
  {
    NodeOutcomeReport(node, schema, facts);
    var r := NodeOutcome(node, schema, facts).value;
    match node.strategy
    case FirstMatch =>
      if r.trace != [] && r.trace[|r.trace| - 1].matched {
        assert node.rules[|r.trace| - 1] in node.rules;
      }
    case AllMatches =>
      if exists i | 0 <= i < |node.rules| :: Matches(node.rules[i], node.id, schema, facts) {
        var i :| LastWriter(node.rules, node.id, schema, facts, k, i) && r.output[k] == node.rules[i].outputs[k];
        assert node.rules[i] in node.rules;
      }
    case OtherStrategy(_) =>
  }

  ghost predicate Holds(p: (string, Value) -> bool, facts: Facts) {
    forall f | f in facts :: p(f, facts[f])
  }

  /** Every value a node can produce satisfies `p` under its own key and wherever an edge carries it. */
  ghost predicate KeptBy(g: Graph, p: (string, Value) -> bool) {
    forall id, k, v | id in g.nodes && Produces(g.nodes[id], k, v) ::
      p(k, v) && forall i | 0 <= i < |g.Out(id)| && k in g.Out(id)[i].mapping :: p(g.Out(id)[i].mapping[k], v)
  }

  lemma KeptAcross(g: Graph, p: (string, Value) -> bool, id: string, facts: Facts, local: NodeResult, i: int, remap: Facts)
    requires KeptBy(g, p) && Holds(p, facts) && Crosses(g, id, facts, local, i, remap)
    ensures Holds(p, facts + local.output + remap)
  {
    forall k | k in local.output ensures Produces(g.nodes[id], k, local.output[k]) {
      OutputIsProduced(g.nodes[id], g.schema, facts, k);
    }
    var mapping := g.Out(id)[i].mapping;
    forall f | f in remap ensures p(f, remap[f]) {
      if mapping != map[] {
        var src :| CarriedFrom(mapping, local.output, f, remap[f], src);
        assert Produces(g.nodes[id], src, local.output[src]);
      }
    }
  }

  /** A property of single facts that input, values and edges respect holds of every fact map reached. */
  lemma FactsKeep(g: Graph, p: (string, Value) -> bool, id: string, input: Facts, run: Run)
    requires KeptBy(g, p) && Holds(p, input) && IsRun(g, id, input, run)
    ensures forall v | v in VisitsOf(run, input) :: Holds(p, v.facts)
    ensures Outcome(run).Err? ==> Holds(p, StopOf(run, input).facts) && FailsAt(g, StopOf(run, input), Outcome(run).error)
  {
    var inv: (string, Facts) -> bool := (_, f) => Holds(p, f);
    forall m, f, local, i, remap | inv(m, f) && Crosses(g, m, f, local, i, remap)
      ensures inv(g.Out(m)[i].target, f + local.output + remap)
    {
      KeptAcross(g, p, m, f, local, i, remap);
    }
    InvariantAlongRun(g, inv, id, input, run);
  }

  // ---------- Type soundness ----------

  ghost predicate FactFits(schema: Schema, f: string, v: Value) {
    f in schema ==> Fits(schema[f].kind, v)
  }

  ghost predicate WellTyped(schema: Schema, facts: Facts) {
    forall f | f in facts :: FactFits(schema, f, facts[f])
  }

  /** The rules' values, the defaults and what the edges carry fit the schema. */
  ghost predicate WellTypedProgram(d: Program) {
    forall id, k, v | id in GraphOf(d).nodes && Produces(GraphOf(d).nodes[id], k, v) ::
      && FactFits(d.schema, k, v)
      && forall i | 0 <= i < |GraphOf(d).Out(id)| && k in GraphOf(d).Out(id)[i].mapping ::
           FactFits(d.schema, GraphOf(d).Out(id)[i].mapping[k], v)
  }

  lemma TypedAcross(d: Program, id: string, facts: Facts, local: NodeResult, i: int, remap: Facts)
    requires WellTypedProgram(d) && WellTyped(d.schema, facts) && Crosses(GraphOf(d), id, facts, local, i, remap)
    ensures WellTyped(d.schema, facts + local.output + remap)
  {
    var p: (string, Value) -> bool := (f, v) => FactFits(d.schema, f, v);
    assert KeptBy(GraphOf(d), p);
    assert Holds(p, facts);
    KeptAcross(GraphOf(d), p, id, facts, local, i, remap);
    var after := facts + local.output + remap;
    forall f | f in after ensures FactFits(d.schema, f, after[f]) {
      assert p(f, after[f]);
    }
  }

  lemma TypedNode(d: Program, id: string, facts: Facts)
    requires StrictlyValid(d) && WellTyped(d.schema, facts) && id in GraphOf(d).nodes
    ensures NodeOutcome(GraphOf(d).nodes[id], d.schema, facts).Ok?
  {
    CheckedNode(d, id, facts);
    assert forall f | f in facts :: FactFits(d.schema, f, facts[f]);
  }

  /** Well-typed programs do not go wrong: no run on a well-typed input fails, and facts stay well typed. */
  lemma TypeSound(d: Program, input: Facts, run: Run)
    requires StrictlyValid(d) && WellTypedProgram(d) && WellTyped(d.schema, input)
    requires IsRun(GraphOf(d), d.entry, input, run)
    ensures Outcome(run).Ok?
    ensures forall v | v in VisitsOf(run, input) :: WellTyped(d.schema, v.facts)
  {
    var g := GraphOf(d);
    NodeIndexKeys(d.nodes);
    var inv: (string, Facts) -> bool := (m, f) => m in g.nodes && WellTyped(d.schema, f);
    forall m, f, local, i, remap | inv(m, f) && Crosses(g, m, f, local, i, remap)
      ensures inv(g.Out(m)[i].target, f + local.output + remap)
    {
      TypedAcross(d, m, f, local, i, remap);
      EdgesStayInside(d, m, i);
    }
    InvariantAlongRun(g, inv, d.entry, input, run);
    if Outcome(run).Err? {
      TypedNode(d, StopOf(run, input).id, StopOf(run, input).facts);
      assert false;
    }
  }

  // ---------- The static input analysis ----------

  ghost predicate DefaultsAreOutputs(d: Program) {
    forall n, k | n in d.nodes && k in n.default :: IsOutputField(k, d.schema)
  }

  lemma ProducedAreOutputs(d: Program, id: string, k: string, v: Value)
    requires StrictlyValid(d) && DefaultsAreOutputs(d)
    requires id in GraphOf(d).nodes && Produces(GraphOf(d).nodes[id], k, v)
    ensures IsOutputField(k, d.schema)
  {
    NodeIndexKeys(d.nodes);
    var node := GraphOf(d).nodes[id];
    var i :| 0 <= i < |d.nodes| && d.nodes[i] == node;
    assert StrictNode(d.nodes[i], d.schema, Incoming(d.edges, d.schema, node.id));
    if r :| r in node.rules && k in r.outputs && r.outputs[k] == v {
      var j :| 0 <= j < |node.rules| && node.rules[j] == r;
      assert RuleComplete(node.rules[j], d.schema);
    }
  }

  /** Whatever an edge carries into a node at run time is a field the static analysis foresees. */
  lemma CarriedIsForeseen(d: Program, id: string, facts: Facts, local: NodeResult, i: int, remap: Facts)
    requires StrictlyValid(d) && DefaultsAreOutputs(d) && Crosses(GraphOf(d), id, facts, local, i, remap)
    ensures remap.Keys <= Incoming(d.edges, d.schema, GraphOf(d).Out(id)[i].target)
  {
    var e := GraphOf(d).Out(id)[i];
    OutOfProgram(d, id);
    assert e in d.edges;
    forall f | f in remap ensures f in Provided(e, d.schema) {
      if e.mapping == map[] {
        OutputIsProduced(GraphOf(d).nodes[id], d.schema, facts, f);
        ProducedAreOutputs(d, id, f, local.output[f]);
      } else {
        var src :| CarriedFrom(e.mapping, local.output, f, remap[f], src);
        assert e.mapping[src] in e.mapping.Values;
      }
    }
  }

  /** Every edge a run takes carries only fields of its target's incoming set. */
  ghost predicate Foreseen(d: Program, run: Run)
    decreases run
  {
    run.Visited? ==>
      |run.branches| <= |GraphOf(d).Out(run.id)| &&
      forall i | 0 <= i < |run.branches| ::
        && run.branches[i].remap.Keys <= Incoming(d.edges, d.schema, GraphOf(d).Out(run.id)[i].target)
        && Foreseen(d, run.branches[i].run)
  }

  lemma {:induction false} AnalysisCoversRun(d: Program, id: string, facts: Facts, run: Run)
    requires StrictlyValid(d) && DefaultsAreOutputs(d) && IsRun(GraphOf(d), id, facts, run)
    ensures Foreseen(d, run)
    decreases run
  {
    if run.Visited? {
      forall i | 0 <= i < |run.branches|
        ensures run.branches[i].remap.Keys <= Incoming(d.edges, d.schema, GraphOf(d).Out(id)[i].target)
        ensures Foreseen(d, run.branches[i].run)
      {
        var b := run.branches[i];
        assert Crosses(GraphOf(d), id, facts, run.local, i, b.remap);
        CarriedIsForeseen(d, id, facts, run.local, i, b.remap);
        AnalysisCoversRun(d, GraphOf(d).Out(id)[i].target, facts + run.local.output + b.remap, b.run);
      }
    }
  }
}

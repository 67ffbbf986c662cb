/** Facts that no condition tests cannot influence the answer. */
module NonInterference {
  import opened Wrappers
  import opened Values
  import opened Dsl
  import opened Conditions
  import opened Graphs
  import opened Walk
  import opened Visits

  ghost predicate SeenAlike(schema: Schema, field: string, a: Facts, b: Facts) {
    field in schema ==> Read(schema[field].kind, Fact(a, field)) == Read(schema[field].kind, Fact(b, field))
  }

  ghost predicate TestedBelow(g: Graph, id: string, field: string) {
    exists m | m in g.nodes :: Reachable(g, id, m) && Tests(g.nodes[m], field)
  }

  ghost predicate AgreeOnTested(g: Graph, id: string, a: Facts, b: Facts) {
    forall field | TestedBelow(g, id, field) :: SeenAlike(g.schema, field, a, b)
  }

  lemma SameCondition(cond: Condition, node: string, rule: string, schema: Schema, a: Facts, b: Facts)
    requires SeenAlike(schema, cond.field, a, b)
    ensures EvalCondition(cond, node, rule, schema, a) == EvalCondition(cond, node, rule, schema, b)
  {
  }

  lemma {:induction false} SameConditions(conds: seq<Condition>, node: string, rule: string, schema: Schema, a: Facts, b: Facts)
    requires forall c | c in conds :: SeenAlike(schema, c.field, a, b)
    ensures EvalConditions(conds, node, rule, schema, a) == EvalConditions(conds, node, rule, schema, b)
  {
    if conds != [] {
      SameCondition(conds[0], node, rule, schema, a, b);
      SameConditions(conds[1..], node, rule, schema, a, b);
    }
  }

  lemma {:induction false} SameRules(node: string, rules: seq<Rule>, schema: Schema, a: Facts, b: Facts)
    requires forall r, c | r in rules && c in r.conditions :: SeenAlike(schema, c.field, a, b)
    ensures FirstMatching(node, rules, schema, a) == FirstMatching(node, rules, schema, b)
    ensures AllMatching(node, rules, schema, a) == AllMatching(node, rules, schema, b)
  {
    if rules != [] {
      SameConditions(rules[0].conditions, node, rules[0].id, schema, a, b);
      SameRules(node, rules[1..], schema, a, b);
    }
  }

  lemma SameNode(g: Graph, id: string, a: Facts, b: Facts)
    requires AgreeOnTested(g, id, a, b) && id in g.nodes
    ensures NodeOutcome(g.nodes[id], g.schema, a) == NodeOutcome(g.nodes[id], g.schema, b)
  {
    var node := g.nodes[id];
    assert IsPath(g, id, []) && End(g, id, []) == id;
    assert Reachable(g, id, id);
    forall r, c | r in node.rules && c in r.conditions ensures SeenAlike(g.schema, c.field, a, b) {
      assert Tests(node, c.field);
      assert TestedBelow(g, id, c.field);
    }
    SameRules(node.id, node.rules, g.schema, a, b);
  }

  lemma AgreeAcross(g: Graph, id: string, a: Facts, b: Facts, i: nat, output: Facts, remap: Facts)
    requires AgreeOnTested(g, id, a, b) && i < |g.Out(id)|
    ensures AgreeOnTested(g, g.Out(id)[i].target, a + output + remap, b + output + remap)
  {
    var t := g.Out(id)[i].target;
    forall field | TestedBelow(g, t, field) ensures SeenAlike(g.schema, field, a + output + remap, b + output + remap) {
      var m :| m in g.nodes && Reachable(g, t, m) && Tests(g.nodes[m], field);
      var p :| IsPath(g, t, p) && End(g, t, p) == m;
      PathVia(g, id, i, p);
      assert Reachable(g, id, m);
      assert TestedBelow(g, id, field);
    }
  }

  /**
    Inputs that look alike on every field tested at a reachable node have exactly the same runs,
    and so the same answers, traces and errors.
    */
  lemma {:induction false} UntestedFactsDoNotMatter(g: Graph, id: string, a: Facts, b: Facts, run: Run)
    requires AgreeOnTested(g, id, a, b)
    ensures IsRun(g, id, a, run) <==> IsRun(g, id, b, run)
    decreases run
  {
    if id in g.nodes {
      SameNode(g, id, a, b);
    }
    if run.Visited? && |run.branches| <= |g.Out(id)| {
      forall i | 0 <= i < |run.branches|
        ensures IsBranch(g, g.Out(id)[i], a + run.local.output, run.local.output, run.branches[i])
           <==> IsBranch(g, g.Out(id)[i], b + run.local.output, run.local.output, run.branches[i])
      {
        AgreeAcross(g, id, a, b, i, run.local.output, run.branches[i].remap);
        UntestedFactsDoNotMatter(g, g.Out(id)[i].target,
                                 a + run.local.output + run.branches[i].remap, b + run.local.output + run.branches[i].remap,
                                 run.branches[i].run);
      }
    }
  }
}

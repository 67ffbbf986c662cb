/** Where each value of an answer comes from, and what its trace says. */
module Provenance {
  import opened Wrappers
  import opened Values
  import opened Dsl
  import opened Conditions
  import opened Graphs
  import opened Walk
  import opened Visits

  ghost predicate Explains(visits: seq<Visit>, answer: NodeResult) {
    && (forall k | k in answer.output :: exists i :: LastVisitWriting(visits, k, i) && answer.output[k] == visits[i].local.output[k])
    && (forall i, k | 0 <= i < |visits| && k in visits[i].local.output :: k in answer.output)
    && answer.trace == Traced(visits)
  }

  ghost predicate NamesRule(g: Graph, v: Visit, e: Entry) {
    && v.id in g.nodes && e.nodeId == v.id
    && exists r | r in g.nodes[v.id].rules :: Records(e, v.id, r, g.schema, v.facts)
  }

  lemma EntriesNameRules(g: Graph, visits: seq<Visit>)
    requires forall v | v in visits :: v.id in g.nodes && g.nodes[v.id].id == v.id && NodeReport(g.nodes[v.id], g.schema, v.facts, v.local)
    ensures forall e | e in Traced(visits) :: exists v :: v in visits && NamesRule(g, v, e)
  {
    TracedMembers(visits);
    forall e | e in Traced(visits) ensures exists v :: v in visits && NamesRule(g, v, e) {
      var i :| 0 <= i < |visits| && e in visits[i].local.trace;
      VisitNamesRules(g, visits[i], e);
      assert visits[i] in visits;
    }
  }

  lemma VisitNamesRules(g: Graph, v: Visit, e: Entry)
    requires v.id in g.nodes && g.nodes[v.id].id == v.id && NodeReport(g.nodes[v.id], g.schema, v.facts, v.local)
    requires e in v.local.trace
    ensures NamesRule(g, v, e)
  {
    var node := g.nodes[v.id];
    var j :| 0 <= j < |v.local.trace| && v.local.trace[j] == e;
    assert node.rules[j] in node.rules;
    assert Records(e, v.id, node.rules[j], g.schema, v.facts);
  }

  /**
    Every value of the answer is the one the last visit writing its key wrote; every visit is to a
    reachable node and reports as that node's strategy says; and every trace entry names a rule of
    a visited node, flagged with whether all of the rule's conditions held there.
    */
  lemma AnswerIsExplained(d: Program, input: Facts, run: Run)
    requires IsRun(GraphOf(d), d.entry, input, run) && Outcome(run).Ok?
    ensures Explains(VisitsOf(run, input), Outcome(run).value)
    ensures forall v | v in VisitsOf(run, input) ::
      v.id in GraphOf(d).nodes && NodeReport(GraphOf(d).nodes[v.id], d.schema, v.facts, v.local) && Reachable(GraphOf(d), d.entry, v.id)
    ensures forall e | e in Outcome(run).value.trace :: exists v :: v in VisitsOf(run, input) && NamesRule(GraphOf(d), v, e)
  {
    var g, visits := GraphOf(d), VisitsOf(run, input);
    AnswerOfVisits(run, input);
    forall k | k in Written(visits)
      ensures exists i :: LastVisitWriting(visits, k, i) && Written(visits)[k] == visits[i].local.output[k]
    {
      WrittenByLast(visits, k);
    }
    forall i, k | 0 <= i < |visits| && k in visits[i].local.output ensures k in Written(visits) {
      WrittenKeys(visits, i, k);
    }
    VisitsAreReachable(g, d.entry, input, run);
    forall v | v in visits ensures NodeReport(g.nodes[v.id], d.schema, v.facts, v.local) {
      NodeOutcomeReport(g.nodes[v.id], d.schema, v.facts);
    }
    NodeIndexKeys(d.nodes);
    EntriesNameRules(g, visits);
  }
}

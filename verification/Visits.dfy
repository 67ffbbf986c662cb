/** The nodes a run evaluates, in walk order, and how to carry an invariant along every run. */
module Visits {
  import opened Wrappers
  import opened Values
  import opened Dsl
  import opened Conditions
  import opened Graphs
  import opened Walk

  /** A node evaluated without error, the facts it read and what it produced. */
  datatype Visit = Visit(id: string, facts: Facts, local: NodeResult)

  ghost function VisitsOf(run: Run, facts: Facts): seq<Visit>
    decreases run
  {
    if run.Visited? then [Visit(run.id, facts, run.local)] + ForkVisits(run.branches, facts + run.local.output) else []
  }

  ghost function ForkVisits(branches: seq<Branch>, facts: Facts): seq<Visit>
    decreases branches
  {
    if branches == [] then []
    else ForkVisits(branches[..|branches| - 1], facts) + BranchVisits(branches[|branches| - 1], facts)
  }

  ghost function BranchVisits(b: Branch, facts: Facts): seq<Visit>
    decreases b
  {
    VisitsOf(b.run, facts + b.remap)
  }

  lemma {:induction false} ForkVisitsMembers(branches: seq<Branch>, facts: Facts)
    ensures forall v :: v in ForkVisits(branches, facts) <==> exists i :: 0 <= i < |branches| && v in BranchVisits(branches[i], facts)
    decreases |branches|
  {
    if branches != [] {
      var init, last := branches[..|branches| - 1], branches[|branches| - 1];
      ForkVisitsMembers(init, facts);
      assert forall i | 0 <= i < |init| :: branches[i] == init[i];
      forall v ensures v in ForkVisits(branches, facts) <==> exists i :: 0 <= i < |branches| && v in BranchVisits(branches[i], facts) {
        if i :| 0 <= i < |branches| && v in BranchVisits(branches[i], facts) {
          assert i < |init| ==> v in BranchVisits(init[i], facts);
        }
        if v in ForkVisits(init, facts) {
          var i :| 0 <= i < |init| && v in BranchVisits(init[i], facts);
          assert v in BranchVisits(branches[i], facts);
        }
      }
    }
  }

  // ---------- Invariants of the walk ----------

  /** The walk can go from `id` with `facts` over its i-th out-edge, carrying `remap`. */
  ghost predicate Crosses(g: Graph, id: string, facts: Facts, local: NodeResult, i: int, remap: Facts) {
    && id in g.nodes && NodeOutcome(g.nodes[id], g.schema, facts) == Ok(local)
    && 0 <= i < |g.Out(id)| && Remaps(g.Out(id)[i].mapping, local.output, remap)
  }

  ghost predicate Inductive(g: Graph, inv: (string, Facts) -> bool) {
    forall id, facts, local, i, remap | inv(id, facts) && Crosses(g, id, facts, local, i, remap) ::
      inv(g.Out(id)[i].target, facts + local.output + remap)
  }

  /** Where a failing run stops, and the facts it has there. */
  datatype Stop = Stop(id: string, facts: Facts)

  ghost function StopOf(run: Run, facts: Facts): Stop
    decreases run
  {
    if run.Visited? && run.branches != [] then BranchStop(run.branches[|run.branches| - 1], facts + run.local.output)
    else Stop(run.id, facts)
  }

  ghost function BranchStop(b: Branch, facts: Facts): Stop
    decreases b
  {
    StopOf(b.run, facts + b.remap)
  }

  ghost predicate FailsAt(g: Graph, at: Stop, e: EvalError) {
    if at.id in g.nodes then NodeOutcome(g.nodes[at.id], g.schema, at.facts) == Err(e) else e == NodeNotFound(at.id)
  }

  /** What crossing an edge keeps holds at every visit, and where a failing run stops. */
  lemma {:induction false} InvariantAlongRun(g: Graph, inv: (string, Facts) -> bool, id: string, facts: Facts, run: Run)
    requires Inductive(g, inv) && inv(id, facts) && IsRun(g, id, facts, run)
    ensures forall v | v in VisitsOf(run, facts) ::
      && inv(v.id, v.facts) && v.id in g.nodes && NodeOutcome(g.nodes[v.id], g.schema, v.facts) == Ok(v.local)
    ensures Outcome(run).Err? ==>
      inv(StopOf(run, facts).id, StopOf(run, facts).facts) && FailsAt(g, StopOf(run, facts), Outcome(run).error)
    decreases run
  {
    if run.Visited? {
      var after, bs := facts + run.local.output, run.branches;
      forall i | 0 <= i < |bs|
        ensures forall v | v in BranchVisits(bs[i], after) ::
          && inv(v.id, v.facts) && v.id in g.nodes && NodeOutcome(g.nodes[v.id], g.schema, v.facts) == Ok(v.local)
        ensures Outcome(bs[i].run).Err? ==>
          inv(BranchStop(bs[i], after).id, BranchStop(bs[i], after).facts) && FailsAt(g, BranchStop(bs[i], after), Outcome(bs[i].run).error)
      {
        assert Crosses(g, id, facts, run.local, i, bs[i].remap);
        InvariantAlongBranch(g, inv, g.Out(id)[i], after, run.local.output, bs[i]);
      }
      ForkVisitsMembers(bs, after);
      LastError(run.local, bs, |g.Out(id)|);
    }
  }

  lemma {:induction false} InvariantAlongBranch(g: Graph, inv: (string, Facts) -> bool, e: Edge, facts: Facts, output: Facts, b: Branch)
    requires Inductive(g, inv) && inv(e.target, facts + b.remap) && IsBranch(g, e, facts, output, b)
    ensures forall v | v in BranchVisits(b, facts) ::
      && inv(v.id, v.facts) && v.id in g.nodes && NodeOutcome(g.nodes[v.id], g.schema, v.facts) == Ok(v.local)
    ensures Outcome(b.run).Err? ==>
      inv(BranchStop(b, facts).id, BranchStop(b, facts).facts) && FailsAt(g, BranchStop(b, facts), Outcome(b.run).error)
    decreases b
  {
    InvariantAlongRun(g, inv, e.target, facts + b.remap, b.run);
  }

  lemma {:induction false} FirstError(local: NodeResult, branches: seq<Branch>)
    ensures Merge(local, branches).Err? ==>
      exists i :: 0 <= i < |branches| && Outcome(branches[i].run) == Err(Merge(local, branches).error)
    decreases |branches|
  {
    if branches != [] {
      var n := |branches| - 1;
      FirstError(local, branches[..n]);
      if Merge(local, branches[..n]).Err? {
        var i :| 0 <= i < n && Outcome(branches[..n][i].run) == Err(Merge(local, branches[..n]).error);
        assert branches[..n][i] == branches[i];
      } else if Merge(local, branches).Err? {
        assert Outcome(branches[n].run) == Err(Merge(local, branches).error);
      }
    }
  }

  /** A fork's error is that of the last branch it took. */
  lemma LastError(local: NodeResult, branches: seq<Branch>, n: nat)
    requires Finished(branches, n)
    ensures Merge(local, branches).Err? ==>
      branches != [] && Outcome(branches[|branches| - 1].run) == Err(Merge(local, branches).error)
  {
    FirstError(local, branches);
  }

  ghost predicate Reachable(g: Graph, id: string, m: string) {
    exists p :: IsPath(g, id, p) && End(g, id, p) == m
  }

  lemma ReachableStep(g: Graph, id: string, m: string, i: nat)
    requires Reachable(g, id, m) && i < |g.Out(m)|
    ensures Reachable(g, id, g.Out(m)[i].target)
  {
    var p :| IsPath(g, id, p) && End(g, id, p) == m;
    PathVia(g, m, i, []);
    PathAppend(g, id, p, [i] + []);
  }

  /** Each visited node is one the edges lead to. */
  lemma VisitsAreReachable(g: Graph, id: string, facts: Facts, run: Run)
    requires IsRun(g, id, facts, run)
    ensures forall v | v in VisitsOf(run, facts) ::
      v.id in g.nodes && NodeOutcome(g.nodes[v.id], g.schema, v.facts) == Ok(v.local) && Reachable(g, id, v.id)
  {
    var inv: (string, Facts) -> bool := (m, _) => Reachable(g, id, m);
    forall m, f, local, i, remap | inv(m, f) && Crosses(g, m, f, local, i, remap)
      ensures inv(g.Out(m)[i].target, f + local.output + remap)
    {
      ReachableStep(g, id, m, i);
    }
    assert IsPath(g, id, []) && End(g, id, []) == id;
    InvariantAlongRun(g, inv, id, facts, run);
  }

  // ---------- The answer in terms of the visits ----------

  /** Writing the outputs one visit after the other, later writes winning. */
  ghost function Written(visits: seq<Visit>): Facts {
    if visits == [] then map[] else Written(visits[..|visits| - 1]) + visits[|visits| - 1].local.output
  }

  ghost function Traced(visits: seq<Visit>): seq<Entry> {
    if visits == [] then [] else Traced(visits[..|visits| - 1]) + visits[|visits| - 1].local.trace
  }

  lemma WrittenSnoc(a: seq<Visit>, v: Visit)
    ensures Written(a + [v]) == Written(a) + v.local.output && Traced(a + [v]) == Traced(a) + v.local.trace
  {
    assert (a + [v])[..|a|] == a;
  }

  /** One more visit on both sides of the equations below. */
  lemma OneMoreVisit(wa: Facts, wb: Facts, out: Facts, ta: seq<Entry>, tb: seq<Entry>, trace: seq<Entry>)
    ensures (wa + wb) + out == wa + (wb + out) && (ta + tb) + trace == ta + (tb + trace)
  {
  }

  lemma WrittenConcatSnoc(a: seq<Visit>, b: seq<Visit>, v: Visit)
    requires Written(a + b) == Written(a) + Written(b) && Traced(a + b) == Traced(a) + Traced(b)
    ensures Written((a + b) + [v]) == Written(a) + Written(b + [v]) && Traced((a + b) + [v]) == Traced(a) + Traced(b + [v])
  {
    WrittenSnoc(b, v);
    WrittenSnoc(a + b, v);
    OneMoreVisit(Written(a), Written(b), v.local.output, Traced(a), Traced(b), v.local.trace);
  }

  lemma {:induction false} WrittenConcat(a: seq<Visit>, b: seq<Visit>)
    ensures Written(a + b) == Written(a) + Written(b) && Traced(a + b) == Traced(a) + Traced(b)
    decreases |b|
  {
    if b == [] {
      assert a + b == a;
    } else {
      var init, last := b[..|b| - 1], b[|b| - 1];
      WrittenConcat(a, init);
      WrittenConcatSnoc(a, init, last);
      assert init + [last] == b && (a + init) + [last] == a + b;
    }
  }

  lemma {:induction false} AnswerOfVisits(run: Run, facts: Facts)
    requires Outcome(run).Ok?
    ensures Outcome(run) == Ok(NodeResult(Written(VisitsOf(run, facts)), Traced(VisitsOf(run, facts))))
    decreases run
  {
    var after := facts + run.local.output;
    AnswerOfFork(run.local, run.branches, after);
    var here := [Visit(run.id, facts, run.local)];
    assert here[..0] == [];
    assert Written(here) == map[] + run.local.output == run.local.output;
    assert Traced(here) == [] + run.local.trace == run.local.trace;
    WrittenConcat(here, ForkVisits(run.branches, after));
  }

  lemma {:induction false} AnswerOfFork(local: NodeResult, branches: seq<Branch>, facts: Facts)
    requires Merge(local, branches).Ok?
    ensures Merge(local, branches)
         == Append(local, Ok(NodeResult(Written(ForkVisits(branches, facts)), Traced(ForkVisits(branches, facts)))))
    decreases branches
  {
    if branches == [] {
      assert local.output + map[] == local.output && local.trace + [] == local.trace;
    } else {
      var n := |branches| - 1;
      AnswerOfFork(local, branches[..n], facts);
      AnswerOfBranch(branches[n], facts);
      WrittenConcat(ForkVisits(branches[..n], facts), BranchVisits(branches[n], facts));
      var sofar := NodeResult(Written(ForkVisits(branches[..n], facts)), Traced(ForkVisits(branches[..n], facts)));
      AppendAssociative(local, sofar, Outcome(branches[n].run));
    }
  }

  lemma {:induction false} AnswerOfBranch(b: Branch, facts: Facts)
    requires Outcome(b.run).Ok?
    ensures Outcome(b.run) == Ok(NodeResult(Written(BranchVisits(b, facts)), Traced(BranchVisits(b, facts))))
    decreases b
  {
    AnswerOfVisits(b.run, facts + b.remap);
  }

  ghost predicate LastVisitWriting(visits: seq<Visit>, k: string, i: int) {
    && 0 <= i < |visits| && k in visits[i].local.output
    && forall j | i < j < |visits| :: k !in visits[j].local.output
  }

  lemma {:induction false} WrittenByLast(visits: seq<Visit>, k: string)
    requires k in Written(visits)
    ensures exists i :: LastVisitWriting(visits, k, i) && Written(visits)[k] == visits[i].local.output[k]
  {
    var n := |visits| - 1;
    if k in visits[n].local.output {
      assert LastVisitWriting(visits, k, n);
    } else {
      WrittenByLast(visits[..n], k);
      var i :| LastVisitWriting(visits[..n], k, i) && Written(visits[..n])[k] == visits[..n][i].local.output[k];
      assert visits[..n][i] == visits[i];
      assert LastVisitWriting(visits, k, i);
    }
  }

  lemma {:induction false} WrittenKeys(visits: seq<Visit>, i: nat, k: string)
    requires i < |visits| && k in visits[i].local.output
    ensures k in Written(visits)
  {
    if i < |visits| - 1 {
      WrittenKeys(visits[..|visits| - 1], i, k);
    }
  }

  lemma {:induction false} TracedMembers(visits: seq<Visit>)
    ensures forall e :: e in Traced(visits) <==> exists i :: 0 <= i < |visits| && e in visits[i].local.trace
  {
    if visits != [] {
      TracedMembers(visits[..|visits| - 1]);
    }
  }
}

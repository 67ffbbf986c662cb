/** What the answer does not depend on: the listing order, and the order of a fork. */
module Order {
  import opened Wrappers
  import opened Values
  import opened Dsl
  import opened Conditions
  import opened Graphs
  import opened Walk
  import opened Visits
  import opened Termination

  // ---------- Listing order ----------

  /** The same nodes in any order, and the same edges with each source's own order kept. */
  ghost predicate SameUpToListing(d: Program, e: Program) {
    && d.schema == e.schema && d.entry == e.entry
    && NodeIdsOk(d.nodes) && multiset(d.nodes) == multiset(e.nodes)
    && forall s :: EdgesFrom(d.edges, s) == EdgesFrom(e.edges, s)
  }

  lemma SameNodeIndex(a: seq<RuleNode>, b: seq<RuleNode>)
    requires NodeIdsOk(a) && multiset(a) == multiset(b)
    ensures NodeIndex(a) == NodeIndex(b)
  {
    NodeIndexKeys(a);
    NodeIndexKeys(b);
    NodeIndexUnique(a);
    forall n ensures n in a <==> n in b {
      assert n in a <==> n in multiset(a);
      assert n in b <==> n in multiset(b);
    }
  }

  lemma SameEdgeIndex(a: seq<Edge>, b: seq<Edge>)
    requires forall s :: EdgesFrom(a, s) == EdgesFrom(b, s)
    ensures EdgeIndex(a) == EdgeIndex(b)
  {
    forall s ensures s in EdgeIndex(a) <==> s in EdgeIndex(b) {
      EdgesFromMembers(a, s);
      EdgesFromMembers(b, s);
      if x :| x in a && x.source == s {
        assert x in EdgesFrom(b, s);
      }
      if x :| x in b && x.source == s {
        assert x in EdgesFrom(a, s);
      }
    }
  }

  lemma ListingOrderIsIrrelevant(d: Program, e: Program, input: Facts, run: Run)
    requires SameUpToListing(d, e)
    ensures IsRun(GraphOf(d), d.entry, input, run) <==> IsRun(GraphOf(e), e.entry, input, run)
  {
    SameNodeIndex(d.nodes, e.nodes);
    SameEdgeIndex(d.edges, e.edges);
  }

  // ---------- The order of a fork ----------

  ghost predicate IsPermutation(p: seq<nat>, n: nat) {
    |p| == n && (forall i | 0 <= i < n :: p[i] < n) && Distinct(p)
  }

  ghost function Permute<T>(s: seq<T>, p: seq<nat>): seq<T>
    requires IsPermutation(p, |s|)
  {
    seq(|s|, i requires 0 <= i < |s| => s[p[i]])
  }

  ghost function Range(n: nat): (r: set<nat>)
    ensures forall i: nat :: i in r <==> i < n
    ensures |r| == n
  {
    if n == 0 then {} else Range(n - 1) + {n - 1}
  }

  lemma PermutationIsOnto(p: seq<nat>, n: nat, v: nat)
    requires IsPermutation(p, n) && v < n
    ensures exists i :: 0 <= i < n && p[i] == v
  {
    if v !in p {
      DistinctSize(p);
      SubsetSize(Elements(p), Range(n) - {v});
      assert false;
    }
  }

  lemma DropLargest(p: seq<nat>, n: nat, j: nat)
    requires IsPermutation(p, n + 1) && j <= n && p[j] == n
    ensures IsPermutation(p[..j] + p[j + 1..], n)
  {
    var rest := p[..j] + p[j + 1..];
    forall i | 0 <= i < n ensures rest[i] == p[if i < j then i else i + 1] && rest[i] < n {
    }
  }

  lemma PermuteSplit<T>(s: seq<T>, p: seq<nat>, n: nat, j: nat)
    requires |s| == n + 1 && IsPermutation(p, n + 1) && j <= n && p[j] == n
    requires IsPermutation(p[..j] + p[j + 1..], n)
    ensures var small := Permute(s[..n], p[..j] + p[j + 1..]);
      Permute(s, p) == small[..j] + [s[n]] + small[j..]
  {
    var rest := p[..j] + p[j + 1..];
    var whole, small := Permute(s, p), Permute(s[..n], rest);
    forall i | 0 <= i <= n ensures whole[i] == (small[..j] + [s[n]] + small[j..])[i] {
      if i < j {
        assert small[i] == s[..n][rest[i]] == s[p[i]];
      } else if i > j {
        assert small[i - 1] == s[..n][rest[i - 1]] == s[p[i]];
      }
    }
  }

  lemma InsertedCounts<T>(s: seq<T>, j: nat, x: T)
    requires j <= |s|
    ensures multiset(s[..j] + [x] + s[j..]) == multiset(s) + multiset{x}
  {
    assert s == s[..j] + s[j..];
  }

  lemma {:induction false} PermuteKeepsMultiset<T>(s: seq<T>, p: seq<nat>)
    requires IsPermutation(p, |s|)
    ensures multiset(Permute(s, p)) == multiset(s)
    decreases |s|
  {
    if s != [] {
      var n := |s| - 1;
      PermutationIsOnto(p, |s|, n);
      var j :| 0 <= j < |s| && p[j] == n;
      var rest := p[..j] + p[j + 1..];
      DropLargest(p, n, j);
      PermuteKeepsMultiset(s[..n], rest);
      PermuteSplit(s, p, n, j);
      InsertedCounts(Permute(s[..n], rest), j, s[n]);
      assert s == s[..n] + [s[n]];
    }
  }

  lemma ForkVisitsSnoc(init: seq<Branch>, last: Branch, facts: Facts)
    ensures ForkVisits(init + [last], facts) == ForkVisits(init, facts) + BranchVisits(last, facts)
  {
    assert (init + [last])[..|init|] == init;
  }

  lemma DropThenSnoc<T>(s: seq<T>, j: nat)
    requires j < |s| - 1
    ensures var init := s[..|s| - 1];
      s[..j] + s[j + 1..] == (init[..j] + init[j + 1..]) + [s[|s| - 1]]
  {
    var init := s[..|s| - 1];
    assert s[..j] == init[..j] && s[j + 1..] == init[j + 1..] + [s[|s| - 1]];
  }

  lemma {:induction false} ForkVisitsRemove(branches: seq<Branch>, facts: Facts, j: nat)
    requires j < |branches|
    ensures multiset(ForkVisits(branches, facts))
         == multiset(ForkVisits(branches[..j] + branches[j + 1..], facts)) + multiset(BranchVisits(branches[j], facts))
    decreases |branches|
  {
    var init, last := branches[..|branches| - 1], branches[|branches| - 1];
    assert branches == init + [last];
    ForkVisitsSnoc(init, last, facts);
    if j == |init| {
      assert branches[..j] + branches[j + 1..] == init;
    } else {
      ForkVisitsRemove(init, facts, j);
      var rest := init[..j] + init[j + 1..];
      DropThenSnoc(branches, j);
      ForkVisitsSnoc(rest, last, facts);
    }
  }

  lemma DropFromBoth<T>(a: seq<T>, b: seq<T>, j: nat)
    requires multiset(a) == multiset(b) && a != [] && j < |b| && b[j] == a[|a| - 1]
    ensures multiset(a[..|a| - 1]) == multiset(b[..j] + b[j + 1..])
  {
    assert a == a[..|a| - 1] + [a[|a| - 1]];
    assert b == b[..j] + [b[j]] + b[j + 1..];
    assert multiset(a[..|a| - 1]) == multiset(a) - multiset{b[j]};
    assert multiset(b[..j] + b[j + 1..]) == multiset(b) - multiset{b[j]};
  }

  lemma {:induction false} ForkVisitsReordered(a: seq<Branch>, b: seq<Branch>, facts: Facts)
    requires multiset(a) == multiset(b)
    ensures multiset(ForkVisits(a, facts)) == multiset(ForkVisits(b, facts))
    decreases |a|
  {
    if a == [] {
      assert |multiset(b)| == 0;
      assert b == [];
    } else {
      var n := |a| - 1;
      assert a[n] in multiset(a);
      var j :| 0 <= j < |b| && b[j] == a[n];
      DropFromBoth(a, b, j);
      ForkVisitsReordered(a[..n], b[..j] + b[j + 1..], facts);
      ForkVisitsRemove(b, facts, j);
    }
  }

  ghost predicate Gives(b: Branch, k: string) {
    Outcome(b.run).Ok? && k in Outcome(b.run).value.output
  }

  ghost predicate DisjointBranches(branches: seq<Branch>) {
    forall i, j, k | 0 <= i < j < |branches| && Gives(branches[i], k) :: !Gives(branches[j], k)
  }

  ghost predicate AllOk(branches: seq<Branch>) {
    forall i | 0 <= i < |branches| :: Outcome(branches[i].run).Ok?
  }

  /** Disjoint branches make the merge a union: each key is found where it was written. */
  lemma {:induction false} MergeOfDisjoint(local: NodeResult, branches: seq<Branch>, k: string)
    requires AllOk(branches) && DisjointBranches(branches)
    ensures Merge(local, branches).Ok?
    ensures k in Merge(local, branches).value.output <==> k in local.output || exists i :: 0 <= i < |branches| && Gives(branches[i], k)
    ensures forall i | 0 <= i < |branches| && Gives(branches[i], k) ::
      Merge(local, branches).value.output[k] == Outcome(branches[i].run).value.output[k]
    ensures (forall i | 0 <= i < |branches| :: !Gives(branches[i], k)) && k in local.output ==>
      Merge(local, branches).value.output[k] == local.output[k]
    decreases |branches|
  {
    MergeOk(local, branches);
    if branches != [] {
      var n := |branches| - 1;
      MergeOfDisjoint(local, branches[..n], k);
      assert forall i | 0 <= i < n :: branches[..n][i] == branches[i];
    }
  }

  /** `b` is `a` rearranged, up to the runs behind the outputs. */
  ghost predicate Rearranged(a: seq<Branch>, b: seq<Branch>, p: seq<nat>) {
    && IsPermutation(p, |a|) && |a| == |b| && AllOk(a) && AllOk(b)
    && forall i | 0 <= i < |a| :: Outcome(b[i].run).value.output == Outcome(a[p[i]].run).value.output
  }

  lemma RearrangedDisjoint(a: seq<Branch>, b: seq<Branch>, p: seq<nat>)
    requires Rearranged(a, b, p) && DisjointBranches(a)
    ensures DisjointBranches(b)
  {
    forall i, j, k | 0 <= i < j < |b| && Gives(b[i], k) ensures !Gives(b[j], k) {
      assert Gives(a[p[i]], k) && p[i] != p[j];
    }
  }

  ghost predicate SameAt(a: Facts, b: Facts, k: string) {
    (k in a <==> k in b) && (k in a ==> a[k] == b[k])
  }

  lemma SameEverywhere(a: Facts, b: Facts)
    requires forall k :: SameAt(a, b, k)
    ensures a == b
  {
    assert forall k :: k in a ==> SameAt(a, b, k);
    assert forall k :: k in b ==> SameAt(a, b, k);
  }

  lemma RearrangedLookup(local: NodeResult, a: seq<Branch>, b: seq<Branch>, p: seq<nat>, k: string)
    requires Rearranged(a, b, p) && DisjointBranches(a) && DisjointBranches(b)
    ensures Merge(local, a).Ok? && Merge(local, b).Ok?
    ensures SameAt(Merge(local, a).value.output, Merge(local, b).value.output, k)
  {
    MergeOfDisjoint(local, a, k);
    MergeOfDisjoint(local, b, k);
    if v :| 0 <= v < |a| && Gives(a[v], k) {
      PermutationIsOnto(p, |a|, v);
      var i :| 0 <= i < |a| && p[i] == v;
      assert Gives(b[i], k);
    }
    if i :| 0 <= i < |b| && Gives(b[i], k) {
      assert Gives(a[p[i]], k);
    }
  }

  /** Corresponding branches that give the same outputs merge to the same output, in any order. */
  lemma MergeReordered(local: NodeResult, a: seq<Branch>, b: seq<Branch>, p: seq<nat>)
    requires Rearranged(a, b, p) && DisjointBranches(a)
    ensures Merge(local, a).Ok? && Merge(local, b).Ok? && Merge(local, a).value.output == Merge(local, b).value.output
  {
    RearrangedDisjoint(a, b, p);
    MergeOk(local, a);
    MergeOk(local, b);
    var ma, mb := Merge(local, a).value.output, Merge(local, b).value.output;
    forall k ensures SameAt(ma, mb, k) {
      RearrangedLookup(local, a, b, p, k);
    }
    SameEverywhere(ma, mb);
  }

  lemma {:induction false} MergePointwise(local: NodeResult, a: seq<Branch>, b: seq<Branch>)
    requires |a| == |b| && AllOk(a) && AllOk(b)
    requires forall i | 0 <= i < |a| :: Outcome(b[i].run).value.output == Outcome(a[i].run).value.output
    ensures Merge(local, a).Ok? && Merge(local, b).Ok? && Merge(local, a).value.output == Merge(local, b).value.output
    decreases |a|
  {
    MergeOk(local, a);
    MergeOk(local, b);
    if a != [] {
      MergePointwise(local, a[..|a| - 1], b[..|b| - 1]);
    }
  }

  lemma {:induction false} ForkVisitsPointwise(a: seq<Branch>, b: seq<Branch>, facts: Facts)
    requires |a| == |b|
    requires forall i | 0 <= i < |a| :: multiset(BranchVisits(a[i], facts)) == multiset(BranchVisits(b[i], facts))
    ensures multiset(ForkVisits(a, facts)) == multiset(ForkVisits(b, facts))
    decreases |a|
  {
    if a != [] {
      ForkVisitsPointwise(a[..|a| - 1], b[..|b| - 1], facts);
    }
  }

  ghost function ReorderFork(g: Graph, n: string, p: seq<nat>): Graph
    requires IsPermutation(p, |g.Out(n)|)
  {
    g.(edges := g.edges[n := Permute(g.Out(n), p)])
  }

  /** At every visit to `n` the branches write disjoint keys. */
  ghost predicate DisjointAt(run: Run, n: string)
    decreases run
  {
    run.Visited? ==>
      && (run.id == n ==> DisjointBranches(run.branches))
      && forall i | 0 <= i < |run.branches| :: DisjointAt(run.branches[i].run, n)
  }

  ghost function Reorder(run: Run, n: string, p: seq<nat>): Run
    decreases run
  {
    if !run.Visited? then run
    else
      var each := seq(|run.branches|, i requires 0 <= i < |run.branches| =>
        Branch(run.branches[i].remap, Reorder(run.branches[i].run, n, p)));
      Visited(run.id, run.local, if run.id == n && IsPermutation(p, |each|) then Permute(each, p) else each)
  }

  ghost function ReorderEach(branches: seq<Branch>, n: string, p: seq<nat>): (r: seq<Branch>)
    ensures |r| == |branches|
    ensures forall i | 0 <= i < |r| :: r[i] == Branch(branches[i].remap, Reorder(branches[i].run, n, p))
  {
    seq(|branches|, i requires 0 <= i < |branches| => Branch(branches[i].remap, Reorder(branches[i].run, n, p)))
  }

  /** The branches of a visit, each of them already reordered inside. */
  ghost predicate InsideReordered(g: Graph, id: string, facts: Facts, run: Run, n: string, p: seq<nat>, each: seq<Branch>)
    requires IsPermutation(p, |g.Out(n)|)
  {
    && run.Visited? && IsRun(g, id, facts, run) && AllOk(run.branches) && |each| == |run.branches| && AllOk(each)
    && forall i | 0 <= i < |each| ::
         && IsBranch(ReorderFork(g, n, p), g.Out(id)[i], facts + run.local.output, run.local.output, each[i])
         && Outcome(each[i].run).value.output == Outcome(run.branches[i].run).value.output
  }

  lemma ReorderAtFork(g: Graph, n: string, facts: Facts, run: Run, p: seq<nat>, each: seq<Branch>)
    requires IsPermutation(p, |g.Out(n)|) && InsideReordered(g, n, facts, run, n, p, each)
    requires DisjointBranches(run.branches)
    ensures IsPermutation(p, |each|)
    ensures var moved := Visited(n, run.local, Permute(each, p));
      && IsRun(ReorderFork(g, n, p), n, facts, moved)
      && Outcome(run).Ok? && Outcome(moved).Ok? && Outcome(moved).value.output == Outcome(run).value.output
  {
    var h, moved := ReorderFork(g, n, p), Permute(each, p);
    assert forall i | 0 <= i < |moved| :: moved[i] == each[p[i]];
    assert h.Out(n) == Permute(g.Out(n), p);
    assert forall i | 0 <= i < |moved| :: IsBranch(h, h.Out(n)[i], facts + run.local.output, run.local.output, moved[i]);
    assert Rearranged(run.branches, moved, p);
    MergeReordered(run.local, run.branches, moved, p);
  }

  lemma ReorderElsewhere(g: Graph, id: string, facts: Facts, run: Run, n: string, p: seq<nat>, each: seq<Branch>)
    requires IsPermutation(p, |g.Out(n)|) && id != n && InsideReordered(g, id, facts, run, n, p, each)
    ensures var moved := Visited(id, run.local, each);
      && IsRun(ReorderFork(g, n, p), id, facts, moved)
      && Outcome(run).Ok? && Outcome(moved).Ok? && Outcome(moved).value.output == Outcome(run).value.output
  {
    assert ReorderFork(g, n, p).Out(id) == g.Out(id);
    MergePointwise(run.local, run.branches, each);
  }

  /**
    Permuting the out-edges of one node turns each error-free run whose branches at that node write
    disjoint keys into a run with the same output and the same visits, each with the same facts,
    output and trace, in another order.
    */
  lemma {:induction false} ForkOrderOnlyMovesVisits(g: Graph, id: string, facts: Facts, run: Run, n: string, p: seq<nat>)
    requires IsPermutation(p, |g.Out(n)|) && IsRun(g, id, facts, run) && Outcome(run).Ok? && DisjointAt(run, n)
    ensures IsRun(ReorderFork(g, n, p), id, facts, Reorder(run, n, p))
    ensures Outcome(Reorder(run, n, p)).Ok?
    ensures Outcome(Reorder(run, n, p)).value.output == Outcome(run).value.output
    ensures multiset(VisitsOf(Reorder(run, n, p), facts)) == multiset(VisitsOf(run, facts))
    decreases run
  {
    var after, bs, each := facts + run.local.output, run.branches, ReorderEach(run.branches, n, p);
    MergeOk(run.local, bs);
    forall i | 0 <= i < |bs|
      ensures IsBranch(ReorderFork(g, n, p), g.Out(id)[i], after, run.local.output, each[i])
      ensures Outcome(each[i].run).Ok? && Outcome(each[i].run).value.output == Outcome(bs[i].run).value.output
      ensures multiset(BranchVisits(each[i], after)) == multiset(BranchVisits(bs[i], after))
    {
      assert IsBranch(g, g.Out(id)[i], after, run.local.output, bs[i]);
      ForkOrderOnlyMovesVisits(g, g.Out(id)[i].target, after + bs[i].remap, bs[i].run, n, p);
    }
    ForkVisitsPointwise(each, bs, after);
    if id == n {
      ReorderAtFork(g, n, facts, run, p, each);
      PermuteKeepsMultiset(each, p);
      ForkVisitsReordered(Permute(each, p), each, after);
    } else {
      ReorderElsewhere(g, id, facts, run, n, p, each);
    }
  }
}

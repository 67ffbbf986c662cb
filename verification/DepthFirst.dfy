/**
  Runs described without their recursion: an error-free run visits the edge-paths from its entry in
  depth-first order, and the facts of each visit are those of the visit before it on its path, under
  what that visit wrote, under what the edge between them carried.
  */
module DepthFirst {
  import opened Wrappers
  import opened Values
  import opened Dsl
  import opened Conditions
  import opened Graphs
  import opened Walk
  import opened Visits
  import opened Termination

  // ---------- What an edge carries ----------

  /** Without a map a field keeps its name; with one, only mapped fields go over, under their destination. */
  predicate Lands(mapping: map<string, string>, src: string, dest: string) {
    if |mapping| == 0 then src == dest else src in mapping && mapping[src] == dest
  }

  ghost predicate CarriesExactly(mapping: map<string, string>, output: Facts, remap: Facts) {
    && (forall dest | dest in remap :: exists src :: src in output && Lands(mapping, src, dest) && output[src] == remap[dest])
    && (forall src, dest | src in output && Lands(mapping, src, dest) :: dest in remap)
  }

  lemma RemapsIff(mapping: map<string, string>, output: Facts, remap: Facts)
    ensures Remaps(mapping, output, remap) <==> CarriesExactly(mapping, output, remap)
  {
    if mapping == map[] {
      if CarriesExactly(mapping, output, remap) {
        forall k ensures k in remap <==> k in output {
          assert Lands(mapping, k, k);
        }
      } else if remap == output {
        assert forall dest | dest in remap :: Lands(mapping, dest, dest);
      }
    } else {
      if Remaps(mapping, output, remap) {
        forall dest | dest in remap ensures exists src :: src in output && Lands(mapping, src, dest) && output[src] == remap[dest] {
          var src :| CarriedFrom(mapping, output, dest, remap[dest], src);
          assert Lands(mapping, src, dest);
        }
      }
      if CarriesExactly(mapping, output, remap) {
        forall dest | dest in remap ensures exists src :: CarriedFrom(mapping, output, dest, remap[dest], src) {
          var src :| src in output && Lands(mapping, src, dest) && output[src] == remap[dest];
          assert CarriedFrom(mapping, output, dest, remap[dest], src);
        }
        forall dest ensures dest in remap <==> dest in Carried(mapping, output) {
          if src :| src in mapping && src in output && mapping[src] == dest {
            assert Lands(mapping, src, dest);
          }
        }
      }
    }
  }

  // ---------- The visit at the end of a path ----------

  /** Every step of the path is a branch that the run took. */
  ghost predicate Taken(run: Run, p: seq<nat>)
    decreases p
  {
    run.Visited? && (p != [] ==> p[0] < |run.branches| && Taken(run.branches[p[0]].run, p[1..]))
  }

  ghost function VisitAt(run: Run, facts: Facts, p: seq<nat>): Visit
    requires Taken(run, p)
    decreases p
  {
    if p == [] then Visit(run.id, facts, run.local)
    else VisitAt(run.branches[p[0]].run, facts + run.local.output + run.branches[p[0]].remap, p[1..])
  }

  /** The later facts: what was carried, else what was written, else what was there before. */
  ghost predicate Overlays(before: Facts, written: Facts, carried: Facts, after: Facts) {
    forall f ::
      && (f in after <==> f in carried || f in written || f in before)
      && (f in after ==> after[f] == if f in carried then carried[f] else if f in written then written[f] else before[f])
  }

  ghost predicate HandsOn(g: Graph, u: Visit, i: nat, v: Visit) {
    && i < |g.Out(u.id)| && v.id == g.Out(u.id)[i].target
    && exists carried :: CarriesExactly(g.Out(u.id)[i].mapping, u.local.output, carried) && Overlays(u.facts, u.local.output, carried, v.facts)
  }

  lemma RunStartsAt(g: Graph, id: string, facts: Facts, run: Run)
    requires IsRun(g, id, facts, run)
    ensures run.id == id
  {
  }

  lemma FirstStepHandsOn(g: Graph, id: string, facts: Facts, run: Run, i: nat)
    requires IsRun(g, id, facts, run) && Taken(run, [i])
    ensures HandsOn(g, VisitAt(run, facts, []), i, VisitAt(run, facts, [i]))
  {
    assert [i][0] == i && [i][1..] == [];
    var b := run.branches[i];
    var after := facts + run.local.output + b.remap;
    assert IsBranch(g, g.Out(id)[i], facts + run.local.output, run.local.output, b);
    RunStartsAt(g, g.Out(id)[i].target, after, b.run);
    assert Taken(b.run, []);
    assert VisitAt(run, facts, [i]) == VisitAt(b.run, after, []) == Visit(b.run.id, after, b.run.local);
    RemapsIff(g.Out(id)[i].mapping, run.local.output, b.remap);
    assert Overlays(facts, run.local.output, b.remap, after);
  }

  /** A visit and the next one on a path: the second starts from what the first had, wrote and sent over the edge. */
  lemma {:induction false} FactsAreHandedOn(g: Graph, id: string, facts: Facts, run: Run, p: seq<nat>, i: nat)
    requires IsRun(g, id, facts, run) && Taken(run, p + [i])
    ensures Taken(run, p) && HandsOn(g, VisitAt(run, facts, p), i, VisitAt(run, facts, p + [i]))
    decreases p
  {
    if p == [] {
      assert p + [i] == [i];
      FirstStepHandsOn(g, id, facts, run, i);
    } else {
      assert (p + [i])[1..] == p[1..] + [i];
      var b := run.branches[p[0]];
      assert IsBranch(g, g.Out(id)[p[0]], facts + run.local.output, run.local.output, b);
      FactsAreHandedOn(g, g.Out(id)[p[0]].target, facts + run.local.output + b.remap, b.run, p[1..], i);
    }
  }

  // ---------- Depth-first order ----------

  ghost predicate TurnsEarlier(p: seq<nat>, q: seq<nat>, i: int) {
    0 <= i < |p| && i < |q| && p[..i] == q[..i] && p[i] < q[i]
  }

  /** One path is a proper start of the other, or takes an earlier edge where they part. */
  ghost predicate Earlier(p: seq<nat>, q: seq<nat>) {
    (p <= q && |p| < |q|) || exists i :: TurnsEarlier(p, q, i)
  }

  ghost predicate DepthFirstOrder(paths: seq<seq<nat>>) {
    forall i, j | 0 <= i < j < |paths| :: Earlier(paths[i], paths[j])
  }

  lemma UnderKeepsOrder(k: nat, paths: seq<seq<nat>>)
    requires DepthFirstOrder(paths)
    ensures DepthFirstOrder(Under(k, paths))
  {
    forall i, j | 0 <= i < j < |paths| ensures Earlier(Under(k, paths)[i], Under(k, paths)[j]) {
      var p, q := paths[i], paths[j];
      assert Earlier(p, q);
      if m :| TurnsEarlier(p, q, m) {
        assert ([k] + p)[..m + 1] == [k] + p[..m] && ([k] + q)[..m + 1] == [k] + q[..m];
        assert TurnsEarlier([k] + p, [k] + q, m + 1);
      } else {
        assert [k] + p <= [k] + q;
      }
    }
  }

  lemma {:induction false} ForkIsDepthFirst(branches: seq<Branch>)
    requires forall i | 0 <= i < |branches| :: DepthFirstOrder(AddressesOf(branches[i]))
    ensures DepthFirstOrder(BelowFork(branches))
    ensures forall i | 0 <= i < |BelowFork(branches)| :: BelowFork(branches)[i] != [] && BelowFork(branches)[i][0] < |branches|
    decreases |branches|
  {
    if branches != [] {
      var n := |branches| - 1;
      var before, last := BelowFork(branches[..n]), Under(n, AddressesOf(branches[n]));
      ForkIsDepthFirst(branches[..n]);
      UnderKeepsOrder(n, AddressesOf(branches[n]));
      forall i, j | 0 <= i < |before| && 0 <= j < |last| ensures Earlier(before[i], last[j]) {
        assert before[i][..0] == last[j][..0];
        assert TurnsEarlier(before[i], last[j], 0);
      }
    }
  }

  lemma {:induction false} AddressesAreDepthFirst(run: Run)
    ensures DepthFirstOrder(Addresses(run))
    decreases run
  {
    if run.Visited? {
      forall i | 0 <= i < |run.branches| ensures DepthFirstOrder(AddressesOf(run.branches[i])) {
        BranchAddressesAreDepthFirst(run.branches[i]);
      }
      ForkIsDepthFirst(run.branches);
    }
  }

  lemma {:induction false} BranchAddressesAreDepthFirst(b: Branch)
    ensures DepthFirstOrder(AddressesOf(b))
    decreases b
  {
    AddressesAreDepthFirst(b.run);
  }

  // ---------- Visits and paths ----------

  ghost predicate Matched(visits: seq<Visit>, paths: seq<seq<nat>>, run: Run, facts: Facts) {
    && |visits| == |paths|
    && forall i | 0 <= i < |paths| :: Taken(run, paths[i]) && visits[i] == VisitAt(run, facts, paths[i])
  }

  /** The visits below a fork and the paths through it, through the first n branches. */
  lemma {:induction false} ForkMatched(run: Run, facts: Facts, n: nat)
    requires run.Visited? && n <= |run.branches|
    requires forall k | 0 <= k < |run.branches| ::
      Matched(BranchVisits(run.branches[k], facts + run.local.output), AddressesOf(run.branches[k]),
              run.branches[k].run, facts + run.local.output + run.branches[k].remap)
    ensures Matched(ForkVisits(run.branches[..n], facts + run.local.output), BelowFork(run.branches[..n]), run, facts)
  {
    if n > 0 {
      var some, b := run.branches[..n], run.branches[n - 1];
      assert some[..n - 1] == run.branches[..n - 1] && some[n - 1] == b;
      ForkMatched(run, facts, n - 1);
    }
  }

  lemma {:induction false} VisitsAreMatched(run: Run, facts: Facts)
    requires Outcome(run).Ok?
    ensures Matched(VisitsOf(run, facts), Addresses(run), run, facts)
    decreases run
  {
    MergeOk(run.local, run.branches);
    forall k | 0 <= k < |run.branches|
      ensures Matched(BranchVisits(run.branches[k], facts + run.local.output), AddressesOf(run.branches[k]),
                      run.branches[k].run, facts + run.local.output + run.branches[k].remap)
    {
      BranchIsMatched(run.branches[k], facts + run.local.output);
    }
    ForkMatched(run, facts, |run.branches|);
    assert run.branches[..|run.branches|] == run.branches;
  }

  lemma {:induction false} BranchIsMatched(b: Branch, facts: Facts)
    requires Outcome(b.run).Ok?
    ensures Matched(BranchVisits(b, facts), AddressesOf(b), b.run, facts + b.remap)
    decreases b
  {
    VisitsAreMatched(b.run, facts + b.remap);
  }

  lemma {:induction false} VisitAtEnd(g: Graph, id: string, facts: Facts, run: Run, p: seq<nat>)
    requires IsRun(g, id, facts, run) && Taken(run, p)
    ensures IsPath(g, id, p) && VisitAt(run, facts, p).id == End(g, id, p)
    decreases p
  {
    if p != [] {
      var b := run.branches[p[0]];
      assert IsBranch(g, g.Out(id)[p[0]], facts + run.local.output, run.local.output, b);
      VisitAtEnd(g, g.Out(id)[p[0]].target, facts + run.local.output + b.remap, b.run, p[1..]);
      assert [p[0]] + p[1..] == p;
      PathVia(g, id, p[0], p[1..]);
    }
  }

  /** The paths of a run's visits, in walk order. */
  ghost predicate Follows(g: Graph, id: string, facts: Facts, visits: seq<Visit>, paths: seq<seq<nat>>) {
    && |visits| == |paths| && DepthFirstOrder(paths)
    && (forall p :: p in paths <==> IsPath(g, id, p))
    && (forall i | 0 <= i < |paths| :: visits[i].id == End(g, id, paths[i]))
    && (forall i | 0 <= i < |paths| && paths[i] == [] :: visits[i].facts == facts)
    && (forall i, j, k: nat | 0 <= i < |paths| && 0 <= j < |paths| && paths[j] == paths[i] + [k] :: HandsOn(g, visits[i], k, visits[j]))
  }

  /**
    An error-free run's visits are those of all the edge-paths from its start, in depth-first order,
    beginning with the input facts and each handing its facts on to the next along every edge.
    */
  lemma RunIsDepthFirst(g: Graph, id: string, facts: Facts, run: Run)
    requires IsRun(g, id, facts, run) && Outcome(run).Ok?
    ensures exists paths :: Follows(g, id, facts, VisitsOf(run, facts), paths)
  {
    var visits, paths := VisitsOf(run, facts), Addresses(run);
    EveryPathOnce(g, id, facts, run);
    AddressesAreDepthFirst(run);
    VisitsAreMatched(run, facts);
    forall i | 0 <= i < |paths| ensures visits[i].id == End(g, id, paths[i]) {
      VisitAtEnd(g, id, facts, run, paths[i]);
    }
    forall i, j, k: nat | 0 <= i < |paths| && 0 <= j < |paths| && paths[j] == paths[i] + [k] ensures HandsOn(g, visits[i], k, visits[j]) {
      FactsAreHandedOn(g, id, facts, run, paths[i], k);
    }
    assert Follows(g, id, facts, visits, paths);
  }
}

/** When the walk ends, and how many nodes it evaluates. */
module Termination {
  import opened Wrappers
  import opened Values
  import opened Dsl
  import opened Conditions
  import opened Graphs
  import opened Walk

  // ---------- A run visits every edge-path once ----------

  ghost function Under(i: nat, addresses: seq<seq<nat>>): seq<seq<nat>> {
    seq(|addresses|, k requires 0 <= k < |addresses| => [i] + addresses[k])
  }

  /** The choices of edges that lead to each node evaluated, in walk order. */
  ghost function Addresses(run: Run): seq<seq<nat>>
    decreases run
  {
    if run.Visited? then [[]] + BelowFork(run.branches) else []
  }

  ghost function BelowFork(branches: seq<Branch>): seq<seq<nat>>
    decreases branches
  {
    if branches == [] then []
    else BelowFork(branches[..|branches| - 1]) + Under(|branches| - 1, AddressesOf(branches[|branches| - 1]))
  }

  ghost function AddressesOf(b: Branch): seq<seq<nat>>
    decreases b
  {
    Addresses(b.run)
  }

  ghost predicate Distinct<T>(s: seq<T>) {
    forall i, j | 0 <= i < j < |s| :: s[i] != s[j]
  }

  ghost predicate StartsBelow(p: seq<nat>, n: nat) {
    p != [] && p[0] < n
  }

  lemma UnderMembers(i: nat, s: seq<seq<nat>>)
    ensures forall p :: p in Under(i, s) <==> p != [] && p[0] == i && p[1..] in s
    ensures Distinct(s) ==> Distinct(Under(i, s))
  {
    forall p ensures p in Under(i, s) <==> p != [] && p[0] == i && p[1..] in s {
      if p in Under(i, s) {
        var k :| 0 <= k < |s| && Under(i, s)[k] == p;
        assert p[1..] == s[k];
      }
      if p != [] && p[0] == i && p[1..] in s {
        var k :| 0 <= k < |s| && s[k] == p[1..];
        assert p == [i] + p[1..];
        assert Under(i, s)[k] == p;
      }
    }
    forall a, b | 0 <= a < b < |s| && Distinct(s) ensures Under(i, s)[a] != Under(i, s)[b] {
      assert Under(i, s)[a][1..] == s[a] && Under(i, s)[b][1..] == s[b];
    }
  }

  lemma DistinctConcat<T>(a: seq<T>, b: seq<T>)
    requires Distinct(a) && Distinct(b) && forall x | x in a :: x !in b
    ensures Distinct(a + b)
  {
    forall i, j | 0 <= i < j < |a + b| ensures (a + b)[i] != (a + b)[j] {
      if i < |a| <= j {
        assert a[i] in a && b[j - |a|] in b;
      }
    }
  }

  lemma {:induction false} BelowForkMembers(branches: seq<Branch>)
    requires forall i | 0 <= i < |branches| :: Distinct(Addresses(branches[i].run))
    ensures forall p :: p in BelowFork(branches) <==> StartsBelow(p, |branches|) && p[1..] in Addresses(branches[p[0]].run)
    ensures Distinct(BelowFork(branches))
    decreases |branches|
  {
    if branches != [] {
      var n := |branches| - 1;
      BelowForkMembers(branches[..n]);
      UnderMembers(n, Addresses(branches[n].run));
      DistinctConcat(BelowFork(branches[..n]), Under(n, Addresses(branches[n].run)));
    }
  }

  /** An error-free run evaluates a node for each edge-path from where it starts, and only once. */
  lemma {:induction false} EveryPathOnce(g: Graph, id: string, facts: Facts, run: Run)
    requires IsRun(g, id, facts, run) && Outcome(run).Ok?
    ensures Distinct(Addresses(run))
    ensures forall p :: p in Addresses(run) <==> IsPath(g, id, p)
    decreases run
  {
    var bs := run.branches;
    MergeOk(run.local, bs);
    forall i | 0 <= i < |bs|
      ensures Distinct(Addresses(bs[i].run))
      ensures forall p :: p in Addresses(bs[i].run) <==> IsPath(g, g.Out(id)[i].target, p)
    {
      BranchPathOnce(g, g.Out(id)[i], facts + run.local.output, run.local.output, bs[i]);
    }
    BelowForkMembers(bs);
    assert Distinct(Addresses(run)) by {
      forall i, j | 0 <= i < j < |Addresses(run)| ensures Addresses(run)[i] != Addresses(run)[j] {
        assert Addresses(run)[j] in BelowFork(bs);
      }
    }
  }

  lemma {:induction false} BranchPathOnce(g: Graph, e: Edge, facts: Facts, output: Facts, b: Branch)
    requires IsBranch(g, e, facts, output, b) && Outcome(b.run).Ok?
    ensures Distinct(Addresses(b.run))
    ensures forall p :: p in Addresses(b.run) <==> IsPath(g, e.target, p)
    decreases b
  {
    EveryPathOnce(g, e.target, facts + b.remap, b.run);
  }

  lemma {:induction false} MergeOk(local: NodeResult, branches: seq<Branch>)
    ensures Merge(local, branches).Ok? <==> forall i | 0 <= i < |branches| :: Outcome(branches[i].run).Ok?
    decreases |branches|
  {
    if branches != [] {
      MergeOk(local, branches[..|branches| - 1]);
    }
  }

  // ---------- Counting ----------

  lemma {:induction false} ForkIterationsCount(branches: seq<Branch>)
    requires forall i | 0 <= i < |branches| :: Iterations(branches[i].run) == |Addresses(branches[i].run)|
    ensures ForkIterations(branches) == |BelowFork(branches)|
    decreases |branches|
  {
    if branches != [] {
      ForkIterationsCount(branches[..|branches| - 1]);
    }
  }

  lemma {:induction false} IterationsAreAddresses(run: Run)
    requires Outcome(run).Ok?
    ensures Iterations(run) == |Addresses(run)|
    decreases run
  {
    MergeOk(run.local, run.branches);
    forall i | 0 <= i < |run.branches| ensures Iterations(run.branches[i].run) == |Addresses(run.branches[i].run)| {
      BranchIterationsAreAddresses(run.branches[i]);
    }
    ForkIterationsCount(run.branches);
  }

  lemma {:induction false} BranchIterationsAreAddresses(b: Branch)
    requires Outcome(b.run).Ok?
    ensures Iterations(b.run) == |Addresses(b.run)|
    decreases b
  {
    IterationsAreAddresses(b.run);
  }

  ghost function Elements<T>(s: seq<T>): set<T> {
    set x | x in s
  }

  lemma {:induction false} DistinctSize<T>(s: seq<T>)
    requires Distinct(s)
    ensures |Elements(s)| == |s|
  {
    if s != [] {
      var init, last := s[..|s| - 1], s[|s| - 1];
      DistinctSize(init);
      assert s == init + [last];
      assert Elements(s) == Elements(init) + {last};
      assert last !in Elements(init);
    }
  }

  /** An error-free run loops exactly as often as there are edge-paths. */
  lemma IterationsCountPaths(g: Graph, id: string, facts: Facts, run: Run)
    requires IsRun(g, id, facts, run) && Outcome(run).Ok?
    ensures exists paths: set<seq<nat>> :: (forall p :: p in paths <==> IsPath(g, id, p)) && |paths| == Iterations(run)
  {
    EveryPathOnce(g, id, facts, run);
    IterationsAreAddresses(run);
    DistinctSize(Addresses(run));
    var paths := Elements(Addresses(run));
    assert forall p :: p in paths <==> IsPath(g, id, p);
  }

  // ---------- Existence ----------

  lemma SomeRemap(mapping: map<string, string>, output: Facts) returns (remap: Facts)
    ensures Remaps(mapping, output, remap)
  {
    if mapping == map[] {
      remap := output;
    } else {
      remap := map dest | dest in Carried(mapping, output) :: output[SourceOf(mapping, output, dest)];
      forall dest | dest in remap ensures exists src :: CarriedFrom(mapping, output, dest, remap[dest], src) {
        assert CarriedFrom(mapping, output, dest, remap[dest], SourceOf(mapping, output, dest));
      }
    }
  }

  ghost function SourceOf(mapping: map<string, string>, output: Facts, dest: string): (src: string)
    requires dest in Carried(mapping, output)
    ensures src in mapping && src in output && mapping[src] == dest
  {
    var src :| src in mapping && src in output && mapping[src] == dest;
    src
  }

  /** A walk that ends has a run, also one that begins with given branches. */
  lemma {:induction false} EndingWalkHasRun(g: Graph, id: string, facts: Facts, depth: nat)
    requires EndsWithin(g, id, facts, depth)
    ensures exists run :: IsRun(g, id, facts, run)
    decreases depth, 1, 0
  {
    if id !in g.nodes {
      assert IsRun(g, id, facts, Missing(id));
    } else {
      match NodeOutcome(g.nodes[id], g.schema, facts)
      case Err(e) => assert IsRun(g, id, facts, Failed(id, e));
      case Ok(local) =>
        var branches := CompleteRun(g, id, facts, depth, local, []);
    }
  }

  lemma {:induction false} CompleteRun(g: Graph, id: string, facts: Facts, depth: nat, local: NodeResult, prefix: seq<Branch>)
    returns (branches: seq<Branch>)
    requires EndsWithin(g, id, facts, depth)
    requires id in g.nodes && NodeOutcome(g.nodes[id], g.schema, facts) == Ok(local)
    requires Passed(g, id, facts + local.output, local.output, prefix)
    ensures prefix <= branches && IsRun(g, id, facts, Visited(id, local, branches))
    decreases depth, 0, |g.Out(id)| - |prefix|
  {
    var after, n := facts + local.output, |prefix|;
    if n == |g.Out(id)| {
      return prefix;
    }
    var e := g.Out(id)[n];
    var remap := SomeRemap(e.mapping, local.output);
    EndsAlongEdge(g, id, facts, depth, local, prefix, remap);
    EndingWalkHasRun(g, e.target, after + remap, depth - 1);
    var run :| IsRun(g, e.target, after + remap, run);
    branches := prefix + [Branch(remap, run)];
    assert IsBranch(g, e, after, local.output, Branch(remap, run));
    if Outcome(run).Ok? {
      branches := CompleteRun(g, id, facts, depth, local, branches);
    }
  }

  /** On an acyclic graph no way is longer than the nodes ahead, whatever the facts. */
  lemma {:induction false} AcyclicEndsWithin(g: Graph, id: string, facts: Facts, depth: nat)
    requires AcyclicFrom(g, id) && Rank(g, id) < depth
    ensures EndsWithin(g, id, facts, depth)
    decreases depth
  {
    if id in g.nodes && NodeOutcome(g.nodes[id], g.schema, facts).Ok? {
      var local := NodeOutcome(g.nodes[id], g.schema, facts).value;
      forall branches, remap | CanCross(g, id, facts + local.output, local.output, branches, remap)
        ensures EndsWithin(g, g.Out(id)[|branches|].target, facts + local.output + remap, depth - 1)
      {
        AcyclicStep(g, id, |branches|);
        RankDrops(g, id, |branches|);
        AcyclicEndsWithin(g, g.Out(id)[|branches|].target, facts + local.output + remap, depth - 1);
      }
    }
  }

  /** The walk of an acyclic graph ends, whatever the facts, and has a run. */
  lemma AcyclicEnds(g: Graph, id: string, facts: Facts)
    requires AcyclicFrom(g, id)
    ensures Ends(g, id, facts) && exists run :: IsRun(g, id, facts, run)
  {
    AcyclicEndsWithin(g, id, facts, Rank(g, id) + 1);
    EndingWalkHasRun(g, id, facts, Rank(g, id) + 1);
  }

  // ---------- Only acyclic graphs let an error-free walk end ----------

  lemma {:induction false} BelowForkBounded(branches: seq<Branch>, p: seq<nat>)
    requires forall i, q | 0 <= i < |branches| && q in Addresses(branches[i].run) :: |q| < Iterations(branches[i].run)
    requires p in BelowFork(branches)
    ensures |p| <= ForkIterations(branches)
    decreases |branches|
  {
    var n := |branches| - 1;
    if p in BelowFork(branches[..n]) {
      BelowForkBounded(branches[..n], p);
    } else {
      UnderMembers(n, Addresses(branches[n].run));
      assert p[1..] in Addresses(branches[n].run);
    }
  }

  lemma {:induction false} AddressesBounded(run: Run, p: seq<nat>)
    requires p in Addresses(run)
    ensures |p| < Iterations(run)
    decreases run
  {
    if p in BelowFork(run.branches) {
      forall i, q | 0 <= i < |run.branches| && q in Addresses(run.branches[i].run) ensures |q| < Iterations(run.branches[i].run) {
        BranchAddressesBounded(run.branches[i], q);
      }
      BelowForkBounded(run.branches, p);
    }
  }

  lemma {:induction false} BranchAddressesBounded(b: Branch, p: seq<nat>)
    requires p in Addresses(b.run)
    ensures |p| < Iterations(b.run)
    decreases b
  {
    AddressesBounded(b.run, p);
  }

  /** Going round a cycle as often as one likes gives a path as long as one likes. */
  lemma {:induction false} Laps(g: Graph, id: string, q: seq<nat>, k: nat) returns (p: seq<nat>)
    requires IsCycle(g, id, q)
    ensures IsPath(g, id, p) && End(g, id, p) == id && |p| >= k
  {
    p := [];
    if k > 0 {
      p := Laps(g, id, q, k - 1);
      PathAppend(g, id, p, q);
      p := p + q;
    }
  }

  lemma ErrorFreeRunMeansAcyclic(g: Graph, id: string, facts: Facts, run: Run)
    requires IsRun(g, id, facts, run) && Outcome(run).Ok?
    ensures AcyclicFrom(g, id)
  {
    forall p, q | IsPath(g, id, p) ensures !IsCycle(g, End(g, id, p), q) {
      if IsCycle(g, End(g, id, p), q) {
        var laps := Laps(g, End(g, id, p), q, Iterations(run));
        PathAppend(g, id, p, laps);
        EveryPathOnce(g, id, facts, run);
        AddressesBounded(run, p + laps);
        assert false;
      }
    }
  }

  // ---------- Chains ----------

  ghost predicate IsChain(g: Graph) {
    forall id :: |g.Out(id)| <= 1
  }

  lemma {:induction false} ChainIterations(g: Graph, id: string, facts: Facts, run: Run)
    requires IsChain(g) && AcyclicFrom(g, id) && IsRun(g, id, facts, run)
    ensures Iterations(run) <= Rank(g, id) + 1
    decreases run
  {
    if run.Visited? && run.branches != [] {
      var b := run.branches[0];
      assert IsBranch(g, g.Out(id)[0], facts + run.local.output, run.local.output, b);
      AcyclicStep(g, id, 0);
      RankDrops(g, id, 0);
      assert run.branches == [b];
      ChainBranchIterations(g, g.Out(id)[0], facts + run.local.output, run.local.output, b);
      assert ForkIterations(run.branches) == ForkIterations([]) + Iterations(b.run);
    }
  }

  lemma {:induction false} ChainBranchIterations(g: Graph, e: Edge, facts: Facts, output: Facts, b: Branch)
    requires IsChain(g) && AcyclicFrom(g, e.target) && IsBranch(g, e, facts, output, b)
    ensures Iterations(b.run) <= Rank(g, e.target) + 1
    decreases b
  {
    ChainIterations(g, e.target, facts + b.remap, b.run);
  }

  lemma {:induction false} NodeIdsSize(nodes: seq<RuleNode>)
    ensures |NodeIds(nodes)| <= |nodes|
  {
    if nodes != [] {
      NodeIdsSize(nodes[..|nodes| - 1]);
      assert nodes == nodes[..|nodes| - 1] + [nodes[|nodes| - 1]];
      assert NodeIds(nodes) == NodeIds(nodes[..|nodes| - 1]) + {nodes[|nodes| - 1].id};
    }
  }

  /** Without forks the loop turns at most once per node of the program. */
  lemma ChainsAreLinear(d: Program, facts: Facts, run: Run)
    requires StrictlyValid(d) && IsChain(GraphOf(d)) && AcyclicFrom(GraphOf(d), d.entry)
    requires IsRun(GraphOf(d), d.entry, facts, run)
    ensures Iterations(run) <= |d.nodes|
  {
    var g := GraphOf(d);
    ChainIterations(g, d.entry, facts, run);
    forall m | m in Below(g, d.entry) ensures m in NodeIds(d.nodes) - {d.entry} {
      var s, i :| s in g.edges && 0 <= i < |g.edges[s]| && g.edges[s][i].target == m;
      OutOfProgram(d, s);
      assert g.Out(s)[i] in d.edges;
      var p :| ReachedBy(g, d.entry, m, p);
      if m == d.entry {
        assert IsPath(g, d.entry, []) && IsCycle(g, End(g, d.entry, []), p);
      }
    }
    SubsetSize(Below(g, d.entry), NodeIds(d.nodes) - {d.entry});
    NodeIdsSize(d.nodes);
  }
}

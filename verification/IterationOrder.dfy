/** When the iteration order of edge maps, which the runtime leaves open, can show in a run. */
module IterationOrder {
  import opened Wrappers
  import opened Values
  import opened Dsl
  import opened Conditions
  import opened Graphs
  import opened Walk
  import opened Termination

  ghost predicate Injective(mapping: map<string, string>) {
    forall a, b | a in mapping && b in mapping && mapping[a] == mapping[b] :: a == b
  }

  /** Two produced fields sent to one destination carry the same value. */
  ghost predicate NoConflict(mapping: map<string, string>, output: Facts) {
    forall a, b | a in mapping && b in mapping && a in output && b in output && mapping[a] == mapping[b] :: output[a] == output[b]
  }

  /** Iteration order can show through one edge exactly when two sources give a destination different values. */
  lemma RemapIsUniqueIff(mapping: map<string, string>, output: Facts)
    ensures (forall r, s | Remaps(mapping, output, r) && Remaps(mapping, output, s) :: r == s) <==> NoConflict(mapping, output)
  {
    if NoConflict(mapping, output) {
      forall r, s | Remaps(mapping, output, r) && Remaps(mapping, output, s) ensures r == s {
        if mapping != map[] {
          forall d | d in r ensures r[d] == s[d] {
            var a :| CarriedFrom(mapping, output, d, r[d], a);
            var b :| CarriedFrom(mapping, output, d, s[d], b);
          }
        }
      }
    } else {
      var a, b :| a in mapping && b in mapping && a in output && b in output && mapping[a] == mapping[b] && output[a] != output[b];
      var r := SomeRemap(mapping, output);
      var d := mapping[a];
      RemapChoice(mapping, output, r, a);
      RemapChoice(mapping, output, r, b);
      assert r[d := output[a]][d] != r[d := output[b]][d];
    }
  }

  lemma RemapChoice(mapping: map<string, string>, output: Facts, r: Facts, src: string)
    requires Remaps(mapping, output, r) && src in mapping && src in output
    ensures Remaps(mapping, output, r[mapping[src] := output[src]])
  {
    var s := r[mapping[src] := output[src]];
    forall d | d in s ensures exists a :: CarriedFrom(mapping, output, d, s[d], a) {
      if d == mapping[src] {
        assert CarriedFrom(mapping, output, d, s[d], src);
      } else {
        var a :| CarriedFrom(mapping, output, d, r[d], a);
        assert CarriedFrom(mapping, output, d, s[d], a);
      }
    }
  }

  // ---------- Whole programs ----------

  /** Somewhere the run crosses an edge whose map sends two different values to one destination. */
  ghost predicate MeetsConflict(g: Graph, run: Run)
    decreases run
  {
    run.Visited? && |run.branches| <= |g.Out(run.id)| &&
    exists i | 0 <= i < |run.branches| ::
      !NoConflict(g.Out(run.id)[i].mapping, run.local.output) || MeetsConflict(g, run.branches[i].run)
  }

  /** A run that meets no conflict is the only one. */
  lemma {:induction false} OnlyRun(g: Graph, id: string, facts: Facts, a: Run, b: Run)
    requires IsRun(g, id, facts, a) && IsRun(g, id, facts, b) && !MeetsConflict(g, a)
    ensures a == b
    decreases a
  {
    if a.Visited? {
      var n := if |a.branches| < |b.branches| then |a.branches| else |b.branches|;
      var after := facts + a.local.output;
      forall i | 0 <= i < n ensures a.branches[i] == b.branches[i] {
        assert IsBranch(g, g.Out(id)[i], after, a.local.output, a.branches[i]);
        assert IsBranch(g, g.Out(id)[i], after, a.local.output, b.branches[i]);
        RemapIsUniqueIff(g.Out(id)[i].mapping, a.local.output);
        OnlyRun(g, g.Out(id)[i].target, after + a.branches[i].remap, a.branches[i].run, b.branches[i].run);
      }
      assert |a.branches| == |b.branches|;
    }
  }

  /** A run with another i-th branch, completed however the walk goes on. */
  lemma Divert(g: Graph, id: string, facts: Facts, depth: nat, run: Run, i: nat, other: Branch) returns (diverted: Run)
    requires EndsWithin(g, id, facts, depth) && IsRun(g, id, facts, run) && run.Visited? && i < |run.branches|
    requires IsBranch(g, g.Out(id)[i], facts + run.local.output, run.local.output, other) && other != run.branches[i]
    ensures IsRun(g, id, facts, diverted) && diverted != run
  {
    var prefix := run.branches[..i] + [other];
    forall k | 0 <= k < |prefix| ensures IsBranch(g, g.Out(id)[k], facts + run.local.output, run.local.output, prefix[k]) {
      assert k < i ==> prefix[k] == run.branches[k];
    }
    var branches := prefix;
    if Outcome(other.run).Ok? {
      branches := CompleteRun(g, id, facts, depth, run.local, prefix);
    }
    diverted := Visited(id, run.local, branches);
    assert branches[i] == prefix[i] == other;
  }

  /** Whatever the edge carries, the walk behind it ends. */
  ghost predicate EndsBehind(g: Graph, e: Edge, facts: Facts, output: Facts, depth: nat) {
    forall remap | Remaps(e.mapping, output, remap) :: EndsWithin(g, e.target, facts + remap, depth)
  }

  /** A run that meets a conflict is not the only one. */
  lemma {:induction false} OtherRun(g: Graph, id: string, facts: Facts, depth: nat, run: Run) returns (other: Run)
    requires EndsWithin(g, id, facts, depth) && IsRun(g, id, facts, run) && MeetsConflict(g, run)
    ensures IsRun(g, id, facts, other) && other != run
    decreases depth, 1
  {
    var local, bs, after := run.local, run.branches, facts + run.local.output;
    var i: nat :| i < |bs| && (!NoConflict(g.Out(id)[i].mapping, local.output) || MeetsConflict(g, bs[i].run));
    var e := g.Out(id)[i];
    assert Passed(g, id, after, local.output, bs[..i]);
    forall remap | Remaps(e.mapping, local.output, remap) ensures EndsWithin(g, e.target, after + remap, depth - 1) {
      EndsAlongEdge(g, id, facts, depth, local, bs[..i], remap);
    }
    var b := OtherBranch(g, e, after, local.output, depth - 1, bs[i]);
    other := Divert(g, id, facts, depth, run, i, b);
  }

  lemma {:induction false} OtherBranch(g: Graph, e: Edge, facts: Facts, output: Facts, depth: nat, b: Branch) returns (other: Branch)
    requires EndsBehind(g, e, facts, output, depth) && IsBranch(g, e, facts, output, b)
    requires !NoConflict(e.mapping, output) || MeetsConflict(g, b.run)
    ensures IsBranch(g, e, facts, output, other) && other != b
    decreases depth, 2
  {
    if NoConflict(e.mapping, output) {
      var below := OtherRun(g, e.target, facts + b.remap, depth, b.run);
      other := Branch(b.remap, below);
    } else {
      var remap := OtherRemap(e.mapping, output, b.remap);
      EndingWalkHasRun(g, e.target, facts + remap, depth);
      var below :| IsRun(g, e.target, facts + remap, below);
      other := Branch(remap, below);
    }
  }

  lemma OtherRemap(mapping: map<string, string>, output: Facts, remap: Facts) returns (other: Facts)
    requires !NoConflict(mapping, output) && Remaps(mapping, output, remap)
    ensures Remaps(mapping, output, other) && other != remap
  {
    RemapIsUniqueIff(mapping, output);
    var r, s :| Remaps(mapping, output, r) && Remaps(mapping, output, s) && r != s;
    other := if r == remap then s else r;
  }

  ghost predicate SameRun(g: Graph, id: string, facts: Facts, a: Run, b: Run) {
    IsRun(g, id, facts, a) && IsRun(g, id, facts, b) ==> a == b
  }

  ghost predicate CleanRun(g: Graph, id: string, facts: Facts, run: Run) {
    IsRun(g, id, facts, run) ==> !MeetsConflict(g, run)
  }

  /** Where the walk ends, all runs on an input are equal exactly when none of them meets a conflict. */
  lemma RunsAgreeIff(g: Graph, id: string, facts: Facts)
    requires Ends(g, id, facts)
    ensures (forall a, b :: SameRun(g, id, facts, a, b)) <==> (forall run :: CleanRun(g, id, facts, run))
  {
    if forall run :: CleanRun(g, id, facts, run) {
      forall a, b ensures SameRun(g, id, facts, a, b) {
        assert CleanRun(g, id, facts, a);
        if IsRun(g, id, facts, a) && IsRun(g, id, facts, b) {
          OnlyRun(g, id, facts, a, b);
        }
      }
    } else {
      var run :| !CleanRun(g, id, facts, run);
      var depth :| EndsWithin(g, id, facts, depth);
      var other := OtherRun(g, id, facts, depth, run);
      assert !SameRun(g, id, facts, run, other);
    }
  }

  ghost predicate InjectiveMaps(g: Graph) {
    forall id, i | 0 <= i < |g.Out(id)| :: Injective(g.Out(id)[i].mapping)
  }

  lemma {:induction false} InjectiveMapsMeetNoConflict(g: Graph, run: Run)
    requires InjectiveMaps(g)
    ensures !MeetsConflict(g, run)
    decreases run
  {
    if run.Visited? && |run.branches| <= |g.Out(run.id)| {
      forall i | 0 <= i < |run.branches| ensures !MeetsConflict(g, run.branches[i].run) {
        InjectiveMapsMeetNoConflict(g, run.branches[i].run);
      }
    }
  }

  /** With injective edge maps a program has one run on each input, whatever order maps are iterated in. */
  lemma OneRun(g: Graph, id: string, facts: Facts, a: Run, b: Run)
    requires InjectiveMaps(g) && IsRun(g, id, facts, a) && IsRun(g, id, facts, b)
    ensures a == b
  {
    InjectiveMapsMeetNoConflict(g, a);
    OnlyRun(g, id, facts, a, b);
  }

  // ---------- A program with two answers ----------

  /** Both outputs of the first node go to the field the second node tests. */
  const RACE := Edge("a", "b", map["x" := "z", "y" := "z"])

  const FIRST := RuleNode("a", "", FirstMatch, [], map["x" := Number(1.0), "y" := Number(2.0)])

  const ONLYRULE := Rule("r", "", [Condition("z", Eq, Number(1.0))], map["w" := Number(1.0)])

  const SECOND := RuleNode("b", "", FirstMatch, [ONLYRULE], map[])

  const SCHEMA: Schema := map["z" := FieldDef(NumberField, Input, []), "w" := FieldDef(NumberField, Output, [])]

  const TWOFACED := Program("v1", SCHEMA, "a", [FIRST, SECOND], [RACE])

  lemma TwoFacedIsValid()
    ensures StrictlyValid(TWOFACED)
  {
    var d := TWOFACED;
    assert d.nodes[0] in d.nodes && d.nodes[1] in d.nodes;
    assert "a" in NodeIds(d.nodes) && "b" in NodeIds(d.nodes);
    assert "z" in d.schema;
    forall i | 0 <= i < |d.nodes| ensures StrictNode(d.nodes[i], d.schema, Incoming(d.edges, d.schema, d.nodes[i].id)) {
      assert d.nodes[i] == FIRST || d.nodes[i] == SECOND;
      assert "w" in ONLYRULE.outputs;
      assert RuleComplete(ONLYRULE, d.schema);
      assert ConditionsOk(ONLYRULE, d.schema, Incoming(d.edges, d.schema, d.nodes[i].id));
    }
  }

  lemma TwoFacedEdges()
    ensures GraphOf(TWOFACED).Out("a") == [RACE] && GraphOf(TWOFACED).Out("b") == []
  {
    OutOfProgram(TWOFACED, "a");
    OutOfProgram(TWOFACED, "b");
    assert [RACE][..0] == [];
  }

  lemma TwoFacedNodes()
    ensures GraphOf(TWOFACED).nodes == map["a" := FIRST, "b" := SECOND]
  {
    var nodes := TWOFACED.nodes;
    assert nodes[..1] == [FIRST] && [FIRST][..0] == [];
    assert NodeIndex([FIRST]) == map["a" := FIRST];
    assert NodeIndex(nodes) == NodeIndex([FIRST])["b" := SECOND];
  }

  function FactsAtB(v: real): Facts {
    map["x" := Number(1.0), "y" := Number(2.0), "z" := Number(v)]
  }

  function ReportOfB(v: real): NodeResult {
    NodeResult(if v == 1.0 then map["w" := Number(1.0)] else map[], [Entry("r", "", "b", v == 1.0)])
  }

  /** The second node fires exactly on the value 1. */
  lemma SecondNode(v: real)
    ensures NodeOutcome(SECOND, SCHEMA, FactsAtB(v)) == Ok(ReportOfB(v))
  {
    var c, facts := ONLYRULE.conditions, FactsAtB(v);
    assert c[1..] == [] && SECOND.rules[1..] == [];
    assert EvalCondition(c[0], "b", "r", SCHEMA, facts) == Ok(v == 1.0);
    assert EvalConditions(c[1..], "b", "r", SCHEMA, facts) == Ok(true);
    assert EvalConditions(c, "b", "r", SCHEMA, facts) == Ok(v == 1.0);
    assert FirstMatching("b", SECOND.rules[1..], SCHEMA, facts) == Ok(NOTHING);
    var fired := FirstMatching("b", SECOND.rules, SCHEMA, facts);
    if v != 1.0 {
      ThenRight(FireRule("b", ONLYRULE, false));
    }
    assert fired == Ok(FireRule("b", ONLYRULE, v == 1.0));
  }

  lemma ThenRight(f: Firing)
    ensures Then(f, Ok(NOTHING)) == Ok(f)
  {
    assert f.output + map[] == f.output && f.trace + [] == f.trace;
  }

  lemma RaceCarries(src: string, v: real)
    requires src in RACE.mapping && FIRST.default[src] == Number(v)
    ensures Remaps(RACE.mapping, FIRST.default, map["z" := Number(v)])
  {
    var remap: Facts := map["z" := Number(v)];
    assert CarriedFrom(RACE.mapping, FIRST.default, "z", remap["z"], src);
    assert Carried(RACE.mapping, FIRST.default) == {"z"};
  }

  lemma WalkOfB(v: real)
    ensures IsRun(GraphOf(TWOFACED), "b", FactsAtB(v), Visited("b", ReportOfB(v), []))
  {
    TwoFacedEdges();
    TwoFacedNodes();
    SecondNode(v);
  }

  function TwoFacedRun(v: real): Run {
    Visited("a", NodeResult(FIRST.default, []), [Branch(map["z" := Number(v)], Visited("b", ReportOfB(v), []))])
  }

  lemma LoneBranch(src: string, v: real)
    requires src in RACE.mapping && FIRST.default[src] == Number(v)
    ensures IsBranch(GraphOf(TWOFACED), RACE, FIRST.default, FIRST.default, TwoFacedRun(v).branches[0])
  {
    RaceCarries(src, v);
    WalkOfB(v);
    assert FIRST.default + TwoFacedRun(v).branches[0].remap == FactsAtB(v);
  }

  lemma TwoFacedRuns(src: string, v: real)
    requires src in RACE.mapping && FIRST.default[src] == Number(v)
    ensures IsRun(GraphOf(TWOFACED), "a", map[], TwoFacedRun(v))
  {
    TwoFacedEdges();
    TwoFacedNodes();
    LoneBranch(src, v);
    assert map[] + FIRST.default == FIRST.default;
    LoneBranchRun(GraphOf(TWOFACED), "a", map[], NodeResult(FIRST.default, []), TwoFacedRun(v).branches[0]);
  }

  lemma TwoFacedOutcome(v: real)
    ensures Outcome(TwoFacedRun(v)).Ok?
    ensures "w" in Outcome(TwoFacedRun(v)).value.output <==> v == 1.0
  {
    var first, b := NodeResult(FIRST.default, []), TwoFacedRun(v).branches[0];
    MergeSnoc(first, [], b);
    assert [] + [b] == TwoFacedRun(v).branches;
    assert Outcome(b.run) == Ok(ReportOfB(v));
  }

  /** A program fit for publishing that gives two different answers to one input, by iteration order alone. */
  lemma IterationOrderMayShow()
    ensures StrictlyValid(TWOFACED)
    ensures exists a, b :: IsAnswer(TWOFACED, map[], a) && IsAnswer(TWOFACED, map[], b) && a != b
  {
    TwoFacedIsValid();
    TwoFacedRuns("x", 1.0);
    TwoFacedRuns("y", 2.0);
    TwoFacedOutcome(1.0);
    TwoFacedOutcome(2.0);
    assert IsAnswer(TWOFACED, map[], Outcome(TwoFacedRun(1.0))) && IsAnswer(TWOFACED, map[], Outcome(TwoFacedRun(2.0)));
  }
}

/** Validation does not rule out cycles; this is exactly when the walk of a well-typed program ends. */
module EndsExactly {
  import opened Wrappers
  import opened Values
  import opened Dsl
  import opened Conditions
  import opened Graphs
  import opened Walk
  import opened Visits
  import opened Termination
  import opened TypeSoundness

  /** A validated, well-typed program on a well-typed input ends exactly when no cycle can be reached. */
  lemma EndsIffAcyclic(d: Program, input: Facts)
    requires StrictlyValid(d) && WellTypedProgram(d) && WellTyped(d.schema, input)
    ensures Ends(GraphOf(d), d.entry, input) <==> AcyclicFrom(GraphOf(d), d.entry)
    ensures (exists run :: IsRun(GraphOf(d), d.entry, input, run)) <==> AcyclicFrom(GraphOf(d), d.entry)
  {
    if depth :| EndsWithin(GraphOf(d), d.entry, input, depth) {
      EndingWalkHasRun(GraphOf(d), d.entry, input, depth);
    }
    if run :| IsRun(GraphOf(d), d.entry, input, run) {
      TypeSound(d, input, run);
      ErrorFreeRunMeansAcyclic(GraphOf(d), d.entry, input, run);
    }
    if AcyclicFrom(GraphOf(d), d.entry) {
      AcyclicEnds(GraphOf(d), d.entry, input);
    }
  }

  function EmptyNode(id: string): RuleNode {
    RuleNode(id, "", FirstMatch, [], map[])
  }

  /** Two nodes that lead to each other. */
  const PINGPONG := Program("v1", map["f" := FieldDef(NumberField, Input, [])], "a",
                            [EmptyNode("a"), EmptyNode("b")],
                            [Edge("a", "b", map[]), Edge("b", "a", map[])])

  lemma PingPongGraph()
    ensures GraphOf(PINGPONG).Out("a") == [Edge("a", "b", map[])]
    ensures GraphOf(PINGPONG).Out("b") == [Edge("b", "a", map[])]
  {
    var a, b := Edge("a", "b", map[]), Edge("b", "a", map[]);
    OutOfProgram(PINGPONG, "a");
    OutOfProgram(PINGPONG, "b");
    assert [a, b][..1] == [a] && [a][..0] == [];
    forall id: string | id == "a" || id == "b"
      ensures EdgesFrom([a, b], id) == EdgesFrom([a], id) + (if b.source == id then [b] else [])
      ensures EdgesFrom([a], id) == if a.source == id then [a] else []
    {
    }
  }

  lemma PingPongIsValid()
    ensures StrictlyValid(PINGPONG)
  {
    var d := PINGPONG;
    assert d.nodes[0] in d.nodes && d.nodes[1] in d.nodes;
    assert "a" in NodeIds(d.nodes) && "b" in NodeIds(d.nodes);
    assert "f" in d.schema;
    forall i | 0 <= i < |d.nodes| ensures StrictNode(d.nodes[i], d.schema, Incoming(d.edges, d.schema, d.nodes[i].id)) {
    }
  }

  lemma PingPongHasCycle()
    ensures !AcyclicFrom(GraphOf(PINGPONG), "a")
  {
    PingPongGraph();
    var g := GraphOf(PINGPONG);
    var round := [0, 0];
    assert round[1..] == [0] && [0][1..] == [];
    assert IsPath(g, "a", []) && End(g, "a", []) == "a";
    assert IsPath(g, "b", [0]) && End(g, "b", [0]) == "a";
    assert IsCycle(g, End(g, "a", []), round);
  }

  /** Without rules there is no condition to stumble over. */
  lemma PingPongNeverFails(input: Facts, run: Run)
    requires IsRun(GraphOf(PINGPONG), "a", input, run)
    ensures Outcome(run).Ok?
  {
    var d, g := PINGPONG, GraphOf(PINGPONG);
    NodeIndexKeys(d.nodes);
    PingPongIsValid();
    assert d.nodes[0] in d.nodes;
    var inv: (string, Facts) -> bool := (m, _) => m in g.nodes;
    forall m, f, local, i, remap | inv(m, f) && Crosses(g, m, f, local, i, remap)
      ensures inv(g.Out(m)[i].target, f + local.output + remap)
    {
      EdgesStayInside(d, m, i);
    }
    InvariantAlongRun(g, inv, "a", input, run);
  }

  /** A program that passes publishing validation and whose evaluation never ends, on any input. */
  lemma ValidatedProgramMayRunForever(input: Facts)
    ensures StrictlyValid(PINGPONG)
    ensures !Ends(GraphOf(PINGPONG), PINGPONG.entry, input)
    ensures forall run :: !IsRun(GraphOf(PINGPONG), PINGPONG.entry, input, run)
  {
    PingPongIsValid();
    forall run ensures !IsRun(GraphOf(PINGPONG), PINGPONG.entry, input, run) {
      if IsRun(GraphOf(PINGPONG), "a", input, run) {
        PingPongNeverFails(input, run);
        ErrorFreeRunMeansAcyclic(GraphOf(PINGPONG), "a", input, run);
        PingPongHasCycle();
        assert false;
      }
    }
    if depth :| EndsWithin(GraphOf(PINGPONG), PINGPONG.entry, input, depth) {
      EndingWalkHasRun(GraphOf(PINGPONG), PINGPONG.entry, input, depth);
    }
  }
}

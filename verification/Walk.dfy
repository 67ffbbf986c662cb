/**
  The walk over the rule graph. A Run records one finished walk: the nodes it met and, for each
  out-edge in order, the facts the edge carried over and the run behind it. IsRun is the reference
  semantics: every out-edge, also a lone one, is a branch on its own copy of the facts, and the
  branches merge from left to right. EvalFrom is the program's loop, which follows a lone edge in
  place and recurses on a copied fact map at forks. Go leaves the iteration order of an edge map
  open, so Remaps is a relation and a program may have several runs on the same facts.
  */
module Walk {
  import opened Wrappers
  import opened Values
  import opened Dsl
  import opened Conditions
  import opened Graphs

  datatype Run =
    | Missing(id: string)
    | Failed(id: string, error: EvalError)
    | Visited(id: string, local: NodeResult, branches: seq<Branch>)

  datatype Branch = Branch(remap: Facts, run: Run)

  type Answer = Result<NodeResult, EvalError>

  // ---------- Reference semantics ----------

  ghost predicate CarriedFrom(mapping: map<string, string>, output: Facts, dest: string, v: Value, src: string) {
    src in mapping && src in output && mapping[src] == dest && v == output[src]
  }

  ghost function Carried(mapping: map<string, string>, output: Facts): set<string> {
    set f | f in mapping && f in output :: mapping[f]
  }

  /** An edge without a map carries the node's output as is. */
  ghost predicate Remaps(mapping: map<string, string>, output: Facts, remap: Facts) {
    if mapping == map[] then remap == output
    else
      && remap.Keys == Carried(mapping, output)
      && forall dest | dest in remap :: exists src :: CarriedFrom(mapping, output, dest, remap[dest], src)
  }

  ghost function Outcome(run: Run): Answer
    decreases run
  {
    match run
    case Missing(id) => Err(NodeNotFound(id))
    case Failed(_, e) => Err(e)
    case Visited(_, local, branches) => Merge(local, branches)
  }

  ghost function Append(a: NodeResult, r: Answer): Answer {
    match r
    case Err(e) => Err(e)
    case Ok(b) => Ok(NodeResult(a.output + b.output, a.trace + b.trace))
  }

  ghost function Merge(local: NodeResult, branches: seq<Branch>): Answer
    decreases branches
  {
    if branches == [] then Ok(local)
    else
      match Merge(local, branches[..|branches| - 1])
      case Err(e) => Err(e)
      case Ok(sofar) =>
        Append(sofar, BranchOutcome(branches[|branches| - 1]))
  }

  ghost function BranchOutcome(b: Branch): Answer
    decreases b
  {
    Outcome(b.run)
  }

  ghost predicate IsRun(g: Graph, id: string, facts: Facts, run: Run)
    decreases run
  {
    match run
    case Missing(m) => m == id && id !in g.nodes
    case Failed(m, e) => m == id && id in g.nodes && NodeOutcome(g.nodes[id], g.schema, facts) == Err(e)
    case Visited(m, local, branches) =>
      && m == id && id in g.nodes && NodeOutcome(g.nodes[id], g.schema, facts) == Ok(local)
      && |branches| <= |g.Out(id)|
      && (forall i | 0 <= i < |branches| :: IsBranch(g, g.Out(id)[i], facts + local.output, local.output, branches[i]))
      && Finished(branches, |g.Out(id)|)
  }

  ghost predicate IsBranch(g: Graph, e: Edge, facts: Facts, output: Facts, b: Branch)
    decreases b
  {
    Remaps(e.mapping, output, b.remap) && IsRun(g, e.target, facts + b.remap, b.run)
  }

  /** All out-edges were taken, or the last one taken failed. */
  ghost predicate Finished(branches: seq<Branch>, n: nat) {
    && (forall i | 0 <= i < |branches| - 1 :: Outcome(branches[i].run).Ok?)
    && (|branches| < n ==> branches != [] && Outcome(branches[|branches| - 1].run).Err?)
  }

  // ---------- Whether and how fast it ends ----------

  /** Branches behind the first out-edges, none of which failed. */
  ghost predicate Passed(g: Graph, id: string, facts: Facts, output: Facts, branches: seq<Branch>) {
    && |branches| <= |g.Out(id)|
    && forall k | 0 <= k < |branches| :: IsBranch(g, g.Out(id)[k], facts, output, branches[k]) && Outcome(branches[k].run).Ok?
  }

  /** After these branches the walk crosses the next out-edge, and may carry this. */
  ghost predicate CanCross(g: Graph, id: string, facts: Facts, output: Facts, branches: seq<Branch>, remap: Facts) {
    && Passed(g, id, facts, output, branches) && |branches| < |g.Out(id)|
    && Remaps(g.Out(id)[|branches|].mapping, output, remap)
  }

  /** No way the walk can take from here, in any iteration order, evaluates more than `depth` nodes in a row. */
  ghost predicate EndsWithin(g: Graph, id: string, facts: Facts, depth: nat)
    decreases depth
  {
    && depth > 0
    && (id in g.nodes && NodeOutcome(g.nodes[id], g.schema, facts).Ok? ==>
          var local := NodeOutcome(g.nodes[id], g.schema, facts).value;
          forall branches, remap | CanCross(g, id, facts + local.output, local.output, branches, remap) ::
            EndsWithin(g, g.Out(id)[|branches|].target, facts + local.output + remap, depth - 1))
  }

  ghost predicate Ends(g: Graph, id: string, facts: Facts) {
    exists depth :: EndsWithin(g, id, facts, depth)
  }

  lemma EndsAlongEdge(g: Graph, id: string, facts: Facts, depth: nat, local: NodeResult, branches: seq<Branch>, remap: Facts)
    requires EndsWithin(g, id, facts, depth)
    requires id in g.nodes && NodeOutcome(g.nodes[id], g.schema, facts) == Ok(local)
    requires CanCross(g, id, facts + local.output, local.output, branches, remap)
    ensures depth > 0 && EndsWithin(g, g.Out(id)[|branches|].target, facts + local.output + remap, depth - 1)
  {
  }

  /** Iterations of the evaluation loop, over all the calls it makes. */
  ghost function Iterations(run: Run): nat
    decreases run
  {
    1 + if run.Visited? then ForkIterations(run.branches) else 0
  }

  ghost function ForkIterations(branches: seq<Branch>): nat
    decreases branches
  {
    if branches == [] then 0
    else ForkIterations(branches[..|branches| - 1]) + IterationsOf(branches[|branches| - 1])
  }

  ghost function IterationsOf(b: Branch): nat
    decreases b
  {
    Iterations(b.run)
  }

  lemma MergeSnoc(local: NodeResult, branches: seq<Branch>, b: Branch)
    requires Merge(local, branches).Ok?
    ensures Merge(local, branches + [b]) == Append(Merge(local, branches).value, Outcome(b.run))
    ensures ForkIterations(branches + [b]) == ForkIterations(branches) + Iterations(b.run)
  {
    assert (branches + [b])[..|branches|] == branches;
  }

  lemma AppendAssociative(a: NodeResult, b: NodeResult, r: Answer)
    ensures Append(a, Ok(b)).Ok?
    ensures Append(Append(a, Ok(b)).value, r) == Append(a, Append(b, r))
  {
    if r.Ok? {
      assert (a.output + b.output) + r.value.output == a.output + (b.output + r.value.output);
      assert (a.trace + b.trace) + r.value.trace == a.trace + (b.trace + r.value.trace);
    }
  }

  // ---------- The loop ----------

  /** The program's fact map: one heap object, written in place by the walk. */
  class FactMap {
    var m: Facts

    constructor (m: Facts)
      ensures this.m == m
    {
      this.m := m;
    }

    method Absorb(src: Facts)
      modifies this
      ensures m == old(m) + src
    {
      m := CopyInto(m, src);
    }
  }

  method CopyFacts(facts: FactMap) returns (copy: FactMap)
    ensures fresh(copy) && copy.m == facts.m
  {
    var out := CopyInto(map[], facts.m);
    assert map[] + facts.m == facts.m;
    copy := new FactMap(out);
  }

  method RemapEdge(e: Edge, output: Facts) returns (remap: Facts)
    ensures Remaps(e.mapping, output, remap)
  {
    if |e.mapping| == 0 {
      remap := CopyInto(map[], output);
      assert map[] + output == output;
      return;
    }
    remap := map[];
    var rest := e.mapping.Keys;
    while rest != {}
      invariant rest <= e.mapping.Keys
      invariant remap.Keys == set f | f in e.mapping && f !in rest && f in output :: e.mapping[f]
      invariant forall dest | dest in remap :: exists src :: CarriedFrom(e.mapping, output, dest, remap[dest], src)
      decreases rest
    {
      var f :| f in rest;
      if f in output {
        assert CarriedFrom(e.mapping, output, e.mapping[f], output[f], f);
        remap := remap[e.mapping[f] := output[f]];
      }
      rest := rest - {f};
    }
  }

  /** The run has this outcome, and the loop turned this often for it. */
  ghost predicate Yields(g: Graph, id: string, facts: Facts, run: Run, answer: Answer, turns: nat) {
    IsRun(g, id, facts, run) && Outcome(run) == answer && Iterations(run) == turns
  }

  /** The whole run is what was gathered in so many turns, and then the rest. */
  ghost predicate Completes(g: Graph, start: string, input: Facts, sofar: NodeResult, turns: nat, rest: Run, whole: Run) {
    Yields(g, start, input, whole, Append(sofar, Outcome(rest)), turns + Iterations(rest))
  }

  /** A run from here on; named apart from IsRun so that Continues is used only where it is called for. */
  ghost predicate IsRest(g: Graph, id: string, facts: Facts, rest: Run) {
    IsRun(g, id, facts, rest)
  }

  /** A run from here completes the walk that has gathered `sofar` since it left `start`. */
  ghost predicate Continues(g: Graph, start: string, input: Facts, id: string, facts: Facts, sofar: NodeResult, turns: nat) {
    forall rest: Run | IsRest(g, id, facts, rest) :: exists whole: Run :: Completes(g, start, input, sofar, turns, rest, whole)
  }

  lemma ContinuesAtStart(g: Graph, start: string, input: Facts)
    ensures Continues(g, start, input, start, input, NodeResult(map[], []), 0)
  {
    forall rest: Run | IsRest(g, start, input, rest) ensures Completes(g, start, input, NodeResult(map[], []), 0, rest, rest) {
      if Outcome(rest).Ok? {
        assert map[] + Outcome(rest).value.output == Outcome(rest).value.output;
        assert [] + Outcome(rest).value.trace == Outcome(rest).value.trace;
      }
    }
  }

  lemma LoneBranchRun(g: Graph, id: string, facts: Facts, local: NodeResult, b: Branch)
    requires id in g.nodes && NodeOutcome(g.nodes[id], g.schema, facts) == Ok(local) && |g.Out(id)| == 1
    requires IsBranch(g, g.Out(id)[0], facts + local.output, local.output, b)
    ensures IsRun(g, id, facts, Visited(id, local, [b]))
  {
  }

  lemma LoneBranchOutcome(id: string, local: NodeResult, b: Branch)
    ensures Outcome(Visited(id, local, [b])) == Append(local, Outcome(b.run))
    ensures Iterations(Visited(id, local, [b])) == 1 + Iterations(b.run)
  {
    MergeSnoc(local, [], b);
    assert [] + [b] == [b];
  }

  lemma ContinuesAlongEdge(g: Graph, start: string, input: Facts, id: string, facts: Facts, sofar: NodeResult, turns: nat, local: NodeResult, remap: Facts)
    requires Continues(g, start, input, id, facts, sofar, turns)
    requires id in g.nodes && NodeOutcome(g.nodes[id], g.schema, facts) == Ok(local)
    requires |g.Out(id)| == 1 && Remaps(g.Out(id)[0].mapping, local.output, remap)
    ensures Continues(g, start, input, g.Out(id)[0].target, facts + local.output + remap, Append(sofar, Ok(local)).value, turns + 1)
  {
    var next, more := Append(sofar, Ok(local)).value, turns + 1;
    forall r: Run | IsRest(g, g.Out(id)[0].target, facts + local.output + remap, r)
      ensures exists whole: Run :: Completes(g, start, input, next, more, r, whole)
    {
      var b := Branch(remap, r);
      var rest := Visited(id, local, [b]);
      LoneBranchRun(g, id, facts, local, b);
      LoneBranchOutcome(id, local, b);
      assert IsRest(g, id, facts, rest);
      AppendAssociative(sofar, local, Outcome(r));
      var whole :| Completes(g, start, input, sofar, turns, rest, whole);
      assert Completes(g, start, input, next, more, r, whole);
    }
  }

  /** The walk ends with this run. */
  lemma Concludes(g: Graph, start: string, input: Facts, id: string, facts: Facts, sofar: NodeResult, turns: nat, rest: Run, answer: Answer, all: nat)
    requires Continues(g, start, input, id, facts, sofar, turns) && IsRun(g, id, facts, rest)
    requires Append(sofar, Outcome(rest)) == answer && turns + Iterations(rest) == all
    ensures exists run :: Yields(g, start, input, run, answer, all)
  {
    assert IsRest(g, id, facts, rest);
    var whole :| Completes(g, start, input, sofar, turns, rest, whole);
    assert Yields(g, start, input, whole, answer, all);
  }

  /** The error of evaluating a node, if it is not there or its table fails. */
  ghost function ErrorAt(g: Graph, id: string, facts: Facts): Option<EvalError> {
    if id !in g.nodes then Some(NodeNotFound(id))
    else
      match NodeOutcome(g.nodes[id], g.schema, facts)
      case Err(e) => Some(e)
      case Ok(_) => None
  }

  lemma ConcludesWithError(g: Graph, start: string, input: Facts, id: string, facts: Facts, sofar: NodeResult, turns: nat, all: nat)
    requires Continues(g, start, input, id, facts, sofar, turns) && ErrorAt(g, id, facts).Some? && all == turns + 1
    ensures exists run :: Yields(g, start, input, run, Err(ErrorAt(g, id, facts).value), all)
  {
    var e := ErrorAt(g, id, facts).value;
    Concludes(g, start, input, id, facts, sofar, turns, if id in g.nodes then Failed(id, e) else Missing(id), Err(e), all);
  }

  /** What a fork adds to the walk: a run from its node, whose first turn was taken before. */
  ghost predicate Forks(g: Graph, id: string, before: Facts, prior: NodeResult, run: Run, answer: Answer, turns: nat) {
    IsRun(g, id, before, run) && Append(prior, Outcome(run)) == answer && Iterations(run) == 1 + turns
  }

  /** `turns` counts the turns of the loop, in this call and in the calls it makes. */
  method EvalFrom(start: string, g: Graph, facts: FactMap, ghost depth: nat) returns (r: Answer, ghost turns: nat)
    requires EndsWithin(g, start, facts.m, depth)
    modifies facts
    ensures exists run :: Yields(g, start, old(facts.m), run, r, turns)
    decreases depth, 2
  {
    var id := start;
    var sofar := NodeResult(map[], []);
    ghost var input, left: nat := facts.m, depth;
    turns := 0;
    ContinuesAtStart(g, start, input);
    while true
      invariant left <= depth && EndsWithin(g, id, facts.m, left)
      invariant Continues(g, start, input, id, facts.m, sofar, turns)
      decreases left
    {
      ghost var before, already := facts.m, turns;
      turns := turns + 1;
      if id !in g.nodes {
        ConcludesWithError(g, start, input, id, before, sofar, already, turns);
        return Err(NodeNotFound(id)), turns;
      }
      var outcome := EvalNode(g.nodes[id], g.schema, facts.m);
      if outcome.Err? {
        ConcludesWithError(g, start, input, id, before, sofar, already, turns);
        return Err(outcome.error), turns;
      }
      var local := outcome.value;
      var output := CopyInto(sofar.output, local.output);
      facts.Absorb(local.output);
      var out := g.Out(id);
      if |out| == 1 {
        var remap := RemapEdge(out[0], local.output);
        ContinuesAlongEdge(g, start, input, id, before, sofar, already, local, remap);
        EndsAlongEdge(g, id, before, left, local, [], remap);
        facts.Absorb(remap);
        sofar := NodeResult(output, sofar.trace + local.trace);
        id, left := out[0].target, left - 1;
      } else {
        ghost var run, more;
        r, run, more := EvalFork(id, g, facts, local, NodeResult(output, sofar.trace + local.trace), before, sofar, left);
        turns := turns + more;
        Concludes(g, start, input, id, before, sofar, already, run, r, turns);
        return;
      }
    }
  }

  /** The first branches of a fork, none of which failed, and what the walk gathered from them. */
  ghost predicate Gathered(g: Graph, id: string, facts: Facts, prior: NodeResult, local: NodeResult, branches: seq<Branch>, acc: NodeResult) {
    && Passed(g, id, facts, local.output, branches)
    && Merge(local, branches).Ok? && Append(prior, Merge(local, branches)) == Ok(acc)
  }

  lemma GatherOne(g: Graph, id: string, facts: Facts, prior: NodeResult, local: NodeResult, branches: seq<Branch>, acc: NodeResult, b: Branch)
    requires Gathered(g, id, facts, prior, local, branches, acc)
    requires |branches| < |g.Out(id)| && IsBranch(g, g.Out(id)[|branches|], facts, local.output, b) && Outcome(b.run).Ok?
    ensures Gathered(g, id, facts, prior, local, branches + [b], Append(acc, Outcome(b.run)).value)
    ensures ForkIterations(branches + [b]) == ForkIterations(branches) + Iterations(b.run)
  {
    MergeSnoc(local, branches, b);
    AppendAssociative(prior, Merge(local, branches).value, Outcome(b.run));
  }

  lemma GatherFailed(g: Graph, id: string, before: Facts, prior: NodeResult, local: NodeResult, branches: seq<Branch>, acc: NodeResult, b: Branch)
    requires id in g.nodes && NodeOutcome(g.nodes[id], g.schema, before) == Ok(local)
    requires Gathered(g, id, before + local.output, prior, local, branches, acc)
    requires |branches| < |g.Out(id)| && IsBranch(g, g.Out(id)[|branches|], before + local.output, local.output, b) && Outcome(b.run).Err?
    ensures Forks(g, id, before, prior, Visited(id, local, branches + [b]), Err(Outcome(b.run).error), ForkIterations(branches) + Iterations(b.run))
  {
    MergeSnoc(local, branches, b);
    var all := branches + [b];
    forall k | 0 <= k < |all| ensures IsBranch(g, g.Out(id)[k], before + local.output, local.output, all[k]) {
      assert k < |branches| ==> all[k] == branches[k];
    }
    assert Finished(all, |g.Out(id)|);
  }

  lemma GatherEnd(g: Graph, id: string, before: Facts, prior: NodeResult, local: NodeResult, branches: seq<Branch>, acc: NodeResult)
    requires id in g.nodes && NodeOutcome(g.nodes[id], g.schema, before) == Ok(local)
    requires Gathered(g, id, before + local.output, prior, local, branches, acc) && |branches| == |g.Out(id)|
    ensures Forks(g, id, before, prior, Visited(id, local, branches), Ok(acc), ForkIterations(branches))
  {
  }

  /** One edge of a fork: its target is walked on a copy of the facts. */
  method EvalBranch(id: string, i: nat, g: Graph, facts: FactMap, local: NodeResult,
                    ghost before: Facts, ghost depth: nat, ghost prefix: seq<Branch>)
    returns (r: Answer, ghost b: Branch, ghost turns: nat)
    requires EndsWithin(g, id, before, depth)
    requires id in g.nodes && NodeOutcome(g.nodes[id], g.schema, before) == Ok(local) && facts.m == before + local.output
    requires i < |g.Out(id)| && |prefix| == i && Passed(g, id, facts.m, local.output, prefix)
    ensures exists run, remap :: IsBranch(g, g.Out(id)[i], facts.m, local.output, Branch(remap, run)) && Outcome(run) == r
    ensures IsBranch(g, g.Out(id)[i], facts.m, local.output, b) && Outcome(b.run) == r && Iterations(b.run) == turns
    decreases depth, 0
  {
    var subFacts := CopyFacts(facts);
    var remap := RemapEdge(g.Out(id)[i], local.output);
    subFacts.Absorb(remap);
    EndsAlongEdge(g, id, before, depth, local, prefix, remap);
    r, turns := EvalFrom(g.Out(id)[i].target, g, subFacts, depth - 1);
    ghost var run :| Yields(g, g.Out(id)[i].target, facts.m + remap, run, r, turns);
    b := Branch(remap, run);
  }

  /** The rest of the loop body at a node with no out-edge or with several. */
  method EvalFork(id: string, g: Graph, facts: FactMap, local: NodeResult, sofar: NodeResult,
                  ghost before: Facts, ghost prior: NodeResult, ghost depth: nat)
    returns (r: Answer, ghost run: Run, ghost turns: nat)
    requires EndsWithin(g, id, before, depth)
    requires id in g.nodes && NodeOutcome(g.nodes[id], g.schema, before) == Ok(local) && facts.m == before + local.output
    requires Append(prior, Ok(local)) == Ok(sofar)
    ensures exists whole :: IsRun(g, id, before, whole) && Append(prior, Outcome(whole)) == r
    ensures Forks(g, id, before, prior, run, r, turns)
    decreases depth, 1
  {
    var acc := sofar;
    turns := 0;
    ghost var branches: seq<Branch> := [];
    for i := 0 to |g.Out(id)|
      invariant |branches| == i && turns == ForkIterations(branches)
      invariant Gathered(g, id, facts.m, prior, local, branches, acc)
    {
      var sub; ghost var b, more;
      sub, b, more := EvalBranch(id, i, g, facts, local, before, depth, branches);
      turns := turns + more;
      if sub.Err? {
        GatherFailed(g, id, before, prior, local, branches, acc, b);
        return Err(sub.error), Visited(id, local, branches + [b]), turns;
      }
      GatherOne(g, id, facts.m, prior, local, branches, acc, b);
      branches := branches + [b];
      var output := CopyInto(acc.output, sub.value.output);
      acc := NodeResult(output, acc.trace + sub.value.trace);
    }
    GatherEnd(g, id, before, prior, local, branches, acc);
    return Ok(acc), Visited(id, local, branches), turns;
  }

  /** Some run of the program on the input has this outcome. */
  ghost predicate IsAnswer(d: Program, input: Facts, answer: Answer) {
    exists run :: IsRun(GraphOf(d), d.entry, input, run) && Outcome(run) == answer
  }

  /** Evaluating a program on an input: the answer is the outcome of one of its runs. */
  method EvalDsl(d: Program, input: Facts) returns (r: Answer, ghost turns: nat)
    requires Ends(GraphOf(d), d.entry, input)
    ensures exists run :: Yields(GraphOf(d), d.entry, input, run, r, turns)
    ensures IsAnswer(d, input, r)
  {
    var g := BuildGraph(d);
    var copied := CopyInto(map[], input);
    assert map[] + input == input;
    var facts := new FactMap(copied);
    ghost var depth :| EndsWithin(g, d.entry, input, depth);
    r, turns := EvalFrom(d.entry, g, facts, depth);
  }
}

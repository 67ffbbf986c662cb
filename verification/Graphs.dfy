/** The rule graph as the walk sees it, its edge-paths, and the measure that makes the walk end. */
module Graphs {
  import opened Dsl

  /** A lookup of an unknown source finds no edges. */
  datatype Graph = Graph(schema: Schema, nodes: map<string, RuleNode>, edges: map<string, seq<Edge>>) {
    function Out(id: string): seq<Edge> {
      if id in edges then edges[id] else []
    }
  }

  /** A path is the sequence of choices of out-edge, so two parallel edges give two paths. */
  predicate IsPath(g: Graph, id: string, p: seq<nat>)
    decreases |p|
  {
    p == [] || (p[0] < |g.Out(id)| && IsPath(g, g.Out(id)[p[0]].target, p[1..]))
  }

  function End(g: Graph, id: string, p: seq<nat>): string
    requires IsPath(g, id, p)
    decreases |p|
  {
    if p == [] then id else End(g, g.Out(id)[p[0]].target, p[1..])
  }

  lemma {:induction false} PathAppend(g: Graph, id: string, p: seq<nat>, q: seq<nat>)
    requires IsPath(g, id, p) && IsPath(g, End(g, id, p), q)
    ensures IsPath(g, id, p + q) && End(g, id, p + q) == End(g, End(g, id, p), q)
    decreases |p|
  {
    if p == [] {
      assert p + q == q;
    } else {
      PathAppend(g, g.Out(id)[p[0]].target, p[1..], q);
      assert (p + q)[1..] == p[1..] + q;
    }
  }

  lemma PathVia(g: Graph, id: string, i: nat, p: seq<nat>)
    requires i < |g.Out(id)| && IsPath(g, g.Out(id)[i].target, p)
    ensures IsPath(g, id, [i] + p) && End(g, id, [i] + p) == End(g, g.Out(id)[i].target, p)
  {
    assert ([i] + p)[1..] == p;
  }

  ghost predicate IsCycle(g: Graph, id: string, q: seq<nat>) {
    q != [] && IsPath(g, id, q) && End(g, id, q) == id
  }

  /** No cycle can be reached. */
  ghost predicate AcyclicFrom(g: Graph, id: string) {
    forall p, q | IsPath(g, id, p) :: !IsCycle(g, End(g, id, p), q)
  }

  lemma AcyclicStep(g: Graph, id: string, i: nat)
    requires AcyclicFrom(g, id) && i < |g.Out(id)|
    ensures AcyclicFrom(g, g.Out(id)[i].target)
  {
    var t := g.Out(id)[i].target;
    forall p, q | IsPath(g, t, p) ensures !IsCycle(g, End(g, t, p), q) {
      PathVia(g, id, i, p);
    }
  }

  // ---------- The measure ----------

  ghost function Targets(g: Graph): set<string> {
    set s, i | s in g.edges && 0 <= i < |g.edges[s]| :: g.edges[s][i].target
  }

  ghost predicate ReachedBy(g: Graph, id: string, m: string, p: seq<nat>) {
    p != [] && IsPath(g, id, p) && End(g, id, p) == m
  }

  /** The nodes reached by at least one edge. */
  ghost function Below(g: Graph, id: string): set<string> {
    set m | m in Targets(g) && exists p :: ReachedBy(g, id, m, p)
  }

  ghost function Rank(g: Graph, id: string): nat {
    |Below(g, id)|
  }

  lemma {:induction false} EndIsTarget(g: Graph, id: string, p: seq<nat>)
    requires IsPath(g, id, p) && p != []
    ensures End(g, id, p) in Targets(g)
    decreases |p|
  {
    if |p| == 1 {
      assert g.edges[id][p[0]].target in Targets(g);
    } else {
      EndIsTarget(g, g.Out(id)[p[0]].target, p[1..]);
    }
  }

  lemma SubsetSize<T>(a: set<T>, b: set<T>)
    requires a <= b
    ensures |a| <= |b|
    decreases |a|
  {
    if a != {} {
      var x :| x in a;
      SubsetSize(a - {x}, b - {x});
    }
  }

  lemma BelowShrinks(g: Graph, id: string, i: nat)
    requires AcyclicFrom(g, id) && i < |g.Out(id)|
    ensures Below(g, g.Out(id)[i].target) <= Below(g, id) - {g.Out(id)[i].target}
    ensures g.Out(id)[i].target in Below(g, id)
  {
    var t := g.Out(id)[i].target;
    assert t in Below(g, id) by {
      assert IsPath(g, t, []);
      PathVia(g, id, i, []);
      EndIsTarget(g, id, [i]);
      assert [i] + [] == [i];
      assert ReachedBy(g, id, t, [i]);
    }
    forall m | m in Below(g, t) ensures m in Below(g, id) && m != t {
      var p :| ReachedBy(g, t, m, p);
      PathVia(g, id, i, p);
      assert ReachedBy(g, id, m, [i] + p);
      if m == t {
        PathVia(g, id, i, []);
        assert [i] + [] == [i];
        assert IsPath(g, id, [i]) && End(g, id, [i]) == t;
        assert IsCycle(g, End(g, id, [i]), p);
        assert false;
      }
    }
  }

  /** Following an edge of an acyclic graph leaves strictly fewer nodes ahead. */
  lemma RankDrops(g: Graph, id: string, i: nat)
    requires AcyclicFrom(g, id) && i < |g.Out(id)|
    ensures Rank(g, g.Out(id)[i].target) < Rank(g, id)
  {
    var t := g.Out(id)[i].target;
    BelowShrinks(g, id, i);
    SubsetSize(Below(g, t), Below(g, id) - {t});
  }

  // ---------- From a program to its graph ----------

  /** The last node with an id is the one the index keeps. */
  function NodeIndex(nodes: seq<RuleNode>): map<string, RuleNode> {
    if nodes == [] then map[] else NodeIndex(nodes[..|nodes| - 1])[nodes[|nodes| - 1].id := nodes[|nodes| - 1]]
  }

  function EdgesFrom(edges: seq<Edge>, id: string): seq<Edge> {
    if edges == [] then []
    else EdgesFrom(edges[..|edges| - 1], id) + (if edges[|edges| - 1].source == id then [edges[|edges| - 1]] else [])
  }

  ghost function EdgeIndex(edges: seq<Edge>): map<string, seq<Edge>> {
    map s | s in (set e | e in edges :: e.source) :: EdgesFrom(edges, s)
  }

  ghost function GraphOf(d: Program): Graph {
    Graph(d.schema, NodeIndex(d.nodes), EdgeIndex(d.edges))
  }

  lemma {:induction false} EdgesFromMembers(edges: seq<Edge>, id: string)
    ensures forall e :: e in EdgesFrom(edges, id) <==> e in edges && e.source == id
  {
    if edges != [] {
      EdgesFromMembers(edges[..|edges| - 1], id);
      assert edges == edges[..|edges| - 1] + [edges[|edges| - 1]];
    }
  }

  /** A node's out-edges are its edges, in the order they are listed. */
  lemma {:induction false} EdgesFromConcat(a: seq<Edge>, b: seq<Edge>, id: string)
    ensures EdgesFrom(a + b, id) == EdgesFrom(a, id) + EdgesFrom(b, id)
    ensures |a| == 1 ==> EdgesFrom(a, id) == if a[0].source == id then a else []
    decreases |b|
  {
    if |a| == 1 {
      assert a[..0] == [] && a == [a[0]];
    }
    if b == [] {
      assert a + b == a;
    } else {
      assert (a + b)[..|a + b| - 1] == a + b[..|b| - 1];
      EdgesFromConcat(a, b[..|b| - 1], id);
    }
  }

  lemma OutOfProgram(d: Program, id: string)
    ensures GraphOf(d).Out(id) == EdgesFrom(d.edges, id)
    ensures forall e :: e in GraphOf(d).Out(id) <==> e in d.edges && e.source == id
  {
    EdgesFromMembers(d.edges, id);
    if EdgesFrom(d.edges, id) != [] {
      assert EdgesFrom(d.edges, id)[0] in d.edges;
    }
  }

  lemma {:induction false} NodeIndexKeys(nodes: seq<RuleNode>)
    ensures NodeIndex(nodes).Keys == NodeIds(nodes)
    ensures forall id | id in NodeIndex(nodes) :: NodeIndex(nodes)[id] in nodes && NodeIndex(nodes)[id].id == id
  {
    if nodes != [] {
      NodeIndexKeys(nodes[..|nodes| - 1]);
      assert nodes == nodes[..|nodes| - 1] + [nodes[|nodes| - 1]];
    }
  }

  lemma {:induction false} NodeIndexUnique(nodes: seq<RuleNode>)
    requires NodeIdsOk(nodes)
    ensures forall n | n in nodes :: n.id in NodeIndex(nodes) && NodeIndex(nodes)[n.id] == n
  {
    if nodes != [] {
      NodeIndexUnique(nodes[..|nodes| - 1]);
      assert nodes == nodes[..|nodes| - 1] + [nodes[|nodes| - 1]];
    }
  }

  lemma EdgeIndexAt(edges: seq<Edge>, s: string)
    ensures s in EdgeIndex(edges) <==> EdgesFrom(edges, s) != []
    ensures s in EdgeIndex(edges) ==> EdgeIndex(edges)[s] == EdgesFrom(edges, s)
  {
    EdgesFromMembers(edges, s);
    if EdgesFrom(edges, s) != [] {
      assert EdgesFrom(edges, s)[0] in edges;
    }
  }

  lemma EdgeIndexGrows(edges: seq<Edge>, e: Edge)
    ensures EdgeIndex(edges + [e])
         == EdgeIndex(edges)[e.source := (if e.source in EdgeIndex(edges) then EdgeIndex(edges)[e.source] else []) + [e]]
  {
    var grown := edges + [e];
    var index := EdgeIndex(edges);
    var want := index[e.source := (if e.source in index then index[e.source] else []) + [e]];
    assert grown[|grown| - 1] == e && grown[..|grown| - 1] == edges;
    forall s ensures (s in EdgeIndex(grown) <==> s in want) && (s in want ==> EdgeIndex(grown)[s] == want[s]) {
      EdgeIndexAt(edges, s);
      EdgeIndexAt(grown, s);
      assert EdgesFrom(grown, s) == EdgesFrom(edges, s) + (if e.source == s then [e] else []);
    }
  }

  /** The two indexes, built by the loops of evalDSL. */
  method BuildGraph(d: Program) returns (g: Graph)
    ensures g == GraphOf(d)
  {
    var nodeById: map<string, RuleNode> := map[];
    for i := 0 to |d.nodes|
      invariant nodeById == NodeIndex(d.nodes[..i])
    {
      nodeById := nodeById[d.nodes[i].id := d.nodes[i]];
      assert d.nodes[..i + 1][..i] == d.nodes[..i];
    }
    var edgesFrom: map<string, seq<Edge>> := map[];
    for i := 0 to |d.edges|
      invariant edgesFrom == EdgeIndex(d.edges[..i])
    {
      var e := d.edges[i];
      EdgeIndexGrows(d.edges[..i], e);
      assert d.edges[..i + 1] == d.edges[..i] + [e];
      edgesFrom := edgesFrom[e.source := (if e.source in edgesFrom then edgesFrom[e.source] else []) + [e]];
    }
    assert d.nodes[..|d.nodes|] == d.nodes && d.edges[..|d.edges|] == d.edges;
    return Graph(d.schema, nodeById, edgesFrom);
  }
}

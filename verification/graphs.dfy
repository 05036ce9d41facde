/**
  Finite directed graphs as values, with the networkx operations the engine
  uses: predecessors, ancestors, descendants, induced subgraphs, edge removal
  and `compose` (union). Ancestors are characterised relationally, as the
  least set containing the targets and closed under taking predecessors.
 */
module Graphs {
  import opened Identity

  /** A directed graph: a vertex set and an edge set of (source, target) pairs. */
  datatype Graph = Graph(vertices: set<Id>, edges: set<(Id, Id)>)

  /** Every edge joins two vertices of the graph, as in any networkx graph. */
  ghost predicate Valid(g: Graph) {
    forall e :: e in g.edges ==> e.0 in g.vertices && e.1 in g.vertices
  }

  /** `graph.predecessors(v)` as a set. */
  function Preds(g: Graph, v: Id): (p: set<Id>)
    ensures forall u :: u in p <==> (u, v) in g.edges
  {
    set e | e in g.edges && e.1 == v :: e.0
  }

  /** The vertices with at least one out-edge. */
  function Sources(g: Graph): set<Id> {
    set e | e in g.edges :: e.0
  }

  /** The same graph with every edge turned around. */
  function Reverse(g: Graph): (r: Graph)
    ensures r.vertices == g.vertices
    ensures forall u, v :: (u, v) in r.edges <==> (v, u) in g.edges
    ensures Valid(g) ==> Valid(r)
  {
    Graph(g.vertices, set e | e in g.edges :: (e.1, e.0))
  }

  /** S contains the source of every edge whose target it contains. */
  ghost predicate PredClosed(g: Graph, s: set<Id>) {
    forall e :: e in g.edges && e.1 in s ==> e.0 in s
  }

  function PredStep(g: Graph, s: set<Id>): set<Id> {
    s + set e | e in g.edges && e.1 in s :: e.0
  }

  lemma {:induction false} ProperSubsetSmaller<T>(a: set<T>, b: set<T>)
    requires a < b
    ensures |a| < |b|
  {
    if a == {} {
      var x :| x in b;
      assert |b| >= |{x}| == 1;
    } else {
      var y :| y in a;
      ProperSubsetSmaller(a - {y}, b - {y});
    }
  }

  /**
    `{t} ∪ nx.ancestors(g, t)` over all targets t: the targets together with
    every vertex that has a path to one of them.
   */
  function AncestorsOrSelf(g: Graph, targets: set<Id>): (r: set<Id>)
    ensures targets <= r
    ensures PredClosed(g, r)
    ensures r <= targets + Sources(g)
    ensures Valid(g) ==> r <= targets + g.vertices
    decreases |Sources(g) - targets|
  {
    var next := PredStep(g, targets);
    if next == targets then targets
    else
      ProperSubsetSmaller(Sources(g) - next, Sources(g) - targets);
      AncestorsOrSelf(g, next)
  }

  /** The ancestor closure is the least predecessor-closed set holding the targets. */
  lemma {:induction false} AncestorsLeast(g: Graph, targets: set<Id>, s: set<Id>)
    requires targets <= s
    requires PredClosed(g, s)
    ensures AncestorsOrSelf(g, targets) <= s
    decreases |Sources(g) - targets|
  {
    var next := PredStep(g, targets);
    if next != targets {
      ProperSubsetSmaller(Sources(g) - next, Sources(g) - targets);
      AncestorsLeast(g, next, s);
    }
  }

  /** Enlarging the targets enlarges the ancestor closure. */
  lemma AncestorsMonotone(g: Graph, t1: set<Id>, t2: set<Id>)
    requires t1 <= t2
    ensures AncestorsOrSelf(g, t1) <= AncestorsOrSelf(g, t2)
  {
    AncestorsLeast(g, t1, AncestorsOrSelf(g, t2));
  }

  /** `nx.descendants(g, f)`: every vertex reachable from f, never f itself. */
  function Descendants(g: Graph, f: Id): (d: set<Id>)
    ensures f !in d
    ensures forall e :: e in g.edges && (e.0 == f || e.0 in d) && e.1 != f ==> e.1 in d
    ensures Valid(g) ==> d <= g.vertices
  {
    var r := Reverse(g);
    var d := AncestorsOrSelf(r, {f}) - {f};
    assert forall e :: e in g.edges ==> (e.1, e.0) in r.edges;
    d
  }

  /** The descendants of f lie inside every set that is closed under successors apart from f. */
  lemma DescendantsLeast(g: Graph, f: Id, s: set<Id>)
    requires forall e :: e in g.edges && (e.0 == f || e.0 in s) && e.1 != f ==> e.1 in s
    ensures Descendants(g, f) <= s
  {
    assert PredClosed(Reverse(g), s + {f});
    AncestorsLeast(Reverse(g), {f}, s + {f});
  }

  /** `g.subgraph(s).copy()`: the vertices of g in s and the edges between them. */
  function Induced(g: Graph, s: set<Id>): (h: Graph)
    ensures h.vertices == g.vertices * s
    ensures forall e :: e in h.edges <==> e in g.edges && e.0 in s && e.1 in s
    ensures Valid(g) ==> Valid(h)
  {
    Graph(g.vertices * s, set e | e in g.edges && e.0 in s && e.1 in s)
  }

  /** `nx.compose(a, b)`: the union of vertices and of edges. */
  function Union(a: Graph, b: Graph): (u: Graph)
    ensures Valid(a) && Valid(b) ==> Valid(u)
  {
    Graph(a.vertices + b.vertices, a.edges + b.edges)
  }

  /** Removes every edge `(u, v)` for the predecessors u of v. */
  function RemoveInEdges(g: Graph, v: Id): (r: Graph)
    ensures r.vertices == g.vertices
    ensures forall e :: e in r.edges <==> e in g.edges && e.1 != v
    ensures Valid(g) ==> Valid(r)
  {
    Graph(g.vertices, set e | e in g.edges && e.1 != v)
  }
}

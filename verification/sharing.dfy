/**
  Mutualization across conditional nodes.

  Two conditional nodes whose ancestor subgraphs coincide apart from the node
  itself get renamed copies that coincide apart from the node itself: the
  renaming of a vertex never depends on which conditional node the copy
  belongs to. Once both copies are composed into the graph, every renamed
  vertex is therefore shared and computed once.
 */
module Sharing {
  import opened Identity
  import opened Ordering
  import opened Graphs
  import opened Topo
  import opened Specializer

  /**
    h1 (copy for c1) and h2 (copy for c2) are the same graph apart from the
    conditional node: the same other vertices, the same edges not into the
    node, each node absent from the other copy and without out-edges.
   */
  ghost predicate Twins(h1: Graph, c1: string, h2: Graph, c2: string) {
    && Valid(h1) && Valid(h2)
    && Name(c2) !in h1.vertices && Name(c1) !in h2.vertices
    && h1.vertices - {Name(c1)} == h2.vertices - {Name(c2)}
    && (forall e :: e in h1.edges ==> e.0 != Name(c1))
    && (forall e :: e in h2.edges ==> e.0 != Name(c2))
    && (forall e :: e in h1.edges && e.1 != Name(c1) ==> e in h2.edges)
    && (forall e :: e in h2.edges && e.1 != Name(c2) ==> e in h1.edges)
  }

  /** Renaming yields a plain name only from that same name. */
  lemma RenameKeepsNames(x: Id, c: string, f: string, v: Atom, d: set<Id>, n: string)
    requires Rename(x, c, f, v, d) == Name(n)
    ensures x == Name(n)
  {
  }

  /** In twin copies, a vertex other than the nodes reaches the same vertices, the nodes aside. */
  lemma TwinsDescendants(h1: Graph, c1: string, h2: Graph, c2: string, f: Id)
    requires Twins(h1, c1, h2, c2)
    requires f != Name(c1) && f != Name(c2)
    ensures Descendants(h1, f) - {Name(c1)} <= Descendants(h2, f)
  {
    var s := Descendants(h2, f) + {Name(c1)};
    forall e | e in h1.edges && (e.0 == f || e.0 in s) && e.1 != f
      ensures e.1 in s
    {
      if e.1 != Name(c1) {
        assert e in h2.edges;
      }
    }
    DescendantsLeast(h1, f, s);
  }

  /** The vertex half of RelabelTwins, seen from h1. */
  lemma RelabelTwinsVertices(h1: Graph, c1: string, h2: Graph, c2: string, f: string, v: Atom, d1: set<Id>, d2: set<Id>)
    requires Name(c2) !in h1.vertices
    requires h1.vertices - {Name(c1)} == h2.vertices - {Name(c2)}
    requires forall x :: x in h1.vertices && x != Name(c1) ==> (x in d1 <==> x in d2)
    ensures Name(c2) !in Relabel(h1, c1, f, v, d1).vertices
    ensures Relabel(h1, c1, f, v, d1).vertices - {Name(c1)} <= Relabel(h2, c2, f, v, d2).vertices
  {
    var r1, r2 := Relabel(h1, c1, f, v, d1), Relabel(h2, c2, f, v, d2);
    forall y | y in r1.vertices
      ensures y != Name(c2)
      ensures y != Name(c1) ==> y in r2.vertices
    {
      var x :| x in h1.vertices && Rename(x, c1, f, v, d1) == y;
      if y == Name(c2) {
        RenameKeepsNames(x, c1, f, v, d1, c2);
      }
      if y != Name(c1) {
        assert x in h1.vertices - {Name(c1)};
        assert x in h2.vertices;
        assert Rename(x, c2, f, v, d2) == y;
      }
    }
  }

  /** The edge half of RelabelTwins, seen from h1. */
  lemma RelabelTwinsEdges(h1: Graph, c1: string, h2: Graph, c2: string, f: string, v: Atom, d1: set<Id>, d2: set<Id>)
    requires Valid(h1)
    requires Name(c2) !in h1.vertices
    requires forall e :: e in h1.edges ==> e.0 != Name(c1)
    requires forall e :: e in h1.edges && e.1 != Name(c1) ==> e in h2.edges
    requires forall x :: x in h1.vertices && x != Name(c1) ==> (x in d1 <==> x in d2)
    ensures forall e :: e in Relabel(h1, c1, f, v, d1).edges ==> e.0 != Name(c1)
    ensures forall e :: e in Relabel(h1, c1, f, v, d1).edges && e.1 != Name(c1) ==>
      e in Relabel(h2, c2, f, v, d2).edges
  {
    var r1, r2 := Relabel(h1, c1, f, v, d1), Relabel(h2, c2, f, v, d2);
    RelabelEdgesAreImages(h1, c1, f, v, d1);
    forall e | e in r1.edges
      ensures e.0 != Name(c1)
      ensures e.1 != Name(c1) ==> e in r2.edges
    {
      var e0 :| e0 in h1.edges && e == (Rename(e0.0, c1, f, v, d1), Rename(e0.1, c1, f, v, d1));
      RelabelTwinEdge(h2, c1, c2, f, v, d1, d2, e0);
    }
  }

  /** One edge of h1 outside the node's in-edges has the same image under both renamings. */
  lemma RelabelTwinEdge(h2: Graph, c1: string, c2: string, f: string, v: Atom, d1: set<Id>, d2: set<Id>, e0: (Id, Id))
    requires e0.0 != Name(c1) && e0.0 != Name(c2) && e0.1 != Name(c2)
    requires e0.1 != Name(c1) ==> e0 in h2.edges
    requires e0.0 in d1 <==> e0.0 in d2
    requires e0.1 != Name(c1) ==> (e0.1 in d1 <==> e0.1 in d2)
    ensures Rename(e0.0, c1, f, v, d1) != Name(c1)
    ensures Rename(e0.1, c1, f, v, d1) != Name(c1) ==>
      (Rename(e0.0, c1, f, v, d1), Rename(e0.1, c1, f, v, d1)) in Relabel(h2, c2, f, v, d2).edges
  {
    if Rename(e0.0, c1, f, v, d1) == Name(c1) {
      RenameKeepsNames(e0.0, c1, f, v, d1, c1);
    }
    if Rename(e0.1, c1, f, v, d1) != Name(c1) {
      assert e0.1 != Name(c1);
      assert Rename(e0.0, c2, f, v, d2) == Rename(e0.0, c1, f, v, d1);
      assert Rename(e0.1, c2, f, v, d2) == Rename(e0.1, c1, f, v, d1);
    }
  }

  /** Relabelling twin copies with renamings that agree off the nodes keeps them twins. */
  lemma RelabelTwins(h1: Graph, c1: string, h2: Graph, c2: string, f: string, v: Atom, d1: set<Id>, d2: set<Id>)
    requires Twins(h1, c1, h2, c2)
    requires forall x :: x in h1.vertices && x != Name(c1) ==> (x in d1 <==> x in d2)
    ensures Twins(Relabel(h1, c1, f, v, d1), c1, Relabel(h2, c2, f, v, d2), c2)
  {
    RelabelTwinsVertices(h1, c1, h2, c2, f, v, d1, d2);
    RelabelTwinsEdges(h1, c1, h2, c2, f, v, d1, d2);
    forall x | x in h2.vertices && x != Name(c2)
      ensures x in d2 <==> x in d1
    {
      assert x in h2.vertices - {Name(c2)};
    }
    RelabelTwinsVertices(h2, c2, h1, c1, f, v, d2, d1);
    RelabelTwinsEdges(h2, c2, h1, c1, f, v, d2, d1);
  }

  /** A renaming that fixes every vertex gives back the same graph. */
  lemma RelabelIdentity(h: Graph, c: string, f: string, v: Atom, d: set<Id>)
    requires Valid(h)
    requires forall x :: x in h.vertices ==> Rename(x, c, f, v, d) == x
    ensures Relabel(h, c, f, v, d) == h
  {
    var r := Relabel(h, c, f, v, d);
    RelabelEdgesAreImages(h, c, f, v, d);
    assert r.vertices == h.vertices;
    assert r.edges == h.edges;
  }

  /** The conditional node forcing its own name changes nothing in a copy where it has no out-edge. */
  lemma ForceOwnNameInSink(h: Graph, c: string, v: Atom)
    requires Valid(h)
    requires forall e :: e in h.edges ==> e.0 != Name(c)
    ensures ForceOne(h, c, c, v) == h
  {
    if Name(c) in h.vertices {
      DescendantsLeast(h, Name(c), {});
      RelabelIdentity(h, c, c, v, Descendants(h, Name(c)));
    }
  }

  /** One forced entry applied to twin copies keeps them twins. */
  lemma ForceOneTwins(h1: Graph, c1: string, h2: Graph, c2: string, f: string, v: Atom)
    requires Twins(h1, c1, h2, c2)
    ensures Twins(ForceOne(h1, c1, f, v), c1, ForceOne(h2, c2, f, v), c2)
  {
    var n := Name(f);
    if n in h1.vertices && n in h2.vertices {
      var d1, d2 := Descendants(h1, n), Descendants(h2, n);
      TwinsDescendants(h1, c1, h2, c2, n);
      assert Twins(h2, c2, h1, c1);
      TwinsDescendants(h2, c2, h1, c1, n);
      RelabelTwins(h1, c1, h2, c2, f, v, d1, d2);
    } else if n in h1.vertices {
      assert n !in h2.vertices - {Name(c2)};
      assert f == c1;
      ForceOwnNameInSink(h1, c1, v);
    } else if n in h2.vertices {
      assert n !in h1.vertices - {Name(c1)};
      assert f == c2;
      ForceOwnNameInSink(h2, c2, v);
    }
  }

  /** All forced entries applied to twin copies keep them twins. */
  lemma {:induction false} ForceAllTwins(h1: Graph, c1: string, h2: Graph, c2: string, fs: Forcing)
    requires Twins(h1, c1, h2, c2)
    ensures Twins(ForceAll(h1, c1, fs), c1, ForceAll(h2, c2, fs), c2)
    decreases |fs|
  {
    if |fs| > 0 {
      ForceOneTwins(h1, c1, h2, c2, fs[0].0, fs[0].1);
      ForceAllTwins(ForceOne(h1, c1, fs[0].0, fs[0].1), c1, ForceOne(h2, c2, fs[0].0, fs[0].1), c2, fs[1..]);
    }
  }

  /**
    Conditional nodes c1 in g1 and c2 in g2 whose ancestor subgraphs are
    twins, forced with the same items, get copies with the same vertices and
    the same edges apart from the node itself.
   */
  lemma TwinAncestorsShareCopies(g1: Graph, c1: string, g2: Graph, c2: string, forced: Forcing)
    requires Twins(Induced(g1, AncestorsOrSelf(g1, {Name(c1)})), c1, Induced(g2, AncestorsOrSelf(g2, {Name(c2)})), c2)
    ensures CondCopy(g1, c1, forced).vertices - {Name(c1)} == CondCopy(g2, c2, forced).vertices - {Name(c2)}
    ensures forall e :: e in CondCopy(g1, c1, forced).edges && e.1 != Name(c1) ==> e in CondCopy(g2, c2, forced).edges
    ensures forall e :: e in CondCopy(g2, c2, forced).edges && e.1 != Name(c2) ==> e in CondCopy(g1, c1, forced).edges
  {
    ForceAllTwins(Induced(g1, AncestorsOrSelf(g1, {Name(c1)})), c1,
                  Induced(g2, AncestorsOrSelf(g2, {Name(c2)})), c2, SortByKey(forced));
  }

  /**
    Two distinct conditional nodes of an acyclic graph with the same strict
    ancestors and the same forced dict (keys in any written order) get
    renamed copies that coincide apart from the nodes themselves.
   */
  lemma SameAncestorsShareCopies(g: Graph, order: seq<Id>, c1: string, c2: string, f1: Forcing, f2: Forcing)
    requires IsTopologicalOrder(g, order)
    requires c1 != c2
    requires AncestorsOrSelf(g, {Name(c1)}) - {Name(c1)} == AncestorsOrSelf(g, {Name(c2)}) - {Name(c2)}
    requires DistinctKeys(f1)
    requires multiset(f1) == multiset(f2)
    ensures CondCopy(g, c1, f1).vertices - {Name(c1)} == CondCopy(g, c2, f2).vertices - {Name(c2)}
    ensures forall e :: e in CondCopy(g, c1, f1).edges && e.1 != Name(c1) ==> e in CondCopy(g, c2, f2).edges
    ensures forall e :: e in CondCopy(g, c2, f2).edges && e.1 != Name(c2) ==> e in CondCopy(g, c1, f1).edges
  {
    SortIgnoresWrittenOrder(f1, f2);
    assert CondCopy(g, c2, f2) == CondCopy(g, c2, f1);
    SameAncestorsAreTwins(g, order, c1, c2);
    TwinAncestorsShareCopies(g, c1, g, c2, f1);
  }

  /** Distinct nodes of an acyclic graph with the same strict ancestors have twin ancestor subgraphs. */
  lemma SameAncestorsAreTwins(g: Graph, order: seq<Id>, c1: string, c2: string)
    requires IsTopologicalOrder(g, order)
    requires c1 != c2
    requires AncestorsOrSelf(g, {Name(c1)}) - {Name(c1)} == AncestorsOrSelf(g, {Name(c2)}) - {Name(c2)}
    ensures Twins(Induced(g, AncestorsOrSelf(g, {Name(c1)})), c1, Induced(g, AncestorsOrSelf(g, {Name(c2)})), c2)
  {
    AncestorCopySink(g, order, c1);
    AncestorCopySink(g, order, c2);
    var a1, a2 := AncestorsOrSelf(g, {Name(c1)}), AncestorsOrSelf(g, {Name(c2)});
    assert Name(c2) !in a1 by {
      assert Name(c2) !in a2 - {Name(c2)};
    }
    assert Name(c1) !in a2 by {
      assert Name(c1) !in a1 - {Name(c1)};
    }
    InducedTwins(g, c1, c2, a1, a2);
  }

  /** Subgraphs induced by two sets equal apart from their nodes, neither node feeding its own set, are twins. */
  lemma InducedTwins(g: Graph, c1: string, c2: string, a1: set<Id>, a2: set<Id>)
    requires Valid(g)
    requires a1 - {Name(c1)} == a2 - {Name(c2)}
    requires Name(c2) !in a1 && Name(c1) !in a2
    requires forall e :: e in g.edges && e.1 in a1 ==> e.0 != Name(c1)
    requires forall e :: e in g.edges && e.1 in a2 ==> e.0 != Name(c2)
    ensures Twins(Induced(g, a1), c1, Induced(g, a2), c2)
  {
    var h1, h2 := Induced(g, a1), Induced(g, a2);
    assert h1.vertices - {Name(c1)} == g.vertices * (a1 - {Name(c1)});
    assert h2.vertices - {Name(c2)} == g.vertices * (a2 - {Name(c2)});
    forall e | e in h1.edges && e.1 != Name(c1)
      ensures e in h2.edges
    {
      assert e.0 in a1 - {Name(c1)};
      assert e.1 in a1 - {Name(c1)};
    }
    forall e | e in h2.edges && e.1 != Name(c2)
      ensures e in h1.edges
    {
      assert e.0 in a2 - {Name(c2)};
      assert e.1 in a2 - {Name(c2)};
    }
  }

  /** In an acyclic graph no edge leaves a node towards one of its own ancestors. */
  lemma AncestorCopySink(g: Graph, order: seq<Id>, c: string)
    requires IsTopologicalOrder(g, order)
    ensures forall e :: e in g.edges && e.1 in AncestorsOrSelf(g, {Name(c)}) ==> e.0 != Name(c)
  {
    forall e | e in g.edges && e.1 in AncestorsOrSelf(g, {Name(c)})
      ensures e.0 != Name(c)
    {
      if e.0 == Name(c) {
        var k := IndexOf(order, Name(c));
        AncestorsWithinPrefix(g, order, k);
        assert false;
      }
    }
  }
}

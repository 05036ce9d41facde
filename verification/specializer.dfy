/**
  The dependency graph and the specialization of conditional nodes.

  The dependency graph has an edge `dep -> n` for every declared parameter
  `dep` of every node `n`. Specialization then walks the conditional nodes (the
  nodes with a `forced_nodes` dict) in topological order. For each one it copies
  the node's ancestor subgraph, renames inside the copy every forced ancestor `f`
  to `(f, v)` and every descendant `x` of `f` to `x + (f, v)`, cuts the node's
  in-edges in the main graph and adds the renamed copy back.
 */
module Specializer {
  import opened Wrappers
  import opened Identity
  import opened Ordering
  import opened Graphs
  import opened Topo
  import opened Nodes

  /* ---------------------------------------------------------------- nodes_graph */

  /** `nodes_graph`: an edge from every declared parameter to its node; vertices are the edge ends. */
  function NodesGraph(nodes: map<string, Callable>): (g: Graph)
    ensures Valid(g)
    ensures forall d, n :: (Name(d), Name(n)) in g.edges <==> n in nodes && d in nodes[n].params
    ensures forall e :: e in g.edges ==> e.0.Name? && e.1.Name?
    ensures forall x :: x in g.vertices ==> exists e :: e in g.edges && (x == e.0 || x == e.1)
  {
    var edges := set n, d | n in nodes && d in nodes[n].params :: (Name(d), Name(n));
    Graph((set e | e in edges :: e.0) + (set e | e in edges :: e.1), edges)
  }

  /** A node is a vertex of the dependency graph exactly when it has a parameter or a dependent. */
  lemma NodeVertexIff(nodes: map<string, Callable>, n: string)
    requires n in nodes
    ensures Name(n) in NodesGraph(nodes).vertices <==>
      |nodes[n].params| > 0 || exists m :: m in nodes && n in nodes[m].params
  {
    var g := NodesGraph(nodes);
    if |nodes[n].params| > 0 {
      assert (Name(nodes[n].params[0]), Name(n)) in g.edges;
    }
    if m :| m in nodes && n in nodes[m].params {
      assert (Name(n), Name(m)) in g.edges;
    }
  }

  /* ---------------------------------------------------------------- get_cond_nodes */

  /** `get_cond_nodes`: the conditional names, in the order they occur in the given order. */
  function CondNodes(order: seq<Id>, conds: set<string>): (r: seq<string>)
    ensures forall c :: c in r <==> c in conds && Name(c) in order
  {
    if |order| == 0 then []
    else if order[0].Name? && order[0].name in conds then [order[0].name] + CondNodes(order[1..], conds)
    else CondNodes(order[1..], conds)
  }

  /** The position of the first occurrence of x in s. */
  ghost function IndexOf(s: seq<Id>, x: Id): (i: int)
    requires x in s
    ensures 0 <= i < |s| && s[i] == x
    ensures forall j :: 0 <= j < i ==> s[j] != x
  {
    if s[0] == x then 0 else 1 + IndexOf(s[1..], x)
  }

  /**
    On an order without repetitions, the conditional names come out once each
    and in the order of their first occurrence.
   */
  lemma {:induction false} CondNodesKeepOrder(order: seq<Id>, conds: set<string>)
    requires Distinct(order)
    ensures Distinct(CondNodes(order, conds))
    ensures forall i, j :: 0 <= i < j < |CondNodes(order, conds)| ==>
      IndexOf(order, Name(CondNodes(order, conds)[i])) < IndexOf(order, Name(CondNodes(order, conds)[j]))
  {
    if |order| > 0 {
      var tail := order[1..];
      var rest := CondNodes(tail, conds);
      assert Distinct(tail);
      CondNodesKeepOrder(tail, conds);
      IndexOfTail(order);
      if order[0].Name? && order[0].name in conds {
        ConsKeepsOrder(order, rest, CondNodes(order, conds));
      }
    }
  }

  /** Putting the first entry's name in front of a list ordered by position in the tail keeps it ordered. */
  lemma ConsKeepsOrder(order: seq<Id>, rest: seq<string>, r: seq<string>)
    requires Distinct(order) && |order| > 0
    requires order[0].Name? && r == [order[0].name] + rest
    requires forall j :: 0 <= j < |rest| ==> Name(rest[j]) in order[1..]
    requires forall i, j :: 0 <= i < j < |rest| ==>
      IndexOf(order[1..], Name(rest[i])) < IndexOf(order[1..], Name(rest[j]))
    ensures forall j :: 0 <= j < |r| ==> Name(r[j]) in order
    ensures forall i, j :: 0 <= i < j < |r| ==> IndexOf(order, Name(r[i])) < IndexOf(order, Name(r[j]))
  {
    IndexOfTail(order);
    forall j | 0 < j < |r|
      ensures Name(r[j]) in order[1..]
    {
      assert r[j] == rest[j - 1];
    }
    forall i, j | 0 <= i < j < |r|
      ensures IndexOf(order, Name(r[i])) < IndexOf(order, Name(r[j]))
    {
      if i > 0 {
        assert r[i] == rest[i - 1] && r[j] == rest[j - 1];
      }
    }
  }

  /** Past the first entry of a list without repetitions, positions shift by one. */
  lemma IndexOfTail(order: seq<Id>)
    requires Distinct(order) && |order| > 0
    ensures forall x :: x in order[1..] ==> x != order[0] && IndexOf(order, x) == 1 + IndexOf(order[1..], x)
  {
    forall x | x in order[1..]
      ensures x != order[0] && IndexOf(order, x) == 1 + IndexOf(order[1..], x)
    {
      var k :| 0 <= k < |order[1..]| && order[1..][k] == x;
      assert order[k + 1] == x;
    }
  }

  /** In a topological order, the conditional names follow every edge between them. */
  lemma CondNodesFollowEdges(g: Graph, order: seq<Id>, conds: set<string>)
    requires IsTopologicalOrder(g, order)
    ensures forall i, j ::
      (0 <= i < |CondNodes(order, conds)| && 0 <= j < |CondNodes(order, conds)| &&
       (Name(CondNodes(order, conds)[i]), Name(CondNodes(order, conds)[j])) in g.edges) ==> i < j
  {
    var r := CondNodes(order, conds);
    CondNodesKeepOrder(order, conds);
    forall i, j | 0 <= i < |r| && 0 <= j < |r| && (Name(r[i]), Name(r[j])) in g.edges
      ensures i < j
    {
      var a, b := IndexOf(order, Name(r[i])), IndexOf(order, Name(r[j]));
      assert a < b;
    }
  }

  /* ---------------------------------------------------------------- renaming */

  /**
    The renaming used for forced name f with value v in the copy of c's
    ancestors: f becomes `(f, v)`, each descendant x becomes `x + (f, v)`,
    c and every other vertex keep their identity.
   */
  function Rename(x: Id, c: string, f: string, v: Atom, desc: set<Id>): (y: Id)
    ensures x == Name(c) ==> y == x
    ensures y == x || (y.Tup? && |y.atoms| >= 2)
    ensures x != Tup([]) ==> Base(y) == Base(x)
  {
    if x == Name(c) then x
    else if x == Name(f) then Pair(f, v)
    else if x in desc then
      AppendPairKeepsBase(x, f, v);
      Concat(x, Pair(f, v))
    else x
  }

  /** `nx.relabel_nodes`: the image of every vertex and of every edge. */
  function Relabel(h: Graph, c: string, f: string, v: Atom, desc: set<Id>): (r: Graph)
    ensures forall x :: x in h.vertices ==> Rename(x, c, f, v, desc) in r.vertices
    ensures forall y :: y in r.vertices ==> exists x :: x in h.vertices && Rename(x, c, f, v, desc) == y
    ensures forall e :: e in h.edges ==> (Rename(e.0, c, f, v, desc), Rename(e.1, c, f, v, desc)) in r.edges
    ensures Valid(h) ==> Valid(r)
  {
    Graph(set x | x in h.vertices :: Rename(x, c, f, v, desc),
          set e | e in h.edges :: (Rename(e.0, c, f, v, desc), Rename(e.1, c, f, v, desc)))
  }

  /** Relabelling adds no edge: every edge of the result is the image of an edge of h. */
  lemma RelabelEdgesAreImages(h: Graph, c: string, f: string, v: Atom, desc: set<Id>)
    ensures forall e :: e in Relabel(h, c, f, v, desc).edges ==>
      exists e0 :: e0 in h.edges && e == (Rename(e0.0, c, f, v, desc), Rename(e0.1, c, f, v, desc))
  {
  }

  /**
    One forced entry `(f, v)` applied to the copy h of c's ancestor subgraph.
    A name that is not a vertex of h leaves it unchanged.
   */
  function ForceOne(h: Graph, c: string, f: string, v: Atom): (r: Graph)
    ensures Name(f) !in h.vertices ==> r == h
    ensures Name(c) in h.vertices ==> Name(c) in r.vertices
    ensures Name(f) in h.vertices && f != c ==> Pair(f, v) in r.vertices && Name(f) !in r.vertices
    ensures Name(f) in h.vertices ==>
      forall x :: x in Descendants(h, Name(f)) && x != Name(c) && x in h.vertices ==>
        Concat(x, Pair(f, v)) in r.vertices
    ensures forall x :: x in h.vertices && x != Name(f) && x !in Descendants(h, Name(f)) ==> x in r.vertices
    ensures forall x :: x in r.vertices ==> x in h.vertices || (x.Tup? && |x.atoms| >= 2)
    ensures Valid(h) ==> Valid(r)
  {
    if Name(f) !in h.vertices then h
    else
      var desc := Descendants(h, Name(f));
      var r := Relabel(h, c, f, v, desc);
      assert forall x :: x in h.vertices && f != c ==> Rename(x, c, f, v, desc) != Name(f);
      r
  }

  /**
    The edges of a forced copy are exactly the renamed edges of the copy
    before forcing (unchanged when f is not a vertex).
   */
  lemma ForceOneEdges(h: Graph, c: string, f: string, v: Atom)
    requires Name(f) in h.vertices
    ensures forall e :: e in h.edges ==>
      (Rename(e.0, c, f, v, Descendants(h, Name(f))), Rename(e.1, c, f, v, Descendants(h, Name(f))))
        in ForceOne(h, c, f, v).edges
    ensures forall e :: e in ForceOne(h, c, f, v).edges ==>
      exists e0 :: e0 in h.edges &&
        e == (Rename(e0.0, c, f, v, Descendants(h, Name(f))), Rename(e0.1, c, f, v, Descendants(h, Name(f))))
  {
    assert ForceOne(h, c, f, v) == Relabel(h, c, f, v, Descendants(h, Name(f)));
    RelabelEdgesAreImages(h, c, f, v, Descendants(h, Name(f)));
  }

  /** Forcing adds no vertex: every vertex of the forced copy is the renamed image of a vertex of the copy. */
  lemma ForceOneVerticesAreImages(h: Graph, c: string, f: string, v: Atom)
    requires Name(f) in h.vertices
    ensures forall y :: y in ForceOne(h, c, f, v).vertices ==>
      exists x :: x in h.vertices && Rename(x, c, f, v, Descendants(h, Name(f))) == y
  {
    assert ForceOne(h, c, f, v) == Relabel(h, c, f, v, Descendants(h, Name(f)));
  }

  /** The forced entries, in the given order, applied one after the other. */
  function ForceAll(h: Graph, c: string, fs: Forcing): (r: Graph)
    ensures Name(c) in h.vertices ==> Name(c) in r.vertices
    ensures forall x :: x in r.vertices ==> x in h.vertices || (x.Tup? && |x.atoms| >= 2)
    ensures Valid(h) ==> Valid(r)
    decreases |fs|
  {
    if |fs| == 0 then h
    else ForceAll(ForceOne(h, c, fs[0].0, fs[0].1), c, fs[1..])
  }

  /** Forced names none of which is a vertex leave the graph unchanged. */
  lemma {:induction false} ForceAllAbsentNames(h: Graph, c: string, fs: Forcing)
    requires forall i :: 0 <= i < |fs| ==> Name(fs[i].0) !in h.vertices
    ensures ForceAll(h, c, fs) == h
  {
    if |fs| > 0 {
      ForceAllAbsentNames(h, c, fs[1..]);
    }
  }

  /** The renamed copy of c's ancestor subgraph, forced entries taken in ascending key order. */
  function CondCopy(g: Graph, c: string, forced: Forcing): (h: Graph)
    ensures forall x :: x in h.vertices ==> x in g.vertices || (x.Tup? && |x.atoms| >= 2)
    ensures Valid(g) ==> Valid(h)
  {
    ForceAll(Induced(g, AncestorsOrSelf(g, {Name(c)})), c, SortByKey(forced))
  }

  /**
    One conditional node: cut its in-edges, then add its renamed ancestor copy.
    Nothing of g is lost except c's in-edges, and c's in-edges afterwards are
    exactly those of the copy.
   */
  function SpecializeCond(g: Graph, c: string, forced: Forcing): (r: Graph)
    ensures g.vertices <= r.vertices
    ensures forall e :: e in g.edges && e.1 != Name(c) ==> e in r.edges
    ensures forall u :: (u, Name(c)) in r.edges <==> (u, Name(c)) in CondCopy(g, c, forced).edges
    ensures CondCopy(g, c, forced).vertices <= r.vertices
    ensures forall x :: x in r.vertices ==> x in g.vertices || x in CondCopy(g, c, forced).vertices
    ensures forall e :: e in r.edges ==> (e in g.edges && e.1 != Name(c)) || e in CondCopy(g, c, forced).edges
    ensures forall x :: x in r.vertices ==> x in g.vertices || (x.Tup? && |x.atoms| >= 2)
    ensures Valid(g) ==> Valid(r)
  {
    Union(RemoveInEdges(g, Name(c)), CondCopy(g, c, forced))
  }

  /** `model_graph`: the conditional nodes specialized one after the other. */
  function ModelGraph(g: Graph, forced: map<string, Forcing>, conds: seq<string>): (r: Graph)
    requires forall i :: 0 <= i < |conds| ==> conds[i] in forced
    ensures g.vertices <= r.vertices
    ensures forall e :: e in g.edges && !(e.1.Name? && e.1.name in conds) ==> e in r.edges
    ensures forall x :: x in r.vertices ==> x in g.vertices || (x.Tup? && |x.atoms| >= 2)
    ensures Valid(g) ==> Valid(r)
    decreases |conds|
  {
    if |conds| == 0 then g
    else ModelGraph(SpecializeCond(g, conds[0], forced[conds[0]]), forced, conds[1..])
  }

  /* ---------------------------------------------------------------- properties */

  /** Cutting c's in-edges and adding back c's unrenamed ancestor subgraph restores g. */
  lemma ReaddingAncestorsRestores(g: Graph, c: string)
    ensures Union(RemoveInEdges(g, Name(c)), Induced(g, AncestorsOrSelf(g, {Name(c)}))) == g
  {
    var a := AncestorsOrSelf(g, {Name(c)});
    var u := Union(RemoveInEdges(g, Name(c)), Induced(g, a));
    assert u.vertices == g.vertices;
    forall e | e in g.edges
      ensures e in u.edges
    {
      if e.1 == Name(c) {
        assert e.0 in a;
      }
    }
    assert u.edges == g.edges;
  }

  /** Forcing names that are not ancestors of c leaves the whole graph unchanged: no auxiliary vertex appears. */
  lemma UnrelatedForcingNoEffect(g: Graph, c: string, forced: Forcing)
    requires forall i :: 0 <= i < |forced| ==> Name(forced[i].0) !in AncestorsOrSelf(g, {Name(c)})
    ensures SpecializeCond(g, c, forced) == g
  {
    var sorted := SortByKey(forced);
    var h := Induced(g, AncestorsOrSelf(g, {Name(c)}));
    forall i | 0 <= i < |sorted|
      ensures Name(sorted[i].0) !in h.vertices
    {
      assert sorted[i] in multiset(forced);
    }
    ForceAllAbsentNames(h, c, sorted);
    ReaddingAncestorsRestores(g, c);
  }

  /** A node forcing its own name has no effect on an acyclic graph. */
  lemma SelfForcingNoEffect(g: Graph, order: seq<Id>, c: string, v: Atom)
    requires IsTopologicalOrder(g, order)
    ensures SpecializeCond(g, c, [(c, v)]) == g
  {
    var a := AncestorsOrSelf(g, {Name(c)});
    var h := Induced(g, a);
    assert SortByKey([(c, v)]) == [(c, v)];
    assert [(c, v)][1..] == [];
    assert ForceAll(h, c, [(c, v)]) == ForceAll(ForceOne(h, c, c, v), c, []);
    assert CondCopy(g, c, [(c, v)]) == ForceOne(h, c, c, v);
    if Name(c) in h.vertices {
      var k := IndexOf(order, Name(c));
      AncestorsWithinPrefix(g, order, k);
      assert Respects(h, order);
      DescendantsWithinSuffix(h, order, k);
      PrefixSuffixDisjoint(order, k + 1);
      assert Valid(h);
      var desc := Descendants(h, Name(c));
      assert desc == {};
      var r := Relabel(h, c, c, v, desc);
      assert forall x :: Rename(x, c, c, v, desc) == x;
      assert r.vertices == h.vertices;
      assert r.edges == h.edges;
    }
    ReaddingAncestorsRestores(g, c);
  }

  /**
    A forced descendant of an earlier forced entry is renamed by that entry,
    so its own entry later finds no vertex of its name and changes nothing.
   */
  lemma ForcingShadowedByAncestor(h: Graph, c: string, g: string, w: Atom, f: string, v: Atom)
    requires Name(g) in h.vertices
    requires Name(f) in Descendants(h, Name(g)) && f != c
    ensures Name(f) !in ForceOne(h, c, g, w).vertices
    ensures ForceOne(ForceOne(h, c, g, w), c, f, v) == ForceOne(h, c, g, w)
  {
    var desc := Descendants(h, Name(g));
    var r := ForceOne(h, c, g, w);
    assert r == Relabel(h, c, g, w, desc);
    forall x | x in h.vertices
      ensures Rename(x, c, g, w, desc) != Name(f)
    {
      if x == Name(f) {
        assert Rename(x, c, g, w, desc) == Concat(x, Pair(g, w));
      }
    }
  }

  /**
    A forced vertex `(f, v)` downstream of a later forced entry `(g, w)` is
    renamed to the longer tuple `(f, v, g, w)`, which recomputes f.
   */
  lemma ForcedPairRenamedByAncestor(h: Graph, c: string, g: string, w: Atom, f: string, v: Atom)
    requires Valid(h)
    requires Name(g) in h.vertices
    requires Pair(f, v) in Descendants(h, Name(g)) && f != g
    ensures Pair(f, v) !in ForceOne(h, c, g, w).vertices
    ensures Tup([S(f), v, S(g), w]) in ForceOne(h, c, g, w).vertices
  {
    var desc := Descendants(h, Name(g));
    assert Pair(f, v) in h.vertices;
    RelabelRenamesPair(h, c, g, w, desc, f, v);
    assert ForceOne(h, c, g, w) == Relabel(h, c, g, w, desc);
  }

  /** The relabelling step of ForcedPairRenamedByAncestor, for any descendant set holding `(f, v)`. */
  lemma RelabelRenamesPair(h: Graph, c: string, g: string, w: Atom, desc: set<Id>, f: string, v: Atom)
    requires Pair(f, v) in h.vertices
    requires Pair(f, v) in desc && f != g
    ensures Pair(f, v) !in Relabel(h, c, g, w, desc).vertices
    ensures Tup([S(f), v, S(g), w]) in Relabel(h, c, g, w, desc).vertices
  {
    assert Concat(Pair(f, v), Pair(g, w)) == Tup([S(f), v, S(g), w]) by {
      assert [S(f), v] + [S(g), w] == [S(f), v, S(g), w];
    }
    assert Rename(Pair(f, v), c, g, w, desc) == Tup([S(f), v, S(g), w]);
    forall x | x in h.vertices
      ensures Rename(x, c, g, w, desc) != Pair(f, v)
    {
      RenameNeverGivesPair(x, c, g, w, desc, f, v);
    }
  }

  lemma RenameNeverGivesPair(x: Id, c: string, g: string, w: Atom, desc: set<Id>, f: string, v: Atom)
    requires Pair(f, v) in desc && f != g
    ensures Rename(x, c, g, w, desc) != Pair(f, v)
  {
    if x != Name(c) && x != Name(g) && x in desc {
      var y := Concat(x, Pair(g, w));
      if |AsTuple(x)| == 0 {
        assert y.atoms[|AsTuple(x)|..] == [S(g), w];
        assert y.atoms == [S(g), w];
      } else {
        assert |y.atoms| >= 3;
      }
    }
  }

  /** Mutualization: the same forced dict written in another key order specializes identically. */
  lemma WrittenOrderIrrelevant(g: Graph, c: string, f1: Forcing, f2: Forcing)
    requires DistinctKeys(f1)
    requires multiset(f1) == multiset(f2)
    ensures SpecializeCond(g, c, f1) == SpecializeCond(g, c, f2)
  {
    SortIgnoresWrittenOrder(f1, f2);
  }

  /** Two forcing tables that agree up to key order on every conditional node give the same graph. */
  lemma {:induction false} ModelGraphIgnoresWrittenOrder(
    g: Graph, forced1: map<string, Forcing>, forced2: map<string, Forcing>, conds: seq<string>)
    requires forall i :: 0 <= i < |conds| ==> conds[i] in forced1 && conds[i] in forced2
    requires forall i :: 0 <= i < |conds| ==>
      DistinctKeys(forced1[conds[i]]) && multiset(forced1[conds[i]]) == multiset(forced2[conds[i]])
    ensures ModelGraph(g, forced1, conds) == ModelGraph(g, forced2, conds)
    decreases |conds|
  {
    if |conds| > 0 {
      WrittenOrderIrrelevant(g, conds[0], forced1[conds[0]], forced2[conds[0]]);
      ModelGraphIgnoresWrittenOrder(SpecializeCond(g, conds[0], forced1[conds[0]]), forced1, forced2, conds[1..]);
    }
  }

  /* ---------------------------------------------------------------- graph_subcomponent_nodes */

  /** The closure of a union of targets is the union of their closures. */
  lemma AncestorsOfUnion(g: Graph, t1: set<Id>, t2: set<Id>)
    ensures AncestorsOrSelf(g, t1 + t2) == AncestorsOrSelf(g, t1) + AncestorsOrSelf(g, t2)
  {
    AncestorsMonotone(g, t1, t1 + t2);
    AncestorsMonotone(g, t2, t1 + t2);
    AncestorsLeast(g, t1 + t2, AncestorsOrSelf(g, t1) + AncestorsOrSelf(g, t2));
  }

  /** The targets of a list as graph identities. */
  function TargetIds(ts: seq<string>): set<Id> {
    set t | t in ts :: Name(t)
  }

  /**
    `graph_subcomponent_nodes`: the targets and all their ancestors. networkx
    refuses a target that is not a vertex.
   */
  function SubcomponentNodes(g: Graph, ts: seq<string>): (r: Result<set<Id>, Error>)
    ensures r.Success? <==> forall i :: 0 <= i < |ts| ==> Name(ts[i]) in g.vertices
    ensures r.Failure? ==> r.error.NotInGraph? && r.error.key !in g.vertices
    ensures r.Success? ==> r.value == AncestorsOrSelf(g, TargetIds(ts))
  {
    if |ts| == 0 then
      assert TargetIds(ts) == {};
      Success({})
    else if Name(ts[0]) !in g.vertices then Failure(NotInGraph(Name(ts[0])))
    else
      var rest := SubcomponentNodes(g, ts[1..]);
      if rest.Failure? then rest
      else
        assert TargetIds(ts) == {Name(ts[0])} + TargetIds(ts[1..]);
        AncestorsOfUnion(g, {Name(ts[0])}, TargetIds(ts[1..]));
        Success(AncestorsOrSelf(g, {Name(ts[0])}) + rest.value)
  }
}

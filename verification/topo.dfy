/**
  Topological orders, standing in for `nx.topological_sort`. The model does not
  reproduce networkx's tie-breaking: any order in which every edge points
  forward is accepted, and a graph with no such order is reported as a
  `CycleError` carrying a set of vertices each of which has a predecessor in
  the set (every finite such set contains a cycle).
 */
module Topo {
  import opened Wrappers
  import opened Identity
  import opened Graphs

  /** Every edge of g joins two entries of s and points forward in s. */
  ghost predicate Respects(g: Graph, s: seq<Id>) {
    && (forall e :: e in g.edges ==> e.0 in s && e.1 in s)
    && (forall i, j :: 0 <= i < |s| && 0 <= j < |s| && (s[i], s[j]) in g.edges ==> i < j)
  }

  /** s lists every vertex of g once, and every edge points forward. */
  ghost predicate IsTopologicalOrder(g: Graph, s: seq<Id>) {
    && Distinct(s)
    && (forall v :: v in g.vertices <==> v in s)
    && Respects(g, s)
  }

  /** A nonempty set of vertices each of which has a predecessor inside the set. */
  ghost predicate BlocksOrder(g: Graph, w: set<Id>) {
    && w != {}
    && w <= g.vertices
    && forall v :: v in w ==> Preds(g, v) * w != {}
  }

  /**
    Kahn's algorithm: repeatedly emit a remaining vertex none of whose
    predecessors remains. When no such vertex exists the remaining set blocks
    every order.
   */
  method TopologicalSort(g: Graph) returns (r: Result<seq<Id>, Error>)
    requires Valid(g)
    ensures r.Success? ==> IsTopologicalOrder(g, r.value)
    ensures r.Failure? ==> r.error.CycleError? && BlocksOrder(g, r.error.blocked)
  {
    var rest := g.vertices;
    var order: seq<Id> := [];
    while rest != {}
      invariant rest <= g.vertices
      invariant forall v :: v in order <==> v in g.vertices && v !in rest
      invariant Distinct(order)
      invariant forall i, j :: 0 <= i < |order| && 0 <= j < |order| && (order[i], order[j]) in g.edges ==> i < j
      invariant forall j, u :: 0 <= j < |order| && (u, order[j]) in g.edges ==> u in order
      decreases |rest|
    {
      if v :| v in rest && Preds(g, v) * rest == {} {
        order := order + [v];
        rest := rest - {v};
      } else {
        return Failure(CycleError(rest));
      }
    }
    return Success(order);
  }

  /**
    A graph with a topological order has no blocking set: inside any nonempty
    set of vertices, the entry that comes first in the order has no
    predecessor in the set.
   */
  lemma OrderedGraphHasNoBlockingSet(g: Graph, s: seq<Id>, w: set<Id>)
    requires IsTopologicalOrder(g, s)
    ensures !BlocksOrder(g, w)
  {
    if w != {} && w <= g.vertices {
      var v :| v in w;
      assert v in s;
      FirstEntryUnblocked(g, s, w, 0);
    }
  }

  lemma {:induction false} FirstEntryUnblocked(g: Graph, s: seq<Id>, w: set<Id>, k: nat)
    requires IsTopologicalOrder(g, s)
    requires k <= |s|
    requires forall i :: 0 <= i < k ==> s[i] !in w
    requires exists i :: k <= i < |s| && s[i] in w
    ensures exists v :: v in w && Preds(g, v) * w == {}
    decreases |s| - k
  {
    if s[k] in w {
      forall u | u in Preds(g, s[k])
        ensures u !in w
      {
        var i :| 0 <= i < |s| && s[i] == u;
        assert i < k;
      }
      assert Preds(g, s[k]) * w == {};
    } else {
      FirstEntryUnblocked(g, s, w, k + 1);
    }
  }

  /** The entries of s at positions lo up to, not including, hi. */
  ghost function Entries(s: seq<Id>, lo: int, hi: int): (r: set<Id>)
    requires 0 <= lo <= hi <= |s|
    ensures forall i :: lo <= i < hi ==> s[i] in r
    ensures forall x :: x in r ==> exists i :: lo <= i < hi && s[i] == x
  {
    set i | lo <= i < hi :: s[i]
  }

  /** The ancestors of an entry of an order respecting g all occur no later than it. */
  lemma AncestorsWithinPrefix(g: Graph, s: seq<Id>, k: int)
    requires Respects(g, s)
    requires 0 <= k < |s|
    ensures AncestorsOrSelf(g, {s[k]}) <= Entries(s, 0, k + 1)
  {
    var prefix := Entries(s, 0, k + 1);
    forall e | e in g.edges && e.1 in prefix
      ensures e.0 in prefix
    {
      var j :| 0 <= j < k + 1 && s[j] == e.1;
      var i :| 0 <= i < |s| && s[i] == e.0;
      assert i < j;
    }
    AncestorsLeast(g, {s[k]}, prefix);
  }

  /** The descendants of an entry of an order respecting g all occur after it. */
  lemma DescendantsWithinSuffix(g: Graph, s: seq<Id>, k: int)
    requires Respects(g, s)
    requires 0 <= k < |s|
    ensures Descendants(g, s[k]) <= Entries(s, k + 1, |s|)
  {
    SuffixClosedInReverse(g, s, k);
    AncestorsLeast(Reverse(g), {s[k]}, Entries(s, k, |s|));
    forall x | x in Descendants(g, s[k])
      ensures x in Entries(s, k + 1, |s|)
    {
      assert x in Entries(s, k, |s|);
      var i :| k <= i < |s| && s[i] == x;
      assert i != k;
    }
  }

  /** In a list without repetitions, a prefix and the rest share no entry. */
  lemma PrefixSuffixDisjoint(s: seq<Id>, k: int)
    requires Distinct(s)
    requires 0 <= k <= |s|
    ensures Entries(s, 0, k) * Entries(s, k, |s|) == {}
  {
    forall x | x in Entries(s, 0, k)
      ensures x !in Entries(s, k, |s|)
    {
      var i :| 0 <= i < k && s[i] == x;
      assert forall j :: k <= j < |s| ==> s[j] != s[i];
    }
  }

  lemma SuffixClosedInReverse(g: Graph, s: seq<Id>, k: int)
    requires Respects(g, s)
    requires 0 <= k < |s|
    ensures PredClosed(Reverse(g), Entries(s, k, |s|))
  {
    var r := Reverse(g);
    var later := Entries(s, k, |s|);
    forall e | e in r.edges && e.1 in later
      ensures e.0 in later
    {
      assert (e.1, e.0) in g.edges;
      var j :| k <= j < |s| && s[j] == e.1;
      var i :| 0 <= i < |s| && s[i] == e.0;
      assert j < i;
    }
  }
}

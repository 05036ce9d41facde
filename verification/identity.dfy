/**
  Graph identities. A vertex of a nodemodel graph is either a plain node or
  input name (a Python `str`) or a flat Python tuple such as `('x', 2)` or
  `('a', 'x', 5, 'y', 3)`. Tuple components are names or forced values.
 */
module Identity {
  import opened Wrappers

  /** One component of a flat tuple identity: a name or an integer value. */
  datatype Atom = S(s: string) | V(v: int)

  /** A graph vertex: a plain name or a flat tuple. */
  datatype Id = Name(name: string) | Tup(atoms: seq<Atom>)

  /** The errors the Python code raises, as values. */
  datatype Error =
    | KeyError(key: Id)              // a dict lookup on a missing key
    | IntKeyError(intKey: int)       // a dict lookup on a missing integer key
    | IndexError(key: Id)            // `k[0]` on an empty tuple
    | AttributeError(attr: string)   // `getattr` on a missing attribute
    | NoBranch(key: Id)              // an identity no resolution branch accepts
    | CycleError(blocked: set<Id>)   // the graph admits no topological order
    | NotInGraph(key: Id)            // networkx asked about a vertex the graph lacks

  /** An identity seen as a tuple: a non-tuple is a 1-tuple. */
  function AsTuple(k: Id): (t: seq<Atom>)
    ensures |t| >= 1 || k.Tup?
    ensures k.Name? ==> t == [S(k.name)]
  {
    match k
    case Name(n) => [S(n)]
    case Tup(atoms) => atoms
  }

  /** `custom_tuple_concat`: both arguments are promoted to tuples, then joined. */
  function Concat(a: Id, b: Id): (r: Id)
    ensures r.Tup?
    ensures |r.atoms| == |AsTuple(a)| + |AsTuple(b)|
    ensures r.atoms[..|AsTuple(a)|] == AsTuple(a)
    ensures r.atoms[|AsTuple(a)|..] == AsTuple(b)
  {
    Tup(AsTuple(a) + AsTuple(b))
  }

  /** The identity `(f, v)` of a forced vertex. */
  function Pair(f: string, v: Atom): Id {
    Tup([S(f), v])
  }

  /** `k[0] if isinstance(k, tuple) else k`; `None` models the IndexError of an empty tuple. */
  function Base(k: Id): (b: Option<Atom>)
    ensures b.None? <==> k == Tup([])
    ensures b.Some? ==> b.value == AsTuple(k)[0]
  {
    match k
    case Name(n) => Some(S(n))
    case Tup(atoms) => if |atoms| > 0 then Some(atoms[0]) else None
  }

  /** A non-tuple argument on either side behaves as the 1-tuple holding it. */
  lemma ConcatPromotesNames(n: string, a: Id, b: Id)
    ensures Concat(Name(n), b) == Concat(Tup([S(n)]), b)
    ensures Concat(a, Name(n)) == Concat(a, Tup([S(n)]))
  {
  }

  /**
    Appending a forcing pair to an identity adds exactly two atoms, keeps the
    identity's atoms as a prefix, and therefore keeps its base.
   */
  lemma AppendPairKeepsBase(x: Id, f: string, v: Atom)
    ensures |AsTuple(Concat(x, Pair(f, v)))| == |AsTuple(x)| + 2
    ensures AsTuple(Concat(x, Pair(f, v)))[..|AsTuple(x)|] == AsTuple(x)
    ensures x != Tup([]) ==> Base(Concat(x, Pair(f, v))) == Base(x)
    ensures Concat(x, Pair(f, v)) != x
  {
    var r := Concat(x, Pair(f, v));
    if x != Tup([]) {
      assert AsTuple(r)[0] == AsTuple(r)[..|AsTuple(x)|][0];
    }
    assert |AsTuple(r)| != |AsTuple(x)|;
  }
}

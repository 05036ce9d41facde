/**
  `ModelNode`: turns one vertex of the specialized graph into a compute step,
  a function together with the ordered list of vertices whose values it takes.

  Dispatch, in this order: a conditional node's name; any other name; a
  2-tuple `(f, v)`; a longer tuple, which recomputes the node named by its first
  component. For the first and last shapes the arguments are found among the
  vertex's graph predecessors by matching each predecessor's base (its first
  component, or the name itself) against the function's parameter names.
 */
module Resolver {
  import opened Wrappers
  import opened Identity
  import opened Nodes

  /** What a step runs: a user function, or a constant (the forced value of `(f, v)`). */
  datatype Fn = UserFn(f: Callable) | Constant(value: Atom)

  /** A resolved step: the function and the vertices supplying its arguments, in order. */
  datatype ModelNode = ModelNode(compute: Fn, inputs: seq<Id>)

  /** x is the last predecessor whose base is b: it has base b and no later predecessor does. */
  ghost predicate LastWithBase(preds: seq<Id>, x: Id, b: Atom) {
    exists j :: 0 <= j < |preds| && preds[j] == x && Base(x) == Some(b) &&
      forall j' :: j < j' < |preds| ==> Base(preds[j']) != Some(b)
  }

  /** Appending a predecessor with another base keeps the last one with base b. */
  lemma LastWithBaseExtend(preds: seq<Id>, x: Id, b: Atom)
    requires |preds| > 0
    requires LastWithBase(preds[..|preds| - 1], x, b)
    requires Base(preds[|preds| - 1]) != Some(b)
    ensures LastWithBase(preds, x, b)
  {
    var front := preds[..|preds| - 1];
    var j :| 0 <= j < |front| && front[j] == x && Base(x) == Some(b) &&
      forall j' :: j < j' < |front| ==> Base(front[j']) != Some(b);
    assert preds[j] == x;
    forall j' | j < j' < |preds|
      ensures Base(preds[j']) != Some(b)
    {
      if j' < |front| {
        assert preds[j'] == front[j'];
      }
    }
  }

  /** Storing the last predecessor under its base keeps every key at its last predecessor. */
  lemma LastWithBaseUpdate(preds: seq<Id>, m: map<Atom, Id>, r: map<Atom, Id>)
    requires |preds| > 0 && Base(preds[|preds| - 1]).Some?
    requires forall b :: b in m ==> LastWithBase(preds[..|preds| - 1], m[b], b)
    requires r == m[Base(preds[|preds| - 1]).value := preds[|preds| - 1]]
    ensures forall b :: b in r ==> LastWithBase(preds, r[b], b)
  {
    var last := preds[|preds| - 1];
    forall b | b in r
      ensures LastWithBase(preds, r[b], b)
    {
      if b == Base(last).value {
        assert preds[|preds| - 1] == r[b];
      } else {
        LastWithBaseExtend(preds, r[b], b);
      }
    }
  }

  /** No predecessor is the empty tuple exactly when none of the front is and the last is not. */
  lemma NoEmptySplit(preds: seq<Id>, front: seq<Id>)
    requires |preds| > 0 && front == preds[..|preds| - 1]
    ensures (forall i :: 0 <= i < |preds| ==> preds[i] != Tup([])) <==>
      (forall i :: 0 <= i < |front| ==> front[i] != Tup([])) && preds[|preds| - 1] != Tup([])
  {
    assert forall i :: 0 <= i < |front| ==> front[i] == preds[i];
  }

  /** One step of BaseDict: storing the last predecessor keeps every property of the dict. */
  lemma BaseDictStep(preds: seq<Id>, front: seq<Id>, m: map<Atom, Id>, r: map<Atom, Id>)
    requires |preds| > 0 && front == preds[..|preds| - 1]
    requires forall i :: 0 <= i < |preds| ==> preds[i] != Tup([])
    requires forall i :: 0 <= i < |front| ==> Base(front[i]).value in m
    requires forall b :: b in m ==> m[b] in front && Base(m[b]) == Some(b)
    requires forall b :: b in m ==> LastWithBase(front, m[b], b)
    requires r == m[Base(preds[|preds| - 1]).value := preds[|preds| - 1]]
    ensures forall i :: 0 <= i < |preds| ==> Base(preds[i]).value in r
    ensures forall b :: b in r ==> r[b] in preds && Base(r[b]) == Some(b)
    ensures r[Base(preds[|preds| - 1]).value] == preds[|preds| - 1]
    ensures forall b :: b in r ==> LastWithBase(preds, r[b], b)
  {
    assert forall i :: 0 <= i < |front| ==> front[i] == preds[i];
    LastWithBaseUpdate(preds, m, r);
  }

  /** `{base(k): k for k in preds}`: a later predecessor with an equal base overwrites an earlier one. */
  function BaseDict(preds: seq<Id>): (r: Result<map<Atom, Id>, Error>)
    ensures r.Success? <==> forall i :: 0 <= i < |preds| ==> preds[i] != Tup([])
    ensures r.Failure? ==> r.error == IndexError(Tup([]))
    ensures r.Success? ==> forall i :: 0 <= i < |preds| ==> Base(preds[i]).value in r.value
    ensures r.Success? ==> forall b :: b in r.value ==> r.value[b] in preds && Base(r.value[b]) == Some(b)
    ensures r.Success? && |preds| > 0 ==> r.value[Base(preds[|preds| - 1]).value] == preds[|preds| - 1]
    ensures r.Success? ==> forall b :: b in r.value ==> LastWithBase(preds, r.value[b], b)
  {
    if |preds| == 0 then Success(map[])
    else
      var init := preds[..|preds| - 1];
      var front := BaseDict(init);
      var last := preds[|preds| - 1];
      NoEmptySplit(preds, init);
      if front.Failure? then front
      else if last == Tup([]) then Failure(IndexError(last))
      else
        BaseDictStep(preds, init, front.value, front.value[Base(last).value := last]);
        Success(front.value[Base(last).value := last])
  }

  /** `[inputs_dict[k] for k in origin_inputs]`: a missing parameter raises KeyError. */
  function LookupAll(params: seq<string>, dict: map<Atom, Id>): (r: Result<seq<Id>, Error>)
    ensures r.Success? <==> forall i :: 0 <= i < |params| ==> S(params[i]) in dict
    ensures r.Success? ==> |r.value| == |params|
    ensures r.Success? ==> forall i :: 0 <= i < |params| ==> r.value[i] == dict[S(params[i])]
    ensures r.Failure? ==> exists i :: 0 <= i < |params| && S(params[i]) !in dict && r.error == KeyError(Name(params[i]))
  {
    if |params| == 0 then Success([])
    else if S(params[0]) !in dict then Failure(KeyError(Name(params[0])))
    else
      var rest := LookupAll(params[1..], dict);
      if rest.Failure? then
        var i :| 0 <= i < |params[1..]| && S(params[1..][i]) !in dict && rest.error == KeyError(Name(params[1..][i]));
        assert params[i + 1] == params[1..][i];
        rest
      else Success([dict[S(params[0])]] + rest.value)
  }

  /** Some predecessor has base p. */
  ghost predicate Matched(p: string, preds: seq<Id>) {
    exists j :: 0 <= j < |preds| && Base(preds[j]) == Some(S(p))
  }

  /**
    inputs lists, for each parameter in order, a predecessor whose base is that
    parameter: the last such predecessor in the enumeration.
   */
  ghost predicate Wired(params: seq<string>, preds: seq<Id>, inputs: seq<Id>) {
    && |inputs| == |params|
    && (forall i :: 0 <= i < |params| ==> inputs[i] in preds && Base(inputs[i]) == Some(S(params[i])))
    && (forall i :: 0 <= i < |params| ==> LastWithBase(preds, inputs[i], S(params[i])))
  }

  /** No predecessor is the empty tuple. */
  ghost predicate NoEmptyTuple(preds: seq<Id>) {
    forall i :: 0 <= i < |preds| ==> preds[i] != Tup([])
  }

  /** The arguments of a conditional node or a recomputed ancestor, matched by base. */
  function ResolveInputs(params: seq<string>, preds: seq<Id>): (r: Result<seq<Id>, Error>)
    ensures r.Success? <==> NoEmptyTuple(preds) && forall i :: 0 <= i < |params| ==> Matched(params[i], preds)
    ensures r.Success? ==> Wired(params, preds, r.value)
    ensures r.Failure? && NoEmptyTuple(preds) ==>
      exists i :: 0 <= i < |params| && !Matched(params[i], preds) && r.error == KeyError(Name(params[i]))
    ensures !NoEmptyTuple(preds) ==> r == Failure(IndexError(Tup([])))
  {
    var dict := BaseDict(preds);
    if dict.Failure? then Failure(dict.error)
    else
      forall b | b in dict.value ensures exists j :: 0 <= j < |preds| && Base(preds[j]) == Some(b) {
        var j :| 0 <= j < |preds| && preds[j] == dict.value[b];
      }
      LookupAll(params, dict.value)
  }

  /** The plain names of a parameter list, in order. */
  function Names(params: seq<string>): (r: seq<Id>)
    ensures |r| == |params|
    ensures forall i :: 0 <= i < |params| ==> r[i] == Name(params[i])
  {
    seq(|params|, i requires 0 <= i < |params| => Name(params[i]))
  }

  /** The user function a tuple identity recomputes: the node named by its first component. */
  ghost predicate TupleBaseIsNode(atoms: seq<Atom>, nodes: map<string, Callable>) {
    |atoms| > 2 && atoms[0].S? && atoms[0].s in nodes
  }

  /**
    A relational description of a correct resolution: which function runs and
    which vertices feed it, for each identity shape.
   */
  ghost predicate ValidResolution(k: Id, nodes: map<string, Callable>, conds: set<string>, preds: seq<Id>, m: ModelNode) {
    match k
    case Name(n) =>
      && n in nodes
      && m.compute == UserFn(nodes[n])
      && (if n in conds then Wired(nodes[n].params, preds, m.inputs) else m.inputs == Names(nodes[n].params))
    case Tup(atoms) =>
      if |atoms| == 2 then m == ModelNode(Constant(atoms[1]), [])
      else
        && TupleBaseIsNode(atoms, nodes)
        && m.compute == UserFn(nodes[atoms[0].s])
        && Wired(nodes[atoms[0].s].params, preds, m.inputs)
  }

  /** When resolution succeeds, in terms of the identity and its predecessors. */
  ghost predicate Resolvable(k: Id, nodes: map<string, Callable>, conds: set<string>, preds: seq<Id>) {
    match k
    case Name(n) =>
      && n in nodes
      && (n in conds ==> NoEmptyTuple(preds) && forall i :: 0 <= i < |nodes[n].params| ==> Matched(nodes[n].params[i], preds))
    case Tup(atoms) =>
      || |atoms| == 2
      || (&& TupleBaseIsNode(atoms, nodes)
          && NoEmptyTuple(preds)
          && forall i :: 0 <= i < |nodes[atoms[0].s].params| ==> Matched(nodes[atoms[0].s].params[i], preds))
  }

  /**
    `ModelNode(k, nodes, nodes_with_forced_nodes, graph)`, with `preds` the
    enumeration of `graph.predecessors(k)`. Succeeds exactly when the identity
    is resolvable, and then yields a valid resolution.
   */
  function Resolve(k: Id, nodes: map<string, Callable>, conds: set<string>, preds: seq<Id>): (r: Result<ModelNode, Error>)
    ensures r.Success? <==> Resolvable(k, nodes, conds, preds)
    ensures r.Success? ==> ValidResolution(k, nodes, conds, preds, r.value)
    ensures r.Failure? ==> r.error.KeyError? || r.error.IntKeyError? || r.error.IndexError? || r.error.NoBranch?
    ensures r.Failure? && r.error.NoBranch? ==> k.Tup? && |k.atoms| < 2
    ensures k.Name? && k.name !in nodes ==> r == Failure(KeyError(k))
    ensures k.Name? && k.name in nodes && k.name in conds && !NoEmptyTuple(preds) ==> r == Failure(IndexError(Tup([])))
    ensures k.Tup? && TupleBaseIsNode(k.atoms, nodes) && !NoEmptyTuple(preds) ==> r == Failure(IndexError(Tup([])))
    ensures k.Name? && k.name in nodes && k.name in conds && NoEmptyTuple(preds) && r.Failure? ==>
      exists i :: 0 <= i < |nodes[k.name].params| && !Matched(nodes[k.name].params[i], preds)
        && r.error == KeyError(Name(nodes[k.name].params[i]))
    ensures k.Tup? && TupleBaseIsNode(k.atoms, nodes) && NoEmptyTuple(preds) && r.Failure? ==>
      exists i :: 0 <= i < |nodes[k.atoms[0].s].params| && !Matched(nodes[k.atoms[0].s].params[i], preds)
        && r.error == KeyError(Name(nodes[k.atoms[0].s].params[i]))
    ensures r.Failure? && k.Tup? && |k.atoms| > 2 && !TupleBaseIsNode(k.atoms, nodes) ==>
      r.error == (if k.atoms[0].S? then KeyError(Name(k.atoms[0].s)) else IntKeyError(k.atoms[0].v))
  {
    match k
    case Name(n) =>
      if n !in nodes then Failure(KeyError(k))
      else if n in conds then
        var inputs := ResolveInputs(nodes[n].params, preds);
        if inputs.Failure? then Failure(inputs.error)
        else Success(ModelNode(UserFn(nodes[n]), inputs.value))
      else Success(ModelNode(UserFn(nodes[n]), Names(nodes[n].params)))
    case Tup(atoms) =>
      if |atoms| == 2 then Success(ModelNode(Constant(atoms[1]), []))
      else if |atoms| < 2 then Failure(NoBranch(k))
      else if atoms[0].V? then Failure(IntKeyError(atoms[0].v))
      else if atoms[0].s !in nodes then Failure(KeyError(Name(atoms[0].s)))
      else
        var f := nodes[atoms[0].s];
        var inputs := ResolveInputs(f.params, preds);
        if inputs.Failure? then Failure(inputs.error)
        else Success(ModelNode(UserFn(f), inputs.value))
  }

  /** A predecessor whose base is not a parameter never becomes an argument. */
  lemma UnmatchedPredecessorIgnored(params: seq<string>, preds: seq<Id>, inputs: seq<Id>, x: Id)
    requires Wired(params, preds, inputs)
    requires Base(x).Some? && forall i :: 0 <= i < |params| ==> Base(x) != Some(S(params[i]))
    ensures x !in inputs
  {
    forall i | 0 <= i < |inputs|
      ensures inputs[i] != x
    {
      assert Base(inputs[i]) == Some(S(params[i]));
    }
  }
}

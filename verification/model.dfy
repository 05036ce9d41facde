/**
  `Model`: builds the specialized graph of a node dict, fixes a call order and
  one compute step per vertex to call, and evaluates the steps over an input
  dict. A user function's result is kept symbolic, as the function's code
  applied to its argument values, so that the model can state which values
  each step receives.
 */
module Models {
  import opened Wrappers
  import opened Identity
  import opened Ordering
  import opened Graphs
  import opened Topo
  import opened Nodes
  import opened Specializer
  import opened Resolver

  /** A value in the input dict: a constant, or a user function applied to values. */
  datatype Val = Const(atom: Atom) | Call(code: string, args: seq<Val>)

  /** Running a step on its arguments. A forced value ignores its (empty) argument list. */
  function Apply(fn: Fn, args: seq<Val>): Val {
    match fn
    case UserFn(f) => Call(f.code, args)
    case Constant(v) => Const(v)
  }

  /** The attributes an instance of `Model` holds after `__init__`. */
  datatype Model = Model(
    nodes: map<string, Callable>,
    nodesGraph: Graph,
    forced: map<string, Forcing>,
    graph: Graph,
    inputs: set<Id>,
    callOrder: seq<Id>,
    modelNodes: map<Id, ModelNode>,
    auxiliary: seq<Id>)

  /** `nodes_with_forced_nodes`: the forcing dict of every node that has one. */
  function ForcedTable(nodes: map<string, Callable>): map<string, Forcing> {
    map n | n in nodes && nodes[n].forced.Some? :: nodes[n].forced.value
  }

  /**
    The forced table has an entry exactly for the functions that carry a
    `forced_nodes` attribute, holding that attribute.
   */
  lemma ForcedTableEntries(nodes: map<string, Callable>)
    ensures forall n :: n in ForcedTable(nodes) <==> n in nodes && nodes[n].forced.Some?
    ensures forall n :: n in ForcedTable(nodes) ==> ForcedTable(nodes)[n] == nodes[n].forced.value
  {
  }

  /** The node names as graph identities. */
  function NodeIds(nodes: map<string, Callable>): set<Id> {
    set n | n in nodes :: Name(n)
  }

  /** ps lists the members of s, each once. */
  ghost predicate Enumerates(ps: seq<Id>, s: set<Id>) {
    Distinct(ps) && forall x :: x in ps <==> x in s
  }

  /** Every input of a step is read before the step or among the step's own later entries never. */
  ghost predicate Causal(order: seq<Id>, steps: map<Id, ModelNode>)
    requires forall i :: 0 <= i < |order| ==> order[i] in steps
  {
    forall i, a :: 0 <= i < |order| && a in steps[order[i]].inputs ==> a !in order[i..]
  }

  /**
    What `compute` relies on: the call order lists distinct vertices that all
    have a step, no step reads a vertex that is computed at or after it, and
    every auxiliary vertex is computed, once.
   */
  ghost predicate WellFormed(m: Model) {
    && Distinct(m.callOrder)
    && (forall i :: 0 <= i < |m.callOrder| ==> m.callOrder[i] in m.modelNodes)
    && Causal(m.callOrder, m.modelNodes)
    && Distinct(m.auxiliary)
    && (forall a :: a in m.auxiliary ==> a in m.callOrder)
  }

  /**
    How the attributes of a built model relate to its node dict: the two
    graphs, the inputs (dependency vertices that are no node), a call order of
    all other vertices of the specialized graph that respects its edges, a
    valid step for each such vertex, and the auxiliary vertices (those the
    specialization added).
   */
  ghost predicate Describes(nodes: map<string, Callable>, m: Model) {
    && m.nodes == nodes
    && m.nodesGraph == NodesGraph(nodes)
    && m.forced == ForcedTable(nodes)
    && (exists t :: IsTopologicalOrder(m.nodesGraph, t)
          && m.graph == ModelGraph(m.nodesGraph, m.forced, CondNodes(t, m.forced.Keys)))
    && m.inputs == m.nodesGraph.vertices - NodeIds(nodes)
    && (forall x :: x in m.callOrder <==> x in m.graph.vertices && x !in m.inputs)
    && (forall i, j :: (0 <= i < |m.callOrder| && 0 <= j < |m.callOrder|
          && (m.callOrder[i], m.callOrder[j]) in m.graph.edges) ==> i < j)
    && (forall k :: k in m.modelNodes <==> k in m.callOrder)
    && (forall k :: k in m.modelNodes ==> exists ps :: (Enumerates(ps, Preds(m.graph, k))
          && ValidResolution(k, nodes, m.forced.Keys, ps, m.modelNodes[k])))
    && (forall x :: x in m.auxiliary <==> x in m.graph.vertices && x !in m.nodesGraph.vertices)
  }

  /* ---------------------------------------------------------------- __init__ */

  /** `list(s)`: the members of a set in some order, each once. */
  method Enumerate(s: set<Id>) returns (r: seq<Id>)
    ensures Enumerates(r, s)
  {
    var rest := s;
    r := [];
    while rest != {}
      invariant rest <= s
      invariant forall x :: x in r <==> x in s && x !in rest
      invariant Distinct(r)
      decreases |rest|
    {
      var x :| x in rest;
      r := r + [x];
      rest := rest - {x};
    }
  }

  /**
    `[node for node in order if node not in inputs]`: the order without the
    inputs, still listing each vertex once and still respecting every edge.
   */
  method DropInputs(g: Graph, order: seq<Id>, inputs: set<Id>) returns (r: seq<Id>)
    requires IsTopologicalOrder(g, order)
    ensures forall x :: x in r <==> x in g.vertices && x !in inputs
    ensures Distinct(r)
    ensures forall i, j :: 0 <= i < |r| && 0 <= j < |r| && (r[i], r[j]) in g.edges ==> i < j
  {
    r := [];
    var n := 0;
    while n < |order|
      invariant 0 <= n <= |order|
      invariant forall x :: x in r <==> x in order[..n] && x !in inputs
      invariant Distinct(r)
      invariant forall i, j :: 0 <= i < |r| && 0 <= j < |r| && (r[i], r[j]) in g.edges ==> i < j
    {
      var x := order[n];
      if x !in inputs {
        forall i | 0 <= i < |r|
          ensures r[i] != x && (x, r[i]) !in g.edges
        {
          assert r[i] in order[..n];
          var j :| 0 <= j < n && order[j] == r[i];
          assert order[j] != order[n];
        }
        r := r + [x];
      }
      assert order[..n + 1] == order[..n] + [x];
      n := n + 1;
    }
    assert order[..n] == order;
  }

  /** The inputs of every step are predecessors of its vertex in the specialized graph. */
  lemma ResolvedInputsArePredecessors(
    k: Id, nodes: map<string, Callable>, conds: seq<string>, g: Graph, ps: seq<Id>, mn: ModelNode)
    requires forall i :: 0 <= i < |conds| ==> conds[i] in ForcedTable(nodes)
    requires forall e :: e in NodesGraph(nodes).edges && !(e.1.Name? && e.1.name in conds) ==> e in g.edges
    requires Enumerates(ps, Preds(g, k))
    requires ValidResolution(k, nodes, ForcedTable(nodes).Keys, ps, mn)
    ensures forall a :: a in mn.inputs ==> (a, k) in g.edges
  {
    forall a | a in mn.inputs
      ensures (a, k) in g.edges
    {
      var i :| 0 <= i < |mn.inputs| && mn.inputs[i] == a;
      match k
      case Name(n) =>
        if n !in ForcedTable(nodes) {
          var p := nodes[n].params[i];
          assert a == Name(p);
          assert (Name(p), Name(n)) in NodesGraph(nodes).edges;
        }
      case Tup(atoms) =>
    }
  }

  /** Inputs that are predecessors, in an order respecting the edges, are read before they are computed. */
  lemma CausalFromEdges(g: Graph, order: seq<Id>, steps: map<Id, ModelNode>)
    requires forall i :: 0 <= i < |order| ==> order[i] in steps
    requires forall i, j :: 0 <= i < |order| && 0 <= j < |order| && (order[i], order[j]) in g.edges ==> i < j
    requires forall i, a :: 0 <= i < |order| && a in steps[order[i]].inputs ==> (a, order[i]) in g.edges
    ensures Causal(order, steps)
  {
    forall i, a | 0 <= i < |order| && a in steps[order[i]].inputs
      ensures a !in order[i..]
    {
      forall j | 0 <= j < |order| && order[j] == a
        ensures j < i
      {
        assert (order[j], order[i]) in g.edges;
      }
    }
  }

  /**
    `{k: ModelNode(k, ...) for k in call_order}`: resolves the step of every
    vertex of the call order, with its predecessors in some order. Fails with
    the error of the first vertex that cannot be resolved.
   */
  method ResolveSteps(nodes: map<string, Callable>, conds: seq<string>, g: Graph, callOrder: seq<Id>)
    returns (r: Result<map<Id, ModelNode>, Error>)
    requires forall i :: 0 <= i < |conds| ==> conds[i] in ForcedTable(nodes)
    requires forall e :: e in NodesGraph(nodes).edges && !(e.1.Name? && e.1.name in conds) ==> e in g.edges
    ensures r.Success? ==> forall k :: k in r.value <==> k in callOrder
    ensures r.Success? ==> forall k :: k in r.value ==> exists ps :: (Enumerates(ps, Preds(g, k))
      && ValidResolution(k, nodes, ForcedTable(nodes).Keys, ps, r.value[k]))
    ensures r.Success? ==> forall k, a :: k in r.value && a in r.value[k].inputs ==> (a, k) in g.edges
    ensures r.Failure? ==> exists k, ps :: (k in callOrder && Enumerates(ps, Preds(g, k))
      && !Resolvable(k, nodes, ForcedTable(nodes).Keys, ps))
    ensures r.Failure? ==> r.error.KeyError? || r.error.IntKeyError? || r.error.IndexError? || r.error.NoBranch?
    ensures r.Failure? && r.error.NoBranch? ==> exists k :: k in callOrder && k.Tup? && |k.atoms| < 2
  {
    var steps: map<Id, ModelNode> := map[];
    var n := 0;
    while n < |callOrder|
      invariant 0 <= n <= |callOrder|
      invariant forall k :: k in steps <==> k in callOrder[..n]
      invariant forall k :: k in steps ==> exists ps :: (Enumerates(ps, Preds(g, k))
        && ValidResolution(k, nodes, ForcedTable(nodes).Keys, ps, steps[k]))
      invariant forall k, a :: k in steps && a in steps[k].inputs ==> (a, k) in g.edges
    {
      var k := callOrder[n];
      var ps := Enumerate(Preds(g, k));
      var step := Resolve(k, nodes, ForcedTable(nodes).Keys, ps);
      if step.Failure? {
        assert k in callOrder;
        return Failure(step.error);
      }
      ResolvedInputsArePredecessors(k, nodes, conds, g, ps, step.value);
      steps := steps[k := step.value];
      assert callOrder[..n + 1] == callOrder[..n] + [k];
      n := n + 1;
    }
    assert callOrder[..n] == callOrder;
    return Success(steps);
  }

  /**
    `Model(nodes)`. Fails with a `CycleError` when the dependency graph or the
    specialized graph has no topological order, and otherwise only when the
    step of some vertex to call cannot be resolved.
   */
  method Build(nodes: map<string, Callable>) returns (r: Result<Model, Error>)
    ensures r.Success? ==> WellFormed(r.value) && Describes(nodes, r.value)
    ensures r.Success? ==> forall x :: x in r.value.auxiliary ==> x.Tup? && |x.atoms| >= 2
    ensures r.Success? ==> forall k :: k in r.value.callOrder && k.Name? ==> k.name in nodes
    ensures r.Failure? && r.error.CycleError? ==>
      || BlocksOrder(NodesGraph(nodes), r.error.blocked)
      || exists t :: IsTopologicalOrder(NodesGraph(nodes), t)
           && BlocksOrder(ModelGraph(NodesGraph(nodes), ForcedTable(nodes), CondNodes(t, ForcedTable(nodes).Keys)),
                          r.error.blocked)
    ensures r.Failure? && !r.error.CycleError? ==> r.error.KeyError? || r.error.IntKeyError? || r.error.IndexError?
  {
    var ng := NodesGraph(nodes);
    var forced := ForcedTable(nodes);
    var t := TopologicalSort(ng);
    if t.Failure? {
      return Failure(t.error);
    }
    var conds := CondNodes(t.value, forced.Keys);
    var g := ModelGraph(ng, forced, conds);
    var inputs := ng.vertices - NodeIds(nodes);
    var order := TopologicalSort(g);
    if order.Failure? {
      return Failure(order.error);
    }
    var callOrder := DropInputs(g, order.value, inputs);
    var steps := ResolveSteps(nodes, conds, g, callOrder);
    if steps.Failure? {
      return Failure(steps.error);
    }
    var auxiliary := Enumerate(g.vertices - ng.vertices);
    var m := Model(nodes, ng, forced, g, inputs, callOrder, steps.value, auxiliary);
    AssembledModelDescribes(nodes, t.value, m);
    r := Success(m);
  }

  /** The attributes computed by `__init__`, in the relations that hold between them. */
  lemma AssembledModelDescribes(nodes: map<string, Callable>, t: seq<Id>, m: Model)
    requires m.nodes == nodes && m.nodesGraph == NodesGraph(nodes) && m.forced == ForcedTable(nodes)
    requires IsTopologicalOrder(m.nodesGraph, t)
    requires m.graph == ModelGraph(m.nodesGraph, m.forced, CondNodes(t, m.forced.Keys))
    requires m.inputs == m.nodesGraph.vertices - NodeIds(nodes)
    requires forall x :: x in m.callOrder <==> x in m.graph.vertices && x !in m.inputs
    requires Distinct(m.callOrder)
    requires forall i, j :: (0 <= i < |m.callOrder| && 0 <= j < |m.callOrder|
      && (m.callOrder[i], m.callOrder[j]) in m.graph.edges) ==> i < j
    requires forall k :: k in m.modelNodes <==> k in m.callOrder
    requires forall k :: k in m.modelNodes ==> exists ps :: (Enumerates(ps, Preds(m.graph, k))
      && ValidResolution(k, nodes, m.forced.Keys, ps, m.modelNodes[k]))
    requires forall k, a :: k in m.modelNodes && a in m.modelNodes[k].inputs ==> (a, k) in m.graph.edges
    requires Enumerates(m.auxiliary, m.graph.vertices - m.nodesGraph.vertices)
    ensures WellFormed(m) && Describes(nodes, m)
  {
    CausalFromEdges(m.graph, m.callOrder, m.modelNodes);
  }

  /* ---------------------------------------------------------------- compute */

  /** `[input[k] for k in keys]`: the first missing key raises KeyError. */
  function Gather(keys: seq<Id>, env: map<Id, Val>): (r: Result<seq<Val>, Error>)
    ensures r.Success? <==> forall i :: 0 <= i < |keys| ==> keys[i] in env
    ensures r.Success? ==> |r.value| == |keys| && forall i :: 0 <= i < |keys| ==> r.value[i] == env[keys[i]]
    ensures r.Failure? ==> r.error.KeyError? && r.error.key in keys && r.error.key !in env
  {
    if |keys| == 0 then Success([])
    else if keys[0] !in env then Failure(KeyError(keys[0]))
    else
      var rest := Gather(keys[1..], env);
      if rest.Failure? then rest
      else Success([env[keys[0]]] + rest.value)
  }

  /**
    The loop of `compute`: each vertex of the order in turn gets the value of
    its step applied to the current values of its inputs. On success the dict
    has gained exactly the vertices of the order, and every other key keeps its
    value. A vertex without a step raises KeyError, as does a missing input.
   */
  function Run(order: seq<Id>, steps: map<Id, ModelNode>, env: map<Id, Val>): (r: Result<map<Id, Val>, Error>)
    ensures r.Success? ==> forall x :: x in r.value <==> x in env || x in order
    ensures r.Success? ==> forall x :: x in env && x !in order ==> r.value[x] == env[x]
    ensures r.Failure? ==> r.error.KeyError?
    decreases |order|
  {
    if |order| == 0 then Success(env)
    else if order[0] !in steps then Failure(KeyError(order[0]))
    else
      var k := order[0];
      var args := Gather(steps[k].inputs, env);
      if args.Failure? then Failure(args.error)
      else Run(order[1..], steps, env[k := Apply(steps[k].compute, args.value)])
  }

  /** The values of keys in env, in order. */
  function Values(keys: seq<Id>, env: map<Id, Val>): seq<Val>
    requires forall i :: 0 <= i < |keys| ==> keys[i] in env
  {
    seq(|keys|, i requires 0 <= i < |keys| => env[keys[i]])
  }

  /** In the final dict, vertex k holds its step applied to the final values of its inputs. */
  ghost predicate StepHolds(out: map<Id, Val>, steps: map<Id, ModelNode>, k: Id) {
    && k in steps && k in out
    && (forall i :: 0 <= i < |steps[k].inputs| ==> steps[k].inputs[i] in out)
    && out[k] == Apply(steps[k].compute, Values(steps[k].inputs, out))
  }

  /** Input a of step i is neither supplied nor computed before step i. */
  ghost predicate MissingAt(order: seq<Id>, steps: map<Id, ModelNode>, env: map<Id, Val>, i: int, a: Id) {
    && 0 <= i < |order|
    && order[i] in steps
    && a in steps[order[i]].inputs
    && a !in env
    && a !in order[..i]
  }

  /** In a causal order of distinct vertices, every computed value is its step applied to the final values. */
  lemma {:induction false} RunComputesEachStep(order: seq<Id>, steps: map<Id, ModelNode>, env: map<Id, Val>)
    requires forall i :: 0 <= i < |order| ==> order[i] in steps
    requires Distinct(order)
    requires Causal(order, steps)
    requires Run(order, steps, env).Success?
    ensures forall i :: 0 <= i < |order| ==> StepHolds(Run(order, steps, env).value, steps, order[i])
    decreases |order|
  {
    if |order| > 0 {
      var k := order[0];
      var rest := order[1..];
      var args := Gather(steps[k].inputs, env).value;
      var env' := env[k := Apply(steps[k].compute, args)];
      var out := Run(order, steps, env).value;
      assert out == Run(rest, steps, env').value;
      assert Distinct(rest);
      forall i, a | 0 <= i < |rest| && a in steps[rest[i]].inputs
        ensures a !in rest[i..]
      {
        assert rest[i..] == order[i + 1..];
      }
      RunComputesEachStep(rest, steps, env');
      assert k !in rest;
      var ins := steps[k].inputs;
      forall i | 0 <= i < |ins|
        ensures ins[i] in out && out[ins[i]] == args[i]
      {
        assert ins[i] !in order[0..];
        assert ins[i] != k && ins[i] !in rest;
      }
      assert Values(ins, out) == args;
      forall i | 0 <= i < |order|
        ensures StepHolds(out, steps, order[i])
      {
        if i > 0 {
          assert order[i] == rest[i - 1];
        }
      }
    }
  }

  /** The loop fails exactly when some step needs a value that is neither supplied nor computed before it. */
  lemma {:induction false} RunFailsOnMissingInput(order: seq<Id>, steps: map<Id, ModelNode>, env: map<Id, Val>)
    requires forall i :: 0 <= i < |order| ==> order[i] in steps
    ensures Run(order, steps, env).Failure? <==> exists i, a :: MissingAt(order, steps, env, i, a)
    decreases |order|
  {
    if |order| > 0 {
      var k := order[0];
      var rest := order[1..];
      var args := Gather(steps[k].inputs, env);
      if args.Failure? {
        assert MissingAt(order, steps, env, 0, args.error.key);
      } else {
        var env' := env[k := Apply(steps[k].compute, args.value)];
        RunFailsOnMissingInput(rest, steps, env');
        if i, a :| MissingAt(rest, steps, env', i, a) {
          assert a != k && a !in env;
          forall j | 0 <= j < i + 1
            ensures order[j] != a
          {
            if j > 0 {
              assert order[j] == rest[..i][j - 1];
            }
          }
          assert MissingAt(order, steps, env, i + 1, a);
        }
        if i, a :| MissingAt(order, steps, env, i, a) {
          assert i != 0;
          assert a != k by {
            assert order[..i][0] == k;
          }
          forall j | 0 <= j < i - 1
            ensures rest[j] != a
          {
            assert rest[j] == order[..i][j + 1];
          }
          assert MissingAt(rest, steps, env', i - 1, a);
        }
      }
    }
  }

  /**
    `del input[k]` for every key in turn: fails on a key that is absent,
    including one listed twice; otherwise the dict loses exactly those keys.
   */
  function Delete(env: map<Id, Val>, keys: seq<Id>): (r: Result<map<Id, Val>, Error>)
    ensures r.Success? <==> Distinct(keys) && forall i :: 0 <= i < |keys| ==> keys[i] in env
    ensures r.Success? ==> forall x :: x in r.value <==> x in env && x !in keys
    ensures r.Success? ==> forall x :: x in r.value ==> r.value[x] == env[x]
    ensures r.Failure? ==> r.error.KeyError?
    decreases |keys|
  {
    if |keys| == 0 then Success(env)
    else if keys[0] !in env then Failure(KeyError(keys[0]))
    else
      var rest := Delete(env - {keys[0]}, keys[1..]);
      assert Distinct(keys) <==> Distinct(keys[1..]) && keys[0] !in keys[1..];
      rest
  }

  /**
    `compute(input, keep_auxiliary_nodes)`: runs every step in call order,
    then, unless asked to keep them, deletes the auxiliary vertices.
   */
  function Compute(m: Model, input: map<Id, Val>, keepAuxiliary: bool): (r: Result<map<Id, Val>, Error>)
    ensures r.Success? ==> forall x :: x in r.value <==>
      (x in input || x in m.callOrder) && (keepAuxiliary || x !in m.auxiliary)
    ensures r.Success? ==> forall x :: x in r.value && x !in m.callOrder ==> x in input && r.value[x] == input[x]
    ensures r.Failure? ==> r.error.KeyError?
  {
    var out := Run(m.callOrder, m.modelNodes, input);
    if out.Failure? || keepAuxiliary then out
    else Delete(out.value, m.auxiliary)
  }

  /** On a well-formed model, computing fails exactly when a needed value is missing from the input. */
  lemma ComputeFailsOnMissingInput(m: Model, input: map<Id, Val>, keepAuxiliary: bool)
    requires WellFormed(m)
    ensures Compute(m, input, keepAuxiliary).Failure? <==>
      exists i, a :: MissingAt(m.callOrder, m.modelNodes, input, i, a)
  {
    RunFailsOnMissingInput(m.callOrder, m.modelNodes, input);
  }

  /**
    Dropping the auxiliary vertices never fails on a well-formed model, and
    changes nothing but the removal of those vertices.
   */
  lemma ComputeDropsOnlyAuxiliary(m: Model, input: map<Id, Val>)
    requires WellFormed(m)
    ensures Compute(m, input, false).Success? <==> Compute(m, input, true).Success?
    ensures Compute(m, input, true).Success? ==>
      var kept := Compute(m, input, true).value;
      var dropped := Compute(m, input, false).value;
      && (forall x :: x in dropped <==> x in kept && x !in m.auxiliary)
      && (forall x :: x in dropped ==> dropped[x] == kept[x])
  {
  }

  /** On a well-formed model, every computed vertex holds its step applied to the final values of its inputs. */
  lemma ComputeAppliesEachStep(m: Model, input: map<Id, Val>)
    requires WellFormed(m)
    requires Compute(m, input, true).Success?
    ensures forall i :: 0 <= i < |m.callOrder| ==>
      StepHolds(Compute(m, input, true).value, m.modelNodes, m.callOrder[i])
  {
    RunComputesEachStep(m.callOrder, m.modelNodes, input);
  }

  /* ---------------------------------------------------------------- submodel */

  /**
    `submodel(names)`: the model of the nodes among the named ones and their
    ancestors in the dependency graph. A name that is not a vertex of the
    dependency graph is refused.
   */
  method Submodel(m: Model, names: seq<string>) returns (r: Result<Model, Error>)
    ensures SubcomponentNodes(m.nodesGraph, names).Failure? ==> r == Failure(SubcomponentNodes(m.nodesGraph, names).error)
    ensures r.Success? ==> WellFormed(r.value) && Describes(r.value.nodes, r.value)
    ensures r.Success? ==> forall n :: n in r.value.nodes <==>
      n in m.nodes && Name(n) in AncestorsOrSelf(m.nodesGraph, TargetIds(names))
    ensures r.Success? ==> forall n :: n in r.value.nodes ==> r.value.nodes[n] == m.nodes[n]
  {
    var keep :- SubcomponentNodes(m.nodesGraph, names);
    var sub := map n | n in m.nodes && Name(n) in keep :: m.nodes[n];
    r := Build(sub);
  }
}

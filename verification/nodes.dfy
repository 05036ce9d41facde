/**
  Node descriptors and the node factory. A user function is seen through what
  the engine reads from it: an identity for its code, its declared parameter
  names (what `func_args` reads from `__code__`), its optional `forced_nodes`
  dict and its optional `node_cases` list.
 */
module Nodes {
  import opened Wrappers
  import opened Identity
  import opened Ordering

  /** A case object of a node template: its attributes by name. */
  datatype Case = Case(attrs: map<string, string>)

  /**
    A user function: `code` identifies the function object, `params` are its
    positional parameter names in order, and `forced` and `cases` are present
    exactly when the function has the `forced_nodes` or `node_cases` attribute.
   */
  datatype Callable = Callable(
    code: string,
    params: seq<string>,
    forced: Option<Forcing>,
    cases: Option<seq<Case>>)

  /** `Node`: a compute function, an ordered parameter-to-dependency dict, optional forcings. */
  datatype Node = Node(compute: Callable, inputs: seq<(string, string)>, forced: Option<Forcing>)

  /** `Node(f)`: every declared parameter is wired to the dependency of the same name. */
  function NewNode(f: Callable): (n: Node)
    ensures n.compute == f && n.forced.None?
    ensures |n.inputs| == |f.params|
    ensures forall i :: 0 <= i < |f.params| ==> n.inputs[i] == (f.params[i], f.params[i])
  {
    Node(f, seq(|f.params|, i requires 0 <= i < |f.params| => (f.params[i], f.params[i])), None)
  }

  /** The value a case gives to key k: its attribute k when it has one, else the current one. */
  function CaseValue(c: Case, k: string, current: string): string {
    if k in c.attrs then c.attrs[k] else current
  }

  /**
    `generate_inputs`: the same keys in the same order; a key the case has an
    attribute for is rebound to that attribute, every other key keeps its value.
   */
  function GenerateInputs(inputs: seq<(string, string)>, c: Case): (r: seq<(string, string)>)
    ensures |r| == |inputs|
    ensures forall i :: 0 <= i < |inputs| ==> r[i].0 == inputs[i].0
    ensures forall i :: 0 <= i < |inputs| && inputs[i].0 in c.attrs ==> r[i].1 == c.attrs[inputs[i].0]
    ensures forall i :: 0 <= i < |inputs| && inputs[i].0 !in c.attrs ==> r[i].1 == inputs[i].1
  {
    if |inputs| == 0 then []
    else [(inputs[0].0, CaseValue(c, inputs[0].0, inputs[0].1))] + GenerateInputs(inputs[1..], c)
  }

  /** Rebinding with the same case a second time changes nothing. */
  lemma GenerateInputsIdempotent(inputs: seq<(string, string)>, c: Case)
    ensures GenerateInputs(GenerateInputs(inputs, c), c) == GenerateInputs(inputs, c)
  {
  }

  /** A case without attributes leaves the inputs as they were. */
  lemma GenerateInputsEmptyCase(inputs: seq<(string, string)>)
    ensures GenerateInputs(inputs, Case(map[])) == inputs
  {
  }

  /** `node_generator`: a fresh node of the template, with inputs rebound by the case. */
  function NodeGenerator(template: Callable, c: Case): (n: Node)
    ensures n.compute == template && n.forced.None?
    ensures |n.inputs| == |template.params|
    ensures forall i :: 0 <= i < |template.params| ==> n.inputs[i].0 == template.params[i]
    ensures forall i :: 0 <= i < |template.params| ==>
      n.inputs[i].1 == CaseValue(c, template.params[i], template.params[i])
  {
    Node(template, GenerateInputs(NewNode(template).inputs, c), None)
  }

  /** A case without attributes generates exactly `Node(template)`. */
  lemma NodeGeneratorEmptyCase(template: Callable)
    ensures NodeGenerator(template, Case(map[])) == NewNode(template)
  {
    GenerateInputsEmptyCase(NewNode(template).inputs);
  }

  /** Case i is the last case whose attribute `name` equals k. */
  ghost predicate LastCaseWithKey(cases: seq<Case>, name: string, k: string, i: int) {
    && 0 <= i < |cases|
    && name in cases[i].attrs && cases[i].attrs[name] == k
    && forall j :: i < j < |cases| && name in cases[j].attrs ==> cases[j].attrs[name] != k
  }

  /** Every case has the attribute `name`. */
  ghost predicate AllCasesNamed(cases: seq<Case>, name: string) {
    forall i :: 0 <= i < |cases| ==> name in cases[i].attrs
  }

  /**
    `generate_nodes`: one node per case, keyed by the case's attribute `name`;
    a later case with an equal key overwrites an earlier one. A case without
    that attribute raises AttributeError.
   */
  function GenerateNodes(name: string, template: Callable, cases: seq<Case>): (r: Result<map<string, Node>, Error>)
    ensures r.Success? <==> AllCasesNamed(cases, name)
    ensures r.Failure? ==> r.error == AttributeError(name)
  {
    if |cases| == 0 then Success(map[])
    else
      var prev := GenerateNodes(name, template, cases[..|cases| - 1]);
      var last := cases[|cases| - 1];
      if prev.Failure? then prev
      else if name !in last.attrs then Failure(AttributeError(name))
      else Success(prev.value[last.attrs[name] := NodeGenerator(template, last)])
  }

  /** The generated dict has a key for every case. */
  lemma {:induction false} GenerateNodesKeys(name: string, template: Callable, cases: seq<Case>)
    requires AllCasesNamed(cases, name)
    ensures forall i :: 0 <= i < |cases| ==> cases[i].attrs[name] in GenerateNodes(name, template, cases).value
  {
    if |cases| > 0 {
      var front := cases[..|cases| - 1];
      assert AllCasesNamed(front, name);
      GenerateNodesKeys(name, template, front);
      forall i | 0 <= i < |cases| - 1
        ensures cases[i].attrs[name] in GenerateNodes(name, template, front).value
      {
        assert front[i] == cases[i];
      }
    }
  }

  /** The node under each generated key is generated from the last case carrying that key. */
  lemma {:induction false} GenerateNodesLastWins(name: string, template: Callable, cases: seq<Case>)
    requires AllCasesNamed(cases, name)
    ensures forall k :: k in GenerateNodes(name, template, cases).value ==>
      exists i :: LastCaseWithKey(cases, name, k, i)
        && GenerateNodes(name, template, cases).value[k] == NodeGenerator(template, cases[i])
  {
    if |cases| > 0 {
      var front := cases[..|cases| - 1];
      var last := cases[|cases| - 1];
      assert AllCasesNamed(front, name);
      GenerateNodesLastWins(name, template, front);
      var prev := GenerateNodes(name, template, front).value;
      var r := GenerateNodes(name, template, cases).value;
      assert r == prev[last.attrs[name] := NodeGenerator(template, last)];
      forall k | k in r
        ensures exists i :: LastCaseWithKey(cases, name, k, i) && r[k] == NodeGenerator(template, cases[i])
      {
        if k == last.attrs[name] {
          assert LastCaseWithKey(cases, name, k, |cases| - 1);
        } else {
          var i :| LastCaseWithKey(front, name, k, i) && prev[k] == NodeGenerator(template, front[i]);
          LastCaseExtends(cases, name, k, i);
        }
      }
    }
  }

  lemma LastCaseExtends(cases: seq<Case>, name: string, k: string, i: int)
    requires |cases| > 0
    requires LastCaseWithKey(cases[..|cases| - 1], name, k, i)
    requires name in cases[|cases| - 1].attrs && cases[|cases| - 1].attrs[name] != k
    ensures LastCaseWithKey(cases, name, k, i)
  {
    var front := cases[..|cases| - 1];
    forall j | i < j < |cases| - 1
      ensures cases[j] == front[j]
    {
    }
  }

  /** Every node a template generates runs the template's own function, and none has forcings. */
  lemma GeneratedNodesShareTemplate(name: string, template: Callable, cases: seq<Case>)
    requires GenerateNodes(name, template, cases).Success?
    ensures forall k :: k in GenerateNodes(name, template, cases).value ==>
      GenerateNodes(name, template, cases).value[k].compute == template
      && GenerateNodes(name, template, cases).value[k].forced.None?
  {
    var m := GenerateNodes(name, template, cases).value;
    GenerateNodesLastWins(name, template, cases);
    forall k | k in m
      ensures m[k].compute == template && m[k].forced.None?
    {
      var i :| LastCaseWithKey(cases, name, k, i) && m[k] == NodeGenerator(template, cases[i]);
    }
  }

  /** The node a non-template entry contributes: its forcings are copied when it has them. */
  function PlainNode(f: Callable): (n: Node)
    ensures n.compute == f
    ensures n.forced == f.forced
    ensures n.inputs == NewNode(f).inputs
  {
    Node(f, NewNode(f).inputs, f.forced)
  }

  /** Without forcings a plain entry's node is exactly `Node(f)`. */
  lemma PlainNodeWithoutForcing(f: Callable)
    requires f.forced.None?
    ensures PlainNode(f) == NewNode(f)
  {
  }

  /** Every template entry of the list names each of its cases. */
  ghost predicate TemplatesNamed(fns: seq<(string, Callable)>) {
    forall i :: 0 <= i < |fns| && fns[i].1.cases.Some? ==> AllCasesNamed(fns[i].1.cases.value, fns[i].0)
  }

  /**
    `node_factory`: walks the function dict in order. A template entry adds the
    nodes of its cases, any other entry adds one node under its own name; a
    later entry overwrites an earlier one with an equal key.
   */
  function NodeFactory(fns: seq<(string, Callable)>): (r: Result<map<string, Node>, Error>)
    ensures r.Success? <==> TemplatesNamed(fns)
  {
    if |fns| == 0 then Success(map[])
    else
      var prev := NodeFactory(fns[..|fns| - 1]);
      var (name, f) := fns[|fns| - 1];
      if prev.Failure? then prev
      else if f.cases.Some? then
        var generated := GenerateNodes(name, f, f.cases.value);
        if generated.Failure? then Failure(generated.error)
        else Success(prev.value + generated.value)
      else
        Success(prev.value[name := PlainNode(f)])
  }

  /**
    The last entry of the function dict wins: a plain function is stored under
    its own name with its forcings copied; a template's generated nodes are
    all present as generated.
   */
  lemma NodeFactoryLastEntry(fns: seq<(string, Callable)>)
    requires |fns| > 0
    requires TemplatesNamed(fns)
    ensures fns[|fns| - 1].1.cases.None? ==>
      NodeFactory(fns).value[fns[|fns| - 1].0] == PlainNode(fns[|fns| - 1].1)
    ensures fns[|fns| - 1].1.cases.Some? ==>
      var (name, f) := fns[|fns| - 1];
      forall k :: k in GenerateNodes(name, f, f.cases.value).value ==>
        k in NodeFactory(fns).value
        && NodeFactory(fns).value[k] == GenerateNodes(name, f, f.cases.value).value[k]
  {
    assert TemplatesNamed(fns[..|fns| - 1]);
  }

  /** Entry e of the function dict yields a node under key k. */
  ghost predicate EntryProduces(e: (string, Callable), k: string) {
    if e.1.cases.Some?
    then GenerateNodes(e.0, e.1, e.1.cases.value).Success? && k in GenerateNodes(e.0, e.1, e.1.cases.value).value
    else k == e.0
  }

  /** The node entry e yields under key k. */
  ghost function EntryNode(e: (string, Callable), k: string): Node
    requires EntryProduces(e, k)
  {
    if e.1.cases.Some? then GenerateNodes(e.0, e.1, e.1.cases.value).value[k] else PlainNode(e.1)
  }

  /** Entry i is the last entry of fns that yields a node under key k. */
  ghost predicate LastProducer(fns: seq<(string, Callable)>, k: string, i: int) {
    && 0 <= i < |fns|
    && EntryProduces(fns[i], k)
    && forall j :: i < j < |fns| ==> !EntryProduces(fns[j], k)
  }

  /**
    Later entries overwrite earlier ones: every key holds the node that the
    last entry yielding that key yields for it.
   */
  lemma {:induction false} NodeFactoryLastWins(fns: seq<(string, Callable)>)
    requires TemplatesNamed(fns)
    ensures forall k :: k in NodeFactory(fns).value ==>
      exists i :: LastProducer(fns, k, i) && NodeFactory(fns).value[k] == EntryNode(fns[i], k)
  {
    if |fns| > 0 {
      var front := fns[..|fns| - 1];
      var last := fns[|fns| - 1];
      assert TemplatesNamed(front);
      NodeFactoryLastWins(front);
      var prev := NodeFactory(front).value;
      var r := NodeFactory(fns).value;
      forall k | k in r
        ensures exists i :: LastProducer(fns, k, i) && r[k] == EntryNode(fns[i], k)
      {
        if EntryProduces(last, k) {
          assert LastProducer(fns, k, |fns| - 1);
        } else {
          assert k in prev;
          var i :| LastProducer(front, k, i) && prev[k] == EntryNode(front[i], k);
          LastProducerExtends(fns, k, i);
        }
      }
    }
  }

  /** An appended entry that does not yield k keeps the last producer of k. */
  lemma LastProducerExtends(fns: seq<(string, Callable)>, k: string, i: int)
    requires |fns| > 0
    requires LastProducer(fns[..|fns| - 1], k, i)
    requires !EntryProduces(fns[|fns| - 1], k)
    ensures LastProducer(fns, k, i) && fns[i] == fns[..|fns| - 1][i]
  {
    var front := fns[..|fns| - 1];
    forall j | i < j < |fns|
      ensures !EntryProduces(fns[j], k)
    {
      if j < |front| {
        assert front[j] == fns[j];
      }
    }
  }

  /** Every plain entry's name is a key of the result, and nothing else is. */
  lemma {:induction false} NodeFactoryKeys(fns: seq<(string, Callable)>)
    requires TemplatesNamed(fns)
    ensures forall k :: k in NodeFactory(fns).value <==>
      exists i :: 0 <= i < |fns| && (if fns[i].1.cases.Some?
        then k in GenerateNodes(fns[i].0, fns[i].1, fns[i].1.cases.value).value
        else k == fns[i].0)
  {
    if |fns| > 0 {
      var front := fns[..|fns| - 1];
      assert TemplatesNamed(front);
      NodeFactoryKeys(front);
      forall i | 0 <= i < |front|
        ensures front[i] == fns[i]
      {
      }
    }
  }
}

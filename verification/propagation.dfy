/** One propagation step, `Network.activate` (neural_network.py:148-155),
    built from `Node.pre_activate` and `Node.activate` (17-31).  The step
    is modelled exactly as its two loops run, in any visiting order, and
    proved equal to a simultaneous update that reads only pre-step outputs. */
module Propagation {
  import opened Wrappers
  import opened Sequences
  import opened Graph

  /** The `TypeError` raised when a node with weights has no activation. */
  datatype ActivationError = NoActivation(node: Id)

  /** The sum `Node.activate` accumulates over `zip(input_values,
      conn_weights)`, which stops at the shorter list. */
  function WeightedSum(values: seq<real>, weights: seq<real>): real
  {
    if values == [] || weights == [] then 0.0
    else values[0] * weights[0] + WeightedSum(values[1..], weights[1..])
  }

  /** The outputs of the objects `hs`, in order. */
  function Outputs(heap: seq<Node>, hs: seq<Handle>): (r: seq<real>)
    requires forall i | 0 <= i < |hs| :: hs[i] < |heap|
    ensures |r| == |hs|
    ensures forall i | 0 <= i < |hs| :: r[i] == heap[hs[i]].output
  {
    seq(|hs|, i requires 0 <= i < |hs| && (forall j | 0 <= j < |hs| :: hs[j] < |heap|) => heap[hs[i]].output)
  }

  /** `Node.pre_activate`: snapshot the current outputs of the inputs,
      one value per input in input order, and change nothing else. */
  function PreActivate(heap: seq<Node>, h: Handle): (r: Node)
    requires h < |heap| && InputsInRange(heap)
    ensures r == heap[h].(inputValues := r.inputValues)
    ensures |r.inputValues| == |heap[h].inputs|
    ensures forall i | 0 <= i < |heap[h].inputs| :: r.inputValues[i] == heap[heap[h].inputs[i]].output
  {
    heap[h].(inputValues := Outputs(heap, heap[h].inputs))
  }

  /** A node whose `Node.activate` would call a `None` activation. */
  predicate NeedsActivation(n: Node)
  {
    n.weights != [] && n.activation.None?
  }

  /** `Node.activate` with activation functions resolved by name through
      `f`: a node with no weights keeps its output, a node with weights but
      no activation fails, and otherwise only the output changes, to the
      activation applied to the weighted sum of the snapshot. */
  function ActivateNode(n: Node, f: (string, real) -> real): (r: Result<Node, ActivationError>)
    ensures r.Success? <==> !NeedsActivation(n)
    ensures r.Failure? ==> r.error == NoActivation(n.id)
    ensures n.weights == [] ==> r == Success(n)
    ensures r.Success? ==> r.value == n.(output := r.value.output)
    ensures r.Success? && n.weights != [] ==>
              r.value.output == f(n.activation.value, WeightedSum(n.inputValues, n.weights))
  {
    if n.weights == [] then Success(n)
    else if n.activation.None? then Failure(NoActivation(n.id))
    else Success(n.(output := f(n.activation.value, WeightedSum(n.inputValues, n.weights))))
  }

  /** The first loop of `Network.activate`, visiting `hs` in order. */
  function PreActivateAll(heap: seq<Node>, hs: seq<Handle>): (r: seq<Node>)
    requires InputsInRange(heap)
    requires forall i | 0 <= i < |hs| :: hs[i] < |heap|
    ensures |r| == |heap|
    ensures forall h | 0 <= h < |heap| :: r[h] == if h in hs then PreActivate(heap, h) else heap[h]
  {
    if hs == [] then heap
    else
      var rest := PreActivateAll(heap, hs[..|hs| - 1]);
      var h := hs[|hs| - 1];
      assert forall x :: x in hs <==> x in hs[..|hs| - 1] || x == h;
      assert forall x | 0 <= x < |heap| :: rest[x].output == heap[x].output && rest[x].inputs == heap[x].inputs;
      assert InputsInRange(rest);
      assert Outputs(rest, heap[h].inputs) == Outputs(heap, heap[h].inputs);
      rest[h := PreActivate(rest, h)]
  }

  /** The second loop of `Network.activate`, visiting `hs` in order and
      stopping at the first node that needs a missing activation. */
  function ActivateAll(heap: seq<Node>, hs: seq<Handle>, f: (string, real) -> real): (r: Result<seq<Node>, ActivationError>)
    requires Distinct(hs)
    requires forall i | 0 <= i < |hs| :: hs[i] < |heap|
    ensures r.Success? <==> forall i | 0 <= i < |hs| :: !NeedsActivation(heap[hs[i]])
    ensures r.Failure? ==> exists i | 0 <= i < |hs| :: NeedsActivation(heap[hs[i]]) && r.error.node == heap[hs[i]].id
    ensures r.Success? ==> |r.value| == |heap|
    ensures r.Success? ==> forall h | 0 <= h < |heap| ::
              r.value[h] == if h in hs then ActivateNode(heap[h], f).value else heap[h]
  {
    if hs == [] then Success(heap)
    else
      var prefix := hs[..|hs| - 1];
      var h := hs[|hs| - 1];
      assert forall x :: x in hs <==> x in prefix || x == h;
      assert h !in prefix;
      match ActivateAll(heap, prefix, f)
      case Failure(e) => Failure(e)
      case Success(rest) =>
        assert rest[h] == heap[h];
        match ActivateNode(rest[h], f)
        case Failure(e) => Failure(e)
        case Success(n) => Success(rest[h := n])
  }

  /** The node object `h` becomes after one step: it snapshots the pre-step
      outputs of its inputs and, if it has weights, applies its activation
      to their weighted sum. */
  function Stepped(net: Network, h: Handle, f: (string, real) -> real): Node
    requires h < |net.heap| && InputsInRange(net.heap)
  {
    var n := net.heap[h];
    var values := Outputs(net.heap, n.inputs);
    if n.weights == [] || n.activation.None? then n.(inputValues := values)
    else n.(inputValues := values, output := f(n.activation.value, WeightedSum(values, n.weights)))
  }

  /** A visiting order covering each live object exactly once. */
  predicate Enumerates(net: Network, hs: seq<Handle>)
  {
    && Distinct(hs)
    && (forall i | 0 <= i < |hs| :: hs[i] < |net.heap| && IsLive(net, hs[i]))
    && (forall h | 0 <= h < |net.heap| && IsLive(net, h) :: h in hs)
  }

  /** `Network.activate` with the first loop visiting `first` and the second
      visiting `second`.  Whatever the two orders, a step fails exactly when
      a live node needs a missing activation, and otherwise every live
      object becomes `Stepped`: all reads see pre-step outputs, and feedback
      edges read the previous step's value. */
  function ActivateVisiting(net: Network, first: seq<Handle>, second: seq<Handle>, f: (string, real) -> real): (r: Result<Network, ActivationError>)
    requires Valid(net)
    requires Enumerates(net, first) && Enumerates(net, second)
    ensures r.Success? <==> forall h | 0 <= h < |net.heap| && IsLive(net, h) :: !NeedsActivation(net.heap[h])
    ensures r.Failure? ==> r.error.node in net.nodes && NeedsActivation(net.heap[net.nodes[r.error.node]])
    ensures r.Success? ==> Valid(r.value) && SameTopology(net, r.value)
    ensures r.Success? ==> forall h | 0 <= h < |net.heap| ::
              r.value.heap[h] == if IsLive(net, h) then Stepped(net, h, f) else net.heap[h]
  {
    ValidInputsInRange(net);
    var staged := PreActivateAll(net.heap, first);
    match ActivateAll(staged, second, f)
    case Failure(e) =>
      ghost var i :| 0 <= i < |second| && NeedsActivation(staged[second[i]]) && e.node == staged[second[i]].id;
      assert IsLive(net, second[i]);
      Failure(e)
    case Success(heap) =>
      var r := net.(heap := heap);
      StepCorrect(net, first, second, staged, heap, f);
      SameTopologyKeepsInvariants(net, r);
      Success(r)
  }

  lemma StepCorrect(net: Network, first: seq<Handle>, second: seq<Handle>, staged: seq<Node>, heap: seq<Node>, f: (string, real) -> real)
    requires Valid(net) && InputsInRange(net.heap)
    requires Enumerates(net, first) && Enumerates(net, second)
    requires |staged| == |net.heap|
    requires forall h | 0 <= h < |net.heap| :: staged[h] == if h in first then PreActivate(net.heap, h) else net.heap[h]
    requires |heap| == |net.heap|
    requires forall h | 0 <= h < |net.heap| :: !(IsLive(net, h) && NeedsActivation(staged[h]))
    requires forall h | 0 <= h < |net.heap| ::
               heap[h] == if h in second && !NeedsActivation(staged[h]) then ActivateNode(staged[h], f).value else staged[h]
    ensures SameTopology(net, net.(heap := heap))
    ensures forall h | 0 <= h < |net.heap| :: heap[h] == if IsLive(net, h) then Stepped(net, h, f) else net.heap[h]
  {
  }

  /** `Network.activate`: both loops visit `nodes.values()`. */
  function Activate(net: Network, f: (string, real) -> real): (r: Result<Network, ActivationError>)
    requires Valid(net)
    ensures r.Success? <==> forall k | k in net.nodes :: !NeedsActivation(net.heap[net.nodes[k]])
    ensures r.Success? ==> Valid(r.value) && SameTopology(net, r.value)
    ensures r.Success? ==> forall h | 0 <= h < |net.heap| ::
              r.value.heap[h] == if IsLive(net, h) then Stepped(net, h, f) else net.heap[h]
  {
    var hs := Values(net);
    assert Enumerates(net, hs);
    assert forall k | k in net.nodes :: IsLive(net, net.nodes[k]);
    ActivateVisiting(net, hs, hs, f)
  }

  /** The result of a step does not depend on the order either loop visits
      the nodes in: any two pairs of orders agree on success and, when the
      step succeeds, produce the same network. */
  lemma ActivateOrderIndependent(net: Network, a1: seq<Handle>, a2: seq<Handle>, b1: seq<Handle>, b2: seq<Handle>, f: (string, real) -> real)
    requires Valid(net)
    requires Enumerates(net, a1) && Enumerates(net, a2) && Enumerates(net, b1) && Enumerates(net, b2)
    ensures ActivateVisiting(net, a1, a2, f).Success? == ActivateVisiting(net, b1, b2, f).Success?
    ensures ActivateVisiting(net, a1, a2, f).Success? ==> ActivateVisiting(net, a1, a2, f) == ActivateVisiting(net, b1, b2, f)
  {
    var ra := ActivateVisiting(net, a1, a2, f);
    var rb := ActivateVisiting(net, b1, b2, f);
    if ra.Success? {
      assert ra.value.heap == rb.value.heap;
    }
  }
}

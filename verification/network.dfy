/** The mutating and reading operations of `Network` (neural_network.py:93-160):
    the three node adders, `add_connection`, `set_inputs`, `get_outputs` and
    `flush`.  Each returns the updated network instead of mutating it. */
module NetworkOps {
  import opened Wrappers
  import opened Sequences
  import opened Graph

  // ----- Node adders ------------------------------------------------------

  /** The role lists an adder appends the new key to. */
  datatype Role = Hidden | InputRole | OutputRole

  /** What the three adders share: construct a fresh object and store it
      under `id` whether or not the key is already present.  A new key goes
      to the end of the dict; an existing key keeps its place, and its old
      object stays wherever other nodes reference it. */
  function PutNode(net: Network, id: Id, activation: Option<string>, role: Role): (r: Network)
    ensures |r.heap| == |net.heap| + 1 && r.heap[..|net.heap|] == net.heap
    ensures r.nodes == net.nodes[id := |net.heap|]
    ensures r.heap[|net.heap|] == FreshNode(id, activation)
    ensures r.order == if id in net.nodes then net.order else net.order + [id]
    ensures r.inputKeys == if role == InputRole then net.inputKeys + [id] else net.inputKeys
    ensures r.outputKeys == if role == OutputRole then net.outputKeys + [id] else net.outputKeys
  {
    net.(heap := net.heap + [FreshNode(id, activation)],
         nodes := net.nodes[id := |net.heap|],
         order := if id in net.nodes then net.order else net.order + [id],
         inputKeys := if role == InputRole then net.inputKeys + [id] else net.inputKeys,
         outputKeys := if role == OutputRole then net.outputKeys + [id] else net.outputKeys)
  }

  lemma PutNodeWellFormed(net: Network, id: Id, activation: Option<string>, role: Role)
    requires NodesWellFormed(net)
    ensures NodesWellFormed(PutNode(net, id, activation, role))
  {
  }

  lemma PutNodeBacklinks(net: Network, id: Id, activation: Option<string>, role: Role)
    requires NodesWellFormed(net) && Backlinks(net)
    ensures Backlinks(PutNode(net, id, activation, role))
  {
  }

  lemma PutNodeKeys(net: Network, id: Id, activation: Option<string>, role: Role)
    requires KeysResolve(net) && IdsRegistered(net)
    ensures KeysResolve(PutNode(net, id, activation, role))
    ensures IdsRegistered(PutNode(net, id, activation, role))
  {
  }

  lemma PutNodeOrder(net: Network, id: Id, activation: Option<string>, role: Role)
    requires OrderMatches(net) && RolesRegistered(net)
    ensures OrderMatches(PutNode(net, id, activation, role))
    ensures RolesRegistered(PutNode(net, id, activation, role))
  {
  }

  lemma PutNodeValid(net: Network, id: Id, activation: Option<string>, role: Role)
    requires Valid(net)
    ensures Valid(PutNode(net, id, activation, role))
  {
    PutNodeWellFormed(net, id, activation, role);
    PutNodeBacklinks(net, id, activation, role);
    PutNodeKeys(net, id, activation, role);
    PutNodeOrder(net, id, activation, role);
  }

  /** `add_hidden_node` (neural_network.py:102-106). */
  function AddHiddenNode(net: Network, id: Id, activation: Option<string>): (r: Network)
    ensures Valid(net) ==> Valid(r)
    ensures id in r.nodes && r.nodes[id] == |net.heap| && |r.heap| == |net.heap| + 1
    ensures r.heap[r.nodes[id]] == FreshNode(id, activation)
    ensures forall k | k in net.nodes && k != id :: k in r.nodes && r.nodes[k] == net.nodes[k]
    ensures r.heap[..|net.heap|] == net.heap
    ensures r.order == if id in net.nodes then net.order else net.order + [id]
    ensures r.inputKeys == net.inputKeys && r.outputKeys == net.outputKeys
  {
    if Valid(net) then PutNodeValid(net, id, activation, Hidden); PutNode(net, id, activation, Hidden)
    else PutNode(net, id, activation, Hidden)
  }

  /** `add_input_node` (neural_network.py:109-112): no activation, and the
      key is appended to the input list even when it is already there. */
  function AddInputNode(net: Network, id: Id): (r: Network)
    ensures Valid(net) ==> Valid(r)
    ensures id in r.nodes && r.nodes[id] == |net.heap| && |r.heap| == |net.heap| + 1
    ensures r.heap[r.nodes[id]] == FreshNode(id, None)
    ensures forall k | k in net.nodes && k != id :: k in r.nodes && r.nodes[k] == net.nodes[k]
    ensures r.heap[..|net.heap|] == net.heap
    ensures r.order == if id in net.nodes then net.order else net.order + [id]
    ensures r.inputKeys == net.inputKeys + [id] && r.outputKeys == net.outputKeys
  {
    if Valid(net) then PutNodeValid(net, id, None, InputRole); PutNode(net, id, None, InputRole)
    else PutNode(net, id, None, InputRole)
  }

  /** `add_output_node` (neural_network.py:114-119): the key is appended to
      the output list even when it is already there. */
  function AddOutputNode(net: Network, id: Id, activation: Option<string>): (r: Network)
    ensures Valid(net) ==> Valid(r)
    ensures id in r.nodes && r.nodes[id] == |net.heap| && |r.heap| == |net.heap| + 1
    ensures r.heap[r.nodes[id]] == FreshNode(id, activation)
    ensures forall k | k in net.nodes && k != id :: k in r.nodes && r.nodes[k] == net.nodes[k]
    ensures r.heap[..|net.heap|] == net.heap
    ensures r.order == if id in net.nodes then net.order else net.order + [id]
    ensures r.inputKeys == net.inputKeys && r.outputKeys == net.outputKeys + [id]
  {
    if Valid(net) then PutNodeValid(net, id, activation, OutputRole); PutNode(net, id, activation, OutputRole)
    else PutNode(net, id, activation, OutputRole)
  }

  /** Re-adding an existing id orphans its old object: the network stays
      orphan-free exactly when the id was new. */
  lemma PutNodeOrphans(net: Network, id: Id, activation: Option<string>, role: Role)
    requires Valid(net)
    ensures NoOrphans(PutNode(net, id, activation, role)) <==> NoOrphans(net) && id !in net.nodes
  {
    var r := PutNode(net, id, activation, role);
    if id in net.nodes {
      var old_ := net.nodes[id];
      assert r.heap[old_] == net.heap[old_];
      assert !IsLive(r, old_);
    } else if NoOrphans(net) {
      forall h | 0 <= h < |r.heap| ensures IsLive(r, h) {
        if h < |net.heap| {
          assert IsLive(net, h);
          assert r.heap[h] == net.heap[h];
        }
      }
    } else {
      var h :| 0 <= h < |net.heap| && !IsLive(net, h);
      var k := net.heap[h].id;
      assert k in net.nodes && k != id;
      assert r.heap[h] == net.heap[h] && r.nodes[k] == net.nodes[k];
      assert !IsLive(r, h);
    }
  }

  // ----- Connections ------------------------------------------------------

  /** `add_connection` stores a new edge: both keys exist and the
      destination object does not already list the source object. */
  predicate ConnectsFresh(net: Network, src: Id, dst: Id)
    requires KeysResolve(net)
  {
    src in net.nodes && dst in net.nodes && net.nodes[src] !in net.heap[net.nodes[dst]].inputs
  }

  /** `r` is `net` with the edge `s -> d` of weight `w` appended: `s` at the
      end of `d`'s inputs, `w` at the end of its weights, `d` at the end of
      `s`'s dependants, and nothing else changed. */
  predicate AppendsEdge(net: Network, r: Network, s: Handle, d: Handle, w: real)
  {
    && r.nodes == net.nodes
    && r.order == net.order
    && r.inputKeys == net.inputKeys
    && r.outputKeys == net.outputKeys
    && |r.heap| == |net.heap|
    && forall h | 0 <= h < |net.heap| ::
         r.heap[h] == net.heap[h].(inputs := if h == d then net.heap[h].inputs + [s] else net.heap[h].inputs,
                                   weights := if h == d then net.heap[h].weights + [w] else net.heap[h].weights,
                                   dependants := if h == s then net.heap[h].dependants + [d] else net.heap[h].dependants)
  }

  /** `add_connection(weight, in_node_key, out_node_key)`
      (neural_network.py:121-137). */
  function AddConnection(net: Network, weight: real, src: Id, dst: Id): (r: Network)
    requires Valid(net)
    ensures Valid(r)
    ensures !ConnectsFresh(net, src, dst) ==> r == net
    ensures ConnectsFresh(net, src, dst) ==> AppendsEdge(net, r, net.nodes[src], net.nodes[dst], weight)
  {
    if src !in net.nodes || dst !in net.nodes then net
    else
      var s := net.nodes[src];
      var d := net.nodes[dst];
      if s in net.heap[d].inputs then net
      else
        var h1 := net.heap[d := net.heap[d].(inputs := net.heap[d].inputs + [s],
                                               weights := net.heap[d].weights + [weight])];
        var h2 := h1[s := h1[s].(dependants := h1[s].dependants + [d])];
        var r := net.(heap := h2);
        assert AppendsEdge(net, r, s, d, weight);
        AppendEdgeValid(net, r, s, d, weight);
        r
  }

  lemma AppendEdgeWellFormed(net: Network, r: Network, s: Handle, d: Handle, w: real)
    requires NodesWellFormed(net) && Backlinks(net)
    requires s < |net.heap| && d < |net.heap| && s !in net.heap[d].inputs
    requires AppendsEdge(net, r, s, d, w)
    ensures NodesWellFormed(r)
  {
    var n := |net.heap|;
    assert d !in net.heap[s].dependants;
    forall h | 0 <= h < n ensures NodeWellFormed(r.heap[h], n) {
      var a := net.heap[h];
      assert NodeWellFormed(a, n);
      if h == d && h == s {
        assert r.heap[h].inputs == a.inputs + [s] && r.heap[h].dependants == a.dependants + [d];
      } else if h == d {
        assert r.heap[h].inputs == a.inputs + [s] && r.heap[h].dependants == a.dependants;
      } else if h == s {
        assert r.heap[h].inputs == a.inputs && r.heap[h].dependants == a.dependants + [d];
      } else {
        assert r.heap[h].inputs == a.inputs && r.heap[h].dependants == a.dependants;
      }
    }
  }

  lemma AppendEdgeBacklinks(net: Network, r: Network, s: Handle, d: Handle, w: real)
    requires Backlinks(net)
    requires s < |net.heap| && d < |net.heap|
    requires AppendsEdge(net, r, s, d, w)
    ensures Backlinks(r)
  {
  }

  lemma AppendEdgeValid(net: Network, r: Network, s: Handle, d: Handle, w: real)
    requires Valid(net)
    requires s < |net.heap| && d < |net.heap| && s !in net.heap[d].inputs
    requires AppendsEdge(net, r, s, d, w)
    ensures Valid(r)
  {
    AppendEdgeWellFormed(net, r, s, d, w);
    AppendEdgeBacklinks(net, r, s, d, w);
    AppendEdgeIds(net, r, s, d, w);
    SameIdsKeepKeys(net, r);
  }

  /** Appending an edge renames no object. */
  lemma AppendEdgeIds(net: Network, r: Network, s: Handle, d: Handle, w: real)
    requires AppendsEdge(net, r, s, d, w)
    ensures forall h | 0 <= h < |net.heap| :: r.heap[h].id == net.heap[h].id
  {
  }

  /** The dict invariants hold for a heap of the same size with the same
      ids under the same dict. */
  lemma SameIdsKeepKeys(net: Network, r: Network)
    requires KeysResolve(net) && IdsRegistered(net)
    requires r.nodes == net.nodes && |r.heap| == |net.heap|
    requires forall h | 0 <= h < |net.heap| :: r.heap[h].id == net.heap[h].id
    ensures KeysResolve(r) && IdsRegistered(r)
  {
  }

  /** Repeating a connection, with any weight, changes nothing: the edge
      from the first call is found by the duplicate check. */
  lemma AddConnectionIdempotent(net: Network, w1: real, w2: real, src: Id, dst: Id)
    requires Valid(net)
    ensures AddConnection(AddConnection(net, w1, src, dst), w2, src, dst) == AddConnection(net, w1, src, dst)
  {
  }

  // ----- Reading and writing values --------------------------------------

  /** The `KeyError` of `set_inputs`: a required input key has no value. */
  datatype InputError = MissingInput(key: Id)

  /** The loop of `set_inputs` over `keys`, stopping at the first missing
      value. */
  function AssignInputs(net: Network, keys: seq<Id>, values: map<Id, real>): (r: Result<Network, InputError>)
    requires KeysResolve(net)
    requires forall i | 0 <= i < |keys| :: keys[i] in net.nodes
    ensures r.Success? <==> forall i | 0 <= i < |keys| :: keys[i] in values
    ensures r.Failure? ==> r.error.key in keys && r.error.key !in values
    ensures r.Success? ==> SameTopology(net, r.value)
    ensures r.Success? ==> forall h | 0 <= h < |net.heap| ::
              r.value.heap[h] == if IsLive(net, h) && net.heap[h].id in keys
                                 then net.heap[h].(output := values[net.heap[h].id])
                                 else net.heap[h]
    decreases |keys|
  {
    if keys == [] then Success(net)
    else if keys[0] !in values then Failure(MissingInput(keys[0]))
    else
      var h := net.nodes[keys[0]];
      var net' := net.(heap := net.heap[h := net.heap[h].(output := values[keys[0]])]);
      assert SameTopology(net, net');
      var r := AssignInputs(net', keys[1..], values);
      assert forall i | 0 <= i < |keys| :: keys[i] == keys[0] || keys[i] in keys[1..];
      r
  }

  /** `set_inputs` (neural_network.py:140-142): exactly the live objects of
      the input keys take their value from `values`; it fails when a key
      has no value. */
  function SetInputs(net: Network, values: map<Id, real>): (r: Result<Network, InputError>)
    requires Valid(net)
    ensures r.Success? <==> forall k | k in net.inputKeys :: k in values
    ensures r.Failure? ==> r.error.key in net.inputKeys && r.error.key !in values
    ensures r.Success? ==> Valid(r.value) && SameTopology(net, r.value)
    ensures r.Success? ==> forall k | k in net.nodes ::
              r.value.heap[net.nodes[k]].output == if k in net.inputKeys then values[k] else net.heap[net.nodes[k]].output
    ensures r.Success? ==> forall h | 0 <= h < |net.heap| && !IsLive(net, h) :: r.value.heap[h] == net.heap[h]
    ensures r.Success? ==> forall h | 0 <= h < |net.heap| :: r.value.heap[h] == net.heap[h].(output := r.value.heap[h].output)
  {
    var r := AssignInputs(net, net.inputKeys, values);
    if r.Success? then
      SetInputsValues(net, values, r.value);
      SameTopologyKeepsInvariants(net, r.value);
      r
    else
      r
  }

  lemma SetInputsValues(net: Network, values: map<Id, real>, r: Network)
    requires KeysResolve(net)
    requires forall k | k in net.inputKeys :: k in values
    requires |r.heap| == |net.heap|
    requires forall h | 0 <= h < |net.heap| ::
               r.heap[h] == if IsLive(net, h) && net.heap[h].id in net.inputKeys
                            then net.heap[h].(output := values[net.heap[h].id])
                            else net.heap[h]
    ensures forall k | k in net.nodes ::
              r.heap[net.nodes[k]].output == if k in net.inputKeys then values[k] else net.heap[net.nodes[k]].output
  {
  }

  /** `get_outputs` (neural_network.py:145-146): one entry per output key. */
  function GetOutputs(net: Network): (r: map<Id, real>)
    requires Valid(net)
    ensures r.Keys == set k | k in net.outputKeys
    ensures forall k | k in r :: r[k] == net.heap[net.nodes[k]].output
  {
    map k | k in net.outputKeys :: net.heap[net.nodes[k]].output
  }

  /** The loop of `flush` over the handles `hs`. */
  function ZeroOutputs(heap: seq<Node>, hs: seq<Handle>): (r: seq<Node>)
    requires forall i | 0 <= i < |hs| :: hs[i] < |heap|
    ensures |r| == |heap|
    ensures forall h | 0 <= h < |heap| :: r[h] == if h in hs then heap[h].(output := 0.0) else heap[h]
  {
    if hs == [] then heap
    else
      var rest := ZeroOutputs(heap, hs[..|hs| - 1]);
      var h := hs[|hs| - 1];
      assert forall x :: x in hs <==> x in hs[..|hs| - 1] || x == h;
      rest[h := rest[h].(output := 0.0)]
  }

  /** `flush` (neural_network.py:158-160): every live object's output
      becomes 0; edges and orphaned objects are untouched. */
  function Flush(net: Network): (r: Network)
    requires Valid(net)
    ensures Valid(r) && SameTopology(net, r)
    ensures forall h | 0 <= h < |net.heap| ::
              r.heap[h] == if IsLive(net, h) then net.heap[h].(output := 0.0) else net.heap[h]
  {
    var r := net.(heap := ZeroOutputs(net.heap, Values(net)));
    FlushZeroesLive(net, r);
    r
  }

  lemma FlushZeroesLive(net: Network, r: Network)
    requires Valid(net) && r == net.(heap := ZeroOutputs(net.heap, Values(net)))
    ensures Valid(r) && SameTopology(net, r)
    ensures forall h | 0 <= h < |net.heap| ::
              r.heap[h] == if IsLive(net, h) then net.heap[h].(output := 0.0) else net.heap[h]
  {
    var hs := Values(net);
    forall h | 0 <= h < |net.heap| ensures SameEdges(net.heap[h], r.heap[h]) {
      assert r.heap[h] == if h in hs then net.heap[h].(output := 0.0) else net.heap[h];
    }
    SameTopologyKeepsInvariants(net, r);
  }

  /** After `flush`, `get_outputs` reads 0 for every output key. */
  lemma FlushZeroesOutputs(net: Network)
    requires Valid(net)
    ensures forall k | k in GetOutputs(Flush(net)) :: GetOutputs(Flush(net))[k] == 0.0
  {
  }
}

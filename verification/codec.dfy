/** `save_network` and `load_network` (neural_network.py:163-228) at the
    level of the records they write and read: the `str`/`literal_eval`
    text layer and the file are not modelled. */
module Codec {
  import opened Wrappers
  import opened Sequences
  import opened Graph
  import opened NetworkOps

  /** The name `save_network` writes for a node without an activation. */
  const NoActivationName := "None"

  /** One entry of `network_params["nodes"]`. */
  datatype NodeRecord = NodeRecord(
    id: Id,
    activationId: string,
    inputs: seq<Id>,
    weights: seq<real>,
    dependants: seq<Id>)

  /** `network_params`: the two key lists and the node records. */
  datatype NetworkParams = NetworkParams(inputKeys: seq<Id>, outputKeys: seq<Id>, nodes: seq<NodeRecord>)

  /** `functions_dict`: activation names to activation functions, here to
      the names the loaded nodes get (`None` for no activation). */
  type Registry = map<string, Option<string>>

  // ----- save_network -----------------------------------------------------

  function ActivationName(a: Option<string>): string
  {
    if a.None? then NoActivationName else a.value
  }

  /** The record of object `h` (neural_network.py:170-188): its id, the
      name of its activation, the ids of its inputs paired position by
      position with its weights, and the ids of its dependants. */
  function SaveNode(net: Network, h: Handle): (rec: NodeRecord)
    requires Valid(net) && h < |net.heap|
    ensures rec.id == net.heap[h].id
    ensures rec.activationId == ActivationName(net.heap[h].activation)
    ensures rec.weights == net.heap[h].weights
    ensures |rec.inputs| == |net.heap[h].inputs| == |rec.weights|
    ensures forall q | 0 <= q < |rec.inputs| ::
              net.heap[h].inputs[q] < |net.heap| && rec.inputs[q] == net.heap[net.heap[h].inputs[q]].id
    ensures forall q | 0 <= q < |rec.inputs| :: rec.inputs[q] in net.nodes
    ensures |rec.dependants| == |net.heap[h].dependants|
    ensures forall q | 0 <= q < |rec.dependants| ::
              net.heap[h].dependants[q] < |net.heap| && rec.dependants[q] == net.heap[net.heap[h].dependants[q]].id
  {
    assert NodeWellFormed(net.heap[h], |net.heap|);
    var n := net.heap[h];
    NodeRecord(n.id, ActivationName(n.activation), InputIds(net, h), n.weights, DependantIds(net, h))
  }

  /** `save_network` (neural_network.py:163-192): the key lists as they are
      and one record per dict entry, in dict order. */
  function SaveNetwork(net: Network): (p: NetworkParams)
    requires Valid(net)
    ensures p.inputKeys == net.inputKeys && p.outputKeys == net.outputKeys
    ensures |p.nodes| == |net.order|
    ensures forall i | 0 <= i < |p.nodes| :: p.nodes[i] == SaveNode(net, net.nodes[net.order[i]])
  {
    var hs := Values(net);
    var recs := seq(|hs|, i requires 0 <= i < |hs| && Valid(net) && hs == Values(net) => SaveNode(net, hs[i]));
    NetworkParams(net.inputKeys, net.outputKeys, recs)
  }

  // ----- load_network, first pass: creating the nodes ---------------------

  /** Which adder the first pass of `load_network` calls for `id`: input
      keys win over output keys (neural_network.py:217-222). */
  function RoleOf(p: NetworkParams, id: Id): Role
  {
    if id in p.inputKeys then InputRole
    else if id in p.outputKeys then OutputRole
    else Hidden
  }

  /** `load_network` as written passes the activation to `add_input_node`,
      which takes only the id; `Corrected` calls `add_input_node(id)`. */
  datatype Loader = AsWritten | Corrected

  /** The `functions_dict` lookup fails, or the `add_input_node` call fails. */
  datatype LoadError = UnknownActivation(name: string) | InputNodeArity(id: Id)

  /** Why the record `rec` cannot be created, checked in the order the
      source reaches the two failure points. */
  function RecordFault(p: NetworkParams, registry: Registry, rec: NodeRecord, loader: Loader): Option<LoadError>
  {
    if rec.activationId !in registry then Some(UnknownActivation(rec.activationId))
    else if loader == AsWritten && RoleOf(p, rec.id) == InputRole then Some(InputNodeArity(rec.id))
    else None
  }

  /** The activation a created node gets: none for an input node. */
  function LoadedActivation(p: NetworkParams, registry: Registry, rec: NodeRecord): Option<string>
    requires rec.activationId in registry
  {
    if RoleOf(p, rec.id) == InputRole then None else registry[rec.activationId]
  }

  /** One iteration of the first loop of `load_network`. */
  function AddRecord(net: Network, p: NetworkParams, registry: Registry, rec: NodeRecord, loader: Loader): (r: Result<Network, LoadError>)
    ensures r.Success? <==> RecordFault(p, registry, rec, loader).None?
    ensures r.Failure? ==> r.error == RecordFault(p, registry, rec, loader).value
    ensures r.Success? ==>
              r.value == PutNode(net, rec.id, LoadedActivation(p, registry, rec), RoleOf(p, rec.id)) &&
              (Valid(net) ==> Valid(r.value))
  {
    if rec.activationId !in registry then Failure(UnknownActivation(rec.activationId))
    else
      var activation := registry[rec.activationId];
      match RoleOf(p, rec.id)
      case InputRole =>
        if loader == AsWritten then Failure(InputNodeArity(rec.id))
        else Success(AddInputNode(net, rec.id))
      case OutputRole => Success(AddOutputNode(net, rec.id, activation))
      case Hidden => Success(AddHiddenNode(net, rec.id, activation))
  }

  /** The first loop of `load_network` over `recs`, from an empty network:
      it stops at the first record that cannot be created. */
  function CreateNodes(p: NetworkParams, registry: Registry, recs: seq<NodeRecord>, loader: Loader): (r: Result<Network, LoadError>)
    ensures r.Success? <==> forall i | 0 <= i < |recs| :: RecordFault(p, registry, recs[i], loader).None?
    ensures r.Failure? ==>
              exists i | 0 <= i < |recs| ::
                RecordFault(p, registry, recs[i], loader) == Some(r.error) &&
                forall j | 0 <= j < i :: RecordFault(p, registry, recs[j], loader).None?
    decreases |recs|
  {
    if recs == [] then Success(EmptyNetwork)
    else
      var front := recs[..|recs| - 1];
      var last := recs[|recs| - 1];
      assert forall i | 0 <= i < |front| :: front[i] == recs[i];
      match CreateNodes(p, registry, front, loader)
      case Failure(e) =>
        assert exists i | 0 <= i < |front| :: RecordFault(p, registry, front[i], loader) == Some(e) &&
                 forall j | 0 <= j < i :: RecordFault(p, registry, front[j], loader).None?;
        Failure(e)
      case Success(net) =>
        var r := AddRecord(net, p, registry, last, loader);
        if r.Failure? then
          assert RecordFault(p, registry, recs[|recs| - 1], loader) == Some(r.error);
          r
        else r
  }

  /** A successful first pass over `recs` is a successful pass over all
      but the last record followed by storing the last one. */
  lemma CreateNodesStep(p: NetworkParams, registry: Registry, recs: seq<NodeRecord>, loader: Loader)
    requires recs != [] && CreateNodes(p, registry, recs, loader).Success?
    ensures CreateNodes(p, registry, recs[..|recs| - 1], loader).Success?
    ensures RecordFault(p, registry, recs[|recs| - 1], loader).None?
    ensures var last := recs[|recs| - 1];
            CreateNodes(p, registry, recs, loader).value ==
            PutNode(CreateNodes(p, registry, recs[..|recs| - 1], loader).value,
                    last.id, LoadedActivation(p, registry, last), RoleOf(p, last.id))
  {
  }

  /** `heap` holds one fresh object per record, in record order, each with
      the activation the registry gives its record. */
  predicate FreshFor(p: NetworkParams, registry: Registry, recs: seq<NodeRecord>, heap: seq<Node>)
  {
    && |heap| == |recs|
    && forall i | 0 <= i < |recs| ::
         recs[i].activationId in registry &&
         heap[i] == FreshNode(recs[i].id, LoadedActivation(p, registry, recs[i]))
  }

  /** A successful first pass leaves a valid network holding one fresh
      object per record, in record order. */
  lemma {:induction false} CreatedNodes(p: NetworkParams, registry: Registry, recs: seq<NodeRecord>, loader: Loader)
    requires CreateNodes(p, registry, recs, loader).Success?
    ensures Valid(CreateNodes(p, registry, recs, loader).value)
    ensures FreshFor(p, registry, recs, CreateNodes(p, registry, recs, loader).value.heap)
    decreases |recs|
  {
    if recs != [] {
      var front := recs[..|recs| - 1];
      CreateNodesStep(p, registry, recs, loader);
      CreatedNodes(p, registry, front, loader);
      var net := CreateNodes(p, registry, front, loader).value;
      var last := recs[|recs| - 1];
      PutNodeValid(net, last.id, LoadedActivation(p, registry, last), RoleOf(p, last.id));
      CreateStep(p, registry, recs, net, CreateNodes(p, registry, recs, loader).value);
    }
  }

  /** Creating the last record appends its fresh object. */
  lemma CreateStep(p: NetworkParams, registry: Registry, recs: seq<NodeRecord>, net: Network, r: Network)
    requires recs != [] && recs[|recs| - 1].activationId in registry
    requires FreshFor(p, registry, recs[..|recs| - 1], net.heap)
    requires var last := recs[|recs| - 1];
             r.heap == net.heap + [FreshNode(last.id, LoadedActivation(p, registry, last))]
    ensures FreshFor(p, registry, recs, r.heap)
  {
  }

  // ----- load_network, second pass: replaying the connections -------------

  /** The inner loop of `load_network` for a record with id `dst`, from
      pair `c` on: `zip` pairs inputs with weights and stops at the shorter
      list. */
  function ConnectPairs(net: Network, dst: Id, ins: seq<Id>, ws: seq<real>, c: nat): (r: Network)
    requires Valid(net)
    ensures Valid(r)
    ensures KeepsNodes(net, r)
    decreases |ins| - c
  {
    if c >= |ins| || c >= |ws| then net
    else
      AddConnectionKeepsNodes(net, ws[c], ins[c], dst);
      ConnectPairs(AddConnection(net, ws[c], ins[c], dst), dst, ins, ws, c + 1)
  }

  /** The inner loop of `load_network` for one record. */
  function ConnectRecord(net: Network, rec: NodeRecord): (r: Network)
    requires Valid(net)
    ensures Valid(r) && KeepsNodes(net, r)
  {
    ConnectPairs(net, rec.id, rec.inputs, rec.weights, 0)
  }

  /** The second loop of `load_network`, from record `t` on. */
  function ConnectAll(net: Network, recs: seq<NodeRecord>, t: nat): (r: Network)
    requires Valid(net)
    ensures Valid(r) && KeepsNodes(net, r)
    decreases |recs| - t
  {
    if t >= |recs| then net
    else ConnectAll(ConnectRecord(net, recs[t]), recs, t + 1)
  }

  /** Two objects agreeing on everything but their edges. */
  predicate SameExceptEdges(a: Node, b: Node)
  {
    a.id == b.id && a.output == b.output && a.inputValues == b.inputValues && a.activation == b.activation
  }

  /** Only edges differ between `a` and `b`: the dict, its order, the role
      lists and every object's other fields are the same. */
  predicate KeepsNodes(a: Network, b: Network)
  {
    && a.nodes == b.nodes
    && a.order == b.order
    && a.inputKeys == b.inputKeys
    && a.outputKeys == b.outputKeys
    && |a.heap| == |b.heap|
    && forall h | 0 <= h < |a.heap| :: SameExceptEdges(a.heap[h], b.heap[h])
  }

  lemma AddConnectionKeepsNodes(net: Network, weight: real, src: Id, dst: Id)
    requires Valid(net)
    ensures KeepsNodes(net, AddConnection(net, weight, src, dst))
  {
  }

  // ----- load_network -----------------------------------------------------

  /** `load_network` (neural_network.py:199-228) on decoded parameters. */
  function Load(p: NetworkParams, registry: Registry, loader: Loader): (r: Result<Network, LoadError>)
    ensures r.Success? <==> forall i | 0 <= i < |p.nodes| :: RecordFault(p, registry, p.nodes[i], loader).None?
    ensures r.Success? ==> Valid(r.value) && |r.value.heap| == |p.nodes|
    ensures r.Failure? ==>
              exists i | 0 <= i < |p.nodes| ::
                RecordFault(p, registry, p.nodes[i], loader) == Some(r.error) &&
                forall j | 0 <= j < i :: RecordFault(p, registry, p.nodes[j], loader).None?
  {
    var created :- CreateNodes(p, registry, p.nodes, loader);
    CreatedNodes(p, registry, p.nodes, loader);
    Success(ConnectAll(created, p.nodes, 0))
  }

  /** `load_network` as the source writes it: it succeeds exactly when every
      record names a known activation and none is an input node, so any
      saved network with an input node fails to load. */
  function LoadNetwork(p: NetworkParams, registry: Registry): (r: Result<Network, LoadError>)
    ensures r.Success? <==>
              forall i | 0 <= i < |p.nodes| :: p.nodes[i].activationId in registry && p.nodes[i].id !in p.inputKeys
    ensures r.Success? ==> Valid(r.value) && |r.value.heap| == |p.nodes|
    ensures r.Failure? ==>
              exists i | 0 <= i < |p.nodes| ::
                || (r.error == UnknownActivation(p.nodes[i].activationId) && p.nodes[i].activationId !in registry)
                || (r.error == InputNodeArity(p.nodes[i].id) && p.nodes[i].id in p.inputKeys)
  {
    Load(p, registry, AsWritten)
  }

  /** `load_network` with the input node created by `add_input_node(id)`:
      it fails only on an activation name missing from the registry. */
  function LoadNetworkCorrected(p: NetworkParams, registry: Registry): (r: Result<Network, LoadError>)
    ensures r.Success? <==> forall i | 0 <= i < |p.nodes| :: p.nodes[i].activationId in registry
    ensures r.Success? ==> Valid(r.value) && |r.value.heap| == |p.nodes|
    ensures r.Failure? ==>
              exists i | 0 <= i < |p.nodes| ::
                r.error == UnknownActivation(p.nodes[i].activationId) && p.nodes[i].activationId !in registry
  {
    Load(p, registry, Corrected)
  }

  // ----- Round trip -------------------------------------------------------

  /** The ids of the records, in order. */
  function Ids(recs: seq<NodeRecord>): (ids: seq<Id>)
    ensures |ids| == |recs|
    ensures forall i | 0 <= i < |recs| :: ids[i] == recs[i].id
    decreases |recs|
  {
    if recs == [] then [] else Ids(recs[..|recs| - 1]) + [recs[|recs| - 1].id]
  }

  /** The record ids the first pass appends to the role list of `role`. */
  function WithRole(p: NetworkParams, recs: seq<NodeRecord>, role: Role): (ids: seq<Id>)
    ensures forall k :: k in ids <==> k in Ids(recs) && RoleOf(p, k) == role
    decreases |recs|
  {
    if recs == [] then []
    else
      var front := recs[..|recs| - 1];
      var last := recs[|recs| - 1];
      assert Ids(recs) == Ids(front) + [last.id];
      WithRole(p, front, role) + (if RoleOf(p, last.id) == role then [last.id] else [])
  }

  /** `net` stores record `i` of `recs` under its id at handle `i`, orders
      its dict like the records and has the role lists the records give. */
  ghost predicate Indexed(p: NetworkParams, recs: seq<NodeRecord>, net: Network)
  {
    && net.order == Ids(recs)
    && (forall k :: k in net.nodes <==> k in Ids(recs))
    && (forall i | 0 <= i < |recs| :: recs[i].id in net.nodes && net.nodes[recs[i].id] == i)
    && net.inputKeys == WithRole(p, recs, InputRole)
    && net.outputKeys == WithRole(p, recs, OutputRole)
    && |net.heap| == |recs|
  }

  /** With distinct record ids, the first pass stores record `i` under its
      id at handle `i`, orders the dict like the records, and rebuilds the
      role lists from the records. */
  lemma {:induction false} CreatedIndex(p: NetworkParams, registry: Registry, recs: seq<NodeRecord>, loader: Loader)
    requires CreateNodes(p, registry, recs, loader).Success?
    requires Distinct(Ids(recs))
    ensures Indexed(p, recs, CreateNodes(p, registry, recs, loader).value)
    decreases |recs|
  {
    if recs != [] {
      var front := recs[..|recs| - 1];
      DistinctFront(recs);
      CreateNodesStep(p, registry, recs, loader);
      CreatedIndex(p, registry, front, loader);
      IndexStep(p, recs, CreateNodes(p, registry, front, loader).value, CreateNodes(p, registry, recs, loader).value);
    }
  }

  /** Distinct ids stay distinct without the last record, whose id is not
      among the others. */
  lemma DistinctFront(recs: seq<NodeRecord>)
    requires recs != [] && Distinct(Ids(recs))
    ensures Distinct(Ids(recs[..|recs| - 1])) && recs[|recs| - 1].id !in Ids(recs[..|recs| - 1])
  {
  }

  /** Storing a new last record under its id keeps the earlier records'
      handles and appends its id to the dict order and its role list. */
  lemma IndexStep(p: NetworkParams, recs: seq<NodeRecord>, net: Network, r: Network)
    requires recs != []
    requires Indexed(p, recs[..|recs| - 1], net)
    requires recs[|recs| - 1].id !in Ids(recs[..|recs| - 1])
    requires var last := recs[|recs| - 1];
             |r.heap| == |net.heap| + 1 &&
             r.nodes == net.nodes[last.id := |net.heap|] &&
             r.order == (if last.id in net.nodes then net.order else net.order + [last.id]) &&
             r.inputKeys == (if RoleOf(p, last.id) == InputRole then net.inputKeys + [last.id] else net.inputKeys) &&
             r.outputKeys == (if RoleOf(p, last.id) == OutputRole then net.outputKeys + [last.id] else net.outputKeys)
    ensures Indexed(p, recs, r)
  {
    IndexStepHandles(recs, net, r);
    IndexStepRoles(p, recs, net, r);
  }

  /** The dict part of `IndexStep`. */
  lemma IndexStepHandles(recs: seq<NodeRecord>, net: Network, r: Network)
    requires recs != []
    requires var front := recs[..|recs| - 1];
             && net.order == Ids(front)
             && (forall k :: k in net.nodes <==> k in Ids(front))
             && (forall i | 0 <= i < |front| :: front[i].id in net.nodes && net.nodes[front[i].id] == i)
             && |net.heap| == |front| && recs[|recs| - 1].id !in Ids(front)
    requires var last := recs[|recs| - 1];
             r.nodes == net.nodes[last.id := |net.heap|] &&
             r.order == (if last.id in net.nodes then net.order else net.order + [last.id])
    ensures && r.order == Ids(recs)
            && (forall k :: k in r.nodes <==> k in Ids(recs))
            && (forall i | 0 <= i < |recs| :: recs[i].id in r.nodes && r.nodes[recs[i].id] == i)
  {
  }

  /** The role-list part of `IndexStep`. */
  lemma IndexStepRoles(p: NetworkParams, recs: seq<NodeRecord>, net: Network, r: Network)
    requires recs != []
    requires var front := recs[..|recs| - 1];
             net.inputKeys == WithRole(p, front, InputRole) && net.outputKeys == WithRole(p, front, OutputRole)
    requires var last := recs[|recs| - 1];
             r.inputKeys == (if RoleOf(p, last.id) == InputRole then net.inputKeys + [last.id] else net.inputKeys) &&
             r.outputKeys == (if RoleOf(p, last.id) == OutputRole then net.outputKeys + [last.id] else net.outputKeys)
    ensures r.inputKeys == WithRole(p, recs, InputRole) && r.outputKeys == WithRole(p, recs, OutputRole)
  {
  }

  /** The ids of the objects at handles `hs`. */
  function IdsAt(heap: seq<Node>, hs: seq<Handle>): (ids: seq<Id>)
    requires forall q | 0 <= q < |hs| :: hs[q] < |heap|
    ensures |ids| == |hs|
    ensures forall q | 0 <= q < |hs| :: ids[q] == heap[hs[q]].id
  {
    seq(|hs|, q requires 0 <= q < |hs| && (forall q' | 0 <= q' < |hs| :: hs[q'] < |heap|) => heap[hs[q]].id)
  }

  /** Record `rec`'s first `k` connections are in place at handle `i`:
      its inputs carry the first `k` recorded ids, its weights the first
      `k` recorded weights. */
  predicate Linked(m: Network, i: nat, rec: NodeRecord, k: nat)
    requires i < |m.heap| && InputsInRange(m.heap)
  {
    && k <= |rec.inputs| && k <= |rec.weights|
    && m.heap[i].weights == rec.weights[..k]
    && IdsAt(m.heap, m.heap[i].inputs) == rec.inputs[..k]
  }

  /** How many connections of record `i` the second pass has made once it
      has finished the records before `t` and `c` pairs of record `t`. */
  function Count(recs: seq<NodeRecord>, i: nat, t: nat, c: nat): nat
    requires i < |recs|
  {
    if i < t then Pairs(recs[i]) else if i == t then c else 0
  }

  /** How many pairs `zip(inputs, conn_weights)` gives for a record: the
      length of the shorter list. */
  function Pairs(rec: NodeRecord): (n: nat)
    ensures n <= |rec.inputs| && n <= |rec.weights|
    ensures n == |rec.inputs| || n == |rec.weights|
  {
    if |rec.inputs| <= |rec.weights| then |rec.inputs| else |rec.weights|
  }

  /** The input ids `zip` reaches. */
  function PairedInputs(rec: NodeRecord): (ins: seq<Id>)
    ensures |ins| == Pairs(rec)
    ensures forall q | 0 <= q < Pairs(rec) :: ins[q] == rec.inputs[q]
  {
    rec.inputs[..Pairs(rec)]
  }

  /** When the lists have the same length, `zip` reaches all of both. */
  lemma FullyPaired(rec: NodeRecord)
    requires |rec.inputs| == |rec.weights|
    ensures PairedInputs(rec) == rec.inputs && PairedWeights(rec) == rec.weights
  {
  }

  /** The weights `zip` reaches. */
  function PairedWeights(rec: NodeRecord): (ws: seq<real>)
    ensures |ws| == Pairs(rec)
    ensures forall q | 0 <= q < Pairs(rec) :: ws[q] == rec.weights[q]
  {
    rec.weights[..Pairs(rec)]
  }

  /** The state of the second pass after the records before `t` and `c`
      pairs of record `t`. */
  predicate Replayed(m: Network, recs: seq<NodeRecord>, t: nat, c: nat)
  {
    && Valid(m)
    && InputsInRange(m.heap)
    && |m.heap| == |recs|
    && (forall i | 0 <= i < |recs| :: recs[i].id in m.nodes && m.nodes[recs[i].id] == i)
    && (forall i | 0 <= i < |recs| :: Linked(m, i, recs[i], Count(recs, i, t, c)))
  }

  /** What replaying needs of the records: distinct ids, and among the
      input ids `zip` reaches in a record no id twice and only known ids. */
  predicate ReplayReady(recs: seq<NodeRecord>)
  {
    && Distinct(Ids(recs))
    && (forall i | 0 <= i < |recs| :: Distinct(PairedInputs(recs[i])))
    && (forall i, q | 0 <= i < |recs| && 0 <= q < Pairs(recs[i]) :: recs[i].inputs[q] in Ids(recs))
  }

  /** The edge `s -> d` the pair adds, seen handle by handle. */
  lemma AppendsEdgeAt(m: Network, r: Network, s: Handle, d: Handle, w: real)
    requires AppendsEdge(m, r, s, d, w) && d < |m.heap|
    ensures r.heap[d].inputs == m.heap[d].inputs + [s] && r.heap[d].weights == m.heap[d].weights + [w]
    ensures forall x | 0 <= x < |m.heap| && x != d :: r.heap[x].inputs == m.heap[x].inputs && r.heap[x].weights == m.heap[x].weights
    ensures forall x | 0 <= x < |m.heap| :: r.heap[x].id == m.heap[x].id
  {
  }

  /** The source of pair `c - 1` of record `t` is stored at the handle of
      the record with that id, and the destination does not list it yet. */
  lemma PairIsFresh(m: Network, recs: seq<NodeRecord>, t: nat, c: nat) returns (s: Handle)
    requires ReplayReady(recs) && 0 < c && Replayed(m, recs, t, c - 1)
    requires t < |recs| && c <= Pairs(recs[t])
    ensures s < |recs| && recs[s].id == recs[t].inputs[c - 1]
    ensures Valid(m) && ConnectsFresh(m, recs[t].inputs[c - 1], recs[t].id)
    ensures m.nodes[recs[t].inputs[c - 1]] == s && m.nodes[recs[t].id] == t
  {
    var rec := recs[t];
    var src := rec.inputs[c - 1];
    assert src in Ids(recs);
    var s' :| 0 <= s' < |recs| && Ids(recs)[s'] == src;
    s := s';
    assert Linked(m, t, rec, c - 1);
    var before := m.heap[t].inputs;
    forall q | 0 <= q < |before| ensures before[q] != s {
      assert IdsAt(m.heap, before)[q] == rec.inputs[q];
      PairedApart(rec, q, c - 1);
      assert m.heap[s].id == src;
    }
  }

  /** Two input ids `zip` reaches at different positions differ. */
  lemma PairedApart(rec: NodeRecord, a: nat, b: nat)
    requires Distinct(PairedInputs(rec)) && a < b < Pairs(rec)
    ensures rec.inputs[a] != rec.inputs[b]
  {
    assert PairedInputs(rec)[a] == rec.inputs[a] && PairedInputs(rec)[b] == rec.inputs[b];
  }

  /** Appending the edge of pair `c - 1` of record `t` advances the replay
      to `c` pairs. */
  lemma ReplayAppend(m: Network, r: Network, recs: seq<NodeRecord>, t: nat, c: nat, s: Handle)
    requires ReplayReady(recs) && 0 < c && Replayed(m, recs, t, c - 1)
    requires t < |recs| && c <= Pairs(recs[t])
    requires s < |recs| && recs[s].id == recs[t].inputs[c - 1] && m.nodes[recs[t].inputs[c - 1]] == s
    requires Valid(r) && AppendsEdge(m, r, s, t, recs[t].weights[c - 1])
    ensures Replayed(r, recs, t, c)
  {
    var rec := recs[t];
    AppendsEdgeAt(m, r, s, t, rec.weights[c - 1]);
    ValidInputsInRange(r);
    forall i | 0 <= i < |recs| ensures Linked(r, i, recs[i], Count(recs, i, t, c)) {
      assert Linked(m, i, recs[i], Count(recs, i, t, c - 1));
      if i == t {
        LinkedAppend(m, r, t, rec, c, s);
      } else {
        LinkedSame(m, r, i, recs[i], Count(recs, i, t, c - 1));
      }
    }
  }

  lemma LinkedAppend(m: Network, r: Network, t: nat, rec: NodeRecord, c: nat, s: Handle)
    requires InputsInRange(m.heap) && InputsInRange(r.heap) && |r.heap| == |m.heap|
    requires forall x | 0 <= x < |m.heap| :: r.heap[x].id == m.heap[x].id
    requires t < |m.heap| && s < |m.heap| && 0 < c <= |rec.inputs| && c <= |rec.weights|
    requires Linked(m, t, rec, c - 1) && m.heap[s].id == rec.inputs[c - 1]
    requires r.heap[t].inputs == m.heap[t].inputs + [s] && r.heap[t].weights == m.heap[t].weights + [rec.weights[c - 1]]
    ensures Linked(r, t, rec, c)
  {
  }

  lemma LinkedSame(m: Network, r: Network, i: nat, rec: NodeRecord, k: nat)
    requires InputsInRange(m.heap) && InputsInRange(r.heap) && |r.heap| == |m.heap|
    requires forall x | 0 <= x < |m.heap| :: r.heap[x].id == m.heap[x].id
    requires i < |m.heap| && Linked(m, i, rec, k)
    requires r.heap[i].inputs == m.heap[i].inputs && r.heap[i].weights == m.heap[i].weights
    ensures Linked(r, i, rec, k)
  {
  }

  /** One pair of the second pass makes exactly the recorded connection. */
  lemma ReplayPair(m: Network, recs: seq<NodeRecord>, t: nat, c: nat)
    requires ReplayReady(recs) && 0 < c && Replayed(m, recs, t, c - 1)
    requires t < |recs| && c <= Pairs(recs[t])
    ensures Replayed(AddConnection(m, recs[t].weights[c - 1], recs[t].inputs[c - 1], recs[t].id), recs, t, c)
  {
    var s := PairIsFresh(m, recs, t, c);
    var r := AddConnection(m, recs[t].weights[c - 1], recs[t].inputs[c - 1], recs[t].id);
    FreshPairAppends(m, recs[t].weights[c - 1], recs[t].inputs[c - 1], recs[t].id, s, t);
    ReplayAppend(m, r, recs, t, c, s);
  }

  /** A fresh pair appends its edge between the handles its ids name. */
  lemma FreshPairAppends(m: Network, w: real, src: Id, dst: Id, s: Handle, d: Handle)
    requires Valid(m) && ConnectsFresh(m, src, dst) && m.nodes[src] == s && m.nodes[dst] == d
    ensures Valid(AddConnection(m, w, src, dst)) && AppendsEdge(m, AddConnection(m, w, src, dst), s, d, w)
  {
  }

  /** The pairs of record `t` from `c` on make its remaining connections. */
  lemma {:induction false} ConnectPairsReplays(m: Network, recs: seq<NodeRecord>, t: nat, c: nat)
    requires ReplayReady(recs) && t < |recs| && c <= Pairs(recs[t])
    requires Replayed(m, recs, t, c)
    ensures Replayed(ConnectPairs(m, recs[t].id, recs[t].inputs, recs[t].weights, c), recs, t, Pairs(recs[t]))
    decreases Pairs(recs[t]) - c
  {
    if c < Pairs(recs[t]) {
      ReplayPair(m, recs, t, c + 1);
      ConnectPairsReplays(AddConnection(m, recs[t].weights[c], recs[t].inputs[c], recs[t].id), recs, t, c + 1);
    }
  }

  /** The records from `t` on make all their connections. */
  lemma {:induction false} ConnectAllReplays(m: Network, recs: seq<NodeRecord>, t: nat)
    requires ReplayReady(recs) && t <= |recs| && Replayed(m, recs, t, 0)
    ensures Replayed(ConnectAll(m, recs, t), recs, |recs|, 0)
    decreases |recs| - t
  {
    if t < |recs| {
      RecordReplays(m, recs, t);
      ConnectAllReplays(ConnectRecord(m, recs[t]), recs, t + 1);
      ConnectAllUnfold(m, recs, t);
    } else {
      assert t == |recs|;
    }
  }

  lemma ConnectAllUnfold(m: Network, recs: seq<NodeRecord>, t: nat)
    requires Valid(m) && t < |recs|
    ensures ConnectAll(m, recs, t) == ConnectAll(ConnectRecord(m, recs[t]), recs, t + 1)
  {
  }

  /** The inner loop for record `t` makes all of its connections. */
  lemma RecordReplays(m: Network, recs: seq<NodeRecord>, t: nat)
    requires ReplayReady(recs) && t < |recs| && Replayed(m, recs, t, 0)
    ensures Replayed(ConnectRecord(m, recs[t]), recs, t + 1, 0)
  {
    ConnectPairsReplays(m, recs, t, 0);
    NextRecord(ConnectRecord(m, recs[t]), recs, t);
  }

  /** Finishing record `t` is starting record `t + 1`. */
  lemma NextRecord(m: Network, recs: seq<NodeRecord>, t: nat)
    requires t < |recs| && Replayed(m, recs, t, Pairs(recs[t]))
    ensures Replayed(m, recs, t + 1, 0)
  {
  }

  // ----- The round-trip theorems -----------------------------------------

  /** When `save_network` followed by the corrected `load_network` rebuilds
      a network: it is valid, no node lists two inputs with the same id,
      and the registry knows every recorded activation name. */
  predicate RoundTripReady(net: Network, registry: Registry)
  {
    && Valid(net)
    && (forall k | k in net.nodes :: net.nodes[k] < |net.heap| && Distinct(InputIds(net, net.nodes[k])))
    && (forall k | k in net.nodes :: net.nodes[k] < |net.heap| && ActivationName(net.heap[net.nodes[k]].activation) in registry)
  }

  /** Without orphaned objects, distinct input objects have distinct ids,
      so only the registry has to be checked. */
  lemma NoOrphansInputIds(net: Network)
    requires Valid(net) && NoOrphans(net)
    ensures forall k | k in net.nodes :: Distinct(InputIds(net, net.nodes[k]))
  {
    forall k | k in net.nodes ensures Distinct(InputIds(net, net.nodes[k])) {
      var h := net.nodes[k];
      var n := net.heap[h];
      assert NodeWellFormed(n, |net.heap|);
      forall a, b | 0 <= a < b < |n.inputs| ensures InputIds(net, h)[a] != InputIds(net, h)[b] {
        assert IsLive(net, n.inputs[a]) && IsLive(net, n.inputs[b]);
      }
    }
  }

  /** The saved records are ready to be replayed, and their ids are the
      dict order. */
  lemma SavedRecords(net: Network, registry: Registry)
    requires RoundTripReady(net, registry)
    ensures Ids(SaveNetwork(net).nodes) == net.order
    ensures ReplayReady(SaveNetwork(net).nodes)
    ensures forall i | 0 <= i < |net.order| :: RecordFault(SaveNetwork(net), registry, SaveNetwork(net).nodes[i], Corrected).None?
  {
    var p := SaveNetwork(net);
    var recs := p.nodes;
    assert Ids(recs) == net.order;
    forall i | 0 <= i < |recs| ensures Distinct(PairedInputs(recs[i])) {
      FullyPaired(recs[i]);
    }
    forall i, q | 0 <= i < |recs| && 0 <= q < |recs[i].inputs| ensures recs[i].inputs[q] in Ids(recs) {
      assert recs[i].inputs[q] in net.nodes;
    }
  }

  /** The corrected `load_network` of replayable records succeeds when no
      record faults, and rebuilds exactly the records: the dict order and
      keys and role lists come from the record ids, each object has its
      record's activation and all its record's connections. */
  lemma LoadReplays(p: NetworkParams, registry: Registry)
    requires ReplayReady(p.nodes)
    requires forall i | 0 <= i < |p.nodes| :: RecordFault(p, registry, p.nodes[i], Corrected).None?
    ensures LoadNetworkCorrected(p, registry).Success?
    ensures var m := LoadNetworkCorrected(p, registry).value;
            && Replayed(m, p.nodes, |p.nodes|, 0)
            && m.order == Ids(p.nodes)
            && (forall k :: k in m.nodes <==> k in Ids(p.nodes))
            && m.inputKeys == WithRole(p, p.nodes, InputRole)
            && m.outputKeys == WithRole(p, p.nodes, OutputRole)
            && (forall i | 0 <= i < |p.nodes| ::
                  p.nodes[i].activationId in registry &&
                  m.heap[i].activation == LoadedActivation(p, registry, p.nodes[i]))
            && forall i | 0 <= i < |p.nodes| ::
                 m.heap[i].weights == PairedWeights(p.nodes[i]) &&
                 IdsAt(m.heap, m.heap[i].inputs) == PairedInputs(p.nodes[i])
  {
    var recs := p.nodes;
    var created := CreateNodes(p, registry, recs, Corrected).value;
    CreatedNodes(p, registry, recs, Corrected);
    CreatedIndex(p, registry, recs, Corrected);
    ValidInputsInRange(created);
    StartReplay(created, recs);
    ConnectAllReplays(created, recs, 0);
    var m := ConnectAll(created, recs, 0);
    assert LoadNetworkCorrected(p, registry) == Success(m);
    ReplayedLinks(m, recs);
    forall i | 0 <= i < |recs| ensures m.heap[i].activation == created.heap[i].activation {
      assert SameExceptEdges(created.heap[i], m.heap[i]);
    }
  }

  /** At the end of the second pass every object carries all of its
      record's connections. */
  lemma ReplayedLinks(m: Network, recs: seq<NodeRecord>)
    requires ReplayReady(recs) && Replayed(m, recs, |recs|, 0)
    ensures forall i | 0 <= i < |recs| ::
              m.heap[i].weights == PairedWeights(recs[i]) && IdsAt(m.heap, m.heap[i].inputs) == PairedInputs(recs[i])
  {
  }

  /** The first pass leaves every record with no connection yet. */
  lemma StartReplay(m: Network, recs: seq<NodeRecord>)
    requires Valid(m) && InputsInRange(m.heap) && |m.heap| == |recs|
    requires forall i | 0 <= i < |recs| :: recs[i].id in m.nodes && m.nodes[recs[i].id] == i
    requires forall i | 0 <= i < |recs| :: m.heap[i].inputs == [] && m.heap[i].weights == []
    ensures Replayed(m, recs, 0, 0)
  {
  }

  /** What a node's input ids are in terms of `IdsAt`. */
  lemma InputIdsAt(m: Network, h: Handle)
    requires Valid(m) && h < |m.heap|
    ensures InputsInRange(m.heap)
    ensures InputIds(m, h) == IdsAt(m.heap, m.heap[h].inputs)
  {
  }

  /** Round trip of the graph: loading what `save_network` wrote gives a
      valid, orphan-free network with the same keys in the same dict order,
      and every node has the same input ids and weights, in the same
      order. */
  lemma LoadRoundTripEdges(net: Network, registry: Registry)
    requires RoundTripReady(net, registry)
    ensures LoadNetworkCorrected(SaveNetwork(net), registry).Success?
    ensures var m := LoadNetworkCorrected(SaveNetwork(net), registry).value;
            && Valid(m) && NoOrphans(m)
            && m.order == net.order
            && (forall k :: k in m.nodes <==> k in net.nodes)
            && forall k | k in net.nodes ::
                 && m.nodes[k] < |m.heap|
                 && InputIds(m, m.nodes[k]) == InputIds(net, net.nodes[k])
                 && m.heap[m.nodes[k]].weights == net.heap[net.nodes[k]].weights
  {
    var p := SaveNetwork(net);
    var recs := p.nodes;
    SavedRecords(net, registry);
    LoadReplays(p, registry);
    var m := LoadNetworkCorrected(p, registry).value;
    ReplayedLinks(m, recs);
    forall k | k in net.nodes
      ensures m.nodes[k] < |m.heap|
      ensures InputIds(m, m.nodes[k]) == InputIds(net, net.nodes[k])
      ensures m.heap[m.nodes[k]].weights == net.heap[net.nodes[k]].weights
    {
      var i := OrderIndex(net, k);
      assert recs[i] == SaveNode(net, net.nodes[k]);
      FullyPaired(recs[i]);
      assert m.nodes[recs[i].id] == i;
      InputIdsAt(m, i);
    }
    assert NoOrphans(m) by {
      forall h | 0 <= h < |m.heap| ensures IsLive(m, h) {
        assert m.nodes[recs[h].id] == h;
      }
    }
  }

  /** The dict position of key `k`. */
  lemma OrderIndex(net: Network, k: Id) returns (i: nat)
    requires Valid(net) && k in net.nodes
    ensures i < |net.order| && net.order[i] == k
  {
    assert k in net.order;
    i :| 0 <= i < |net.order| && net.order[i] == k;
  }

  /** Round trip of the activations: every loaded node has the activation
      the registry gives its recorded name, and none for an input key. */
  lemma LoadRoundTripActivations(net: Network, registry: Registry)
    requires RoundTripReady(net, registry)
    ensures LoadNetworkCorrected(SaveNetwork(net), registry).Success?
    ensures var m := LoadNetworkCorrected(SaveNetwork(net), registry).value;
            forall k | k in net.nodes ::
              && k in m.nodes && m.nodes[k] < |m.heap|
              && m.heap[m.nodes[k]].activation ==
                 if k in net.inputKeys then None
                 else registry[ActivationName(net.heap[net.nodes[k]].activation)]
  {
    var p := SaveNetwork(net);
    var recs := p.nodes;
    SavedRecords(net, registry);
    LoadReplays(p, registry);
    var m := LoadNetworkCorrected(p, registry).value;
    forall k | k in net.nodes
      ensures k in m.nodes && m.nodes[k] < |m.heap|
      ensures m.heap[m.nodes[k]].activation ==
              if k in net.inputKeys then None else registry[ActivationName(net.heap[net.nodes[k]].activation)]
    {
      var i := OrderIndex(net, k);
      assert recs[i] == SaveNode(net, net.nodes[k]);
      assert m.nodes[recs[i].id] == i;
    }
  }

  /** Round trip of the roles: the loaded role lists hold the same keys,
      an id listed under both roles now being an input only. */
  lemma LoadRoundTripRoles(net: Network, registry: Registry)
    requires RoundTripReady(net, registry)
    ensures LoadNetworkCorrected(SaveNetwork(net), registry).Success?
    ensures var m := LoadNetworkCorrected(SaveNetwork(net), registry).value;
            && (forall k :: k in m.inputKeys <==> k in net.inputKeys)
            && (forall k :: k in m.outputKeys <==> k in net.outputKeys && k !in net.inputKeys)
  {
    var p := SaveNetwork(net);
    SavedRecords(net, registry);
    LoadReplays(p, registry);
    assert RolesRegistered(net);
  }

  // ----- The input-node call as written ----------------------------------

  /** Both loaders run the same first pass over records none of which is
      an input key. */
  lemma {:induction false} CreateNodesLoaders(p: NetworkParams, registry: Registry, recs: seq<NodeRecord>)
    requires forall i | 0 <= i < |recs| :: RoleOf(p, recs[i].id) != InputRole
    ensures CreateNodes(p, registry, recs, AsWritten) == CreateNodes(p, registry, recs, Corrected)
    decreases |recs|
  {
    if recs != [] {
      var front := recs[..|recs| - 1];
      assert forall i | 0 <= i < |front| :: front[i] == recs[i];
      CreateNodesLoaders(p, registry, front);
      var last := recs[|recs| - 1];
      var front1 := CreateNodes(p, registry, front, Corrected);
      if front1.Success? {
        assert AddRecord(front1.value, p, registry, last, AsWritten) == AddRecord(front1.value, p, registry, last, Corrected);
      }
    }
  }

  /** The source's `load_network` behaves as the corrected one whenever no
      record is an input key. */
  lemma LoadersAgree(p: NetworkParams, registry: Registry)
    requires forall i | 0 <= i < |p.nodes| :: p.nodes[i].id !in p.inputKeys
    ensures LoadNetwork(p, registry) == LoadNetworkCorrected(p, registry)
  {
    CreateNodesLoaders(p, registry, p.nodes);
  }

  /** The source's `load_network` cannot load any saved network that has an
      input node: `add_input_node` is called with an activation argument it
      does not take. */
  lemma SavedInputsRejected(net: Network, registry: Registry)
    requires Valid(net) && net.inputKeys != []
    ensures LoadNetwork(SaveNetwork(net), registry).Failure?
  {
    var p := SaveNetwork(net);
    var k := net.inputKeys[0];
    assert RolesRegistered(net);
    var i := OrderIndex(net, k);
    assert p.nodes[i].id == k;
    assert RecordFault(p, registry, p.nodes[i], AsWritten).Some?;
  }

  /** With every activation name known, the only way the source's
      `load_network` fails is the input-node call, for one of the input
      keys. */
  lemma LoadFault(p: NetworkParams, registry: Registry)
    requires forall j | 0 <= j < |p.nodes| :: p.nodes[j].activationId in registry
    requires LoadNetwork(p, registry).Failure?
    ensures LoadNetwork(p, registry).error.InputNodeArity?
    ensures LoadNetwork(p, registry).error.id in p.inputKeys
  {
  }

  /** So on a saved network whose activation names are all known, the
      source's load fails exactly when the network has an input key, and
      the failure is the input-node call for one of them. */
  lemma SavedLoadFault(net: Network, registry: Registry)
    requires Valid(net)
    requires forall k | k in net.nodes :: net.nodes[k] < |net.heap| && ActivationName(net.heap[net.nodes[k]].activation) in registry
    ensures LoadNetwork(SaveNetwork(net), registry).Failure? <==> net.inputKeys != []
    ensures LoadNetwork(SaveNetwork(net), registry).Failure? ==>
              && LoadNetwork(SaveNetwork(net), registry).error.InputNodeArity?
              && LoadNetwork(SaveNetwork(net), registry).error.id in net.inputKeys
  {
    var p := SaveNetwork(net);
    forall j | 0 <= j < |p.nodes| ensures p.nodes[j].activationId in registry {
      assert p.nodes[j] == SaveNode(net, net.nodes[net.order[j]]);
    }
    if net.inputKeys != [] {
      SavedInputsRejected(net, registry);
    }
    if LoadNetwork(p, registry).Failure? {
      LoadFault(p, registry);
    }
  }

  /** `add_input_node(x)` on an empty network. */
  function OneInputNetwork(x: Id): (net: Network)
    ensures Valid(net) && net.inputKeys == [x]
    ensures |net.heap| == 1 && net.heap[0] == FreshNode(x, None)
    ensures forall k :: k in net.nodes <==> k == x
    ensures net.nodes[x] == 0
  {
    assert Valid(EmptyNetwork);
    AddInputNode(EmptyNetwork, x)
  }

  /** The smallest instance: a network holding one input node saves to
      records the source's `load_network` rejects ... */
  lemma SingleInputRejected(x: Id, registry: Registry)
    requires NoActivationName in registry
    ensures LoadNetwork(SaveNetwork(OneInputNetwork(x)), registry) == Failure(InputNodeArity(x))
  {
  }

  /** ... and the corrected one loads. */
  lemma SingleInputLoads(x: Id, registry: Registry)
    requires NoActivationName in registry
    ensures LoadNetworkCorrected(SaveNetwork(OneInputNetwork(x)), registry).Success?
  {
    OneInputReady(x, registry);
    LoadRoundTripEdges(OneInputNetwork(x), registry);
  }

  /** The one-input network meets the conditions of the round trip. */
  lemma OneInputReady(x: Id, registry: Registry)
    requires NoActivationName in registry
    ensures RoundTripReady(OneInputNetwork(x), registry)
  {
  }
}

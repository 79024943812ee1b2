/** The object graph of `neural_network.py`: `Node` objects, the `Network`
    that owns them, and the well-formedness facts every operation keeps.

    Python's nodes are objects referenced by identity, and the adders never
    check for an existing id, so re-adding an id leaves the old object alive
    wherever another node still lists it as an input.  The model therefore
    keeps every object ever created in `heap` (a `Handle` is a position in
    it) and models the `nodes` dict as a map from id to handle; `order` is
    the dict's insertion order, which is what `nodes.values()` iterates. */
module Graph {
  import opened Wrappers
  import opened Sequences

  /** A node identifier: a key of `Network.nodes`. */
  type Id = string

  /** The identity of a `Node` object: its position in `Network.heap`. */
  type Handle = nat

  /** One `Node` object.  `inputs` and `weights` are the paired incoming
      edges, `inputValues` the snapshot taken by `pre_activate`,
      `activation` the name of the activation function (`None` when unset)
      and `dependants` the back-list `dependant_nodes`. */
  datatype Node = Node(
    id: Id,
    output: real,
    inputs: seq<Handle>,
    weights: seq<real>,
    inputValues: seq<real>,
    activation: Option<string>,
    dependants: seq<Handle>)

  /** A freshly constructed `Node()` with its id and activation set. */
  function FreshNode(id: Id, activation: Option<string>): Node
  {
    Node(id, 0.0, [], [], [], activation, [])
  }

  /** A `Network`: every object created so far, the `nodes` dict, its key
      order, and the role lists `input_nodes_keys` / `output_nodes_keys`. */
  datatype Network = Network(
    heap: seq<Node>,
    nodes: map<Id, Handle>,
    order: seq<Id>,
    inputKeys: seq<Id>,
    outputKeys: seq<Id>)

  /** `Network()` as constructed. */
  const EmptyNetwork := Network([], map[], [], [], [])

  /** Every key resolves to an object carrying that key as its id. */
  predicate KeysResolve(net: Network)
  {
    forall k | k in net.nodes :: net.nodes[k] < |net.heap| && net.heap[net.nodes[k]].id == k
  }

  /** The dict never loses a key, so every object's id is still a key. */
  predicate IdsRegistered(net: Network)
  {
    forall h | 0 <= h < |net.heap| :: net.heap[h].id in net.nodes
  }

  /** The per-object invariants: inputs and weights stay paired, no object
      occurs twice among the inputs or the dependants, and every edge points
      into the heap. */
  predicate NodeWellFormed(n: Node, size: nat)
  {
    && |n.inputs| == |n.weights|
    && (forall i | 0 <= i < |n.inputs| :: n.inputs[i] < size)
    && Distinct(n.inputs)
    && (forall i | 0 <= i < |n.dependants| :: n.dependants[i] < size)
    && Distinct(n.dependants)
  }

  predicate NodesWellFormed(net: Network)
  {
    forall h | 0 <= h < |net.heap| :: NodeWellFormed(net.heap[h], |net.heap|)
  }

  /** `dependant_nodes` mirrors `inputs`: `d` lists `s` as an input exactly
      when `s` lists `d` as a dependant. */
  predicate Backlinks(net: Network)
  {
    forall s, d | 0 <= s < |net.heap| && 0 <= d < |net.heap| ::
      s in net.heap[d].inputs <==> d in net.heap[s].dependants
  }

  /** `order` lists every key of the dict exactly once. */
  predicate OrderMatches(net: Network)
  {
    && Distinct(net.order)
    && (forall k | k in net.order :: k in net.nodes)
    && (forall k | k in net.nodes :: k in net.order)
  }

  predicate RolesRegistered(net: Network)
  {
    && (forall k | k in net.inputKeys :: k in net.nodes)
    && (forall k | k in net.outputKeys :: k in net.nodes)
  }

  /** The invariant every operation of the network keeps. */
  predicate Valid(net: Network)
  {
    && KeysResolve(net)
    && IdsRegistered(net)
    && NodesWellFormed(net)
    && Backlinks(net)
    && OrderMatches(net)
    && RolesRegistered(net)
  }

  /** Every edge of every object points into the heap. */
  predicate InputsInRange(heap: seq<Node>)
  {
    forall h, i | 0 <= h < |heap| && 0 <= i < |heap[h].inputs| :: heap[h].inputs[i] < |heap|
  }

  lemma ValidInputsInRange(net: Network)
    requires Valid(net)
    ensures InputsInRange(net.heap)
  {
  }

  /** Object `h` is the one the dict currently stores under its id. */
  predicate IsLive(net: Network, h: Handle)
    requires h < |net.heap|
  {
    net.heap[h].id in net.nodes && net.nodes[net.heap[h].id] == h
  }

  /** No object has been orphaned: each object is the live one for its id.
      This holds until an adder is called twice with the same id. */
  predicate NoOrphans(net: Network)
  {
    forall h | 0 <= h < |net.heap| :: IsLive(net, h)
  }

  /** `m` and `n` agree on everything but `output` and `inputValues`. */
  predicate SameEdges(m: Node, n: Node)
  {
    && m.id == n.id
    && m.inputs == n.inputs
    && m.weights == n.weights
    && m.activation == n.activation
    && m.dependants == n.dependants
  }

  /** `b` differs from `a` at most in the values its nodes hold. */
  predicate SameTopology(a: Network, b: Network)
  {
    && b.nodes == a.nodes
    && b.order == a.order
    && b.inputKeys == a.inputKeys
    && b.outputKeys == a.outputKeys
    && |b.heap| == |a.heap|
    && forall h | 0 <= h < |a.heap| :: SameEdges(a.heap[h], b.heap[h])
  }

  /** Validity, liveness and orphaning are properties of the topology only. */
  lemma SameTopologyKeepsInvariants(a: Network, b: Network)
    requires SameTopology(a, b)
    ensures Valid(a) <==> Valid(b)
    ensures NoOrphans(a) <==> NoOrphans(b)
    ensures forall h | 0 <= h < |a.heap| :: IsLive(a, h) <==> IsLive(b, h)
  {
    forall h | 0 <= h < |a.heap| ensures IsLive(a, h) <==> IsLive(b, h) {
      assert SameEdges(a.heap[h], b.heap[h]);
    }
    assert Valid(a) <==> Valid(b) by {
      assert KeysResolve(a) <==> KeysResolve(b);
      assert IdsRegistered(a) <==> IdsRegistered(b);
      assert NodesWellFormed(a) <==> NodesWellFormed(b);
      assert Backlinks(a) <==> Backlinks(b);
    }
  }

  /** The handles of the live objects in dict order (`nodes.values()`). */
  function Values(net: Network): (hs: seq<Handle>)
    requires OrderMatches(net)
    ensures |hs| == |net.order|
    ensures forall i | 0 <= i < |hs| :: hs[i] == net.nodes[net.order[i]]
    ensures Valid(net) ==> Distinct(hs)
    ensures Valid(net) ==> forall h: Handle :: h in hs <==> h < |net.heap| && IsLive(net, h)
  {
    var hs := seq(|net.order|, i requires 0 <= i < |net.order| && OrderMatches(net) => net.nodes[net.order[i]]);
    if Valid(net) then
      assert forall h: Handle | h < |net.heap| && IsLive(net, h) :: h in hs by {
        forall h: Handle | h < |net.heap| && IsLive(net, h) ensures h in hs {
          var k := net.heap[h].id;
          var i :| 0 <= i < |net.order| && net.order[i] == k;
          assert hs[i] == h;
        }
      }
      hs
    else
      hs
  }

  /** The ids of a node's inputs, as `save_network` lists them. */
  function InputIds(net: Network, h: Handle): (ids: seq<Id>)
    requires Valid(net) && h < |net.heap|
    ensures |ids| == |net.heap[h].inputs|
    ensures forall i | 0 <= i < |ids| :: net.heap[h].inputs[i] < |net.heap| && ids[i] == net.heap[net.heap[h].inputs[i]].id
  {
    var n := net.heap[h];
    seq(|n.inputs|, i requires 0 <= i < |n.inputs| && Valid(net) && h < |net.heap| => net.heap[net.heap[h].inputs[i]].id)
  }

  /** The ids of a node's dependants. */
  function DependantIds(net: Network, h: Handle): (ids: seq<Id>)
    requires Valid(net) && h < |net.heap|
    ensures |ids| == |net.heap[h].dependants|
    ensures forall i | 0 <= i < |ids| :: net.heap[h].dependants[i] < |net.heap| && ids[i] == net.heap[net.heap[h].dependants[i]].id
  {
    var n := net.heap[h];
    seq(|n.dependants|, i requires 0 <= i < |n.dependants| && Valid(net) && h < |net.heap| => net.heap[net.heap[h].dependants[i]].id)
  }

  // ----- Paths along `inputs` ---------------------------------------------

  /** `p` walks upstream: each handle is an input of the one before it, so
      `p[|p| - 1]` influences `p[0]`. */
  ghost predicate IsPath(net: Network, p: seq<Handle>)
  {
    && |p| > 0
    && (forall i | 0 <= i < |p| :: p[i] < |net.heap|)
    && (forall i | 0 <= i < |p| - 1 :: p[i + 1] in net.heap[p[i]].inputs)
  }

  /** A path on which no id repeats and no id is in `avoid`: exactly the
      walks a depth-first search guarded by a visited set of ids can take. */
  ghost predicate IdSimplePath(net: Network, p: seq<Handle>, avoid: set<Id>)
  {
    && IsPath(net, p)
    && (forall i | 0 <= i < |p| :: net.heap[p[i]].id !in avoid)
    && (forall i, j | 0 <= i < j < |p| :: net.heap[p[i]].id != net.heap[p[j]].id)
  }

  /** Id `k` can be reached from `h` by an id-simple path avoiding `avoid`. */
  ghost predicate Reaches(net: Network, h: Handle, avoid: set<Id>, k: Id)
  {
    exists p :: IdSimplePath(net, p, avoid) && p[0] == h && net.heap[p[|p| - 1]].id == k
  }

  /** Object `x` can be reached from `h` along `inputs` by any path. */
  ghost predicate Reachable(net: Network, h: Handle, x: Handle)
  {
    exists p :: IsPath(net, p) && p[0] == h && p[|p| - 1] == x
  }
}

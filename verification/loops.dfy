/** `break_loops` (neural_network.py:57-90): cut every direct input edge of
    a node whose source can reach the node again. */
module LoopBreaking {
  import opened Wrappers
  import opened Sequences
  import opened Graph
  import opened Influence
  import opened NetworkOps

  /** The `ValueError` of `dependant_nodes.remove(node)` when the severed
      source does not list the node. */
  datatype BreakError = NotADependant(source: Id, node: Id)

  /** A broken connection `[source_id, node_id]`. */
  type Edge = (Id, Id)

  /** Input position `i` of `h` closes a loop: `h`'s id is in the influence
      set of that input.  The search is not stopped at `h`. */
  predicate ClosesLoop(net: Network, h: Handle, i: nat)
    requires InputsInRange(net.heap) && h < |net.heap| && i < |net.heap[h].inputs|
  {
    net.heap[h].id in GetInfluencingNodes(net, net.heap[h].inputs[i], {}, {})
  }

  /** The positions of `h`'s inputs that close a loop. */
  function LoopSet(net: Network, h: Handle): set<nat>
    requires InputsInRange(net.heap) && h < |net.heap|
  {
    set i: nat | i < |net.heap[h].inputs| && ClosesLoop(net, h, i)
  }

  /** The first loop of `break_loops` from position `from` on:
      `delete_indexes`, ascending. */
  function LoopIndexes(net: Network, h: Handle, from: nat): (r: seq<nat>)
    requires InputsInRange(net.heap) && h < |net.heap| && from <= |net.heap[h].inputs|
    ensures forall j | 0 <= j < |r| :: from <= r[j] < |net.heap[h].inputs| && ClosesLoop(net, h, r[j])
    ensures forall i: nat | from <= i < |net.heap[h].inputs| && ClosesLoop(net, h, i) :: i in r
    ensures forall j, j' | 0 <= j < j' < |r| :: r[j] < r[j']
    decreases |net.heap[h].inputs| - from
  {
    if from == |net.heap[h].inputs| then []
    else (if ClosesLoop(net, h, from) then [from] else []) + LoopIndexes(net, h, from + 1)
  }

  /** `delete_indexes` after `reverse()`: every loop-closing position once,
      in strictly descending order. */
  function DescendingLoopIndexes(net: Network, h: Handle): (r: seq<nat>)
    requires InputsInRange(net.heap) && h < |net.heap|
    ensures forall i :: i in r <==> i in LoopSet(net, h)
    ensures forall j, j' | 0 <= j < j' < |r| :: r[j] > r[j']
    ensures forall j | 0 <= j < |r| :: r[j] < |net.heap[h].inputs|
  {
    var up := LoopIndexes(net, h, 0);
    ReverseSameElements(up);
    ReverseAscending(up);
    Reverse(up)
  }

  /** What the second loop needs: positions strictly descending and in
      range, and a node whose inputs are paired with weights, distinct and
      in range. */
  predicate SeverReady(net: Network, h: Handle, idxs: seq<nat>)
  {
    && InputsInRange(net.heap)
    && h < |net.heap|
    && |net.heap[h].inputs| == |net.heap[h].weights|
    && Distinct(net.heap[h].inputs)
    && (forall j | 0 <= j < |idxs| :: idxs[j] < |net.heap[h].inputs|)
    && (forall j, j' | 0 <= j < j' < |idxs| :: idxs[j] > idxs[j'])
  }

  /** One iteration of the second loop for position `i`: drop `h` from the
      source's dependants, then delete the input and its weight. */
  function SeverOne(net: Network, h: Handle, i: nat): (r: Network)
    requires InputsInRange(net.heap) && h < |net.heap|
    requires i < |net.heap[h].inputs| && |net.heap[h].inputs| == |net.heap[h].weights|
    requires h in net.heap[net.heap[h].inputs[i]].dependants
    ensures |r.heap| == |net.heap|
    ensures forall x | 0 <= x < |net.heap| :: r.heap[x].id == net.heap[x].id
  {
    var s := net.heap[h].inputs[i];
    var heap1 := net.heap[s := net.heap[s].(dependants := RemoveFirst(net.heap[s].dependants, h))];
    var heap2 := heap1[h := heap1[h].(inputs := Delete(heap1[h].inputs, i), weights := Delete(heap1[h].weights, i))];
    net.(heap := heap2)
  }

  /** The broken connections for positions `idxs`, in that order. */
  function BrokenEdges(net: Network, h: Handle, idxs: seq<nat>): (r: seq<Edge>)
    requires InputsInRange(net.heap) && h < |net.heap|
    requires forall j | 0 <= j < |idxs| :: idxs[j] < |net.heap[h].inputs|
    ensures |r| == |idxs|
  {
    seq(|idxs|, j requires 0 <= j < |idxs| && InputsInRange(net.heap) && h < |net.heap| &&
                         (forall t | 0 <= t < |idxs| :: idxs[t] < |net.heap[h].inputs|) =>
      (net.heap[net.heap[h].inputs[idxs[j]]].id, net.heap[h].id))
  }

  /** The second loop of `break_loops`, over `idxs`: on success it returns
      the connection broken at each position, in order, and keeps every
      object's id; a failure names one of those connections.  What it does
      to the edges is `SeverEffect`. */
  function Sever(net: Network, h: Handle, idxs: seq<nat>): (r: Result<(Network, seq<Edge>), BreakError>)
    requires SeverReady(net, h, idxs)
    ensures r.Success? ==> r.value.1 == BrokenEdges(net, h, idxs)
    ensures r.Success? ==>
              |r.value.0.heap| == |net.heap| && forall x | 0 <= x < |net.heap| :: r.value.0.heap[x].id == net.heap[x].id
    ensures r.Failure? ==> r.error.node == net.heap[h].id && (r.error.source, r.error.node) in BrokenEdges(net, h, idxs)
    decreases |idxs|
  {
    if idxs == [] then Success((net, []))
    else
      var i := idxs[0];
      var s := net.heap[h].inputs[i];
      if h !in net.heap[s].dependants then
        assert BrokenEdges(net, h, idxs)[0] == (net.heap[s].id, net.heap[h].id);
        Failure(NotADependant(net.heap[s].id, net.heap[h].id))
      else
        var net1 := SeverOne(net, h, i);
        SeverOneReady(net, h, idxs);
        BrokenStep(net, h, idxs);
        match Sever(net1, h, idxs[1..])
        case Failure(e) => Failure(e)
        case Success((net2, broken)) => Success((net2, [(net.heap[s].id, net.heap[h].id)] + broken))
  }

  lemma SeverOneReady(net: Network, h: Handle, idxs: seq<nat>)
    requires SeverReady(net, h, idxs) && idxs != []
    requires h in net.heap[net.heap[h].inputs[idxs[0]]].dependants
    ensures SeverReady(SeverOne(net, h, idxs[0]), h, idxs[1..])
    ensures forall j | 0 <= j < |idxs| - 1 :: SeverOne(net, h, idxs[0]).heap[h].inputs[idxs[1..][j]] == net.heap[h].inputs[idxs[j + 1]]
  {
  }

  /** The positions listed in `idxs`. */
  function Positions(idxs: seq<nat>): set<nat>
  {
    set x | x in idxs
  }

  /** The sources at the positions `dead` of `h`'s inputs. */
  function SourcesOf(net: Network, h: Handle, dead: set<nat>): set<Handle>
    requires h < |net.heap|
  {
    set i | i in dead && i < |net.heap[h].inputs| :: net.heap[h].inputs[i]
  }

  /** `r` is `net` with the positions `dead` cut out of `h`'s inputs and
      weights, `h` removed from the dependants of each source in `sources`,
      and nothing else changed. */
  predicate Severed(net: Network, r: Network, h: Handle, dead: set<nat>, sources: set<Handle>)
    requires h < |net.heap|
  {
    && r.nodes == net.nodes
    && r.order == net.order
    && r.inputKeys == net.inputKeys
    && r.outputKeys == net.outputKeys
    && |r.heap| == |net.heap|
    && forall x | 0 <= x < |net.heap| ::
         r.heap[x] == net.heap[x].(
           inputs := if x == h then Without(net.heap[h].inputs, dead) else net.heap[x].inputs,
           weights := if x == h then Without(net.heap[h].weights, dead) else net.heap[x].weights,
           dependants := if x in sources && h in net.heap[x].dependants
                         then RemoveFirst(net.heap[x].dependants, h)
                         else net.heap[x].dependants)
  }

  /** The second loop succeeds exactly when every severed source lists `h`
      as a dependant, and then cuts exactly the positions `idxs`. */
  lemma {:induction false} SeverEffect(net: Network, h: Handle, idxs: seq<nat>)
    requires SeverReady(net, h, idxs)
    ensures Sever(net, h, idxs).Success? <==>
              forall j | 0 <= j < |idxs| :: h in net.heap[net.heap[h].inputs[idxs[j]]].dependants
    ensures Sever(net, h, idxs).Success? ==>
              var dead := Positions(idxs);
              && Severed(net, Sever(net, h, idxs).value.0, h, dead, SourcesOf(net, h, dead))
              && Sever(net, h, idxs).value.1 == BrokenEdges(net, h, idxs)
    decreases |idxs|
  {
    var n := net.heap[h];
    if idxs == [] {
      var dead := Positions(idxs);
      assert dead == {};
      WithoutAll(n.inputs);
      WithoutAll(n.weights);
      assert SourcesOf(net, h, dead) == {};
      assert net.heap[h] == n.(inputs := Without(n.inputs, dead), weights := Without(n.weights, dead));
    } else {
      var i := idxs[0];
      var s := n.inputs[i];
      if h in net.heap[s].dependants {
        var net1 := SeverOne(net, h, i);
        var rest := idxs[1..];
        SeverOneReady(net, h, idxs);
        SeverEffect(net1, h, rest);
        var dead1 := Positions(rest);
        var dead := Positions(idxs);
        DeadSplit(idxs);
        SeverSuccessStep(net, h, idxs);
        var res := Sever(net1, h, rest);
        if res.Success? {
          SeveredStep(net, res.value.0, h, i, dead1);
          BrokenStep(net, h, idxs);
        }
      }
    }
  }

  lemma {:induction false} WithoutAll<T>(s: seq<T>)
    ensures Without(s, {}) == s
  {
    if s != [] {
      WithoutAll(s[..|s| - 1]);
    }
  }

  lemma DeadSplit(idxs: seq<nat>)
    requires idxs != []
    requires forall j, j' | 0 <= j < j' < |idxs| :: idxs[j] > idxs[j']
    ensures Positions(idxs) == Positions(idxs[1..]) + {idxs[0]}
    ensures forall d | d in Positions(idxs[1..]) :: d < idxs[0]
  {
  }

  /** After cutting `idxs[0]`, the remaining sources list `h` exactly when
      they did before: they are different objects from the first source. */
  lemma SeverSuccessStep(net: Network, h: Handle, idxs: seq<nat>)
    requires SeverReady(net, h, idxs) && idxs != []
    requires h in net.heap[net.heap[h].inputs[idxs[0]]].dependants
    requires forall j | 0 <= j < |idxs| - 1 :: SeverOne(net, h, idxs[0]).heap[h].inputs[idxs[1..][j]] == net.heap[h].inputs[idxs[j + 1]]
    ensures var net1 := SeverOne(net, h, idxs[0]);
            (forall j | 0 <= j < |idxs| :: h in net.heap[net.heap[h].inputs[idxs[j]]].dependants) <==>
            (forall j | 0 <= j < |idxs[1..]| :: h in net1.heap[net1.heap[h].inputs[idxs[1..][j]]].dependants)
  {
    var n := net.heap[h];
    var i := idxs[0];
    var s := n.inputs[i];
    var net1 := SeverOne(net, h, i);
    var rest := idxs[1..];
    forall j | 0 <= j < |rest|
      ensures net1.heap[net1.heap[h].inputs[rest[j]]].dependants == net.heap[n.inputs[idxs[j + 1]]].dependants
    {
      assert net1.heap[h].inputs[rest[j]] == n.inputs[idxs[j + 1]];
      assert idxs[j + 1] < i;
      assert n.inputs[idxs[j + 1]] != s;
    }
    if forall j | 0 <= j < |rest| :: h in net1.heap[net1.heap[h].inputs[rest[j]]].dependants {
      forall j | 0 <= j < |idxs| ensures h in net.heap[n.inputs[idxs[j]]].dependants {
        if j > 0 {
          assert h in net1.heap[net1.heap[h].inputs[rest[j - 1]]].dependants;
        }
      }
    }
  }

  /** Cutting position `i` and then the lower positions `dead1` is cutting
      `dead1 + {i}` at once. */
  lemma SeveredStep(net: Network, net2: Network, h: Handle, i: nat, dead1: set<nat>)
    requires InputsInRange(net.heap) && h < |net.heap| && Distinct(net.heap[h].inputs)
    requires i < |net.heap[h].inputs| && |net.heap[h].inputs| == |net.heap[h].weights|
    requires h in net.heap[net.heap[h].inputs[i]].dependants
    requires forall d | d in dead1 :: d < i
    requires var net1 := SeverOne(net, h, i);
             Severed(net1, net2, h, dead1, SourcesOf(net1, h, dead1))
    ensures Severed(net, net2, h, dead1 + {i}, SourcesOf(net, h, dead1 + {i}))
  {
    var n := net.heap[h];
    var s := n.inputs[i];
    var net1 := SeverOne(net, h, i);
    var dead := dead1 + {i};
    assert net1.heap[h].inputs == Delete(n.inputs, i);
    assert net1.heap[h].weights == Delete(n.weights, i);
    assert SourcesOf(net1, h, dead1) == SourcesOf(net, h, dead1) by {
      assert forall d | d in dead1 :: d < |net1.heap[h].inputs| && net1.heap[h].inputs[d] == n.inputs[d];
    }
    assert SourcesOf(net, h, dead) == SourcesOf(net, h, dead1) + {s};
    assert s !in SourcesOf(net, h, dead1) by {
      forall d | d in dead1 ensures n.inputs[d] != s {
        assert d < i;
      }
    }
    DeleteThenWithout(n.inputs, i, dead1);
    DeleteThenWithout(n.weights, i, dead1);
    var S := SourcesOf(net, h, dead);
    forall x | 0 <= x < |net.heap|
      ensures net2.heap[x] == net.heap[x].(
        inputs := if x == h then Without(n.inputs, dead) else net.heap[x].inputs,
        weights := if x == h then Without(n.weights, dead) else net.heap[x].weights,
        dependants := if x in S && h in net.heap[x].dependants
                      then RemoveFirst(net.heap[x].dependants, h)
                      else net.heap[x].dependants)
    {
      if x == s {
        assert net1.heap[x].dependants == RemoveFirst(net.heap[x].dependants, h);
      } else {
        assert net1.heap[x].dependants == net.heap[x].dependants;
      }
      if x != h {
        assert net1.heap[x].inputs == net.heap[x].inputs && net1.heap[x].weights == net.heap[x].weights;
      }
    }
  }

  /** The broken pairs of `idxs` are the first one followed by the rest. */
  lemma BrokenStep(net: Network, h: Handle, idxs: seq<nat>)
    requires SeverReady(net, h, idxs) && idxs != []
    requires h in net.heap[net.heap[h].inputs[idxs[0]]].dependants
    requires SeverReady(SeverOne(net, h, idxs[0]), h, idxs[1..])
    requires forall j | 0 <= j < |idxs| - 1 :: SeverOne(net, h, idxs[0]).heap[h].inputs[idxs[1..][j]] == net.heap[h].inputs[idxs[j + 1]]
    ensures var net1 := SeverOne(net, h, idxs[0]);
            BrokenEdges(net, h, idxs) ==
            [(net.heap[net.heap[h].inputs[idxs[0]]].id, net.heap[h].id)] + BrokenEdges(net1, h, idxs[1..])
  {
  }

  // ----- break_loops --------------------------------------------------------

  /** `break_loops(node)` for the object `h`: every input position whose
      source can reach `h` again is cut, and the connections cut are
      reported from the highest position down.  On a valid network the
      `ValueError` of the second loop cannot occur, and the network stays
      valid. */
  function BreakLoops(net: Network, h: Handle): (r: Result<(Network, seq<Edge>), BreakError>)
    requires Valid(net) && h < |net.heap|
    ensures InputsInRange(net.heap)
    ensures r.Success?
    ensures Severed(net, r.value.0, h, LoopSet(net, h), SourcesOf(net, h, LoopSet(net, h)))
    ensures r.value.1 == BrokenEdges(net, h, DescendingLoopIndexes(net, h))
    ensures Valid(r.value.0)
  {
    ValidInputsInRange(net);
    assert NodeWellFormed(net.heap[h], |net.heap|);
    var idxs := DescendingLoopIndexes(net, h);
    SourcesListNode(net, h, idxs);
    SeverAll(net, h, idxs);
    BreakValid(net, Sever(net, h, idxs).value.0, h, LoopSet(net, h));
    Sever(net, h, idxs)
  }

  /** Every source of `h` lists `h` among its dependants. */
  lemma SourcesListNode(net: Network, h: Handle, idxs: seq<nat>)
    requires Backlinks(net) && h < |net.heap| && InputsInRange(net.heap)
    requires forall j | 0 <= j < |idxs| :: idxs[j] < |net.heap[h].inputs|
    ensures forall j | 0 <= j < |idxs| :: h in net.heap[net.heap[h].inputs[idxs[j]]].dependants
  {
  }

  /** The second loop over the loop-closing positions, when every source
      lists `h`. */
  lemma SeverAll(net: Network, h: Handle, idxs: seq<nat>)
    requires InputsInRange(net.heap) && h < |net.heap|
    requires NodeWellFormed(net.heap[h], |net.heap|)
    requires idxs == DescendingLoopIndexes(net, h)
    requires forall j | 0 <= j < |idxs| :: h in net.heap[net.heap[h].inputs[idxs[j]]].dependants
    ensures SeverReady(net, h, idxs)
    ensures Sever(net, h, idxs).Success?
    ensures Severed(net, Sever(net, h, idxs).value.0, h, LoopSet(net, h), SourcesOf(net, h, LoopSet(net, h)))
    ensures Sever(net, h, idxs).value.1 == BrokenEdges(net, h, idxs)
  {
    SeverEffect(net, h, idxs);
    assert Positions(idxs) == LoopSet(net, h);
  }

  /** Cutting positions of `h`'s inputs and the matching backlinks keeps
      the network valid. */
  lemma BreakValid(net: Network, r: Network, h: Handle, dead: set<nat>)
    requires Valid(net) && h < |net.heap|
    requires Severed(net, r, h, dead, SourcesOf(net, h, dead))
    ensures Valid(r)
  {
    assert forall x | 0 <= x < |net.heap| :: r.heap[x].id == net.heap[x].id;
    BreakWellFormed(net, r, h, dead);
    BreakBacklinks(net, r, h, dead);
  }

  lemma BreakWellFormed(net: Network, r: Network, h: Handle, dead: set<nat>)
    requires NodesWellFormed(net) && h < |net.heap|
    requires Severed(net, r, h, dead, SourcesOf(net, h, dead))
    ensures NodesWellFormed(r)
  {
    var n := net.heap[h];
    assert NodeWellFormed(n, |net.heap|);
    WithoutLength(n.inputs, n.weights, dead);
    WithoutMembers(n.inputs, dead);
    WithoutDistinct(n.inputs, dead);
    forall x | 0 <= x < |r.heap| ensures NodeWellFormed(r.heap[x], |r.heap|) {
      var m := net.heap[x];
      assert NodeWellFormed(m, |net.heap|);
      if x == h {
        forall t | 0 <= t < |r.heap[x].inputs| ensures r.heap[x].inputs[t] < |r.heap| {
          assert r.heap[x].inputs[t] in Without(n.inputs, dead);
        }
      }
      if h in m.dependants {
        RemoveFirstDistinct(m.dependants, h);
        var ds := RemoveFirst(m.dependants, h);
        forall t | 0 <= t < |ds| ensures ds[t] < |r.heap| {
          assert ds[t] in ds;
        }
      }
    }
  }

  lemma BreakBacklinks(net: Network, r: Network, h: Handle, dead: set<nat>)
    requires NodesWellFormed(net) && Backlinks(net) && h < |net.heap|
    requires Severed(net, r, h, dead, SourcesOf(net, h, dead))
    ensures Backlinks(r)
  {
    var n := net.heap[h];
    var S := SourcesOf(net, h, dead);
    assert NodeWellFormed(n, |net.heap|);
    WithoutMembers(n.inputs, dead);
    forall s, d | 0 <= s < |r.heap| && 0 <= d < |r.heap|
      ensures s in r.heap[d].inputs <==> d in r.heap[s].dependants
    {
      var m := net.heap[s];
      if h in m.dependants {
        RemoveFirstDistinct(m.dependants, h);
      }
      if d == h {
        if s in S {
          var i0 :| i0 in dead && i0 < |n.inputs| && n.inputs[i0] == s;
          assert h in m.dependants;
          assert s !in Without(n.inputs, dead) by {
            forall i | 0 <= i < |n.inputs| && i !in dead ensures n.inputs[i] != s {
              assert i != i0;
            }
          }
        } else {
          assert s in n.inputs <==> s in Without(n.inputs, dead) by {
            if s in n.inputs {
              var i :| 0 <= i < |n.inputs| && n.inputs[i] == s;
              assert i !in dead;
            }
          }
        }
      }
    }
  }

  /** A subnetwork with the same ids: every id-simple path of `r` is one of
      `net`. */
  lemma ReachesInSubnetwork(net: Network, r: Network, x: Handle, k: Id)
    requires |r.heap| == |net.heap|
    requires forall y | 0 <= y < |net.heap| :: r.heap[y].id == net.heap[y].id
    requires forall y, z | 0 <= y < |net.heap| && z in r.heap[y].inputs :: z in net.heap[y].inputs
    requires Reaches(r, x, {}, k)
    ensures Reaches(net, x, {}, k)
  {
  }

  /** Cutting exactly the loop-closing positions leaves no input of `h`
      whose influence set holds `h`'s id. */
  lemma SeverLeavesNoLoop(net: Network, r: Network, h: Handle, S: set<Handle>)
    requires InputsInRange(net.heap) && InputsInRange(r.heap) && h < |net.heap|
    requires Severed(net, r, h, LoopSet(net, h), S)
    ensures forall i | 0 <= i < |r.heap[h].inputs| ::
              net.heap[h].id !in GetInfluencingNodes(r, r.heap[h].inputs[i], {}, {})
  {
    var n := net.heap[h];
    var dead := LoopSet(net, h);
    WithoutMembers(n.inputs, dead);
    assert forall y | 0 <= y < |net.heap| :: r.heap[y].id == net.heap[y].id;
    assert forall y, z | 0 <= y < |net.heap| && z in r.heap[y].inputs :: z in net.heap[y].inputs;
    forall i | 0 <= i < |r.heap[h].inputs|
      ensures n.id !in GetInfluencingNodes(r, r.heap[h].inputs[i], {}, {})
    {
      var x := r.heap[h].inputs[i];
      assert x in Without(n.inputs, dead);
      var i0 :| 0 <= i0 < |n.inputs| && i0 !in dead && n.inputs[i0] == x;
      assert !ClosesLoop(net, h, i0);
      InfluenceIsIdSimpleReach(r, x);
      InfluenceIsIdSimpleReach(net, x);
      if n.id in GetInfluencingNodes(r, x, {}, {}) {
        ReachesInSubnetwork(net, r, x, n.id);
        assert false;
      }
    }
  }

  /** After `break_loops`, no remaining input of `h` can reach `h`. */
  lemma BreakLoopsCutsEveryLoop(net: Network, h: Handle)
    requires Valid(net) && h < |net.heap|
    ensures var r := BreakLoops(net, h).value.0;
            InputsInRange(r.heap) &&
            forall i | 0 <= i < |r.heap[h].inputs| ::
              net.heap[h].id !in GetInfluencingNodes(r, r.heap[h].inputs[i], {}, {})
  {
    var r := BreakLoops(net, h).value.0;
    ValidInputsInRange(r);
    SeverLeavesNoLoop(net, r, h, SourcesOf(net, h, LoopSet(net, h)));
  }

  /** A network with the same dict and ids has the same live objects. */
  lemma SeveredKeepsNoOrphans(net: Network, r: Network, h: Handle, dead: set<nat>, S: set<Handle>)
    requires h < |net.heap| && Severed(net, r, h, dead, S) && NoOrphans(net)
    ensures NoOrphans(r)
  {
    forall x | 0 <= x < |r.heap| ensures IsLive(r, x) {
      assert IsLive(net, x);
      assert r.heap[x].id == net.heap[x].id;
    }
  }

  lemma PathReaches(net: Network, p: seq<Handle>)
    requires IsPath(net, p)
    ensures Reachable(net, p[0], p[|p| - 1])
  {
  }

  /** No cycle through `h` in a network without orphans whose inputs of `h`
      cannot reach `h`. */
  lemma NoCycleThrough(r: Network, h: Handle)
    requires Valid(r) && NoOrphans(r) && h < |r.heap|
    requires forall i | 0 <= i < |r.heap[h].inputs| ::
               r.heap[h].id !in GetInfluencingNodes(r, r.heap[h].inputs[i], {}, {})
    ensures forall p | IsPath(r, p) && |p| > 1 && p[0] == h :: p[|p| - 1] != h
  {
    forall p | IsPath(r, p) && |p| > 1 && p[0] == h ensures p[|p| - 1] != h {
      var x := p[1];
      assert x in r.heap[h].inputs;
      var i :| 0 <= i < |r.heap[h].inputs| && r.heap[h].inputs[i] == x;
      PathReaches(r, p[1..]);
      InfluenceIsReachability(r, x);
      assert IsLive(r, h);
      assert r.heap[h].id !in GetInfluencingNodes(r, r.heap[h].inputs[i], {}, {});
    }
  }

  /** Without orphaned objects, `break_loops` leaves no cycle through `h`:
      no path of two or more steps leads from `h` back to `h`. */
  lemma BreakLoopsLeavesNoCycle(net: Network, h: Handle)
    requires Valid(net) && NoOrphans(net) && h < |net.heap|
    ensures var r := BreakLoops(net, h).value.0;
            forall p | IsPath(r, p) && |p| > 1 && p[0] == h :: p[|p| - 1] != h
  {
    var r := BreakLoops(net, h).value.0;
    BreakLoopsCutsEveryLoop(net, h);
    SeveredKeepsNoOrphans(net, r, h, LoopSet(net, h), SourcesOf(net, h, LoopSet(net, h)));
    assert r.heap[h].id == net.heap[h].id;
    NoCycleThrough(r, h);
  }

  // ----- With an orphan ---------------------------------------------------

  /** `add_hidden_node` as seen from the objects: one fresh object without
      inputs is appended and stored under `id`. */
  lemma HiddenStep(net: Network, id: Id, activation: Option<string>)
    requires Valid(net)
    ensures var r := AddHiddenNode(net, id, activation);
            && Valid(r) && |r.heap| == |net.heap| + 1
            && r.nodes == net.nodes[id := |net.heap|]
            && r.heap[|net.heap|].id == id && r.heap[|net.heap|].inputs == []
            && forall x | 0 <= x < |net.heap| :: r.heap[x].id == net.heap[x].id && r.heap[x].inputs == net.heap[x].inputs
  {
    var r := AddHiddenNode(net, id, activation);
    assert forall x | 0 <= x < |net.heap| :: r.heap[x] == r.heap[..|net.heap|][x];
  }

  /** A fresh `add_connection` as seen from the objects: the source is
      appended to the destination's inputs and no other inputs change. */
  lemma ConnectStep(net: Network, w: real, src: Id, dst: Id)
    requires Valid(net) && src in net.nodes && dst in net.nodes
    requires net.nodes[src] !in net.heap[net.nodes[dst]].inputs
    ensures var r := AddConnection(net, w, src, dst);
            && Valid(r) && |r.heap| == |net.heap| && r.nodes == net.nodes
            && forall x | 0 <= x < |net.heap| ::
                 && r.heap[x].id == net.heap[x].id
                 && r.heap[x].inputs == if x == net.nodes[dst] then net.heap[x].inputs + [net.nodes[src]] else net.heap[x].inputs
  {
    assert ConnectsFresh(net, src, dst);
  }

  /** From a network with no objects, hidden nodes `h`, `a` and `c`. */
  function ThreeHidden(empty: Network, h: Id, a: Id, c: Id, act: Option<string>): (net: Network)
    requires Valid(empty) && empty.heap == []
    requires h != a && a != c && h != c
    ensures Valid(net) && |net.heap| == 3
    ensures h in net.nodes && a in net.nodes && c in net.nodes
    ensures net.nodes[h] == 0 && net.nodes[a] == 1 && net.nodes[c] == 2
    ensures net.heap[0].id == h && net.heap[1].id == a && net.heap[2].id == c
    ensures net.heap[0].inputs == [] && net.heap[1].inputs == [] && net.heap[2].inputs == []
  {
    HiddenStep(empty, h, act);
    var n1 := AddHiddenNode(empty, h, act);
    HiddenStep(n1, a, act);
    var n2 := AddHiddenNode(n1, a, act);
    HiddenStep(n2, c, act);
    AddHiddenNode(n2, c, act)
  }

  /** ... then the connection `a -> h` ... */
  function OneConnected(empty: Network, h: Id, a: Id, c: Id, act: Option<string>, w: real): (net: Network)
    requires Valid(empty) && empty.heap == []
    requires h != a && a != c && h != c
    ensures Valid(net) && |net.heap| == 3
    ensures h in net.nodes && a in net.nodes && c in net.nodes
    ensures net.nodes[h] == 0 && net.nodes[a] == 1 && net.nodes[c] == 2
    ensures net.heap[0].id == h && net.heap[1].id == a && net.heap[2].id == c
    ensures net.heap[0].inputs == [1] && net.heap[1].inputs == [] && net.heap[2].inputs == []
  {
    var n3 := ThreeHidden(empty, h, a, c, act);
    ConnectStep(n3, w, a, h);
    AddConnection(n3, w, a, h)
  }

  /** ... and `c -> a` ... */
  function TwoConnected(empty: Network, h: Id, a: Id, c: Id, act: Option<string>, w: real): (net: Network)
    requires Valid(empty) && empty.heap == []
    requires h != a && a != c && h != c
    ensures Valid(net) && |net.heap| == 3
    ensures h in net.nodes && a in net.nodes && c in net.nodes
    ensures net.nodes[h] == 0 && net.nodes[a] == 1 && net.nodes[c] == 2
    ensures net.heap[0].id == h && net.heap[1].id == a && net.heap[2].id == c
    ensures net.heap[0].inputs == [1] && net.heap[1].inputs == [2] && net.heap[2].inputs == []
  {
    var n4 := OneConnected(empty, h, a, c, act, w);
    ConnectStep(n4, w, c, a);
    AddConnection(n4, w, c, a)
  }

  /** ... then `a` added again, orphaning object 1 ... */
  function ReAdded(empty: Network, h: Id, a: Id, c: Id, act: Option<string>, w: real): (net: Network)
    requires Valid(empty) && empty.heap == []
    requires h != a && a != c && h != c
    ensures Valid(net) && |net.heap| == 4
    ensures h in net.nodes && a in net.nodes && c in net.nodes
    ensures net.nodes[h] == 0 && net.nodes[a] == 3 && net.nodes[c] == 2
    ensures net.heap[0].id == h && net.heap[1].id == a && net.heap[2].id == c && net.heap[3].id == a
    ensures net.heap[0].inputs == [1] && net.heap[1].inputs == [2] && net.heap[2].inputs == [] && net.heap[3].inputs == []
  {
    var n5 := TwoConnected(empty, h, a, c, act, w);
    HiddenStep(n5, a, act);
    AddHiddenNode(n5, a, act)
  }

  /** ... then the connection `a -> c` ... */
  function ThreeConnected(empty: Network, h: Id, a: Id, c: Id, act: Option<string>, w: real): (net: Network)
    requires Valid(empty) && empty.heap == []
    requires h != a && a != c && h != c
    ensures Valid(net) && |net.heap| == 4
    ensures h in net.nodes && a in net.nodes && c in net.nodes
    ensures net.nodes[h] == 0 && net.nodes[a] == 3 && net.nodes[c] == 2
    ensures net.heap[0].id == h && net.heap[1].id == a && net.heap[2].id == c && net.heap[3].id == a
    ensures net.heap[0].inputs == [1] && net.heap[1].inputs == [2] && net.heap[2].inputs == [3] && net.heap[3].inputs == []
  {
    var n6 := ReAdded(empty, h, a, c, act, w);
    ConnectStep(n6, w, a, c);
    AddConnection(n6, w, a, c)
  }

  /** ... and finally `h -> a`.  Objects 0 to 3 are `h`, the first `a`,
      `c` and the second `a`, and they form the cycle 0 <- 1 <- 2 <- 3 <- 0. */
  function OrphanExample(empty: Network, h: Id, a: Id, c: Id, act: Option<string>, w: real): (net: Network)
    requires Valid(empty) && empty.heap == []
    requires h != a && a != c && h != c
    ensures Valid(net) && |net.heap| == 4
    ensures a in net.nodes && net.nodes[a] == 3
    ensures net.heap[0].id == h && net.heap[1].id == a && net.heap[2].id == c && net.heap[3].id == a
    ensures net.heap[0].inputs == [1] && net.heap[1].inputs == [2] && net.heap[2].inputs == [3] && net.heap[3].inputs == [0]
  {
    var n7 := ThreeConnected(empty, h, a, c, act, w);
    ConnectStep(n7, w, h, a);
    AddConnection(n7, w, h, a)
  }

  /** No loop closed means no position to cut. */
  lemma NoLoopNoIndexes(net: Network, h: Handle)
    requires InputsInRange(net.heap) && h < |net.heap| && LoopSet(net, h) == {}
    ensures DescendingLoopIndexes(net, h) == []
  {
    var idxs := DescendingLoopIndexes(net, h);
    assert forall i :: i !in idxs;
    EmptyOrHeadIn(idxs);
  }

  /** When no input of `h` closes a loop, `break_loops(h)` cuts nothing and
      reports nothing. */
  lemma NothingToCut(net: Network, h: Handle)
    requires Valid(net) && h < |net.heap| && LoopSet(net, h) == {}
    ensures BreakLoops(net, h) == Success((net, []))
  {
    ValidInputsInRange(net);
    NoLoopNoIndexes(net, h);
    var r := BreakLoops(net, h).value;
    assert SourcesOf(net, h, {}) == {};
    WithoutAll(net.heap[h].inputs);
    WithoutAll(net.heap[h].weights);
    assert r.0.heap == net.heap;
  }

  /** On any valid network shaped like `OrphanExample`, the search from
      object 1 stops at object 3, whose id it has already visited, so no
      input of object 0 closes a loop although 0 <- 1 <- 2 <- 3 <- 0 is a
      cycle. */
  lemma HiddenLoopSurvives(net: Network, h: Id, a: Id, c: Id)
    requires h != a && a != c && h != c
    requires Valid(net) && |net.heap| == 4
    requires net.heap[0].id == h && net.heap[1].id == a && net.heap[2].id == c && net.heap[3].id == a
    requires net.heap[0].inputs == [1] && net.heap[1].inputs == [2] && net.heap[2].inputs == [3] && net.heap[3].inputs == [0]
    ensures LoopSet(net, 0) == {}
  {
    ValidInputsInRange(net);
    var ac := {a, c};
    assert GetInfluencingNodes(net, 3, ac, ac) == ac;
    assert [3][1..] == [] && [2][1..] == [];
    assert InfluencingInputs(net, [3], ac, ac) == ac;
    assert {a} + {c} == ac;
    assert GetInfluencingNodes(net, 2, {a}, {a}) == ac;
    assert InfluencingInputs(net, [2], {a}, {a}) == ac;
    assert {} + {a} == {a};
    assert GetInfluencingNodes(net, 1, {}, {}) == ac;
    assert !ClosesLoop(net, 0, 0);
  }

  /** Four objects each fed by the next, and the last by the first, lie on
      a cycle through object 0. */
  lemma FourCycle(net: Network)
    requires |net.heap| == 4
    requires net.heap[0].inputs == [1] && net.heap[1].inputs == [2] && net.heap[2].inputs == [3] && net.heap[3].inputs == [0]
    ensures IsPath(net, [0, 1, 2, 3, 0])
  {
    var p := [0, 1, 2, 3, 0];
    assert |p| == 5 && p[0] == 0 && p[1] == 1 && p[2] == 2 && p[3] == 3 && p[4] == 0;
    forall i | 0 <= i < |p| - 1
      ensures p[i + 1] in net.heap[p[i]].inputs
    {
      assert net.heap[p[i]].inputs == [p[i + 1]];
    }
  }

  /** The orphan hides a loop: after the calls of `OrphanExample` the
      network has an orphan, `break_loops(h)` cuts nothing, and the cycle
      through `h` survives.  This is why `BreakLoopsLeavesNoCycle` asks for
      no orphans. */
  lemma OrphanedCycleSurvives(empty: Network, h: Id, a: Id, c: Id, act: Option<string>, w: real)
    requires Valid(empty) && empty.heap == []
    requires h != a && a != c && h != c
    ensures var net := OrphanExample(empty, h, a, c, act, w);
            && !NoOrphans(net)
            && BreakLoops(net, 0) == Success((net, []))
            && IsPath(net, [0, 1, 2, 3, 0])
  {
    var net := OrphanExample(empty, h, a, c, act, w);
    assert !IsLive(net, 1);
    HiddenLoopSurvives(net, h, a, c);
    NothingToCut(net, 0);
    FourCycle(net);
  }
}

/** `get_influencing_nodes` (neural_network.py:35-54): a depth-first walk
    upstream along `inputs` that collects ids into a shared set and guards
    against cycles with a visited set of ids that each branch receives as
    its own copy. */
module Influence {
  import opened Sequences
  import opened Graph

  /** The ids carried by the objects of the heap. */
  function AllIds(net: Network): set<Id>
  {
    set h | 0 <= h < |net.heap| :: net.heap[h].id
  }

  /** Visiting a new id shrinks the set of ids left to visit. */
  lemma VisitShrinks(ids: set<Id>, visited: set<Id>, x: Id)
    requires x in ids && x !in visited
    ensures |ids - (visited + {x})| < |ids - visited|
  {
    assert ids - visited == (ids - (visited + {x})) + {x};
  }

  /** `get_influencing_nodes(node, influencing_nodes_set, visited_nodes_set)`
      for the object `h`.  It terminates because every recursive descent
      adds a new id to the visited set, and there are finitely many ids. */
  function GetInfluencingNodes(net: Network, h: Handle, acc: set<Id>, visited: set<Id>): (r: set<Id>)
    requires InputsInRange(net.heap) && h < |net.heap|
    ensures acc <= r && r <= acc + AllIds(net)
    ensures net.heap[h].id !in visited ==> net.heap[h].id in r
    decreases |AllIds(net) - visited|, 1, 0
  {
    var n := net.heap[h];
    if n.id in visited then acc
    else
      assert n.id in AllIds(net);
      VisitShrinks(AllIds(net), visited, n.id);
      InfluencingInputs(net, n.inputs, acc + {n.id}, visited + {n.id})
  }

  /** The loop of `get_influencing_nodes` over the inputs `hs`: every input
      is searched with the same visited set, while the result set is
      shared. */
  function InfluencingInputs(net: Network, hs: seq<Handle>, acc: set<Id>, visited: set<Id>): (r: set<Id>)
    requires InputsInRange(net.heap)
    requires forall i | 0 <= i < |hs| :: hs[i] < |net.heap|
    ensures acc <= r && r <= acc + AllIds(net)
    decreases |AllIds(net) - visited|, 2, |hs|
  {
    if hs == [] then acc
    else InfluencingInputs(net, hs[1..], GetInfluencingNodes(net, hs[0], acc, visited), visited)
  }

  /** An id-simple path must start outside the avoided ids. */
  lemma ReachesStartsOutside(net: Network, h: Handle, avoid: set<Id>)
    requires h < |net.heap|
    ensures forall k :: Reaches(net, h, avoid, k) ==> net.heap[h].id !in avoid
  {
  }

  /** A path from an input of `h` that avoids `h`'s id extends to a path
      from `h`. */
  lemma ReachesFromInput(net: Network, h: Handle, avoid: set<Id>, i: nat, k: Id)
    requires InputsInRange(net.heap) && h < |net.heap|
    requires net.heap[h].id !in avoid
    requires i < |net.heap[h].inputs|
    requires Reaches(net, net.heap[h].inputs[i], avoid + {net.heap[h].id}, k)
    ensures Reaches(net, h, avoid, k)
  {
    var n := net.heap[h];
    var q :| IdSimplePath(net, q, avoid + {n.id}) && q[0] == n.inputs[i] && net.heap[q[|q| - 1]].id == k;
    var p := [h] + q;
    assert forall j | 1 <= j < |p| :: p[j] == q[j - 1];
    assert IsPath(net, p);
    assert IdSimplePath(net, p, avoid);
    assert net.heap[p[|p| - 1]].id == k;
  }

  /** A path from `h` that goes on past `h` continues from one of its
      inputs, avoiding `h`'s id. */
  lemma ReachesThroughInput(net: Network, h: Handle, avoid: set<Id>, k: Id) returns (i: nat)
    requires InputsInRange(net.heap) && h < |net.heap|
    requires Reaches(net, h, avoid, k) && k != net.heap[h].id
    ensures i < |net.heap[h].inputs|
    ensures Reaches(net, net.heap[h].inputs[i], avoid + {net.heap[h].id}, k)
  {
    var n := net.heap[h];
    var p :| IdSimplePath(net, p, avoid) && p[0] == h && net.heap[p[|p| - 1]].id == k;
    assert |p| > 1;
    var q := p[1..];
    assert p[1] in n.inputs;
    i :| 0 <= i < |n.inputs| && n.inputs[i] == p[1];
    assert forall j | 0 <= j < |q| :: q[j] == p[j + 1];
    assert IsPath(net, q);
    assert forall j | 0 <= j < |q| :: net.heap[q[j]].id != net.heap[p[0]].id;
    assert IdSimplePath(net, q, avoid + {n.id});
  }

  /** One step of the search: from `h`, the reachable ids are `h`'s own id
      and what its inputs reach without passing through that id again. */
  lemma ReachesUnfold(net: Network, h: Handle, avoid: set<Id>, k: Id)
    requires InputsInRange(net.heap) && h < |net.heap|
    requires net.heap[h].id !in avoid
    ensures Reaches(net, h, avoid, k) <==>
              k == net.heap[h].id ||
              exists i | 0 <= i < |net.heap[h].inputs| :: Reaches(net, net.heap[h].inputs[i], avoid + {net.heap[h].id}, k)
  {
    var n := net.heap[h];
    if Reaches(net, h, avoid, k) && k != n.id {
      var i := ReachesThroughInput(net, h, avoid, k);
    }
    if k == n.id {
      assert IdSimplePath(net, [h], avoid);
    }
    if exists i | 0 <= i < |n.inputs| :: Reaches(net, n.inputs[i], avoid + {n.id}, k) {
      var i :| 0 <= i < |n.inputs| && Reaches(net, n.inputs[i], avoid + {n.id}, k);
      ReachesFromInput(net, h, avoid, i, k);
    }
  }

  /** The search from `h` adds to `acc` exactly the ids reachable from `h`
      by id-simple paths that avoid the visited ids. */
  lemma {:induction false} InfluencingReaches(net: Network, h: Handle, acc: set<Id>, visited: set<Id>)
    requires InputsInRange(net.heap) && h < |net.heap|
    ensures forall k :: k in GetInfluencingNodes(net, h, acc, visited) <==> k in acc || Reaches(net, h, visited, k)
    decreases |AllIds(net) - visited|, 1, 0
  {
    var n := net.heap[h];
    ReachesStartsOutside(net, h, visited);
    if n.id !in visited {
      assert n.id in AllIds(net);
      VisitShrinks(AllIds(net), visited, n.id);
      InputsReach(net, n.inputs, acc + {n.id}, visited + {n.id});
      forall k ensures Reaches(net, h, visited, k) <==>
          k == n.id || exists i | 0 <= i < |n.inputs| :: Reaches(net, n.inputs[i], visited + {n.id}, k)
      {
        ReachesUnfold(net, h, visited, k);
      }
    }
  }

  lemma {:induction false} InputsReach(net: Network, hs: seq<Handle>, acc: set<Id>, visited: set<Id>)
    requires InputsInRange(net.heap)
    requires forall i | 0 <= i < |hs| :: hs[i] < |net.heap|
    ensures forall k :: k in InfluencingInputs(net, hs, acc, visited) <==>
              k in acc || exists i | 0 <= i < |hs| :: Reaches(net, hs[i], visited, k)
    decreases |AllIds(net) - visited|, 2, |hs|
  {
    if hs != [] {
      var acc' := GetInfluencingNodes(net, hs[0], acc, visited);
      InfluencingReaches(net, hs[0], acc, visited);
      InputsReach(net, hs[1..], acc', visited);
      forall k ensures (exists i | 0 <= i < |hs| :: Reaches(net, hs[i], visited, k)) <==>
          Reaches(net, hs[0], visited, k) || exists i | 0 <= i < |hs[1..]| :: Reaches(net, hs[1..][i], visited, k)
      {
        if exists i | 0 <= i < |hs| :: Reaches(net, hs[i], visited, k) {
          var i :| 0 <= i < |hs| && Reaches(net, hs[i], visited, k);
          if i > 0 {
            assert hs[1..][i - 1] == hs[i];
          }
        }
        if exists i | 0 <= i < |hs[1..]| :: Reaches(net, hs[1..][i], visited, k) {
          var i :| 0 <= i < |hs[1..]| && Reaches(net, hs[1..][i], visited, k);
          assert hs[i + 1] == hs[1..][i];
        }
      }
    }
  }

  /** What `break_loops` asks for: the influence set of `h`, started with
      empty sets, is the set of ids reachable by id-simple paths. */
  lemma InfluenceIsIdSimpleReach(net: Network, h: Handle)
    requires InputsInRange(net.heap) && h < |net.heap|
    ensures forall k :: k in GetInfluencingNodes(net, h, {}, {}) <==> Reaches(net, h, {}, k)
  {
    InfluencingReaches(net, h, {}, {});
  }

  /** Any path can be shortened to one that visits no object twice. */
  lemma {:induction false} ShortenPath(net: Network, p: seq<Handle>) returns (q: seq<Handle>)
    requires IsPath(net, p)
    ensures IsPath(net, q) && Distinct(q) && q[0] == p[0] && q[|q| - 1] == p[|p| - 1]
    decreases |p|
  {
    if Distinct(p) {
      q := p;
    } else {
      var i, j :| 0 <= i < j < |p| && p[i] == p[j];
      var p' := p[..i] + p[j..];
      assert |p'| == |p| - (j - i);
      assert forall t | 0 <= t < i :: p'[t] == p[t];
      assert forall t | i <= t < |p'| :: p'[t] == p[t + j - i];
      forall t | 0 <= t < |p'| - 1 ensures p'[t + 1] in net.heap[p'[t]].inputs {
        if t + 1 < i {
        } else if t + 1 == i {
          assert p'[t + 1] == p[i];
        } else {
          assert p'[t] == p[t + j - i] && p'[t + 1] == p[t + 1 + j - i];
        }
      }
      assert p'[0] == p[0];
      assert p'[|p'| - 1] == p[|p| - 1];
      q := ShortenPath(net, p');
    }
  }

  /** Without orphaned objects the influence set is plain reachability:
      it holds exactly the keys whose live object can be reached from `h`
      by following `inputs`. */
  lemma InfluenceIsReachability(net: Network, h: Handle)
    requires Valid(net) && NoOrphans(net) && h < |net.heap|
    ensures forall k :: k in GetInfluencingNodes(net, h, {}, {}) <==> k in net.nodes && Reachable(net, h, net.nodes[k])
  {
    ValidInputsInRange(net);
    InfluenceIsIdSimpleReach(net, h);
    forall k ensures Reaches(net, h, {}, k) <==> k in net.nodes && Reachable(net, h, net.nodes[k]) {
      if Reaches(net, h, {}, k) {
        var p :| IdSimplePath(net, p, {}) && p[0] == h && net.heap[p[|p| - 1]].id == k;
        assert IsLive(net, p[|p| - 1]);
      }
      if k in net.nodes && Reachable(net, h, net.nodes[k]) {
        var p :| IsPath(net, p) && p[0] == h && p[|p| - 1] == net.nodes[k];
        var q := ShortenPath(net, p);
        forall i, j | 0 <= i < j < |q| ensures net.heap[q[i]].id != net.heap[q[j]].id {
          assert IsLive(net, q[i]) && IsLive(net, q[j]);
        }
        assert IdSimplePath(net, q, {});
      }
    }
  }
}

/** Sequence operations the Python code performs with list methods, and
    an index-based reference definition for deleting several positions. */
module Sequences {

  /** No element occurs twice. */
  predicate Distinct<T(==)>(s: seq<T>)
  {
    forall i, j | 0 <= i < j < |s| :: s[i] != s[j]
  }

  /** `del s[i]`. */
  function Delete<T>(s: seq<T>, i: nat): (r: seq<T>)
    requires i < |s|
    ensures |r| == |s| - 1
    ensures forall j | 0 <= j < i :: r[j] == s[j]
    ensures forall j | i <= j < |r| :: r[j] == s[j + 1]
  {
    s[..i] + s[i + 1..]
  }

  /** `s.remove(x)`: drops the first occurrence of `x`. */
  function RemoveFirst<T(==)>(s: seq<T>, x: T): (r: seq<T>)
    requires x in s
    ensures |r| == |s| - 1
    ensures multiset(r) == multiset(s) - multiset{x}
  {
    assert s == [s[0]] + s[1..];
    if s[0] == x then s[1..]
    else [s[0]] + RemoveFirst(s[1..], x)
  }

  /** On a sequence without repetitions, `remove` takes out exactly `x`. */
  lemma {:induction false} RemoveFirstDistinct<T>(s: seq<T>, x: T)
    requires x in s && Distinct(s)
    ensures Distinct(RemoveFirst(s, x))
    ensures forall y :: y in RemoveFirst(s, x) <==> y in s && y != x
  {
    assert s == [s[0]] + s[1..];
    assert forall i | 1 <= i < |s| :: s[i] != s[0];
    assert Distinct(s[1..]) by {
      forall i, j | 0 <= i < j < |s[1..]| ensures s[1..][i] != s[1..][j] {
        assert s[1..][i] == s[i + 1] && s[1..][j] == s[j + 1];
      }
    }
    if s[0] != x {
      RemoveFirstDistinct(s[1..], x);
      var r' := RemoveFirst(s[1..], x);
      var r := [s[0]] + r';
      assert s[0] !in r';
      forall i, j | 0 <= i < j < |r| ensures r[i] != r[j] {
        assert r[j] == r'[j - 1];
        if i > 0 {
          assert r[i] == r'[i - 1];
        }
      }
    }
  }

  /** `s` reversed, as `list.reverse()` leaves it. */
  function Reverse<T>(s: seq<T>): (r: seq<T>)
    ensures |r| == |s|
    ensures forall i | 0 <= i < |s| :: r[i] == s[|s| - 1 - i]
  {
    if s == [] then [] else Reverse(s[1..]) + [s[0]]
  }

  /** Reversing keeps the elements. */
  lemma ReverseSameElements<T>(s: seq<T>)
    ensures forall x :: x in Reverse(s) <==> x in s
  {
  }

  /** A sequence with elements holds its first one. */
  lemma EmptyOrHeadIn<T>(s: seq<T>)
    ensures s == [] || s[0] in s
  {
  }

  /** Reversing a strictly ascending sequence gives a strictly descending one. */
  lemma ReverseAscending(s: seq<nat>)
    requires forall j, j' | 0 <= j < j' < |s| :: s[j] < s[j']
    ensures forall j, j' | 0 <= j < j' < |s| :: Reverse(s)[j] > Reverse(s)[j']
  {
  }

  /** The positions of `s` outside `dead`, in their original order.  This
      is the reference for deleting several positions at once. */
  function Without<T>(s: seq<T>, dead: set<nat>): seq<T>
  {
    if s == [] then []
    else Without(s[..|s| - 1], dead) + (if |s| - 1 in dead then [] else [s[|s| - 1]])
  }

  /** Positions at or beyond `k` survive when every dead position is below `k`. */
  lemma {:induction false} WithoutSplit<T>(s: seq<T>, k: nat, dead: set<nat>)
    requires k <= |s|
    requires forall d | d in dead :: d < k
    ensures Without(s, dead) == Without(s[..k], dead) + s[k..]
    decreases |s|
  {
    if |s| > k {
      var s' := s[..|s| - 1];
      WithoutSplit(s', k, dead);
      assert s'[..k] == s[..k];
      assert s'[k..] + [s[|s| - 1]] == s[k..];
    } else {
      assert s[..k] == s;
    }
  }

  /** `Without` seen from the front: the first element survives unless
      position 0 is dead, and the rest is filtered by the dead positions
      shifted down by one. */
  lemma {:induction false} WithoutFront<T>(s: seq<T>, dead: set<nat>, dead': set<nat>)
    requires s != []
    requires forall d: nat | d < |s| - 1 :: d in dead' <==> d + 1 in dead
    ensures Without(s, dead) == (if 0 in dead then [] else [s[0]]) + Without(s[1..], dead')
    decreases |s|
  {
    if |s| > 1 {
      var front := s[..|s| - 1];
      WithoutFront(front, dead, dead');
      assert front[1..] == s[1..][..|s| - 2];
    }
  }

  /** Only the dead positions below `|s|` matter. */
  lemma {:induction false} WithoutRestrict<T>(s: seq<T>, dead: set<nat>, dead': set<nat>)
    requires forall d: nat | d < |s| :: d in dead <==> d in dead'
    ensures Without(s, dead) == Without(s, dead')
    decreases |s|
  {
    if s != [] {
      WithoutRestrict(s[..|s| - 1], dead, dead');
    }
  }

  /** Deleting position `i` and then the dead positions below it is the same
      as dropping all of them at once: why `break_loops` deletes in reverse. */
  lemma DeleteThenWithout<T>(s: seq<T>, i: nat, dead: set<nat>)
    requires i < |s|
    requires forall d | d in dead :: d < i
    ensures Without(Delete(s, i), dead) == Without(s, dead + {i})
  {
    var t := Delete(s, i);
    WithoutSplit(t, i, dead);
    assert t[..i] == s[..i] && t[i..] == s[i + 1..];
    WithoutSplit(s, i + 1, dead + {i});
    assert s[..i + 1][..i] == s[..i];
    WithoutRestrict(s[..i], dead + {i}, dead);
  }

  /** Dropping the same positions keeps two paired sequences paired. */
  lemma {:induction false} WithoutLength<T, U>(s: seq<T>, t: seq<U>, dead: set<nat>)
    requires |s| == |t|
    ensures |Without(s, dead)| == |Without(t, dead)|
    decreases |s|
  {
    if s != [] {
      WithoutLength(s[..|s| - 1], t[..|t| - 1], dead);
    }
  }

  /** The survivors are exactly the elements at positions outside `dead`. */
  lemma {:induction false} WithoutMembers<T>(s: seq<T>, dead: set<nat>)
    ensures forall x :: x in Without(s, dead) <==> exists i | 0 <= i < |s| :: i !in dead && s[i] == x
    decreases |s|
  {
    if s != [] {
      var s' := s[..|s| - 1];
      WithoutMembers(s', dead);
      forall x ensures x in Without(s, dead) <==> exists i | 0 <= i < |s| :: i !in dead && s[i] == x {
        if exists i | 0 <= i < |s| :: i !in dead && s[i] == x {
          var i :| 0 <= i < |s| && i !in dead && s[i] == x;
          if i < |s| - 1 {
            assert s'[i] == x;
          }
        }
        if x in Without(s', dead) {
          var i :| 0 <= i < |s'| && i !in dead && s'[i] == x;
          assert s[i] == x;
        }
      }
    }
  }

  /** Dropping positions keeps a sequence free of repetitions. */
  lemma {:induction false} WithoutDistinct<T>(s: seq<T>, dead: set<nat>)
    requires Distinct(s)
    ensures Distinct(Without(s, dead))
    decreases |s|
  {
    if s != [] {
      var s' := s[..|s| - 1];
      assert Distinct(s');
      WithoutDistinct(s', dead);
      WithoutMembers(s', dead);
      var last := s[|s| - 1];
      assert forall i | 0 <= i < |s'| :: s'[i] != last by {
        forall i | 0 <= i < |s'| ensures s'[i] != last {
          assert s'[i] == s[i];
        }
      }
      assert last !in Without(s', dead);
    }
  }
}

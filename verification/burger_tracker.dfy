/** The burger tracker of a `Cat` (main.py:343-353, 575-587): every burger
    eaten is remembered for `tracker_seconds` seconds, and `burger_rate`
    is how many are remembered. */
module BurgerTracker {
  import opened Sequences

  /** The fields of `Cat` the tracker reads and writes. */
  datatype Cat = Cat(
    aliveSeconds: int,
    totalBurgersEaten: int,
    trackMinutes: int,
    trackerSeconds: int,
    burgerTracker: seq<int>,
    burgerRate: int)

  /** Those fields as `Cat.__init__` sets them (main.py:347-353). */
  function NewCat(): (c: Cat)
    ensures c.trackMinutes == 3 && c.trackerSeconds == 60 * c.trackMinutes
    ensures c.aliveSeconds == 0 && c.totalBurgersEaten == 0
    ensures c.burgerTracker == [] && c.burgerRate == 0
  {
    var trackMinutes := 3;
    Cat(0, 0, trackMinutes, 60 * trackMinutes, [], 0)
  }

  // ----- call_every_second ------------------------------------------------

  /** The `for index in range(...)` loop: every entry minus one. */
  function Decrement(s: seq<int>): (r: seq<int>)
    ensures |r| == |s| && forall i | 0 <= i < |s| :: r[i] == s[i] - 1
  {
    seq(|s|, i requires 0 <= i < |s| => s[i] - 1)
  }

  /** The positions of `s` holding an entry that is not positive. */
  function NonPositive(s: seq<int>): set<nat>
  {
    set i: nat | i < |s| && s[i] <= 0
  }

  /** `[number for number in s if number > 0]`: the entries at the positive
      positions, each copy kept, in their original order. */
  function KeepPositive(s: seq<int>): (r: seq<int>)
    ensures r == Without(s, NonPositive(s))
    ensures |r| <= |s|
    ensures forall x :: x in r <==> x in s && x > 0
    decreases |s|
  {
    if s == [] then []
    else
      WithoutFront(s, NonPositive(s), NonPositive(s[1..]));
      (if s[0] > 0 then [s[0]] else []) + KeepPositive(s[1..])
  }

  /** The positions of tracker entries that run out within the next
      second. */
  function Expiring(s: seq<int>): set<nat>
  {
    set i: nat | i < |s| && s[i] <= 1
  }

  /** `Cat.call_every_second` (main.py:583-587): the entries that do not run
      out are kept one second smaller, each copy in its place. */
  function CallEverySecond(cat: Cat): (r: Cat)
    ensures r.aliveSeconds == cat.aliveSeconds + 1
    ensures r.burgerTracker == Without(Decrement(cat.burgerTracker), Expiring(cat.burgerTracker))
    ensures r.burgerTracker == AgeBy(cat.burgerTracker, 1)
    ensures |r.burgerTracker| <= |cat.burgerTracker|
    ensures forall x :: x in r.burgerTracker <==> x > 0 && x + 1 in cat.burgerTracker
    ensures r == cat.(aliveSeconds := r.aliveSeconds, burgerTracker := r.burgerTracker)
  {
    var tracker := KeepPositive(Decrement(cat.burgerTracker));
    assert NonPositive(Decrement(cat.burgerTracker)) == Expiring(cat.burgerTracker);
    KeepPositiveDecrement(cat.burgerTracker);
    forall x | x + 1 in cat.burgerTracker ensures x in Decrement(cat.burgerTracker) {
      var i :| 0 <= i < |cat.burgerTracker| && cat.burgerTracker[i] == x + 1;
      assert Decrement(cat.burgerTracker)[i] == x;
    }
    cat.(aliveSeconds := cat.aliveSeconds + 1, burgerTracker := tracker)
  }

  // ----- The tracker lines of Cat.frame -----------------------------------

  function Repeat(v: int, k: nat): (r: seq<int>)
    ensures |r| == k && forall i | 0 <= i < k :: r[i] == v
  {
    seq(k, _ => v)
  }

  /** One `instance.got_eaten(self)` branch (main.py:575-577). */
  function EatOne(cat: Cat): Cat
  {
    cat.(totalBurgersEaten := cat.totalBurgersEaten + 1,
         burgerTracker := cat.burgerTracker + [cat.trackerSeconds])
  }

  /** The eating branch taken for `eaten` burgers in one frame. */
  function EatAll(cat: Cat, eaten: nat): (r: Cat)
    ensures r.totalBurgersEaten == cat.totalBurgersEaten + eaten
    ensures r.burgerTracker == cat.burgerTracker + Repeat(cat.trackerSeconds, eaten)
    ensures r == cat.(totalBurgersEaten := r.totalBurgersEaten, burgerTracker := r.burgerTracker)
    decreases eaten
  {
    if eaten == 0 then cat
    else
      var r := EatAll(EatOne(cat), eaten - 1);
      assert [cat.trackerSeconds] + Repeat(cat.trackerSeconds, eaten - 1) == Repeat(cat.trackerSeconds, eaten);
      r
  }

  /** The tracker lines of `Cat.frame` (main.py:575-581), for a frame in
      which the cat is close enough to eat `eaten` burgers. */
  function Frame(cat: Cat, eaten: nat): (r: Cat)
    ensures r.totalBurgersEaten == cat.totalBurgersEaten + eaten
    ensures r.burgerTracker == cat.burgerTracker + Repeat(cat.trackerSeconds, eaten)
    ensures r.burgerRate == |cat.burgerTracker| + eaten
    ensures r.aliveSeconds == cat.aliveSeconds && r.trackerSeconds == cat.trackerSeconds && r.trackMinutes == cat.trackMinutes
  {
    var fed := EatAll(cat, eaten);
    fed.(burgerRate := |fed.burgerTracker|)
  }

  // ----- The tracker invariant --------------------------------------------

  /** What the tracker keeps: `tracker_seconds` is `60·track_minutes`, every
      entry is between one and `tracker_seconds` (a positive number), and the entries ascend
      from the oldest burger to the newest. */
  predicate TrackerInvariant(cat: Cat)
  {
    && cat.trackMinutes > 0
    && cat.trackerSeconds == 60 * cat.trackMinutes
    && (forall i | 0 <= i < |cat.burgerTracker| :: 0 < cat.burgerTracker[i] <= cat.trackerSeconds)
    && (forall i, j | 0 <= i < j < |cat.burgerTracker| :: cat.burgerTracker[i] <= cat.burgerTracker[j])
  }

  lemma NewCatInvariant()
    ensures TrackerInvariant(NewCat())
  {
  }

  /** Ageing keeps the ascending entries ascending. */
  lemma {:induction false} KeepPositiveAscending(s: seq<int>)
    requires forall i, j | 0 <= i < j < |s| :: s[i] <= s[j]
    ensures forall i, j | 0 <= i < j < |KeepPositive(s)| :: KeepPositive(s)[i] <= KeepPositive(s)[j]
    decreases |s|
  {
    if s != [] {
      var rest := s[1..];
      KeepPositiveAscending(rest);
      var r := KeepPositive(s);
      if s[0] > 0 {
        assert r == [s[0]] + KeepPositive(rest);
        forall j | 1 <= j < |r| ensures s[0] <= r[j] {
          assert r[j] in KeepPositive(rest);
        }
      }
    }
  }

  lemma CallEverySecondInvariant(cat: Cat)
    requires TrackerInvariant(cat)
    ensures TrackerInvariant(CallEverySecond(cat))
  {
    KeepPositiveAscending(Decrement(cat.burgerTracker));
    var r := CallEverySecond(cat).burgerTracker;
    forall i | 0 <= i < |r| ensures 0 < r[i] <= cat.trackerSeconds {
      assert r[i] in r;
      var j :| 0 <= j < |cat.burgerTracker| && cat.burgerTracker[j] == r[i] + 1;
    }
  }

  lemma FrameInvariant(cat: Cat, eaten: nat)
    requires TrackerInvariant(cat)
    ensures TrackerInvariant(Frame(cat, eaten))
  {
  }

  // ----- The tracker over a history ---------------------------------------

  /** What happens to a cat: a call of `call_every_second`, or a frame in
      which it eats some burgers. */
  datatype Event = Second | Meal(eaten: nat)

  function Step(cat: Cat, e: Event): Cat
  {
    match e
    case Second => CallEverySecond(cat)
    case Meal(k) => Frame(cat, k)
  }

  function Run(cat: Cat, events: seq<Event>): Cat
    decreases |events|
  {
    if events == [] then cat else Run(Step(cat, events[0]), events[1..])
  }

  /** How many seconds pass in `events`. */
  function Seconds(events: seq<Event>): nat
    decreases |events|
  {
    if events == [] then 0 else (if events[0].Second? then 1 else 0) + Seconds(events[1..])
  }

  /** The burgers of `events` eaten fewer than `period` seconds before the
      end, oldest first, each as the seconds it has left. */
  function Recent(events: seq<Event>, period: int): seq<int>
    decreases |events|
  {
    if events == [] then [] else RecentFirst(events, period) + Recent(events[1..], period)
  }

  /** How many burgers of `events` are eaten fewer than `period` seconds
      before the end. */
  function EatenWithin(events: seq<Event>, period: int): nat
    decreases |events|
  {
    if events == [] then 0
    else
      (if events[0].Meal? && Seconds(events[1..]) < period then events[0].eaten else 0) + EatenWithin(events[1..], period)
  }

  /** Entries `n` seconds older, those still positive. */
  function AgeBy(s: seq<int>, n: int): seq<int>
    decreases |s|
  {
    if s == [] then [] else (if s[0] - n > 0 then [s[0] - n] else []) + AgeBy(s[1..], n)
  }

  lemma {:induction false} KeepPositiveDecrement(s: seq<int>)
    ensures KeepPositive(Decrement(s)) == AgeBy(s, 1)
    decreases |s|
  {
    if s != [] {
      assert Decrement(s)[1..] == Decrement(s[1..]);
      KeepPositiveDecrement(s[1..]);
    }
  }

  lemma {:induction false} AgeByAgeBy(s: seq<int>, n: int)
    requires n >= 0
    ensures AgeBy(AgeBy(s, 1), n) == AgeBy(s, n + 1)
    decreases |s|
  {
    if s != [] {
      AgeByAgeBy(s[1..], n);
      var head := if s[0] - 1 > 0 then [s[0] - 1] else [];
      AgeByConcat(head, AgeBy(s[1..], 1), n);
      if s[0] - 1 > 0 {
        assert head[1..] == [];
      }
    }
  }

  lemma {:induction false} AgeByConcat(a: seq<int>, b: seq<int>, n: int)
    ensures AgeBy(a + b, n) == AgeBy(a, n) + AgeBy(b, n)
    decreases |a|
  {
    if a != [] {
      assert (a + b)[1..] == a[1..] + b;
      AgeByConcat(a[1..], b, n);
    } else {
      assert a + b == b;
    }
  }

  lemma {:induction false} AgeByRepeat(v: int, k: nat, n: int)
    ensures AgeBy(Repeat(v, k), n) == if v - n > 0 then Repeat(v - n, k) else []
    decreases k
  {
    if k > 0 {
      assert Repeat(v, k)[1..] == Repeat(v, k - 1);
      AgeByRepeat(v, k - 1, n);
      if v - n > 0 {
        assert [v - n] + Repeat(v - n, k - 1) == Repeat(v - n, k);
      }
    }
  }

  /** After any history the tracker holds the entries it had, aged by the
      seconds that passed, followed by the burgers eaten within the last
      `tracker_seconds` seconds, each with the seconds it has left;
      `alive_seconds` has grown by the seconds and nothing else the tracker
      does not own has changed. */
  lemma {:induction false} RunTracker(cat: Cat, events: seq<Event>)
    requires cat.trackerSeconds > 0 && Positive(cat.burgerTracker)
    ensures Run(cat, events).burgerTracker ==
            AgeBy(cat.burgerTracker, Seconds(events)) + Recent(events, cat.trackerSeconds)
    ensures Run(cat, events).aliveSeconds == cat.aliveSeconds + Seconds(events)
    ensures Run(cat, events).trackerSeconds == cat.trackerSeconds
    ensures Run(cat, events).trackMinutes == cat.trackMinutes
    decreases |events|
  {
    if events == [] {
      AgeByZero(cat.burgerTracker);
    } else {
      var rest := events[1..];
      var next := Step(cat, events[0]);
      StepPositive(cat, events[0]);
      RunTracker(next, rest);
      StepAged(cat, events);
      StepThenRest(AgeBy(next.burgerTracker, Seconds(rest)), AgeBy(cat.burgerTracker, Seconds(events)), events, cat.trackerSeconds);
    }
  }

  /** The entries one step leaves, aged by the rest of the history, are
      the entries before it aged by the whole history, followed by the
      burgers the step ate that are still remembered. */
  lemma StepAged(cat: Cat, events: seq<Event>)
    requires events != []
    ensures AgeBy(Step(cat, events[0]).burgerTracker, Seconds(events[1..])) ==
            AgeBy(cat.burgerTracker, Seconds(events)) + RecentFirst(events, cat.trackerSeconds)
  {
    SecondsFirst(events);
    StepTracker(cat, events[0], Seconds(events[1..]));
  }

  /** So, adding what the rest of the history remembers, the aged entries
      after the step and the rest's burgers are the aged entries before it
      and the whole history's burgers. */
  lemma StepThenRest(agedAfter: seq<int>, agedBefore: seq<int>, events: seq<Event>, period: int)
    requires events != []
    requires agedAfter == agedBefore + RecentFirst(events, period)
    ensures agedAfter + Recent(events[1..], period) == agedBefore + Recent(events, period)
  {
    RecentUnfold(events, period);
    var eatenNow, later := RecentFirst(events, period), Recent(events[1..], period);
    assert agedBefore + eatenNow + later == agedBefore + (eatenNow + later);
  }

  /** The burgers the first event of `events` ate that are still
      remembered at the end, each with the seconds it has left. */
  function RecentFirst(events: seq<Event>, period: int): seq<int>
    requires events != []
  {
    var left := period - Seconds(events[1..]);
    if events[0].Meal? && left > 0 then Repeat(left, events[0].eaten) else []
  }

  lemma RecentUnfold(events: seq<Event>, period: int)
    requires events != []
    ensures Recent(events, period) == RecentFirst(events, period) + Recent(events[1..], period)
  {
  }

  lemma SecondsFirst(events: seq<Event>)
    requires events != []
    ensures Seconds(events) == Seconds(events[1..]) + (if events[0].Second? then 1 else 0)
  {
  }

  predicate Positive(s: seq<int>)
  {
    forall i | 0 <= i < |s| :: s[i] > 0
  }

  /** A step keeps the entries positive and the period as it is. */
  lemma StepPositive(cat: Cat, e: Event)
    requires cat.trackerSeconds > 0 && Positive(cat.burgerTracker)
    ensures Positive(Step(cat, e).burgerTracker)
    ensures Step(cat, e).trackerSeconds == cat.trackerSeconds && Step(cat, e).trackMinutes == cat.trackMinutes
    ensures Step(cat, e).aliveSeconds == cat.aliveSeconds + (if e.Second? then 1 else 0)
  {
    var next := Step(cat, e).burgerTracker;
    forall i | 0 <= i < |next| ensures next[i] > 0 {
      if e.Second? {
        assert next[i] in next;
      } else {
        assert next == cat.burgerTracker + Repeat(cat.trackerSeconds, e.eaten);
      }
    }
  }

  /** Ageing the result of one step by `n` seconds is ageing the entries
      before it by `n` seconds and one more if it was a second, followed by
      the burgers it ate if they are still remembered. */
  lemma StepTracker(cat: Cat, e: Event, n: nat)
    ensures AgeBy(Step(cat, e).burgerTracker, n) ==
            AgeBy(cat.burgerTracker, n + (if e.Second? then 1 else 0)) +
            (if e.Meal? && cat.trackerSeconds - n > 0 then Repeat(cat.trackerSeconds - n, e.eaten) else [])
  {
    match e
    case Second =>
      KeepPositiveDecrement(cat.burgerTracker);
      AgeByAgeBy(cat.burgerTracker, n);
    case Meal(k) =>
      AgeByConcat(cat.burgerTracker, Repeat(cat.trackerSeconds, k), n);
      AgeByRepeat(cat.trackerSeconds, k, n);
  }

  lemma {:induction false} AgeByZero(s: seq<int>)
    requires Positive(s)
    ensures AgeBy(s, 0) == s
    decreases |s|
  {
    if s != [] {
      AgeByZero(s[1..]);
    }
  }

  lemma {:induction false} RecentLength(events: seq<Event>, period: int)
    ensures |Recent(events, period)| == EatenWithin(events, period)
    decreases |events|
  {
    if events != [] {
      RecentLength(events[1..], period);
    }
  }

  /** From a new cat, after any history ending in a frame, `burger_rate` is
      the number of burgers eaten in the last `track_minutes` minutes:
      those eaten fewer than `tracker_seconds` calls of
      `call_every_second` ago. */
  lemma BurgerRateCountsRecentBurgers(events: seq<Event>, eaten: nat)
    ensures Run(NewCat(), events + [Meal(eaten)]).burgerRate ==
            EatenWithin(events + [Meal(eaten)], 60 * NewCat().trackMinutes)
  {
    var all := events + [Meal(eaten)];
    RunTracker(NewCat(), all);
    RunLast(NewCat(), events, Meal(eaten));
    RecentLength(all, 180);
    assert AgeBy([], Seconds(all)) == [];
  }

  lemma {:induction false} RunLast(cat: Cat, events: seq<Event>, e: Event)
    ensures Run(cat, events + [e]) == Step(Run(cat, events), e)
    decreases |events|
  {
    if events == [] {
      assert [e][1..] == [];
    } else {
      assert (events + [e])[1..] == events[1..] + [e];
      RunLast(Step(cat, events[0]), events[1..], e);
    }
  }
}

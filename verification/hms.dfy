/** `int_to_hms_string` (main.py:42-48): a number of seconds as
    `HH:MM:SS`. */
module Hms {
  import opened Wrappers

  // ----- Python integer arithmetic ----------------------------------------

  /** `int(a / 60)`: true division, then truncation toward zero. */
  function TruncDiv60(a: int): (q: int)
    ensures a >= 0 ==> 0 <= q && q * 60 <= a < q * 60 + 60
    ensures a < 0 ==> q <= 0 && q * 60 - 60 < a <= q * 60
  {
    if a >= 0 then a / 60 else -((-a) / 60)
  }

  /** Python's `a % 60` is the floored remainder, which for a positive
      divisor is Dafny's Euclidean one. */
  function PyMod60(a: int): (r: int)
    ensures 0 <= r < 60
  {
    a % 60
  }

  // ----- The split --------------------------------------------------------

  datatype Hms = Hms(hours: int, minutes: int, seconds: int)

  /** The three numbers `int_to_hms_string` formats (main.py:43-47). */
  function Split(number: int): (t: Hms)
    ensures 0 <= t.seconds < 60 && 0 <= t.minutes < 60
  {
    var seconds := PyMod60(number);
    var rest := TruncDiv60(number);
    var minutes := PyMod60(rest);
    Hms(TruncDiv60(rest), minutes, seconds)
  }

  /** The seconds in a number of hours, minutes and seconds. */
  function Join(t: Hms): int
  {
    t.hours * 3600 + t.minutes * 60 + t.seconds
  }

  /** For a non-negative count the split is exact: the fields are within
      their ranges and add back up to the count. */
  lemma SplitJoin(n: int)
    requires n >= 0
    ensures Split(n).hours >= 0 && Join(Split(n)) == n
  {
  }

  /** And it is the only such split: splitting the seconds of any
      in-range triple gives that triple back. */
  lemma JoinSplit(t: Hms)
    requires t.hours >= 0 && 0 <= t.minutes < 60 && 0 <= t.seconds < 60
    ensures Split(Join(t)) == t
  {
  }

  // ----- Decimal text -----------------------------------------------------

  predicate IsDigit(c: char)
  {
    '0' <= c <= '9'
  }

  predicate AllDigits(s: string)
  {
    forall i | 0 <= i < |s| :: IsDigit(s[i])
  }

  function DigitChar(d: nat): (c: char)
    requires d < 10
    ensures IsDigit(c)
  {
    "0123456789"[d]
  }

  function DigitValue(c: char): nat
    requires IsDigit(c)
  {
    (c as int - '0' as int) as nat
  }

  /** `str` of a non-negative integer: its decimal digits, no leading
      zero. */
  function Digits(v: nat): (s: string)
    ensures |s| >= 1 && AllDigits(s)
    ensures v >= 10 ==> |s| >= 2
    ensures v >= 1 ==> s[0] != '0'
    decreases v
  {
    if v < 10 then [DigitChar(v)] else Digits(v / 10) + [DigitChar(v % 10)]
  }

  /** The number a digit string denotes. */
  function DigitsValue(s: string): nat
    requires AllDigits(s)
    decreases |s|
  {
    if s == [] then 0 else DigitsValue(s[..|s| - 1]) * 10 + DigitValue(s[|s| - 1])
  }

  lemma DigitRoundTrip(d: nat)
    requires d < 10
    ensures DigitValue(DigitChar(d)) == d
  {
  }

  /** Reading back what `Digits` writes gives the number. */
  lemma {:induction false} DigitsRoundTrip(v: nat)
    ensures DigitsValue(Digits(v)) == v
    decreases v
  {
    DigitRoundTrip(v % 10);
    if v >= 10 {
      var s := Digits(v);
      assert s[..|s| - 1] == Digits(v / 10);
      DigitsRoundTrip(v / 10);
    } else {
      assert Digits(v)[..0] == [];
    }
  }

  /** `"{:02d}".format(v)`: zero-padded to width two after the sign. */
  function Pad2(v: int): string
  {
    if v < 0 then "-" + Digits(-v)
    else if v < 10 then "0" + Digits(v)
    else Digits(v)
  }

  /** A non-negative field formats to at least two digits that read back
      as the field, and to exactly two below a hundred. */
  lemma Pad2RoundTrip(v: int)
    requires v >= 0
    ensures |Pad2(v)| >= 2 && AllDigits(Pad2(v)) && DigitsValue(Pad2(v)) == v
    ensures v < 100 ==> |Pad2(v)| == 2
    ensures |Pad2(v)| > 2 ==> Pad2(v)[0] != '0'
  {
    DigitsRoundTrip(v);
    if v < 10 {
      var s := Pad2(v);
      assert s[..1] == "0" && s[..1][..0] == [];
    } else if v < 100 {
      assert Digits(v) == Digits(v / 10) + [DigitChar(v % 10)];
    }
  }

  // ----- The string -------------------------------------------------------

  /** `int_to_hms_string(number)`: the hours field, then `:MM:SS`.  For a
      non-negative count the string reads back as the count, so it has the
      shape `ParseHms` accepts: `H:MM:SS` with minutes and seconds of
      exactly two digits and hours of at least two. */
  function IntToHmsString(number: int): (r: string)
    ensures number >= 0 ==> ParseHms(r) == Some(number)
  {
    assert number >= 0 ==> ParseHms(Format(Split(number))) == Some(number) by {
      if number >= 0 {
        SplitJoin(number);
        FormatReadBack(Split(number));
      }
    }
    Format(Split(number))
  }

  /** The three fields, each through `{:02d}`, joined by colons. */
  function Format(t: Hms): string
  {
    Pad2(t.hours) + (":" + Pad2(t.minutes) + ":" + Pad2(t.seconds))
  }

  /** The number two digit characters denote. */
  function TwoDigits(tens: char, ones: char): nat
    requires IsDigit(tens) && IsDigit(ones)
  {
    DigitValue(tens) * 10 + DigitValue(ones)
  }

  /** Reads `H:MM:SS` back into seconds: hours of at least two digits with
      no leading zero beyond the second, then two-digit minutes and seconds
      below sixty. */
  function ParseHms(s: string): Option<int>
  {
    if |s| < 8 then None else ParseSplit(s[..|s| - 6], s[|s| - 6..])
  }

  /** The hours text and the six characters `:MM:SS` after it. */
  function ParseSplit(hours: string, tail: string): (r: Option<int>)
    requires |tail| == 6
    ensures r.Some? ==>
              && tail[0] == ':' && tail[3] == ':' && AllDigits(hours)
              && IsDigit(tail[1]) && IsDigit(tail[2]) && IsDigit(tail[4]) && IsDigit(tail[5])
              && (|hours| > 2 ==> hours[0] != '0')
              && r.value >= 0
  {
    if tail[0] != ':' || tail[3] != ':' then None
    else if !(AllDigits(hours) && IsDigit(tail[1]) && IsDigit(tail[2]) && IsDigit(tail[4]) && IsDigit(tail[5])) then None
    else if |hours| > 2 && hours[0] == '0' then None
    else
      var minutes, seconds := TwoDigits(tail[1], tail[2]), TwoDigits(tail[4], tail[5]);
      if minutes < 60 && seconds < 60 then Some(DigitsValue(hours) * 3600 + minutes * 60 + seconds) else None
  }

  /** A triple within range formats to text that reads back as its
      seconds. */
  lemma FormatReadBack(t: Hms)
    requires t.hours >= 0 && 0 <= t.minutes < 60 && 0 <= t.seconds < 60
    ensures ParseHms(Format(t)) == Some(Join(t))
  {
    Pad2RoundTrip(t.hours);
    Pad2Pair(t.minutes);
    Pad2Pair(t.seconds);
    ParseFields(Pad2(t.hours), Pad2(t.minutes), Pad2(t.seconds));
  }

  /** A field below a hundred is two digit characters denoting it. */
  lemma Pad2Pair(v: int)
    requires 0 <= v < 100
    ensures |Pad2(v)| == 2 && IsDigit(Pad2(v)[0]) && IsDigit(Pad2(v)[1])
    ensures TwoDigits(Pad2(v)[0], Pad2(v)[1]) == v
  {
    if v < 10 {
      assert Pad2(v) == ['0', DigitChar(v)];
    } else {
      assert Digits(v / 10) == [DigitChar(v / 10)];
      assert Pad2(v) == [DigitChar(v / 10), DigitChar(v % 10)];
    }
    DigitRoundTrip(v / 10);
    DigitRoundTrip(v % 10);
  }

  /** `ParseHms` reads the fields of `h:m:s` back, for a digit string `h`
      of at least two characters and two-digit `m`, `s` below sixty. */
  lemma ParseFields(h: string, m: string, s: string)
    requires |h| >= 2 && AllDigits(h) && (|h| > 2 ==> h[0] != '0')
    requires |m| == 2 && IsDigit(m[0]) && IsDigit(m[1]) && TwoDigits(m[0], m[1]) < 60
    requires |s| == 2 && IsDigit(s[0]) && IsDigit(s[1]) && TwoDigits(s[0], s[1]) < 60
    ensures ParseHms(h + (":" + m + ":" + s)) ==
            Some(DigitsValue(h) * 3600 + TwoDigits(m[0], m[1]) * 60 + TwoDigits(s[0], s[1]))
  {
    ParseAt(h, ":" + m + ":" + s);
    TailFields(h, m, s);
  }

  /** `ParseHms` cuts the last six characters off as the tail. */
  lemma ParseAt(h: string, tail: string)
    requires |h| >= 2 && |tail| == 6
    ensures ParseHms(h + tail) == ParseSplit(h, tail)
  {
  }

  /** The tail `:m:s` is read as two-digit minutes and seconds. */
  lemma TailFields(h: string, m: string, s: string)
    requires AllDigits(h) && (|h| > 2 ==> h[0] != '0')
    requires |m| == 2 && IsDigit(m[0]) && IsDigit(m[1]) && TwoDigits(m[0], m[1]) < 60
    requires |s| == 2 && IsDigit(s[0]) && IsDigit(s[1]) && TwoDigits(s[0], s[1]) < 60
    ensures ParseSplit(h, ":" + m + ":" + s) ==
            Some(DigitsValue(h) * 3600 + TwoDigits(m[0], m[1]) * 60 + TwoDigits(s[0], s[1]))
  {
  }

  // ----- Only one text reads back as a count -----------------------------

  function Pow10(k: nat): (r: nat)
    ensures r >= 1
  {
    if k == 0 then 1 else 10 * Pow10(k - 1)
  }

  lemma {:induction false} Pow10Grows(i: nat, j: nat)
    requires i <= j
    ensures Pow10(i) <= Pow10(j)
    decreases j
  {
    if i < j {
      Pow10Grows(i, j - 1);
    }
  }

  /** A digit string of length `k` denotes less than `10^k`. */
  lemma {:induction false} DigitsBelow(s: string)
    requires AllDigits(s)
    ensures DigitsValue(s) < Pow10(|s|)
    decreases |s|
  {
    if s != [] {
      DigitsBelow(s[..|s| - 1]);
    }
  }

  /** ... and at least `10^(k-1)` when it does not start with a zero. */
  lemma {:induction false} DigitsAbove(s: string)
    requires AllDigits(s) && |s| >= 1 && s[0] != '0'
    ensures DigitsValue(s) >= Pow10(|s| - 1)
    decreases |s|
  {
    if |s| > 1 {
      var front := s[..|s| - 1];
      assert front[0] == s[0];
      DigitsAbove(front);
    } else {
      assert s[..0] == [];
    }
  }

  /** Two digit strings of the same length denoting the same number are
      the same string. */
  lemma {:induction false} SameLengthDigits(a: string, b: string)
    requires AllDigits(a) && AllDigits(b) && |a| == |b|
    requires DigitsValue(a) == DigitsValue(b)
    ensures a == b
    decreases |a|
  {
    if a != [] {
      var fa, fb := a[..|a| - 1], b[..|b| - 1];
      SameLengthDigits(fa, fb);
      assert a == fa + [a[|a| - 1]] && b == fb + [b[|b| - 1]];
    }
  }

  /** An hours field `ParseHms` accepts is determined by its value: two
      digits below a hundred, and otherwise no leading zero. */
  lemma HoursUnique(a: string, b: string)
    requires AllDigits(a) && |a| >= 2 && (|a| > 2 ==> a[0] != '0')
    requires AllDigits(b) && |b| >= 2 && (|b| > 2 ==> b[0] != '0')
    requires DigitsValue(a) == DigitsValue(b)
    ensures a == b
  {
    if |a| < |b| {
      LongerIsLarger(a, b);
    } else if |b| < |a| {
      LongerIsLarger(b, a);
    } else {
      SameLengthDigits(a, b);
    }
  }

  lemma LongerIsLarger(a: string, b: string)
    requires AllDigits(a) && |a| >= 2
    requires AllDigits(b) && |a| < |b| && b[0] != '0'
    ensures DigitsValue(a) < DigitsValue(b)
  {
    DigitsBelow(a);
    DigitsAbove(b);
    Pow10Grows(|a|, |b| - 1);
  }

  /** Hours, minutes below sixty and seconds below sixty are determined by
      the total. */
  lemma MixedRadix(h1: int, m1: int, s1: int, h2: int, m2: int, s2: int)
    requires 0 <= m1 < 60 && 0 <= s1 < 60 && 0 <= m2 < 60 && 0 <= s2 < 60
    requires h1 * 3600 + m1 * 60 + s1 == h2 * 3600 + m2 * 60 + s2
    ensures h1 == h2 && m1 == m2 && s1 == s2
  {
  }

  lemma TwoDigitsUnique(a: char, b: char, c: char, d: char)
    requires IsDigit(a) && IsDigit(b) && IsDigit(c) && IsDigit(d)
    requires TwoDigits(a, b) == TwoDigits(c, d)
    ensures a == c && b == d
  {
  }

  /** `ParseHms` reads no two texts as the same count. */
  lemma ParseHmsInjective(a: string, b: string)
    requires ParseHms(a).Some? && ParseHms(a) == ParseHms(b)
    ensures a == b
  {
    var ha, ta := a[..|a| - 6], a[|a| - 6..];
    var hb, tb := b[..|b| - 6], b[|b| - 6..];
    assert ParseHms(a) == ParseSplit(ha, ta) && ParseHms(b) == ParseSplit(hb, tb);
    MixedRadix(DigitsValue(ha), TwoDigits(ta[1], ta[2]), TwoDigits(ta[4], ta[5]),
               DigitsValue(hb), TwoDigits(tb[1], tb[2]), TwoDigits(tb[4], tb[5]));
    TwoDigitsUnique(ta[1], ta[2], tb[1], tb[2]);
    TwoDigitsUnique(ta[4], ta[5], tb[4], tb[5]);
    assert ta == tb;
    HoursUnique(ha, hb);
    assert a == ha + ta && b == hb + tb;
  }

  /** So for a non-negative count `int_to_hms_string` gives the only text
      that reads back as the count. */
  lemma HmsTextUnique(n: int, s: string)
    requires n >= 0 && ParseHms(s) == Some(n)
    ensures s == IntToHmsString(n)
  {
    ParseHmsInjective(s, IntToHmsString(n));
  }

  /** Below a hundred hours the string is exactly eight characters. */
  lemma HmsShortForm(n: int)
    requires 0 <= n < 360000
    ensures |IntToHmsString(n)| == 8
  {
    var t := Split(n);
    SplitJoin(n);
    Pad2RoundTrip(t.hours);
    Pad2RoundTrip(t.minutes);
    Pad2RoundTrip(t.seconds);
  }

  /** Within a minute below zero the truncating division gives no minutes
      while the floored remainder adds sixty, so a negative count formats
      as the positive one a minute later: -30 comes out as `00:00:30`. */
  lemma NegativeWithinMinute(n: int)
    requires -60 < n < 0
    ensures IntToHmsString(n) == IntToHmsString(n + 60)
    ensures Split(n) == Hms(0, 0, n + 60)
  {
    assert Split(n + 60) == Hms(0, 0, n + 60);
    assert Split(n) == Hms(0, 0, n + 60);
  }
}

/** Decimal rendering and the small amount of text structure the display code
    produces: Python's str(n) for naturals, zero padding to two digits, the
    "H:MM AM" clock text, and joining/splitting on a separator character. */
module Text {
  import opened Wrappers

  predicate IsDigit(c: char) { '0' <= c <= '9' }

  predicate IsDigits(s: string) { forall i :: 0 <= i < |s| ==> IsDigit(s[i]) }

  function DigitChar(d: nat): (c: char)
    requires d < 10
    ensures IsDigit(c) && c as int - '0' as int == d
  {
    ('0' as int + d) as char
  }

  function DigitValue(c: char): (d: nat)
    requires IsDigit(c)
    ensures d < 10 && DigitChar(d) == c
  {
    c as int - '0' as int
  }

  /** The value of a string of decimal digits, most significant first. */
  function DigitsValue(s: string): nat
    requires IsDigits(s)
  {
    if s == [] then 0 else 10 * DigitsValue(s[..|s| - 1]) + DigitValue(s[|s| - 1])
  }

  /** Python's str(n) for a non-negative int: decimal digits without leading zeros. */
  function DecimalText(n: nat): (s: string)
  {
    if n < 10 then [DigitChar(n)] else DecimalText(n / 10) + [DigitChar(n % 10)]
  }

  /** str(n) is a non-empty digit string that reads back as n and has no leading zero. */
  lemma {:induction false} DecimalTextRoundTrip(n: nat)
    ensures |DecimalText(n)| >= 1 && IsDigits(DecimalText(n))
    ensures DigitsValue(DecimalText(n)) == n
    ensures DecimalText(n)[0] == '0' <==> n == 0
  {
    if n >= 10 {
      DecimalTextRoundTrip(n / 10);
      var s := DecimalText(n);
      assert s[..|s| - 1] == DecimalText(n / 10);
    }
  }

  /** str(n) has one character below ten and two from ten to ninety-nine. */
  lemma DecimalTextLength(n: nat)
    ensures n < 10 ==> |DecimalText(n)| == 1
    ensures 10 <= n < 100 ==> |DecimalText(n)| == 2
  {
  }

  lemma {:induction false} LeadingDigitBound(s: string)
    requires |s| >= 1 && IsDigits(s)
    ensures DigitsValue(s) >= DigitValue(s[0])
  {
    if |s| > 1 {
      LeadingDigitBound(s[..|s| - 1]);
    }
  }

  /** A digit string without a leading zero is exactly str of its value, so
      str is a bijection between naturals and such strings. */
  lemma {:induction false} DecimalTextCanonical(s: string)
    requires |s| >= 1 && IsDigits(s) && s[0] != '0'
    ensures DecimalText(DigitsValue(s)) == s
  {
    if |s| > 1 {
      var init, last := s[..|s| - 1], s[|s| - 1];
      DecimalTextCanonical(init);
      LeadingDigitBound(init);
      var q, d := DigitsValue(init), DigitValue(last);
      LastDigit(q, d);
      assert DecimalText(10 * q + d) == DecimalText(q) + [DigitChar(d)];
      assert s == init + [last];
    }
  }

  lemma LastDigit(q: nat, d: nat)
    requires 1 <= q && d < 10
    ensures 10 <= 10 * q + d && (10 * q + d) / 10 == q && (10 * q + d) % 10 == d
  {
  }

  /** Python's f"{n:02d}" for 0 <= n < 100. */
  function TwoDigits(n: nat): (s: string)
    requires n < 100
    ensures |s| == 2 && IsDigits(s) && DigitsValue(s) == n
  {
    var s := [DigitChar(n / 10), DigitChar(n % 10)];
    assert s[..1][..0] == [];
    assert DigitsValue(s[..1]) == n / 10;
    s
  }

  /** Every two-digit string is the zero-padded text of its value. */
  lemma TwoDigitsCanonical(s: string)
    requires |s| == 2 && IsDigits(s)
    ensures DigitsValue(s) < 100 && TwoDigits(DigitsValue(s)) == s
  {
    assert s[..1][..0] == [];
    var hi, lo := DigitValue(s[0]), DigitValue(s[1]);
    assert DigitsValue(s[..1]) == hi;
    var n := DigitsValue(s);
    assert n == 10 * hi + lo;
    assert n / 10 == hi && n % 10 == lo;
  }

  /** Dropping a leading '0' from the two-digit text of a positive n gives str(n). */
  lemma TwoDigitsUnpadded(n: nat)
    requires 1 <= n < 100
    ensures var t := TwoDigits(n); (if t[0] == '0' then t[1..] else t) == DecimalText(n)
  {
    if n >= 10 {
      assert DecimalText(n / 10) == [DigitChar(n / 10)];
    }
  }

  /** Clock texts are single lines. */
  lemma ClockTextHasNoNewline(hour: nat, minute: nat, pm: bool)
    requires minute < 100
    ensures '\n' !in ClockText(hour, minute, pm)
  {
    DecimalTextRoundTrip(hour);
    var s := ClockText(hour, minute, pm);
    forall k | 0 <= k < |s| ensures s[k] != '\n' {
      var h := DecimalText(hour);
      if k < |h| {
        assert s[k] == h[k];
      } else if |h| + 1 <= k < |h| + 3 {
        assert s[k] == TwoDigits(minute)[k - |h| - 1];
      }
    }
  }

  function Period(pm: bool): string { if pm then "PM" else "AM" }

  /** "H:MM AM" or "H:MM PM": the hour as str(hour), the minute zero-padded. */
  function ClockText(hour: nat, minute: nat, pm: bool): string
    requires minute < 100
  {
    DecimalText(hour) + ":" + TwoDigits(minute) + " " + Period(pm)
  }

  /** Reads a clock text back: an hour without leading zero, ':', two minute
      digits, ' ', then "AM" or "PM". */
  function ParseClockText(s: string): Option<(nat, nat, bool)>
  {
    if |s| < 7 then None
    else
      var hourPart := s[..|s| - 6];
      var minutePart := s[|s| - 5..|s| - 3];
      var period := s[|s| - 2..];
      if s[|s| - 6] == ':' && s[|s| - 3] == ' ' && IsDigits(hourPart) && hourPart[0] != '0'
         && IsDigits(minutePart) && (period == "AM" || period == "PM")
      then Some((DigitsValue(hourPart), DigitsValue(minutePart), period == "PM"))
      else None
  }

  /** The clock text is read back as the hour, minute and period it shows. */
  lemma ClockTextRoundTrip(hour: nat, minute: nat, pm: bool)
    requires 1 <= hour && minute < 100
    ensures ParseClockText(ClockText(hour, minute, pm)) == Some((hour, minute, pm))
  {
    DecimalTextRoundTrip(hour);
    var h := DecimalText(hour);
    var s := ClockText(hour, minute, pm);
    assert s[..|s| - 6] == h;
    assert s[|s| - 5..|s| - 3] == TwoDigits(minute);
    assert s[|s| - 2..] == Period(pm);
  }

  /** Conversely, every text that reads back as a clock is the clock text of
      what it reads as. */
  lemma ClockTextCanonical(s: string)
    requires ParseClockText(s).Some?
    ensures var (hour, minute, pm) := ParseClockText(s).value;
      1 <= hour && minute < 100 && ClockText(hour, minute, pm) == s
  {
    var hourPart := s[..|s| - 6];
    var minutePart := s[|s| - 5..|s| - 3];
    DecimalTextCanonical(hourPart);
    LeadingDigitBound(hourPart);
    var (hour, minute, pm) := ParseClockText(s).value;
    TwoDigitsCanonical(minutePart);
    assert s == hourPart + ":" + minutePart + " " + s[|s| - 2..];
  }

  /** Python's sep.join(parts) for a one-character separator. */
  function Join(parts: seq<string>, sep: char): string
  {
    if |parts| == 0 then ""
    else if |parts| == 1 then parts[0]
    else parts[0] + [sep] + Join(parts[1..], sep)
  }

  /** The position of the first occurrence of c in s. */
  function FirstIndex(s: string, c: char): (i: nat)
    requires c in s
    ensures i < |s| && s[i] == c && c !in s[..i]
  {
    if s[0] == c then 0 else 1 + FirstIndex(s[1..], c)
  }

  lemma {:induction false} FirstIndexAfter(head: string, sep: char, rest: string)
    requires sep !in head
    ensures sep in head + [sep] + rest && FirstIndex(head + [sep] + rest, sep) == |head|
  {
    var s := head + [sep] + rest;
    assert s[|head|] == sep;
    if head != [] {
      assert s[1..] == head[1..] + [sep] + rest;
      FirstIndexAfter(head[1..], sep, rest);
    }
  }

  /** Python's s.split(sep) for a one-character separator. */
  function Split(s: string, sep: char): (parts: seq<string>)
    ensures |parts| >= 1
    decreases |s|
  {
    if sep !in s then [s]
    else
      var i := FirstIndex(s, sep);
      [s[..i]] + Split(s[i + 1..], sep)
  }

  /** Joining parts that do not contain the separator puts exactly one
      separator between neighbours. */
  lemma {:induction false} JoinCountsSeparators(parts: seq<string>, sep: char)
    requires |parts| >= 1
    requires forall k :: 0 <= k < |parts| ==> sep !in parts[k]
    ensures multiset(Join(parts, sep))[sep] == |parts| - 1
  {
    if |parts| > 1 {
      var head, tail := parts[0], parts[1..];
      JoinCountsSeparators(tail, sep);
      assert sep !in head;
      assert multiset(Join(parts, sep)) == multiset(head) + multiset([sep]) + multiset(Join(tail, sep));
    } else {
      assert sep !in parts[0];
    }
  }

  /** Splitting at the first separator takes off the part before it. */
  lemma SplitAtFirst(head: string, sep: char, rest: string)
    requires sep !in head
    ensures Split(head + [sep] + rest, sep) == [head] + Split(rest, sep)
  {
    var j := head + [sep] + rest;
    FirstIndexAfter(head, sep, rest);
    assert j[..|head|] == head;
    assert j[|head| + 1..] == rest;
  }

  /** Splitting the join of parts that do not contain the separator gives
      the parts back. */
  lemma {:induction false} SplitJoin(parts: seq<string>, sep: char)
    requires |parts| >= 1
    requires forall k :: 0 <= k < |parts| ==> sep !in parts[k]
    ensures Split(Join(parts, sep), sep) == parts
  {
    if |parts| > 1 {
      var head, tail := parts[0], parts[1..];
      SplitJoin(tail, sep);
      SplitAtFirst(head, sep, Join(tail, sep));
      assert parts == [head] + tail;
    }
  }
}

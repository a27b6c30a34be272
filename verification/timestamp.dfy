/** The release-folder timestamp codec: Python's `datetime` restricted to
    whole seconds, read and written in the layout `%Y%m%dT%H%M%SZ`, which is
    the basic-format complete date-and-time representation of section 4.3.2
    of ISO 8601:2004 (for example `20240601T120000Z`). Only the canonical,
    zero-padded 16-character form is accepted. */
module Timestamp {
  import opened Results
  import opened Strings

  /** A calendar instant at one-second resolution, as `datetime` holds it. */
  datatype DateTime = DateTime(year: nat, month: nat, day: nat, hour: nat, minute: nat, second: nat)

  predicate IsLeapYear(year: nat) {
    year % 4 == 0 && (year % 100 != 0 || year % 400 == 0)
  }

  function DaysInMonth(year: nat, month: nat): (r: nat)
    requires 1 <= month <= 12
    ensures 28 <= r <= 31
    ensures r == 29 <==> month == 2 && IsLeapYear(year)
  {
    if month == 2 then (if IsLeapYear(year) then 29 else 28)
    else if month in {4, 6, 9, 11} then 30
    else 31
  }

  /** The range checks `datetime` applies when it is constructed: years
      MINYEAR (1) to MAXYEAR (9999), real calendar days, seconds 0 to 59. */
  predicate Valid(t: DateTime) {
    && 1 <= t.year <= 9999
    && 1 <= t.month <= 12
    && 1 <= t.day <= DaysInMonth(t.year, t.month)
    && t.hour <= 23
    && t.minute <= 59
    && t.second <= 59
  }

  /** Chronological order: `datetime` compares its fields from the year down. */
  predicate Before(a: DateTime, b: DateTime) {
    || a.year < b.year
    || (a.year == b.year && a.month < b.month)
    || (a.year == b.year && a.month == b.month && a.day < b.day)
    || (a.year == b.year && a.month == b.month && a.day == b.day && a.hour < b.hour)
    || (a.year == b.year && a.month == b.month && a.day == b.day && a.hour == b.hour && a.minute < b.minute)
    || (a.year == b.year && a.month == b.month && a.day == b.day && a.hour == b.hour && a.minute == b.minute
        && a.second < b.second)
  }

  lemma BeforeIsStrictTotalOrder(a: DateTime, b: DateTime, c: DateTime)
    ensures !Before(a, a)
    ensures Before(a, b) ==> !Before(b, a)
    ensures Before(a, b) && Before(b, c) ==> Before(a, c)
    ensures a != b ==> Before(a, b) || Before(b, a)
  {
  }

  // ---------------------------------------------------------------- digits

  predicate IsDigit(c: char) {
    '0' <= c <= '9'
  }

  predicate AllDigits(s: string) {
    forall i :: 0 <= i < |s| ==> IsDigit(s[i])
  }

  function Pow10(w: nat): (r: nat)
    ensures r >= 1
  {
    if w == 0 then 1 else 10 * Pow10(w - 1)
  }

  function DigitChar(d: nat): (c: char)
    requires d < 10
    ensures IsDigit(c)
  {
    ('0' as int + d) as char
  }

  function DigitValue(c: char): int {
    c as int - '0' as int
  }

  /** `n` written in decimal with exactly `w` digits, zero-padded on the left
      (`%04d`, `%02d`); digits above the width are dropped. */
  function Pad(n: nat, w: nat): (r: string)
    ensures |r| == w && AllDigits(r)
  {
    if w == 0 then [] else Pad(n / 10, w - 1) + [DigitChar(n % 10)]
  }

  /** The number a string of decimal digits denotes. */
  function Val(s: string): int
    decreases |s|
  {
    if |s| == 0 then 0 else Val(s[..|s| - 1]) * 10 + DigitValue(s[|s| - 1])
  }

  lemma {:induction false} ValPad(n: nat, w: nat)
    requires n < Pow10(w)
    ensures Val(Pad(n, w)) == n
    decreases w
  {
    if w > 0 {
      var p := Pad(n, w);
      assert p[..w - 1] == Pad(n / 10, w - 1);
      assert p[w - 1] == DigitChar(n % 10);
      ValPad(n / 10, w - 1);
    }
  }

  lemma {:induction false} PadVal(s: string)
    requires AllDigits(s)
    ensures 0 <= Val(s) < Pow10(|s|)
    ensures Pad(Val(s), |s|) == s
    decreases |s|
  {
    if |s| > 0 {
      var p := s[..|s| - 1];
      var d := DigitValue(s[|s| - 1]);
      assert AllDigits(p);
      PadVal(p);
      assert 0 <= d < 10;
      var v := Val(s);
      assert v == Val(p) * 10 + d;
      assert v / 10 == Val(p) && v % 10 == d;
      assert DigitChar(d) == s[|s| - 1];
      assert s == p + [s[|s| - 1]];
    }
  }

  lemma PadInjective(n: nat, m: nat, w: nat)
    requires n < Pow10(w) && m < Pow10(w)
    ensures Pad(n, w) == Pad(m, w) <==> n == m
  {
    if Pad(n, w) == Pad(m, w) {
      ValPad(n, w);
      ValPad(m, w);
    }
  }

  /** Zero-padded numbers of one width sort as strings the way they sort as
      numbers. */
  lemma {:induction false} PadOrder(n: nat, m: nat, w: nat)
    requires n < Pow10(w) && m < Pow10(w)
    ensures LexLess(Pad(n, w), Pad(m, w)) <==> n < m
    decreases w
  {
    if w == 0 {
      assert n == 0 && m == 0;
    } else {
      var hn, hm := Pad(n / 10, w - 1), Pad(m / 10, w - 1);
      var dn, dm := [DigitChar(n % 10)], [DigitChar(m % 10)];
      LexLessAppend(hn, dn, hm, dm);
      PadOrder(n / 10, m / 10, w - 1);
      PadInjective(n / 10, m / 10, w - 1);
      assert LexLess(dn, dm) <==> n % 10 < m % 10 by {
        assert dn[1..] == [] && dm[1..] == [];
      }
      assert n < m <==> n / 10 < m / 10 || (n / 10 == m / 10 && n % 10 < m % 10);
    }
  }

  // ---------------------------------------------------------------- codec

  /** `t.strftime("%Y%m%dT%H%M%SZ")`. */
  function Format(t: DateTime): (r: string)
    ensures |r| == 16 && r[8] == 'T' && r[15] == 'Z'
  {
    Pad(t.year, 4) + (Pad(t.month, 2) + (Pad(t.day, 2) + ("T" + (Pad(t.hour, 2) + (Pad(t.minute, 2) +
    (Pad(t.second, 2) + "Z"))))))
  }

  /** The fixed shape of the layout: eight digits, `T`, six digits, `Z`. */
  predicate Canonical(s: string) {
    && |s| == 16
    && s[8] == 'T'
    && s[15] == 'Z'
    && forall i :: 0 <= i < 16 && i != 8 && i != 15 ==> IsDigit(s[i])
  }

  /** The number a run of decimal digits denotes, with the facts that make
      the run recoverable from it. */
  function DigitsValue(s: string): (r: nat)
    requires AllDigits(s)
    ensures r < Pow10(|s|) && Pad(r, |s|) == s
  {
    PadVal(s);
    Val(s)
  }

  /** `datetime.strptime(s, "%Y%m%dT%H%M%SZ")`, with `None` for the
      ValueError it raises. */
  function Parse(s: string): (r: Option<DateTime>)
    ensures r.Some? ==> Canonical(s) && Valid(r.value)
  {
    if !Canonical(s) then None
    else
      assert AllDigits(s[0..4]) && AllDigits(s[4..6]) && AllDigits(s[6..8]);
      assert AllDigits(s[9..11]) && AllDigits(s[11..13]) && AllDigits(s[13..15]);
      var t := DateTime(DigitsValue(s[0..4]), DigitsValue(s[4..6]), DigitsValue(s[6..8]),
                        DigitsValue(s[9..11]), DigitsValue(s[11..13]), DigitsValue(s[13..15]));
      if Valid(t) then Some(t) else None
  }

  /** `is_valid_timestamp`: whether `strptime` accepts `s`. */
  predicate IsValid(s: string) {
    Parse(s).Some?
  }

  /** Reading back a written timestamp gives the timestamp. */
  lemma ParseFormat(t: DateTime)
    requires Valid(t)
    ensures Parse(Format(t)) == Some(t)
  {
    var s := Format(t);
    assert s[0..4] == Pad(t.year, 4);
    assert s[4..6] == Pad(t.month, 2);
    assert s[6..8] == Pad(t.day, 2);
    assert s[9..11] == Pad(t.hour, 2);
    assert s[11..13] == Pad(t.minute, 2);
    assert s[13..15] == Pad(t.second, 2);
    assert forall i :: 0 <= i < 16 && i != 8 && i != 15 ==> IsDigit(s[i]) by {
      forall i | 0 <= i < 16 && i != 8 && i != 15
        ensures IsDigit(s[i])
      {
        if i < 4 { assert s[i] == s[0..4][i]; }
        else if i < 6 { assert s[i] == s[4..6][i - 4]; }
        else if i < 8 { assert s[i] == s[6..8][i - 6]; }
        else if i < 11 { assert s[i] == s[9..11][i - 9]; }
        else if i < 13 { assert s[i] == s[11..13][i - 11]; }
        else { assert s[i] == s[13..15][i - 13]; }
      }
    }
    ValPad(t.year, 4);
    ValPad(t.month, 2);
    ValPad(t.day, 2);
    ValPad(t.hour, 2);
    ValPad(t.minute, 2);
    ValPad(t.second, 2);
  }

  /** Writing back a read timestamp gives the original text:
      `format(parse(s)) == s`. */
  lemma FormatParse(s: string)
    requires IsValid(s)
    ensures Format(Parse(s).value) == s
  {
    assert AllDigits(s[0..4]) && AllDigits(s[4..6]) && AllDigits(s[6..8]);
    assert AllDigits(s[9..11]) && AllDigits(s[11..13]) && AllDigits(s[13..15]);
    assert s[13..] == s[13..15] + "Z";
    assert s[11..] == s[11..13] + s[13..];
    assert s[9..] == s[9..11] + s[11..];
    assert s[8..] == "T" + s[9..];
    assert s[6..] == s[6..8] + s[8..];
    assert s[4..] == s[4..6] + s[6..];
    assert s == s[0..4] + s[4..];
  }

  /** A string is a valid timestamp exactly when it is the written form of
      some valid instant. */
  lemma IsValidIffFormatted(s: string)
    ensures IsValid(s) <==> exists t :: Valid(t) && Format(t) == s
  {
    if IsValid(s) {
      FormatParse(s);
    }
    if exists t :: Valid(t) && Format(t) == s {
      var t :| Valid(t) && Format(t) == s;
      ParseFormat(t);
    }
  }

  /** For canonical strings chronological order is string order. */
  lemma {:induction false} BeforeIsStringOrder(t1: DateTime, t2: DateTime)
    requires Valid(t1) && Valid(t2)
    ensures Before(t1, t2) <==> LexLess(Format(t1), Format(t2))
  {
    var z := "Z";
    var s1, s2 := Pad(t1.second, 2), Pad(t2.second, 2);
    var i1, i2 := Pad(t1.minute, 2), Pad(t2.minute, 2);
    var h1, h2 := Pad(t1.hour, 2), Pad(t2.hour, 2);
    var d1, d2 := Pad(t1.day, 2), Pad(t2.day, 2);
    var m1, m2 := Pad(t1.month, 2), Pad(t2.month, 2);
    var y1, y2 := Pad(t1.year, 4), Pad(t2.year, 4);
    // peel the fields off from the left, one at a time
    LexLessAppend(s1, z, s2, z);
    LexLessIrreflexive(z);
    LexLessAppend(i1, s1 + z, i2, s2 + z);
    LexLessAppend(h1, i1 + (s1 + z), h2, i2 + (s2 + z));
    var r1, r2 := h1 + (i1 + (s1 + z)), h2 + (i2 + (s2 + z));
    LexLessAppend("T", r1, "T", r2);
    LexLessIrreflexive("T");
    LexLessAppend(d1, "T" + r1, d2, "T" + r2);
    LexLessAppend(m1, d1 + ("T" + r1), m2, d2 + ("T" + r2));
    LexLessAppend(y1, m1 + (d1 + ("T" + r1)), y2, m2 + (d2 + ("T" + r2)));
    PadOrder(t1.second, t2.second, 2);
    PadOrder(t1.minute, t2.minute, 2);
    PadOrder(t1.hour, t2.hour, 2);
    PadOrder(t1.day, t2.day, 2);
    PadOrder(t1.month, t2.month, 2);
    PadOrder(t1.year, t2.year, 4);
    PadInjective(t1.second, t2.second, 2);
    PadInjective(t1.minute, t2.minute, 2);
    PadInjective(t1.hour, t2.hour, 2);
    PadInjective(t1.day, t2.day, 2);
    PadInjective(t1.month, t2.month, 2);
    PadInjective(t1.year, t2.year, 4);
  }

  /** The same fact read from the strings' side: two valid timestamp names
      compare as strings exactly as their instants compare in time. */
  lemma StringOrderIsChronological(s1: string, s2: string)
    requires IsValid(s1) && IsValid(s2)
    ensures Before(Parse(s1).value, Parse(s2).value) <==> LexLess(s1, s2)
  {
    FormatParse(s1);
    FormatParse(s2);
    BeforeIsStringOrder(Parse(s1).value, Parse(s2).value);
  }
}

/** Durations such as 1h30M in the configuration (date.c:584-642). */
module Duration {
  import opened HttpDate

  datatype Scan = Scan(value: int, rest: string) | NoNumber

  datatype Leading = Leading(value: nat, rest: string)

  /** The value of the leading digits, after those already read. */
  function Digits(s: string, value: nat): (r: Leading)
    ensures |r.rest| <= |s|
    decreases |s|
  {
    if s != "" && IsDigit(s[0]) then Digits(s[1..], value * 10 + D(s[0])) else Leading(value, s)
  }

  /** strtol in base 10, on an unbounded long. */
  function Strtol(s: string): (r: Scan)
    ensures r.Scan? ==> |r.rest| < |s|
  {
    var t := SkipSpaces(s);
    var u := if t != "" && (t[0] == '-' || t[0] == '+') then t[1..] else t;
    if u == "" || !IsDigit(u[0]) then NoNumber
    else
      var d := Digits(u[1..], D(u[0]));
      Scan(if t[0] == '-' then -(d.value as int) else d.value, d.rest)
  }

  /** Seconds of a unit; 0 for no unit. A month has 30 days, a year 365. */
  function Unit(c: char): nat {
    if c == 's' then 1 else if c == 'M' then 60 else if c == 'h' then 3600 else if c == 'd' then 86400
    else if c == 'm' then 2592000 else if c == 'y' then 31536000 else 0
  }

  /** The rest of a duration, after t seconds; units tells whether a number with a unit came before. */
  function Seconds(s: string, t: int, units: bool): int
    decreases |s|
  {
    match Strtol(s)
    case NoNumber => -1
    case Scan(i, rest) =>
      var r := SkipSpaces(rest);
      if r == "" then (if units then -1 else i)
      else if Unit(r[0]) == 0 then -1
      else if r[1..] == "" then t + i * Unit(r[0])
      else Seconds(r[1..], t + i * Unit(r[0]), true)
  }

  /** The digits of strtol. */
  method ReadNumber(s: string, i: nat) returns (ok: bool, value: int, end: nat)
    requires i <= |s|
    ensures ok == Strtol(s[i..]).Scan?
    ensures ok ==> i < end <= |s| && Strtol(s[i..]) == Scan(value, s[end..])
  {
    hide Digits;
    var skipped := FirstNonSpace(s[i..]);
    end := i + skipped;
    assert s[i..][skipped..] == s[end..];
    ghost var t := s[end..];
    var negative := end < |s| && s[end] == '-';
    if end < |s| && (s[end] == '-' || s[end] == '+') {
      assert t[1..] == s[end + 1..];
      end := end + 1;
    }
    ghost var u := s[end..];
    if end == |s| || !IsDigit(s[end]) { return false, 0, i; }
    assert u[1..] == s[end + 1..];
    value := D(s[end]);
    end := end + 1;
    value, end := ReadDigits(s, end, value);
    if negative { value := -value; }
    ok := true;
  }

  method ReadDigits(s: string, i: nat, start: nat) returns (value: nat, end: nat)
    requires i <= |s|
    ensures i <= end <= |s| && Digits(s[i..], start) == Leading(value, s[end..])
  {
    value, end := start, i;
    while end < |s| && IsDigit(s[end])
      invariant i <= end <= |s| && Digits(s[end..], value) == Digits(s[i..], start)
    {
      assert s[end..][1..] == s[end + 1..];
      value := value * 10 + D(s[end]);
      end := end + 1;
    }
  }

  /** Udm_dp2time_t. */
  method DurationToSeconds(s: string) returns (t: int)
    ensures t == Seconds(s, 0, false)
  {
    hide Strtol;
    t := 0;
    var ts: nat, flag := 0, 0;
    assert s[0..] == s;
    while true
      invariant ts <= |s| && flag in {0, 1} && Seconds(s[ts..], t, flag == 1) == Seconds(s, 0, false)
      decreases |s| - ts
    {
      var ok, i, e := ReadNumber(s, ts);
      if !ok { return -1; }
      var skipped := FirstNonSpace(s[e..]);
      assert s[e..][skipped..] == s[e + skipped..];
      e := e + skipped;
      if e == |s| { return if flag == 1 then -1 else i; }
      var unit := Unit(s[e]);
      if unit == 0 { return -1; }
      t := t + i * unit;
      flag := 1;
      assert s[e..][1..] == s[e + 1..];
      ts := e + 1;
      if ts == |s| { return t; }
    }
  }

  // ---------- What is read is what was written ----------

  /** A number in decimal. */
  function Decimal(n: nat): (s: string)
    ensures s != "" && forall i :: 0 <= i < |s| ==> IsDigit(s[i])
  {
    if n < 10 then [Digit(n)] else Decimal(n / 10) + [Digit(n % 10)]
  }

  datatype Part = Part(n: nat, unit: char)

  predicate GoodPart(p: Part) { Unit(p.unit) != 0 }

  function Write(ps: seq<Part>): string {
    if ps == [] then "" else Decimal(ps[0].n) + [ps[0].unit] + Write(ps[1..])
  }

  function Total(ps: seq<Part>): nat { if ps == [] then 0 else ps[0].n * Unit(ps[0].unit) + Total(ps[1..]) }

  lemma {:induction false} DigitsConcat(a: string, b: string, value: nat)
    requires forall i :: 0 <= i < |a| ==> IsDigit(a[i])
    ensures Digits(a + b, value) == Digits(b, Digits(a, value).value)
    ensures Digits(a, value).rest == ""
  {
    if a == "" {
      assert a + b == b;
    } else {
      assert (a + b)[1..] == a[1..] + b;
      DigitsConcat(a[1..], b, value * 10 + D(a[0]));
    }
  }

  /** Reading a written number. */
  lemma {:induction false} DigitsOfDecimal(n: nat)
    ensures Digits(Decimal(n), 0) == Leading(n, "")
  {
    var s := Decimal(n);
    if n < 10 {
      assert s[1..] == "";
    } else {
      DigitsOfDecimal(n / 10);
      DigitsConcat(Decimal(n / 10), [Digit(n % 10)], 0);
      assert [Digit(n % 10)][1..] == "";
    }
  }

  lemma StrtolOfDecimal(n: nat, rest: string)
    requires rest == "" || !IsDigit(rest[0])
    ensures Strtol(Decimal(n) + rest) == Scan(n, rest)
  {
    hide Decimal;
    var d := Decimal(n);
    var s := d + rest;
    assert s[0] == d[0] && SkipSpaces(s) == s;
    DigitsOfDecimal(n);
    DigitsConcat(d, rest, 0);
    assert Digits(s, 0) == Digits(s[1..], D(s[0]));
  }

  /** A written duration is read as its total. */
  lemma {:induction false} SecondsOfWritten(ps: seq<Part>, t: int, units: bool)
    requires ps != [] && forall i :: 0 <= i < |ps| ==> GoodPart(ps[i])
    ensures Seconds(Write(ps), t, units) == t + Total(ps)
  {
    hide Strtol, Decimal;
    var p, rest := ps[0], ps[1..];
    var tail := [p.unit] + Write(rest);
    assert Write(ps) == Decimal(p.n) + tail && tail[0] == p.unit && tail[1..] == Write(rest);
    StrtolOfDecimal(p.n, tail);
    if rest == [] {
      assert Write(rest) == "";
    } else {
      SecondsOfWritten(rest, t + p.n * Unit(p.unit), true);
      assert Write(rest) != "" by { assert Decimal(rest[0].n) != ""; }
    }
  }

  /** One part, as the text n and a unit. */
  function Of(n: nat, unit: char): int { Seconds(Write([Part(n, unit)]), 0, false) }

  /**
   * The units: seconds, minutes of 60 of them, hours of 60 minutes, days of 24 hours, months of 30 and years of 365
   * days, and no others; a number alone is seconds.
   */
  lemma UnitsAre(n: nat, c: char)
    ensures Of(n, 's') == n == Seconds(Decimal(n), 0, false)
    ensures Of(n, 'M') == Of(60 * n, 's') && Of(n, 'h') == Of(60 * n, 'M') && Of(n, 'd') == Of(24 * n, 'h')
    ensures Of(n, 'm') == Of(30 * n, 'd') && Of(n, 'y') == Of(365 * n, 'd')
    ensures c !in "sMhdmy" && !IsDigit(c) && !IsSpaceChar(c) ==> Of(n, c) == -1
  {
    hide Write, Decimal, Seconds;
    OneUnit(n, 's');
    OneUnit(60 * n, 's');
    OneUnit(n, 'M');
    OneUnit(60 * n, 'M');
    OneUnit(n, 'h');
    OneUnit(24 * n, 'h');
    OneUnit(n, 'd');
    OneUnit(30 * n, 'd');
    OneUnit(365 * n, 'd');
    OneUnit(n, 'm');
    OneUnit(n, 'y');
    NumberAlone(n);
    if c !in "sMhdmy" && !IsDigit(c) && !IsSpaceChar(c) { NoUnit(n, c); }
  }

  lemma OneUnit(n: nat, unit: char)
    requires Unit(unit) != 0
    ensures Of(n, unit) == n * Unit(unit)
  {
    hide Write, Seconds;
    SecondsOfWritten([Part(n, unit)], 0, false);
    TotalOfOne(Part(n, unit));
  }

  lemma TotalOfOne(p: Part)
    ensures Total([p]) == p.n * Unit(p.unit)
  {
    assert [p][1..] == [];
  }

  lemma NumberAlone(n: nat)
    ensures Seconds(Decimal(n), 0, false) == n
  {
    hide Strtol, Decimal;
    StrtolOfDecimal(n, "");
    assert Decimal(n) + "" == Decimal(n);
  }

  lemma NoUnit(n: nat, c: char)
    requires c !in "sMhdmy" && !IsDigit(c) && !IsSpaceChar(c)
    ensures Of(n, c) == -1
  {
    hide Strtol, Decimal;
    assert [Part(n, c)][1..] == [];
    assert Write([Part(n, c)]) == Decimal(n) + [c];
    assert 's' in "sMhdmy" && 'M' in "sMhdmy" && 'h' in "sMhdmy" && 'd' in "sMhdmy" && 'm' in "sMhdmy"
        && 'y' in "sMhdmy";
    StrtolOfDecimal(n, [c]);
  }

  /** Spaces and a sign may stand before a number. */
  lemma SignedNumber(n: nat, rest: string)
    requires rest == "" || !IsDigit(rest[0])
    ensures Strtol("-" + (Decimal(n) + rest)) == Scan(-(n as int), rest)
    ensures Strtol("+" + (Decimal(n) + rest)) == Scan(n, rest) == Strtol(" " + (Decimal(n) + rest))
  {
    hide Decimal;
    var s := Decimal(n) + rest;
    StrtolOfDecimal(n, rest);
    assert s[0] == Decimal(n)[0];
    BehindSign('-', s);
    BehindSign('+', s);
    assert (" " + s)[1..] == s && SkipSpaces(" " + s) == SkipSpaces(s);
  }

  lemma BehindSign(sign: char, s: string)
    requires sign in {'-', '+'} && s != "" && IsDigit(s[0])
    ensures Strtol([sign] + s) == match Strtol(s)
                                  case Scan(v, rest) => Scan(if sign == '-' then -v else v, rest)
                                  case NoNumber => NoNumber
  {
    hide Digits;
    var t := [sign] + s;
    assert t[1..] == s && SkipSpaces(t) == t && SkipSpaces(s) == s;
  }

  /** After a number with a unit a number without one is an error. */
  lemma {:induction false} MixedIsRefused(ps: seq<Part>, n: nat, t: int, units: bool)
    requires (ps != [] || units) && forall i :: 0 <= i < |ps| ==> GoodPart(ps[i])
    ensures Seconds(Write(ps) + Decimal(n), t, units) == -1
  {
    hide Strtol, Decimal;
    if ps == [] {
      StrtolOfDecimal(n, "");
      assert Write(ps) + Decimal(n) == Decimal(n) && Decimal(n) + "" == Decimal(n);
    } else {
      var p, rest := ps[0], ps[1..];
      var after := Write(rest) + Decimal(n);
      var tail := [p.unit] + after;
      assert Write(ps) + Decimal(n) == Decimal(p.n) + tail && tail[0] == p.unit && tail[1..] == after && after != "";
      StrtolOfDecimal(p.n, tail);
      MixedIsRefused(rest, n, t + p.n * Unit(p.unit), true);
    }
  }
}

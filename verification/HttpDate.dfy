/** Dates in HTTP headers and documents (date.c:182-223, 277-340, 387-555); RFC 9110 section 5.6.7. */
module HttpDate {
  import opened Calendar

  // ---------- Masks ----------

  predicate IsDigit(c: char) { '0' <= c <= '9' }

  predicate IsSpaceChar(c: char) { c == ' ' || 9 as char <= c <= 13 as char }

  /** One mask character other than a star. */
  predicate Fits(m: char, c: char) {
    if m == '@' then 'A' <= c <= 'Z'
    else if m == '$' then 'a' <= c <= 'z'
    else if m == '#' then IsDigit(c)
    else if m == '&' then IsDigit(c) || 'A' <= c <= 'F' || 'a' <= c <= 'f'
    else if m == '~' then c == ' ' || IsDigit(c)
    else c == m
  }

  predicate AllFit(mask: string, s: string) { |mask| == |s| && forall i :: 0 <= i < |s| ==> Fits(mask[i], s[i]) }

  /** A text fits a mask; a star at the end of the mask swallows the rest of the text. */
  predicate Matches(s: string, mask: string) {
    if mask != "" && mask[|mask| - 1] == '*' then |mask| - 1 <= |s| && AllFit(mask[..|mask| - 1], s[..|mask| - 1])
    else AllFit(mask, s)
  }

  /** ap_checkmask on a string that ends in a NUL character. */
  method CheckMask(s: string, mask: string) returns (fits: bool)
    requires |mask| < 256 && 0 as char !in s && 0 as char !in mask && forall i :: 0 <= i < |mask| - 1 ==> mask[i] != '*'
    ensures fits == Matches(s, mask)
  {
    var i := 0;
    while i < 256
      invariant i <= |mask| && i <= |s| && forall k :: 0 <= k < i ==> mask[k] != '*' && Fits(mask[k], s[k])
    {
      var d := if i < |s| then s[i] else 0 as char;
      if i == |mask| { return d == 0 as char; }
      if mask[i] == '*' { return true; }
      if !Fits(mask[i], d) { return false; }
      i := i + 1;
    }
    assert false;
  }

  lemma FitConcat(m: string, n: string, a: string, b: string)
    requires AllFit(m, a) && AllFit(n, b)
    ensures AllFit(m + n, a + b)
  {
  }

  lemma StarFits(m: string, a: string, rest: string)
    requires AllFit(m, a)
    ensures Matches(a + rest, m + "*")
  {
    assert (m + "*")[..|m|] == m && (a + rest)[..|a|] == a;
  }

  // ---------- Reading fields ----------

  function D(c: char): int { c as int - 48 }

  function Num2(s: string, i: nat): int
    requires i + 2 <= |s|
  {
    D(s[i]) * 10 + D(s[i + 1])
  }

  /** Years since 1900, from four digits. */
  function Year4(s: string, i: nat): int
    requires i + 4 <= |s|
  {
    (Num2(s, i) - 19) * 100 + Num2(s, i + 2)
  }

  const MONTHS: seq<string> := ["Jan", "Feb", "Mar", "Apr", "May", "Jun", "Jul", "Aug", "Sep", "Oct", "Nov", "Dec"]

  function MonthFrom(name: string, mon: nat): (m: nat)
    requires mon <= 12
    ensures mon <= m <= 12
    decreases 12 - mon
  {
    if mon == 12 || MONTHS[mon] == name then mon else MonthFrom(name, mon + 1)
  }

  /** scan_month_name: 12 for no month. */
  method ScanMonthName(s: string, i: nat) returns (mon: nat)
    requires i + 3 <= |s|
    ensures mon == MonthFrom(s[i..i + 3], 0)
  {
    mon := 0;
    while mon < 12
      invariant mon <= 12 && MonthFrom(s[i..i + 3], mon) == MonthFrom(s[i..i + 3], 0)
    {
      if s[i..i + 3] == MONTHS[mon] { break; }
      mon := mon + 1;
    }
  }

  /** scan_time_zone: seconds east of Greenwich, 0 for a text that is no offset. */
  function Zone(s: string): int {
    if Matches(s, "+####") || Matches(s, "-####") then
        (Num2(s, 1) * 60 + Num2(s, 3)) * 60 * (if s[0] == '-' then -1 else 1)
    else 0
  }

  // ---------- What a date text means ----------

  function Minus(t: Time, zone: int): Time { if t.Time? then Time(t.seconds - zone) else t }

  /** The checks at check_valid_time and check_valid_date, and the conversion. */
  function Checked(t: Tm, zone: int, wide: bool): Time {
    if !TimeIsAccepted(t) || !DateIsAccepted(t) then Time(BAD_DATE) else Minus(TmToSec(t, wide), zone)
  }

  const RFC1123 := "## " + "@$$ " + "#### " + "##:##:## "
  const SHORT_DAY := "# " + "@$$ " + "#### " + "##:##:## "
  const RFC850 := "##-" + "@$$-" + "## " + "##:##:## "
  const ASCTIME := "@$$ " + "~# " + "##:##:## " + "####"

  /** The fields behind the weekday, in one of four forms. */
  function HttpForm(s: string, wide: bool): Time {
    if Matches(s, RFC1123 + "*") then
      Checked(Tm(Year4(s, 7), MonthFrom(s[3..6], 0), Num2(s, 0), Num2(s, 12), Num2(s, 15), Num2(s, 18)), Zone(s[21..]),
        wide)
    else if Matches(s, SHORT_DAY + "*") then
      Checked(Tm(Year4(s, 6), MonthFrom(s[2..5], 0), D(s[0]), Num2(s, 11), Num2(s, 14), Num2(s, 17)), Zone(s[20..]),
        wide)
    else if Matches(s, RFC850 + "*") then
      Checked(Tm(Num2(s, 7) + (if Num2(s, 7) < 70 then 100 else 0), MonthFrom(s[3..6], 0), Num2(s, 0),
                 Num2(s, 10), Num2(s, 13), Num2(s, 16)), Zone(s[19..]), wide)
    else if Matches(s, ASCTIME + "*") then
      Checked(Tm(Year4(s, 16), MonthFrom(s[0..3], 0), (if s[4] == ' ' then 0 else D(s[4]) * 10) + D(s[5]),
                 Num2(s, 7), Num2(s, 10), Num2(s, 13)), 0, wide)
    else Time(BAD_DATE)
  }

  function SkipSpaces(s: string): (r: string)
    ensures r != "" ==> !IsSpaceChar(r[0])
    ensures |r| <= |s|
  {
    if s != "" && IsSpaceChar(s[0]) then SkipSpaces(s[1..]) else s
  }

  datatype Tail = NoSpace | After(rest: string)

  /** strchr(s, ' ') + 1. */
  function AfterSpace(s: string): (t: Tail) {
    if s == "" then NoSpace else if s[0] == ' ' then After(s[1..]) else AfterSpace(s[1..])
  }

  predicate IsW3c(s: string) {
    Matches(s, "####-##-##T##:##:##Z") || Matches(s, "####-##-##T##:##:##.##Z") ||
    Matches(s, "####-##-##T##:##:##+##:##") || Matches(s, "####-##-##T##:##:##-##:##")
  }

  /** atoi of digits. */
  function Number(s: string): int { if s == "" then 0 else Number(s[..|s| - 1]) * 10 + D(s[|s| - 1]) }

  datatype Plain = Found(time: Time) | NotFound

  /** The forms that start without a weekday; a timestamp beyond the range of int is not defined. */
  function PlainForm(s: string, wide: bool): Plain {
    if Matches(s, "####-##-##") then Found(Checked(Tm(Year4(s, 0), Num2(s, 5) - 1, Num2(s, 8), 0, 0, 0), 0, wide))
    else if Matches(s, "##.##.####") then Found(Checked(Tm(Year4(s, 6), Num2(s, 3) - 1, Num2(s, 0), 0, 0, 0), 0, wide))
    else if IsW3c(s) then
      Found(Checked(Tm(Year4(s, 0), Num2(s, 5) - 1, Num2(s, 8), Num2(s, 11), Num2(s, 14), Num2(s, 17)), 0, wide))
    else if Matches(s, "##########") || Matches(s, "#########") then
      Found(if Number(s) < 0x8000_0000 then Time(Number(s)) else OutOfBounds)
    else NotFound
  }

  /** UdmHttpDate2Time_t. */
  function Value(date: string, wide: bool): Time {
    var s := SkipSpaces(date);
    if s == "" then Time(BAD_DATE)
    else
      match PlainForm(s, wide)
      case Found(time) => time
      case NotFound =>
        match AfterSpace(s)
        case NoSpace => Time(BAD_DATE)
        case After(rest) => HttpForm(rest, wide)
  }

  // ---------- The parser ----------

  predicate CleanText(s: string) { 0 as char !in s }

  lemma MasksAreClean()
    ensures forall m :: m in [RFC1123, SHORT_DAY, RFC850, ASCTIME] ==>
              |m| < 255 && 0 as char !in m && '*' !in m
  {
  }

  /** One of the masks with a star. */
  method CheckStar(s: string, mask: string) returns (fits: bool)
    requires CleanText(s) && |mask| < 255 && 0 as char !in mask && '*' !in mask
    ensures fits == Matches(s, mask + "*")
  {
    fits := CheckMask(s, mask + "*");
  }

  /** scan_hh_mm_ss. */
  method ScanTime(ds: Tm, s: string, i: nat) returns (r: Tm)
    requires i + 8 <= |s|
    ensures r == ds.(hour := Num2(s, i), min := Num2(s, i + 3), sec := Num2(s, i + 6))
  {
    r := ds.(hour := Num2(s, i));
    r := r.(min := Num2(s, i + 3));
    r := r.(sec := Num2(s, i + 6));
  }

  /** scan_time_zone. */
  method ScanZone(s: string, i: nat) returns (zone: int)
    requires CleanText(s) && i <= |s|
    ensures zone == Zone(s[i..])
  {
    var plus := CheckMask(s[i..], "+####");
    var minus := CheckMask(s[i..], "-####");
    zone := 0;
    if plus || minus {
      zone := (Num2(s, i + 1) * 60 + Num2(s, i + 3)) * 60 * (if s[i] == '-' then -1 else 1);
    }
  }

  lemma StarLength(s: string, mask: string)
    requires Matches(s, mask + "*")
    ensures |s| >= |mask|
  {
  }

  /** The part of the parser behind the weekday. */
  method ParseHttpForm(s: string, wide: bool) returns (r: Time)
    requires CleanText(s)
    ensures r == HttpForm(s, wide)
  {
    hide Matches, Checked, Zone, MonthFrom;
    MasksAreClean();
    var ds, zone, mon := Tm(0, 0, 0, 0, 0, 0), 0, 0;
    var fits := CheckStar(s, RFC1123);
    if fits {
      StarLength(s, RFC1123);
      ds := ds.(year := Year4(s, 7));
      ds := ds.(mday := Num2(s, 0));
      mon := ScanMonthName(s, 3);
      ds := ScanTime(ds.(mon := mon), s, 12);
      zone := ScanZone(s, 21);
      return Checked(ds, zone, wide);
    }
    fits := CheckStar(s, SHORT_DAY);
    if fits {
      StarLength(s, SHORT_DAY);
      ds := ds.(year := Year4(s, 6));
      ds := ds.(mday := D(s[0]));
      mon := ScanMonthName(s, 2);
      ds := ScanTime(ds.(mon := mon), s, 11);
      zone := ScanZone(s, 20);
      return Checked(ds, zone, wide);
    }
    fits := CheckStar(s, RFC850);
    if fits {
      StarLength(s, RFC850);
      ds := ds.(year := Num2(s, 7));
      if ds.year < 70 { ds := ds.(year := ds.year + 100); }
      ds := ds.(mday := Num2(s, 0));
      mon := ScanMonthName(s, 3);
      ds := ScanTime(ds.(mon := mon), s, 10);
      zone := ScanZone(s, 19);
      return Checked(ds, zone, wide);
    }
    fits := CheckStar(s, ASCTIME);
    if fits {
      StarLength(s, ASCTIME);
      ds := ds.(year := Year4(s, 16));
      ds := ds.(mday := if s[4] == ' ' then 0 else D(s[4]) * 10);
      ds := ds.(mday := ds.mday + D(s[5]));
      mon := ScanMonthName(s, 0);
      ds := ScanTime(ds.(mon := mon), s, 7);
      return Checked(ds, zone, wide);
    }
    return Time(BAD_DATE);
  }

  method CheckW3c(s: string) returns (fits: bool)
    requires CleanText(s)
    ensures fits == IsW3c(s)
  {
    hide Matches;
    fits := CheckMask(s, "####-##-##T##:##:##Z");
    if !fits { fits := CheckMask(s, "####-##-##T##:##:##.##Z"); }
    if !fits { fits := CheckMask(s, "####-##-##T##:##:##+##:##"); }
    if !fits { fits := CheckMask(s, "####-##-##T##:##:##-##:##"); }
  }

  lemma W3cLength(s: string)
    requires IsW3c(s)
    ensures |s| >= 20
  {
  }

  lemma DateLength(s: string)
    ensures Matches(s, "####-##-##") || Matches(s, "##.##.####") ==> |s| == 10
  {
  }

  /** atoi. */
  method Atoi(s: string) returns (n: int)
    ensures n == Number(s)
  {
    n := 0;
    assert s[..0] == "";
    for i := 0 to |s|
      invariant n == Number(s[..i])
    {
      assert s[..i + 1][..i] == s[..i];
      n := n * 10 + D(s[i]);
    }
    assert s[..|s|] == s;
  }

  method ParsePlain(s: string, wide: bool) returns (r: Plain)
    requires CleanText(s)
    ensures r == PlainForm(s, wide)
  {
    hide Matches, Checked, Number, IsW3c;
    DateLength(s);
    var fits := CheckMask(s, "####-##-##");
    if fits { return Found(Checked(Tm(Year4(s, 0), Num2(s, 5) - 1, Num2(s, 8), 0, 0, 0), 0, wide)); }
    fits := CheckMask(s, "##.##.####");
    if fits { return Found(Checked(Tm(Year4(s, 6), Num2(s, 3) - 1, Num2(s, 0), 0, 0, 0), 0, wide)); }
    fits := CheckW3c(s);
    if fits {
      W3cLength(s);
      var ds := ScanTime(Tm(Year4(s, 0), Num2(s, 5) - 1, Num2(s, 8), 0, 0, 0), s, 11);
      return Found(Checked(ds, 0, wide));
    }
    fits := CheckMask(s, "##########");
    if !fits { fits := CheckMask(s, "#########"); }
    if fits {
      var n := Atoi(s);
      return Found(if n < 0x8000_0000 then Time(n) else OutOfBounds);
    }
    return NotFound;
  }

  method FirstNonSpace(date: string) returns (i: nat)
    ensures i <= |date| && SkipSpaces(date) == date[i..]
  {
    i := 0;
    assert date[0..] == date;
    while i < |date| && IsSpaceChar(date[i])
      invariant i <= |date| && SkipSpaces(date[i..]) == SkipSpaces(date)
    {
      assert date[i..][1..] == date[i + 1..];
      i := i + 1;
    }
  }

  /** strchr(s + i, ' ') + 1, or |s| + 1. */
  method BehindSpace(s: string, i: nat) returns (j: nat)
    requires i <= |s|
    ensures j <= |s| + 1 && AfterSpace(s[i..]) == if j <= |s| then After(s[j..]) else NoSpace
  {
    j := i;
    while j < |s| && s[j] != ' '
      invariant i <= j <= |s| && AfterSpace(s[j..]) == AfterSpace(s[i..])
    {
      assert s[j..][1..] == s[j + 1..];
      j := j + 1;
    }
    if j < |s| { assert s[j..][1..] == s[j + 1..]; }
    j := j + 1;
  }

  /** UdmHttpDate2Time_t. */
  method HttpDateToTime(date: string, wide: bool) returns (r: Time)
    requires CleanText(date)
    ensures r == Value(date, wide)
  {
    hide PlainForm, HttpForm, SkipSpaces, AfterSpace;
    var i := FirstNonSpace(date);
    if i == |date| { return Time(BAD_DATE); }
    var plain := ParsePlain(date[i..], wide);
    if plain.Found? { return plain.time; }
    var j := BehindSpace(date, i);
    if j > |date| { return Time(BAD_DATE); }
    r := ParseHttpForm(date[j..], wide);
  }

  // ---------- The three forms of RFC 9110 section 5.6.7 ----------

  function Digit(n: nat): (c: char)
    requires n < 10
    ensures IsDigit(c) && D(c) == n
  {
    (48 + n) as char
  }

  function Two(n: nat): (s: string)
    requires n < 100
    ensures |s| == 2 && IsDigit(s[0]) && IsDigit(s[1]) && Num2(s, 0) == n
  {
    [Digit(n / 10), Digit(n % 10)]
  }

  function Clock(h: nat, mi: nat, s: nat): (r: string)
    requires h < 100 && mi < 100 && s < 100
    ensures |r| == 8
  {
    Two(h) + ":" + Two(mi) + ":" + Two(s)
  }

  /** A day, with a space for a leading zero. */
  function SpacedDay(d: nat): (s: string)
    requires d < 100
    ensures |s| == 2
  {
    if d < 10 then [' ', Digit(d)] else Two(d)
  }

  predicate Fields(y: nat, m: nat, d: nat, h: nat, mi: nat, s: nat) {
    y < 10000 && m < 12 && d < 100 && h < 100 && mi < 100 && s < 100
  }

  function Rfc1123Text(y: nat, m: nat, d: nat, h: nat, mi: nat, s: nat, zone: string): string
    requires Fields(y, m, d, h, mi, s)
  {
    (Two(d) + " ") + (MONTHS[m] + " ") + (Two(y / 100) + Two(y % 100) + " ") + (Clock(h, mi, s) + " ") + zone
  }

  function Rfc850Text(y: nat, m: nat, d: nat, h: nat, mi: nat, s: nat, zone: string): string
    requires Fields(y, m, d, h, mi, s)
  {
    (Two(d) + "-") + (MONTHS[m] + "-") + (Two(y % 100) + " ") + (Clock(h, mi, s) + " ") + zone
  }

  function AsctimeText(y: nat, m: nat, d: nat, h: nat, mi: nat, s: nat, rest: string): string
    requires Fields(y, m, d, h, mi, s)
  {
    (MONTHS[m] + " ") + (SpacedDay(d) + " ") + (Clock(h, mi, s) + " ") + (Two(y / 100) + Two(y % 100)) + rest
  }

  lemma ClockFits(h: nat, mi: nat, s: nat)
    requires h < 100 && mi < 100 && s < 100
    ensures AllFit("##:##:## ", Clock(h, mi, s) + " ")
    ensures var c := Clock(h, mi, s); Num2(c, 0) == h && Num2(c, 3) == mi && Num2(c, 6) == s
  {
  }

  lemma MonthFits(m: nat)
    requires m < 12
    ensures |MONTHS[m]| == 3 && AllFit("@$$ ", MONTHS[m] + " ") && AllFit("@$$-", MONTHS[m] + "-")
        && MonthFrom(MONTHS[m], 0) == m
  {
    hide MonthFrom;
    MonthIsFound(m, 0);
    MonthIsName(m);
  }

  lemma MonthIsName(m: nat)
    requires m < 12
    ensures var n := MONTHS[m]; |n| == 3 && Fits('@', n[0]) && Fits('$', n[1]) && Fits('$', n[2])
  {
  }

  lemma {:induction false} MonthIsFound(m: nat, k: nat)
    requires k <= m < 12
    ensures MonthFrom(MONTHS[m], k) == m
    decreases m - k
  {
    if k < m {
      MonthsDiffer(k, m);
      MonthIsFound(m, k + 1);
    }
  }

  /** A number for a name, different for different months. */
  function NameCode(n: string): int
    requires |n| == 3
  {
    n[1] as int * 256 + n[2] as int + n[0] as int * 65536
  }

  lemma MonthsDiffer(k: nat, m: nat)
    requires k < m < 12
    ensures MONTHS[k] != MONTHS[m]
  {
    var codes := [4874606, 4613474, 5071218, 4288626, 5071225, 4879726, 4879724, 4289895, 5465456, 5202804, 5140342,
        4482403];
    assert forall i: nat :: i < 12 ==> |MONTHS[i]| == 3 && NameCode(MONTHS[i]) == codes[i];
    assert codes[k] != codes[m];
  }

  lemma DayFits(d: nat)
    requires d < 100
    ensures AllFit("## ", Two(d) + " ") && AllFit("##-", Two(d) + "-") && AllFit("~# ", SpacedDay(d) + " ")
  {
  }

  lemma YearFits(y: nat)
    requires y < 10000
    ensures AllFit("#### ", Two(y / 100) + Two(y % 100) + " ") && AllFit("####", Two(y / 100) + Two(y % 100))
    ensures Year4(Two(y / 100) + Two(y % 100), 0) == y - 1900
  {
  }

  /** A piece of a text stands where it stands. */
  lemma PieceAt(p: string, q: string, r: string)
    ensures var s := p + q + r; s[|p|..|p| + |q|] == q && forall k :: 0 <= k < |q| ==> s[|p| + k] == q[k]
  {
  }

  lemma Unfit(s: string, mask: string, i: nat)
    requires i < |mask| && i < |s| && !Fits(mask[i], s[i])
    ensures !Matches(s, mask + "*")
  {
    assert (mask + "*")[..|mask|] == mask;
  }

  lemma Rfc1123Form(y: nat, m: nat, d: nat, h: nat, mi: nat, s: nat, zone: string, wide: bool)
    requires Fields(y, m, d, h, mi, s)
    ensures HttpForm(Rfc1123Text(y, m, d, h, mi, s, zone), wide) ==
        Checked(Tm(y - 1900, m, d, h, mi, s), Zone(zone), wide)
  {
    hide AllFit, Matches, Checked, Zone, MonthFrom, Two, Clock;
    var a, b, c, e := Two(d) + " ", MONTHS[m] + " ", Two(y / 100) + Two(y % 100) + " ", Clock(h, mi, s) + " ";
    var text := a + b + c + e + zone;
    DayFits(d);
    MonthFits(m);
    YearFits(y);
    ClockFits(h, mi, s);
    FitConcat("## ", "@$$ ", a, b);
    FitConcat("## " + "@$$ ", "#### ", a + b, c);
    FitConcat("## " + "@$$ " + "#### ", "##:##:## ", a + b + c, e);
    StarFits(RFC1123, a + b + c + e, zone);
    assert text[0] == Two(d)[0] && text[1] == Two(d)[1];
    assert text[3..6] == MONTHS[m];
    var year := Two(y / 100) + Two(y % 100);
    assert text[7] == year[0] && text[8] == year[1] && text[9] == year[2] && text[10] == year[3];
    ClockAt(text, a + b + c, Clock(h, mi, s), " " + zone);
    assert text == a + b + c + Clock(h, mi, s) + (" " + zone);
    assert text[21..] == zone;
  }

  lemma ClockAt(text: string, p: string, c: string, r: string)
    requires |c| == 8 && text == p + c + r
    ensures var i := |p|;
            Num2(text, i) == Num2(c, 0) && Num2(text, i + 3) == Num2(c, 3) && Num2(text, i + 6) == Num2(c, 6)
  {
    PieceAt(p, c, r);
  }

  lemma Rfc850Form(y: nat, m: nat, d: nat, h: nat, mi: nat, s: nat, zone: string, wide: bool)
    requires Fields(y, m, d, h, mi, s) && 1970 <= y < 2070
    ensures HttpForm(Rfc850Text(y, m, d, h, mi, s, zone), wide) ==
        Checked(Tm(y - 1900, m, d, h, mi, s), Zone(zone), wide)
  {
    hide AllFit, Matches, Checked, Zone, MonthFrom, Two, Clock;
    var a, b, c, e := Two(d) + "-", MONTHS[m] + "-", Two(y % 100) + " ", Clock(h, mi, s) + " ";
    var text := a + b + c + e + zone;
    DayFits(d);
    DayFits(y % 100);
    MonthFits(m);
    ClockFits(h, mi, s);
    assert text[0] == Two(d)[0] && text[1] == Two(d)[1] && text[2] == '-';
    Unfit(text, RFC1123, 2);
    Unfit(text, SHORT_DAY, 1);
    FitConcat("##-", "@$$-", a, b);
    FitConcat("##-" + "@$$-", "## ", a + b, c);
    FitConcat("##-" + "@$$-" + "## ", "##:##:## ", a + b + c, e);
    StarFits(RFC850, a + b + c + e, zone);
    assert text[3..6] == MONTHS[m];
    assert text[7] == Two(y % 100)[0] && text[8] == Two(y % 100)[1];
    TwoDigitYear(y);
    assert text == a + b + c + Clock(h, mi, s) + (" " + zone);
    ClockAt(text, a + b + c, Clock(h, mi, s), " " + zone);
    assert text[19..] == zone;
  }

  /** Two digits stand for the years from 1970 to 2069. */
  lemma TwoDigitYear(y: nat)
    requires 1970 <= y < 2070
    ensures y % 100 + (if y % 100 < 70 then 100 else 0) == y - 1900
  {
  }

  lemma AsctimeForm(y: nat, m: nat, d: nat, h: nat, mi: nat, s: nat, rest: string, wide: bool)
    requires Fields(y, m, d, h, mi, s)
    ensures HttpForm(AsctimeText(y, m, d, h, mi, s, rest), wide) == Checked(Tm(y - 1900, m, d, h, mi, s), 0, wide)
  {
    hide AllFit, Matches, Checked, Zone, MonthFrom, Two, Clock, SpacedDay;
    var a, b, c, e := MONTHS[m] + " ", SpacedDay(d) + " ", Clock(h, mi, s) + " ", Two(y / 100) + Two(y % 100);
    var text := a + b + c + e + rest;
    DayFits(d);
    MonthFits(m);
    MonthIsName(m);
    YearFits(y);
    ClockFits(h, mi, s);
    assert text[0] == MONTHS[m][0];
    Unfit(text, RFC1123, 0);
    Unfit(text, SHORT_DAY, 0);
    Unfit(text, RFC850, 0);
    FitConcat("@$$ ", "~# ", a, b);
    FitConcat("@$$ " + "~# ", "##:##:## ", a + b, c);
    FitConcat("@$$ " + "~# " + "##:##:## ", "####", a + b + c, e);
    StarFits(ASCTIME, a + b + c + e, rest);
    assert text[0..3] == MONTHS[m];
    assert text[4] == SpacedDay(d)[0] && text[5] == SpacedDay(d)[1];
    SpacedDayValue(d);
    assert text == a + b + Clock(h, mi, s) + (" " + e + rest);
    ClockAt(text, a + b, Clock(h, mi, s), " " + e + rest);
    assert text[16] == e[0] && text[17] == e[1] && text[18] == e[2] && text[19] == e[3];
  }

  lemma SpacedDayValue(d: nat)
    requires d < 100
    ensures var s := SpacedDay(d); (if s[0] == ' ' then 0 else D(s[0]) * 10) + D(s[1]) == d
  {
  }

  // ---------- The whole date ----------

  /** What the parser skips: any word that does not start with a digit or a space. */
  predicate Weekday(w: string) { w != "" && ' ' !in w && !IsSpaceChar(w[0]) && !IsDigit(w[0]) }

  lemma NotPlain(s: string, wide: bool)
    requires s != "" && !IsDigit(s[0])
    ensures PlainForm(s, wide) == NotFound
  {
    hide Checked, Number;
  }

  lemma {:induction false} SpaceBehind(w: string, rest: string)
    requires ' ' !in w
    ensures AfterSpace(w + " " + rest) == After(rest)
  {
    if w == "" {
      assert (w + " " + rest)[1..] == rest;
    } else {
      assert (w + " " + rest)[1..] == w[1..] + " " + rest;
      SpaceBehind(w[1..], rest);
    }
  }

  lemma WithWeekday(w: string, text: string, wide: bool)
    requires Weekday(w)
    ensures Value(w + " " + text, wide) == HttpForm(text, wide)
  {
    hide PlainForm, HttpForm, AfterSpace;
    var date := w + " " + text;
    assert date[0] == w[0];
    NotPlain(date, wide);
    SpaceBehind(w, text);
  }

  lemma GmtIsZero()
    ensures Zone("GMT") == 0
  {
  }

  /** A clock time as HTTP allows it; leap seconds included. */
  predicate ClockTime(h: nat, mi: nat, s: nat) { h <= 23 && mi <= 59 && s <= 61 }

  lemma RealInstant(y: nat, m: nat, d: nat, h: nat, mi: nat, s: nat, zone: int)
    requires y >= 1970 && RealDate(y, m, d) && ClockTime(h, mi, s)
    ensures Checked(Tm(y - 1900, m, d, h, mi, s), zone, true) ==
              Time(86400 * DayNumber(y, m, d) + 3600 * h + 60 * mi + s - zone)
  {
    AcceptsRealDates(Tm(y - 1900, m, d, h, mi, s));
    SecondsAreCounted(y, m, d, h, mi, s);
  }

  /**
   * With a 64-bit time_t the three forms of one instant from 1970 to 2069 mean the same: the days counted from the
   * epoch, and the time of day. The weekday does not matter.
   */
  lemma ThreeFormsAgree(w: string, v: string, u: string, y: nat, m: nat, d: nat, h: nat, mi: nat, s: nat, rest: string)
    requires Weekday(w) && Weekday(v) && Weekday(u)
    requires 1970 <= y < 2070 && RealDate(y, m, d) && ClockTime(h, mi, s)
    ensures var t := Time(86400 * DayNumber(y, m, d) + 3600 * h + 60 * mi + s);
            && Value(w + " " + Rfc1123Text(y, m, d, h, mi, s, "GMT"), true) == t
            && Value(v + " " + Rfc850Text(y, m, d, h, mi, s, "GMT"), true) == t
            && Value(u + " " + AsctimeText(y, m, d, h, mi, s, rest), true) == t
  {
    hide Value, HttpForm, Rfc1123Text, Rfc850Text, AsctimeText, Checked, Zone;
    WithWeekday(w, Rfc1123Text(y, m, d, h, mi, s, "GMT"), true);
    WithWeekday(v, Rfc850Text(y, m, d, h, mi, s, "GMT"), true);
    WithWeekday(u, AsctimeText(y, m, d, h, mi, s, rest), true);
    Rfc1123Form(y, m, d, h, mi, s, "GMT", true);
    Rfc850Form(y, m, d, h, mi, s, "GMT", true);
    AsctimeForm(y, m, d, h, mi, s, rest, true);
    GmtIsZero();
    RealInstant(y, m, d, h, mi, s, 0);
  }

  /**
   * A date in the form yyyy-mm-dd with month number 1 or more: its first second if it is a real date, and no date if
   * not.
   */
  lemma IsoDateValue(y: nat, month: nat, d: nat, wide: bool)
    requires 1970 <= y < 10000 && 1 <= month < 100 && d < 100
    ensures var text := Two(y / 100) + Two(y % 100) + ("-" + Two(month) + ("-" + Two(d)));
            Value(text, wide) ==
              if RealDate(y, month - 1, d) then TmToSec(Tm(y - 1900, month - 1, d, 0, 0, 0), wide) else Time(BAD_DATE)
  {
    hide Two, HttpForm, AllFit, TmToSec;
    var year := Two(y / 100) + Two(y % 100);
    var text := year + ("-" + Two(month) + ("-" + Two(d)));
    YearFits(y);
    IsoFits(y, month, d);
    assert text[0] == year[0] && text[1] == year[1] && text[2] == year[2] && text[3] == year[3];
    assert text[5] == Two(month)[0] && text[6] == Two(month)[1] && text[8] == Two(d)[0] && text[9] == Two(d)[1];
    AcceptsRealDates(Tm(y - 1900, month - 1, d, 0, 0, 0));
  }

  /** The English names, in the order of the year. */
  lemma MonthNames()
    ensures MonthFrom("Jan", 0) == 0 && MonthFrom("Feb", 0) == 1 && MonthFrom("Mar", 0) == 2
    ensures MonthFrom("Apr", 0) == 3 && MonthFrom("May", 0) == 4 && MonthFrom("Jun", 0) == 5
    ensures MonthFrom("Jul", 0) == 6 && MonthFrom("Aug", 0) == 7 && MonthFrom("Sep", 0) == 8
    ensures MonthFrom("Oct", 0) == 9 && MonthFrom("Nov", 0) == 10 && MonthFrom("Dec", 0) == 11
  {
    hide MonthFrom;
    MonthFits(0);
    MonthFits(1);
    MonthFits(2);
    MonthFits(3);
    MonthFits(4);
    MonthFits(5);
    MonthFits(6);
    MonthFits(7);
    MonthFits(8);
    MonthFits(9);
    MonthFits(10);
    MonthFits(11);
  }

  lemma OffsetIs(zh: nat, zm: nat)
    requires zh < 100 && zm < 100
    ensures Zone("+" + (Two(zh) + Two(zm))) == 3600 * zh + 60 * zm
    ensures Zone("-" + (Two(zh) + Two(zm))) == -(3600 * zh + 60 * zm)
  {
    hide Two;
    YearFits(100 * zh + zm);
    var digits := Two(zh) + Two(zm);
    FitConcat("+", "####", "+", digits);
    FitConcat("-", "####", "-", digits);
    assert "+" + "####" == "+####" && "-" + "####" == "-####";
    forall sign: char ensures var t := [sign] + digits; Num2(t, 1) == zh && Num2(t, 3) == zm {
      var t := [sign] + digits;
      assert t[1] == Two(zh)[0] && t[2] == Two(zh)[1] && t[3] == Two(zm)[0] && t[4] == Two(zm)[1];
    }
  }

  /**
   * A clock that is zh hours and zm minutes ahead of Greenwich shows an instant as so much later; one behind it as so
   * much earlier. In both forms with a zone the offset is taken off again.
   */
  lemma OffsetIsTakenOff(w: string, v: string, y: nat, m: nat, d: nat, h: nat, mi: nat, s: nat, zh: nat, zm: nat)
    requires Weekday(w) && Weekday(v) && zh < 100 && zm < 100
    requires 1970 <= y < 2070 && RealDate(y, m, d) && ClockTime(h, mi, s)
    ensures var local, ahead := 86400 * DayNumber(y, m, d) + 3600 * h + 60 * mi + s, 3600 * zh + 60 * zm;
            var east, west := "+" + (Two(zh) + Two(zm)), "-" + (Two(zh) + Two(zm));
            && Value(w + " " + Rfc1123Text(y, m, d, h, mi, s, east), true) == Time(local - ahead)
            && Value(v + " " + Rfc850Text(y, m, d, h, mi, s, east), true) == Time(local - ahead)
            && Value(w + " " + Rfc1123Text(y, m, d, h, mi, s, west), true) == Time(local + ahead)
            && Value(v + " " + Rfc850Text(y, m, d, h, mi, s, west), true) == Time(local + ahead)
  {
    hide Value, HttpForm, Rfc1123Text, Rfc850Text, Zone, Two, Checked;
    OffsetIs(zh, zm);
    RealInstant(y, m, d, h, mi, s, 3600 * zh + 60 * zm);
    RealInstant(y, m, d, h, mi, s, -(3600 * zh + 60 * zm));
    InBothForms(w, v, y, m, d, h, mi, s, "+" + (Two(zh) + Two(zm)));
    InBothForms(w, v, y, m, d, h, mi, s, "-" + (Two(zh) + Two(zm)));
  }

  lemma InBothForms(w: string, v: string, y: nat, m: nat, d: nat, h: nat, mi: nat, s: nat, zone: string)
    requires Weekday(w) && Weekday(v) && Fields(y, m, d, h, mi, s) && 1970 <= y < 2070
    ensures Value(w + " " + Rfc1123Text(y, m, d, h, mi, s, zone), true) ==
              Checked(Tm(y - 1900, m, d, h, mi, s), Zone(zone), true)
    ensures Value(v + " " + Rfc850Text(y, m, d, h, mi, s, zone), true) ==
              Checked(Tm(y - 1900, m, d, h, mi, s), Zone(zone), true)
  {
    hide Value, HttpForm, Rfc1123Text, Rfc850Text, Checked, Zone;
    WithWeekday(w, Rfc1123Text(y, m, d, h, mi, s, zone), true);
    WithWeekday(v, Rfc850Text(y, m, d, h, mi, s, zone), true);
    Rfc1123Form(y, m, d, h, mi, s, zone, true);
    Rfc850Form(y, m, d, h, mi, s, zone, true);
  }

  // ---------- The other forms ----------

  function YearText(y: nat): (s: string)
    requires y < 10000
    ensures |s| == 4
  {
    Two(y / 100) + Two(y % 100)
  }

  /** With a day of one digit the form of RFC 1123 means the same. */
  lemma ShortDayForm(w: string, y: nat, m: nat, d: nat, h: nat, mi: nat, s: nat, zone: string, wide: bool)
    requires Weekday(w) && Fields(y, m, d, h, mi, s) && d < 10
    ensures Value(w + " "
        + ([Digit(d)] + " " + (MONTHS[m] + " ") + (YearText(y) + " ") + (Clock(h, mi, s) + " ") + zone),
                  wide) == Checked(Tm(y - 1900, m, d, h, mi, s), Zone(zone), wide)
  {
    hide AllFit, Matches, Checked, Zone, MonthFrom, Two, Clock, Value, HttpForm;
    var a, b, c, e := [Digit(d)] + " ", MONTHS[m] + " ", YearText(y) + " ", Clock(h, mi, s) + " ";
    var text := a + b + c + e + zone;
    OneDigitFits(d);
    MonthFits(m);
    YearFits(y);
    ClockFits(h, mi, s);
    FitConcat("# ", "@$$ ", a, b);
    FitConcat("# " + "@$$ ", "#### ", a + b, c);
    FitConcat("# " + "@$$ " + "#### ", "##:##:## ", a + b + c, e);
    StarFits(SHORT_DAY, a + b + c + e, zone);
    assert text[0] == Digit(d) && text[1] == ' ';
    Unfit(text, RFC1123, 1);
    assert text[2..5] == MONTHS[m];
    var year := YearText(y);
    assert text[6] == year[0] && text[7] == year[1] && text[8] == year[2] && text[9] == year[3];
    assert text == a + b + c + Clock(h, mi, s) + (" " + zone);
    ClockAt(text, a + b + c, Clock(h, mi, s), " " + zone);
    assert text[20..] == zone;
    ShortDayIs(text, y, m, d, h, mi, s, zone, wide);
    WithWeekday(w, text, wide);
  }

  lemma OneDigitFits(d: nat)
    requires d < 10
    ensures AllFit("# ", [Digit(d)] + " ") && D(Digit(d)) == d
  {
  }

  lemma ShortDayIs(text: string, y: nat, m: nat, d: nat, h: nat, mi: nat, s: nat, zone: string, wide: bool)
    requires Matches(text, SHORT_DAY + "*") && !Matches(text, RFC1123 + "*") && |text| >= 20 && text[20..] == zone
    requires y < 10000 && m < 12 && MonthFrom(text[2..5], 0) == m && Year4(text, 6) == y - 1900 && D(text[0]) == d
    requires Num2(text, 11) == h && Num2(text, 14) == mi && Num2(text, 17) == s
    ensures HttpForm(text, wide) == Checked(Tm(y - 1900, m, d, h, mi, s), Zone(zone), wide)
  {
    hide Matches, Checked, Zone, MonthFrom;
  }

  function DateText(y: nat, month: nat, d: nat): (s: string)
    requires y < 10000 && month < 100 && d < 100
    ensures |s| == 10
  {
    YearText(y) + ("-" + Two(month) + ("-" + Two(d)))
  }

  /** What stands behind the seconds of a date in the form of ISO 8601. */
  datatype IsoTail = Utc | Fraction(hundredths: nat) | Ahead(h: nat, m: nat) | Behind(h: nat, m: nat)

  predicate GoodTail(t: IsoTail) {
    match t
    case Utc => true
    case Fraction(f) => f < 100
    case Ahead(h, m) => h < 100 && m < 100
    case Behind(h, m) => h < 100 && m < 100
  }

  function TailText(t: IsoTail): string
    requires GoodTail(t)
  {
    match t
    case Utc => "Z"
    case Fraction(f) => "." + Two(f) + "Z"
    case Ahead(h, m) => "+" + Two(h) + ":" + Two(m)
    case Behind(h, m) => "-" + Two(h) + ":" + Two(m)
  }

  function TailMask(t: IsoTail): string {
    match t
    case Utc => "Z"
    case Fraction(f) => ".##Z"
    case Ahead(h, m) => "+##:##"
    case Behind(h, m) => "-##:##"
  }

  lemma TailFits(t: IsoTail)
    requires GoodTail(t)
    ensures AllFit(TailMask(t), TailText(t)) && |TailText(t)| >= 1
  {
  }

  lemma IsoMask(date: string, clock: string, t: IsoTail)
    requires AllFit("####-##-##", date) && AllFit("##:##:##", clock) && GoodTail(t)
    ensures var s := date + ("T" + (clock + TailText(t))); IsW3c(s) && |s| >= 20
  {
    hide AllFit, TailText;
    TailFits(t);
    var s := date + ("T" + (clock + TailText(t)));
    FitConcat("##:##:##", TailMask(t), clock, TailText(t));
    LetterT();
    FitConcat("T", "##:##:##" + TailMask(t), "T", clock + TailText(t));
    FitConcat("####-##-##", "T" + ("##:##:##" + TailMask(t)), date, "T" + (clock + TailText(t)));
    IsoMasks(t);
    FitLength("####-##-##" + ("T" + ("##:##:##" + TailMask(t))), s);
  }

  lemma IsoMasks(t: IsoTail)
    ensures var mask := "####-##-##" + ("T" + ("##:##:##" + TailMask(t)));
            mask == match t
                    case Utc => "####-##-##T##:##:##Z"
                    case Fraction(f) => "####-##-##T##:##:##.##Z"
                    case Ahead(h, m) => "####-##-##T##:##:##+##:##"
                    case Behind(h, m) => "####-##-##T##:##:##-##:##"
  {
  }

  lemma LetterT()
    ensures AllFit("T", "T")
  {
  }

  lemma FitLength(mask: string, s: string)
    requires AllFit(mask, s)
    ensures |mask| == |s| && (mask != "" && mask[|mask| - 1] != '*' ==> Matches(s, mask))
  {
  }

  lemma BareClockFits(h: nat, mi: nat, s: nat)
    requires h < 100 && mi < 100 && s < 100
    ensures AllFit("##:##:##", Clock(h, mi, s))
  {
  }

  lemma IsoFields(y: nat, month: nat, d: nat, clock: string, tail: string)
    requires y < 10000 && month < 100 && d < 100 && |clock| == 8
    ensures var s := DateText(y, month, d) + ("T" + (clock + tail));
            && Year4(s, 0) == y - 1900 && Num2(s, 5) == month && Num2(s, 8) == d && IsDigit(s[0])
            && Num2(s, 11) == Num2(clock, 0) && Num2(s, 14) == Num2(clock, 3) && Num2(s, 17) == Num2(clock, 6)
  {
    hide Two;
    YearFits(y);
    var date := DateText(y, month, d);
    var s := date + ("T" + (clock + tail));
    var year := YearText(y);
    assert s[0] == year[0] && s[1] == year[1] && s[2] == year[2] && s[3] == year[3];
    assert s[5] == Two(month)[0] && s[6] == Two(month)[1] && s[8] == Two(d)[0] && s[9] == Two(d)[1];
    assert s == (date + "T") + clock + tail;
    ClockAt(s, date + "T", clock, tail);
  }

  /**
   * A date and time in the form of ISO 8601 is taken as Greenwich time: the fraction of a second is dropped, and so is
   * the offset, which other forms take off.
   */
  lemma IsoOffsetIsIgnored(y: nat, month: nat, d: nat, h: nat, mi: nat, s: nat, t: IsoTail)
    requires 1970 <= y < 10000 && 1 <= month <= 12 && RealDate(y, month - 1, d) && ClockTime(h, mi, s) && GoodTail(t)
    ensures Value(DateText(y, month, d) + ("T" + (Clock(h, mi, s) + TailText(t))), true) ==
              Time(86400 * DayNumber(y, month - 1, d) + 3600 * h + 60 * mi + s)
  {
    hide AllFit, TailText, Clock, DateText, Checked, IsW3c, HttpForm;
    var text := DateText(y, month, d) + ("T" + (Clock(h, mi, s) + TailText(t)));
    IsoFits(y, month, d);
    DateIs(y, month, d);
    BareClockFits(h, mi, s);
    ClockFits(h, mi, s);
    IsoMask(DateText(y, month, d), Clock(h, mi, s), t);
    IsoFields(y, month, d, Clock(h, mi, s), TailText(t));
    StartsPlain(text);
    DateLength(text);
    RealInstant(y, month - 1, d, h, mi, s, 0);
  }

  lemma DateIs(y: nat, month: nat, d: nat)
    requires y < 10000 && month < 100 && d < 100
    ensures DateText(y, month, d) == Two(y / 100) + Two(y % 100) + ("-" + Two(month) + ("-" + Two(d)))
  {
  }

  lemma StartsPlain(s: string)
    requires s != "" && IsDigit(s[0])
    ensures SkipSpaces(s) == s
  {
  }

  /** A date in the form dd.mm.yyyy means the same as yyyy-mm-dd. */
  lemma DottedDateValue(y: nat, month: nat, d: nat, wide: bool)
    requires 1970 <= y < 10000 && 1 <= month < 100 && d < 100
    ensures Value(Two(d) + ("." + Two(month) + ("." + YearText(y))), wide) == Value(DateText(y, month, d), wide)
  {
    hide Two, HttpForm, AllFit, TmToSec, YearText;
    var s := Two(d) + ("." + Two(month) + ("." + YearText(y)));
    YearFits(y);
    YearIs(y);
    DotTwo(month);
    DotYear(y);
    TwoFits(d);
    FitConcat(".##", ".####", "." + Two(month), "." + YearText(y));
    FitConcat("##", ".##" + ".####", Two(d), "." + Two(month) + ("." + YearText(y)));
    assert "##" + (".##" + ".####") == "##.##.####";
    assert s[0] == Two(d)[0] && s[1] == Two(d)[1] && s[2] == '.' && s[3] == Two(month)[0] && s[4] == Two(month)[1];
    var year := YearText(y);
    assert s[6] == year[0] && s[7] == year[1] && s[8] == year[2] && s[9] == year[3];
    StartsPlain(s);
    NotIso(s);
    IsoDateValue(y, month, d, wide);
    DateIs(y, month, d);
    AcceptsRealDates(Tm(y - 1900, month - 1, d, 0, 0, 0));
  }

  lemma YearIs(y: nat)
    requires y < 10000
    ensures YearText(y) == Two(y / 100) + Two(y % 100)
  {
  }

  lemma NotIso(s: string)
    requires |s| == 10 && s[2] == '.'
    ensures !Matches(s, "####-##-##")
  {
    assert !Fits('#', s[2]);
  }

  lemma TwoFits(n: nat)
    requires n < 100
    ensures AllFit("##", Two(n))
  {
  }

  lemma DotTwo(n: nat)
    requires n < 100
    ensures AllFit(".##", "." + Two(n))
  {
  }

  lemma DotYear(y: nat)
    requires y < 10000
    ensures AllFit(".####", "." + YearText(y))
  {
  }

  lemma TwoMoreDigits(s: string, n: nat)
    requires n < 100
    ensures Number(s + Two(n)) == Number(s) * 100 + n && Number("") == 0
  {
    hide Number;
    var t := s + Two(n);
    NumberSnoc(s, Two(n)[0]);
    NumberSnoc(s + [Two(n)[0]], Two(n)[1]);
    assert t == s + [Two(n)[0]] + [Two(n)[1]];
  }

  lemma NumberSnoc(s: string, c: char)
    ensures Number(s + [c]) == Number(s) * 10 + D(c) && Number("") == 0
  {
    assert (s + [c])[..|s|] == s;
  }

  /** Ten digits alone are a timestamp in decimal. */
  lemma TimestampValue(a: nat, b: nat, c: nat, d: nat, e: nat, wide: bool)
    requires a < 100 && b < 100 && c < 100 && d < 100 && e < 100
    ensures var n := (((a * 100 + b) * 100 + c) * 100 + d) * 100 + e;
            Value(Two(a) + Two(b) + Two(c) + Two(d) + Two(e), wide) == if n < 0x8000_0000 then Time(n) else OutOfBounds
  {
    hide Two, Number, Matches, HttpForm, Checked;
    var s := Two(a) + Two(b) + Two(c) + Two(d) + Two(e);
    TwoMoreDigits("", a);
    assert "" + Two(a) == Two(a);
    TwoMoreDigits(Two(a), b);
    TwoMoreDigits(Two(a) + Two(b), c);
    TwoMoreDigits(Two(a) + Two(b) + Two(c), d);
    TwoMoreDigits(Two(a) + Two(b) + Two(c) + Two(d), e);
    assert s[0] == Two(a)[0];
    StartsPlain(s);
    TenDigits(s, a, b, c, d, e);
    MasksApart(s);
  }

  lemma TenDigits(s: string, a: nat, b: nat, c: nat, d: nat, e: nat)
    requires a < 100 && b < 100 && c < 100 && d < 100 && e < 100
    requires s == Two(a) + Two(b) + Two(c) + Two(d) + Two(e)
    ensures Matches(s, "##########")
  {
  }

  // ---------- When the parser reads outside ----------

  /** Four digits as a year. */
  function Year(s: string, i: nat): int
    requires i + 4 <= |s|
  {
    Num2(s, i) * 100 + Num2(s, i + 2)
  }

  predicate InRange(year: int, wide: bool) { 1970 <= year && (wide || year < 2038) }

  /** The month field that starts at i is "00", of a year in range and with a day from 1 to 31. */
  predicate MonthZero(s: string, year: nat, i: nat, day: nat, wide: bool)
    requires |s| >= 10 && year <= 6 && i <= 8 && day <= 8
  {
    s[i] == '0' && s[i + 1] == '0' && 1 <= Num2(s, day) <= 31 && InRange(Year(s, year), wide)
  }

  predicate ClockIsAccepted(s: string)
    requires |s| >= 19
  {
    Num2(s, 11) <= 23 && Num2(s, 14) <= 59 && Num2(s, 17) <= 61
  }

  /**
   * A date without a weekday whose month field is 00 although its other fields are accepted, or a timestamp of 2^31
   * seconds or more.
   */
  predicate ReadsOutside(s: string, wide: bool) {
    || (Matches(s, "####-##-##") && MonthZero(s, 0, 5, 8, wide))
    || (Matches(s, "##.##.####") && MonthZero(s, 6, 3, 0, wide))
    || (IsW3c(s) && ClockIsAccepted(s) && MonthZero(s, 0, 5, 8, wide))
    || ((Matches(s, "##########") || Matches(s, "#########")) && Number(s) >= 0x8000_0000)
  }

  /** Exactly these texts make the parser read the table of day offsets before its start, or have no number. */
  lemma OutOfBoundsIff(date: string, wide: bool)
    ensures Value(date, wide) == OutOfBounds <==> ReadsOutside(SkipSpaces(date), wide)
  {
    hide PlainForm, HttpForm, SkipSpaces, AfterSpace, ReadsOutside, Matches;
    var s := SkipSpaces(date);
    PlainOutsideIff(s, wide);
    match AfterSpace(s)
    case NoSpace =>
    case After(rest) => HttpFormIsInside(rest, wide);
  }

  lemma PlainOutsideIff(s: string, wide: bool)
    ensures PlainForm(s, wide) == Found(OutOfBounds) <==> ReadsOutside(s, wide)
    ensures s == "" ==> !ReadsOutside(s, wide)
  {
    hide Checked, Number, Matches, IsW3c, MonthZero, ClockIsAccepted;
    MasksApart(s);
    if Matches(s, "####-##-##") {
      MonthZeroIff(s, 0, 5, 8, 0, 0, 0, wide);
    } else if Matches(s, "##.##.####") {
      MonthZeroIff(s, 6, 3, 0, 0, 0, 0, wide);
    } else if IsW3c(s) {
      MonthZeroIff(s, 0, 5, 8, Num2(s, 11), Num2(s, 14), Num2(s, 17), wide);
      ClockIs(s);
    }
  }

  lemma ClockIs(s: string)
    requires |s| >= 19
    ensures ClockIsAccepted(s) <==> !(Num2(s, 11) > 23 || Num2(s, 14) > 59 || Num2(s, 17) > 61)
  {
  }

  /** At most one of the forms without a weekday fits, and it tells how long the text is and where its digits are. */
  lemma MasksApart(s: string)
    ensures Matches(s, "####-##-##") ==> |s| == 10 && !Matches(s, "##.##.####") && IsDigit(s[5]) && IsDigit(s[6])
    ensures Matches(s, "##.##.####") ==> |s| == 10 && IsDigit(s[3]) && IsDigit(s[4])
    ensures IsW3c(s) ==> |s| >= 20 && IsDigit(s[5]) && IsDigit(s[6])
    ensures Matches(s, "##########") || Matches(s, "#########") ==>
              !Matches(s, "####-##-##") && !Matches(s, "##.##.####") && !IsW3c(s) && s != ""
  {
    hide IsW3c, Matches;
    if IsW3c(s) { W3cIs(s); }
    if Matches(s, "####-##-##") {
      FitsAt(s, "####-##-##", 2);
      FitsAt(s, "####-##-##", 4);
      FitsAt(s, "####-##-##", 5);
      FitsAt(s, "####-##-##", 6);
    }
    if Matches(s, "##.##.####") {
      FitsAt(s, "##.##.####", 2);
      FitsAt(s, "##.##.####", 3);
      FitsAt(s, "##.##.####", 4);
    }
    if Matches(s, "##########") {
      FitsAt(s, "##########", 2);
      FitsAt(s, "##########", 4);
    }
    if Matches(s, "#########") { FitsAt(s, "#########", 0); }
  }

  lemma FitsAt(s: string, mask: string, i: nat)
    requires Matches(s, mask) && i < |mask| && mask[|mask| - 1] != '*'
    ensures |s| == |mask| && Fits(mask[i], s[i])
  {
  }

  lemma W3cIs(s: string)
    requires IsW3c(s)
    ensures |s| >= 20 && IsDigit(s[5]) && IsDigit(s[6])
  {
  }

  /** The conversion of the fields reads outside exactly for month number -1 among the accepted ones. */
  lemma MonthZeroIff(s: string, year: nat, i: nat, day: nat, h: int, mi: int, sec: int, wide: bool)
    requires |s| >= 10 && year <= 6 && i <= 8 && day <= 8 && IsDigit(s[i]) && IsDigit(s[i + 1])
    ensures Checked(Tm(Year4(s, year), Num2(s, i) - 1, Num2(s, day), h, mi, sec), 0, wide) == OutOfBounds <==>
              !(h > 23 || mi > 59 || sec > 61) && MonthZero(s, year, i, day, wide)
  {
    assert Year(s, year) == Year4(s, year) + 1900;
    assert Num2(s, i) >= 0 && (Num2(s, i) == 0 <==> s[i] == '0' && s[i + 1] == '0');
    CheckedOutsideIff(Tm(Year4(s, year), Num2(s, i) - 1, Num2(s, day), h, mi, sec), 0, wide);
  }

  lemma CheckedOutsideIff(t: Tm, zone: int, wide: bool)
    requires t.mon >= -1
    ensures Checked(t, zone, wide) == OutOfBounds <==>
              TimeIsAccepted(t) && t.mon == -1 && 1 <= t.mday <= 31 && InRange(t.year + 1900, wide)
  {
    hide Formula, CMod;
  }

  /** Month names have no number below 0. */
  lemma HttpFormIsInside(s: string, wide: bool)
    ensures HttpForm(s, wide) != OutOfBounds
  {
    hide Matches, Checked, MonthFrom, Zone;
    forall year: int, mon: nat, mday: int, h: int, mi: int, sec: int, zone: int
      ensures Checked(Tm(year, mon, mday, h, mi, sec), zone, wide) != OutOfBounds
    {
      CheckedOutsideIff(Tm(year, mon, mday, h, mi, sec), zone, wide);
    }
    FormLengths(s);
  }

  lemma FormLengths(s: string)
    ensures Matches(s, RFC1123 + "*") ==> |s| >= 21
    ensures Matches(s, SHORT_DAY + "*") ==> |s| >= 20
    ensures Matches(s, RFC850 + "*") ==> |s| >= 19
    ensures Matches(s, ASCTIME + "*") ==> |s| >= 20
  {
    hide Matches;
    if Matches(s, RFC1123 + "*") { StarLength(s, RFC1123); }
    if Matches(s, SHORT_DAY + "*") { StarLength(s, SHORT_DAY); }
    if Matches(s, RFC850 + "*") { StarLength(s, RFC850); }
    if Matches(s, ASCTIME + "*") { StarLength(s, ASCTIME); }
  }

  /** One such text for every year from 1970 and every day number: yyyy-00-dd. */
  lemma MonthZeroReadsOutside(y: nat, d: nat)
    requires 1970 <= y < 10000 && 1 <= d <= 31
    ensures Value(Two(y / 100) + Two(y % 100) + ("-" + Two(0) + ("-" + Two(d))), true) == OutOfBounds
  {
    hide Two, HttpForm, AllFit;
    var year := Two(y / 100) + Two(y % 100);
    var text := year + ("-" + Two(0) + ("-" + Two(d)));
    YearFits(y);
    IsoFits(y, 0, d);
    assert text[0] == year[0] && text[1] == year[1] && text[2] == year[2] && text[3] == year[3];
    assert text[5] == Two(0)[0] && text[6] == Two(0)[1] && text[8] == Two(d)[0] && text[9] == Two(d)[1];
  }

  lemma IsoFits(y: nat, month: nat, d: nat)
    requires y < 10000 && month < 100 && d < 100
    ensures var text := Two(y / 100) + Two(y % 100) + ("-" + Two(month) + ("-" + Two(d)));
            AllFit("####-##-##", text) && SkipSpaces(text) == text
  {
    hide Two, AllFit;
    var year := Two(y / 100) + Two(y % 100);
    var text := year + ("-" + Two(month) + ("-" + Two(d)));
    YearFits(y);
    DashTwo(month);
    DashTwo(d);
    FitConcat("-##", "-##", "-" + Two(month), "-" + Two(d));
    assert "-##" + "-##" == "-##-##" && "####" + "-##-##" == "####-##-##";
    FitConcat("####", "-##-##", year, "-" + Two(month) + ("-" + Two(d)));
    assert text[0] == year[0];
  }

  lemma DashTwo(n: nat)
    requires n < 100
    ensures AllFit("-##", "-" + Two(n))
  {
  }
}

/** Calendar arithmetic of the date parser (date.c:236-265, 508-537). */
module Calendar {
  /** struct tm, as far as it is used: years since 1900, months since January. */
  datatype Tm = Tm(year: int, mon: int, mday: int, hour: int, min: int, sec: int)

  // ---------- The Gregorian calendar, one day after another ----------

  predicate IsLeap(y: int) { y % 4 == 0 && (y % 100 != 0 || y % 400 == 0) }

  function DaysIn(y: int, m: int): (n: int)
    ensures 28 <= n <= 31
  {
    if m == 1 then (if IsLeap(y) then 29 else 28) else if m == 3 || m == 5 || m == 8 || m == 10 then 30 else 31
  }

  predicate RealDate(y: int, m: int, d: int) { 0 <= m < 12 && 1 <= d <= DaysIn(y, m) }

  /** How many days lie between 1 January 1970 and a date, counted back one by one. */
  function DayNumber(y: int, m: int, d: int): (n: nat)
    requires y >= 1970 && RealDate(y, m, d)
    decreases y, m, d
  {
    if d > 1 then DayNumber(y, m, d - 1) + 1
    else if m > 0 then DayNumber(y, m - 1, DaysIn(y, m - 1)) + 1
    else if y > 1970 then DayNumber(y - 1, 11, 31) + 1
    else 0
  }

  // ---------- ap_tm2sec ----------

  const DAY_OFFSET: seq<int> := [306, 337, 0, 31, 61, 92, 122, 153, 184, 214, 245, 275]

  const BAD_DATE := 0

  /** A time, or a read outside the table of day offsets. */
  datatype Time = Time(seconds: int) | OutOfBounds

  /** Days since 1 January 1970, from the closed formula on years that start in March; the year is not negative. */
  function Formula(year: int, mon: int, mday: int): int
    requires 0 <= mon < 12
  {
    var y := if mon < 2 then year - 1 else year;
    y * 365 + LeapDays(y) + DAY_OFFSET[mon] + mday - 1 - 25508
  }

  function LeapDays(y: int): int { y / 4 - y / 100 + (y / 100 + 3) / 4 }

  function TmToSec(t: Tm, wide: bool): Time {
    if t.year < 70 || (!wide && t.year >= 138) then Time(BAD_DATE)
    else if !(0 <= t.mon < 12) then OutOfBounds
    else
      var s := ((Formula(t.year, t.mon, t.mday) * 24 + t.hour) * 60 + t.min) * 60 + t.sec;
      if s < 0 then Time(BAD_DATE) else Time(s)
  }

  /** The formula steps over the ends of months. */
  lemma MonthStep(y: int, m: int)
    requires y >= 1970 && 0 < m < 12
    ensures Formula(y - 1900, m, 1) == Formula(y - 1900, m - 1, DaysIn(y, m - 1)) + 1
  {
    hide IsLeap, Formula, DaysIn;
    if m == 2 { FebruaryStep(y - 1900); } else { OtherStep(y, m); }
  }

  lemma FebruaryStep(v: int)
    requires v >= 70
    ensures Formula(v, 2, 1) == Formula(v, 1, DaysIn(v + 1900, 1)) + 1
  {
    hide IsLeap, LeapDays;
    MarchStep(v);
  }

  lemma OtherStep(y: int, m: int)
    requires y >= 1970 && 0 < m < 12 && m != 2
    ensures Formula(y - 1900, m, 1) == Formula(y - 1900, m - 1, DaysIn(y, m - 1)) + 1
  {
    hide IsLeap, LeapDays;
    assert DAY_OFFSET[m] - DAY_OFFSET[m - 1] == if m == 1 then 31 else DaysIn(y, m - 1);
  }

  /**
   * From the end of February to March the shifted year changes: a leap day is one more fourth, hundredth or
   * four-hundredth.
   */
  lemma MarchStep(v: int)
    requires v >= 70
    ensures LeapDays(v) - LeapDays(v - 1) == if IsLeap(v + 1900) then 1 else 0
  {
    hide IsLeap;
    Fourths(v);
    Hundreds(v);
    LeapIff(v);
    LeapCount(v % 4 == 0, v % 100 == 0, v % 400 == 100, v / 4 - (v - 1) / 4, v / 100 - (v - 1) / 100,
              (v / 100 + 3) / 4 - ((v - 1) / 100 + 3) / 4);
  }

  lemma LeapCount(fourth: bool, hundredth: bool, quad: bool, a: int, b: int, c: int)
    requires a == (if fourth then 1 else 0) && b == (if hundredth then 1 else 0) && c == if quad then 1 else 0
    requires (quad ==> hundredth) && (hundredth ==> fourth)
    ensures a - b + c == if fourth && (!hundredth || quad) then 1 else 0
  {
  }

  lemma Fourths(v: int)
    ensures v / 4 - (v - 1) / 4 == if v % 4 == 0 then 1 else 0
    ensures v / 100 - (v - 1) / 100 == if v % 100 == 0 then 1 else 0
  {
    assert v == 4 * (v / 4) + v % 4 && v == 100 * (v / 100) + v % 100;
  }

  /** Leap years in terms of years since 1900. */
  lemma LeapIff(v: int)
    ensures IsLeap(v + 1900) <==> v % 4 == 0 && (v % 100 != 0 || v % 400 == 100)
    ensures (v % 400 == 100 ==> v % 100 == 0) && (v % 100 == 0 ==> v % 4 == 0)
    ensures (v + 1900) % 400 == 0 <==> v % 400 == 100
  {
    By4(v);
    By100(v);
    By400(v);
  }

  lemma Hundreds(v: int)
    requires v >= 70
    ensures (v / 100 + 3) / 4 - ((v - 1) / 100 + 3) / 4 == if v % 400 == 100 then 1 else 0
  {
    var q, r := v / 400, v % 400;
    assert v == 400 * q + r;
    assert v / 100 == 4 * q + r / 100;
    if r > 0 {
      assert (v - 1) / 100 == 4 * q + (r - 1) / 100;
    } else {
      assert (v - 1) / 100 == 4 * q - 1;
    }
  }

  lemma By4(v: int)
    ensures (v + 1900) % 4 == v % 4
  {
    assert v + 1900 == 4 * (v / 4 + 475) + v % 4;
  }

  lemma By100(v: int)
    ensures (v + 1900) % 100 == v % 100 && (v % 100 == 0 ==> v % 4 == 0)
  {
    HundredIsFourth(v);
    assert v + 1900 == 100 * (v / 100 + 19) + v % 100;
  }

  lemma HundredIsFourth(v: int)
    ensures v % 100 == 0 ==> v % 4 == 0
  {
    var q := v / 100;
    if v == 100 * q { assert v == 4 * (25 * q) + 0; }
  }

  lemma By400(v: int)
    ensures (v + 1900) % 400 == 0 <==> v % 400 == 100
    ensures v % 400 == 100 ==> v % 100 == 0
  {
    var c, r := v / 400, v % 400;
    if r < 100 {
      assert v + 1900 == 400 * (c + 4) + (r + 300);
    } else {
      assert v + 1900 == 400 * (c + 5) + (r - 100);
    }
    if r == 100 {
      assert v == 100 * (4 * c + 1);
    }
  }

  lemma Epoch()
    ensures Formula(70, 0, 1) == 0
  {
  }

  lemma DecemberIsLong(y: int)
    ensures DaysIn(y, 11) == 31
  {
  }

  lemma LongerMonth(y: int, m: int, d: int)
    requires RealDate(y, m, d) && d > 1
    ensures RealDate(y, m, d - 1)
  {
  }

  /** The formula counts days. */
  lemma {:induction false} FormulaIsDayNumber(y: int, m: int, d: int)
    requires y >= 1970 && RealDate(y, m, d)
    ensures Formula(y - 1900, m, d) == DayNumber(y, m, d)
    decreases y, m, d
  {
    hide IsLeap, LeapDays, DaysIn;
    if d > 1 {
      LongerMonth(y, m, d);
      FormulaIsDayNumber(y, m, d - 1);
    } else if m > 0 {
      FormulaIsDayNumber(y, m - 1, DaysIn(y, m - 1));
      MonthStep(y, m);
    } else if y > 1970 {
      DecemberIsLong(y - 1);
      FormulaIsDayNumber(y - 1, 11, 31);
    } else {
      Epoch();
    }
  }

  /** ap_tm2sec, with a 64-bit time_t: days counted one by one, and the time of day. */
  lemma SecondsAreCounted(y: int, m: int, d: int, h: nat, mi: nat, s: nat)
    requires y >= 1970 && RealDate(y, m, d)
    ensures TmToSec(Tm(y - 1900, m, d, h, mi, s), true) == Time(86400 * DayNumber(y, m, d) + 3600 * h + 60 * mi + s)
  {
    FormulaIsDayNumber(y, m, d);
  }

  // ---------- The validity check ----------

  /** C's remainder has the sign of the dividend. */
  function CMod(a: int, b: int): int
    requires b > 0
  {
    if a >= 0 then a % b else -((-a) % b)
  }

  /** The checks at check_valid_date; year & 3 is the remainder modulo 4 of the two's complement. */
  predicate DateIsAccepted(t: Tm) {
    && !(t.mday <= 0 || t.mday > 31) && !(t.mon > 11)
    && !(t.mday == 31 && (t.mon == 3 || t.mon == 5 || t.mon == 8 || t.mon == 10))
    && !(t.mon == 1 && (t.mday > 29
      || (t.mday == 29 && (t.year % 4 != 0 || (CMod(t.year, 100) == 0 && CMod(t.year, 400) != 100)))))
  }

  predicate TimeIsAccepted(t: Tm) { !(t.hour > 23 || t.min > 59 || t.sec > 61) }

  /**
   * With a month number of at least 1 exactly the real Gregorian dates are accepted, except that before 1900
   * 29 February is refused in years that are multiples of 400.
   */
  lemma AcceptsRealDates(t: Tm)
    requires t.mon >= 0
    ensures DateIsAccepted(t) <==>
              RealDate(t.year + 1900, t.mon, t.mday)
                && !(t.year < 0 && (t.year + 1900) % 400 == 0 && t.mon == 1 && t.mday == 29)
  {
    hide IsLeap, CMod;
    LeapRule(t.year);
  }

  lemma LeapRule(v: int)
    ensures IsLeap(v + 1900) && !(v < 0 && (v + 1900) % 400 == 0) <==>
              !(v % 4 != 0 || (CMod(v, 100) == 0 && CMod(v, 400) != 100))
  {
    hide IsLeap;
    LeapIff(v);
    if v < 0 {
      NegatedMod(v);
      assert CMod(v, 400) <= 0;
    }
  }

  lemma NegatedMod(v: int)
    ensures (-v) % 100 == 0 <==> v % 100 == 0
  {
    var q, r := v / 100, v % 100;
    assert -v == 100 * (-q) - r;
    if r != 0 { assert -v == 100 * (-q - 1) + (100 - r); }
  }
}

/**
 * Which format a group gets, said of its url ids alone, and how long the rows are (dbmode-blob.c:1287-1417).
 */
module RowChoice {
  import opened Bytes
  import opened Coord
  import opened Rows
  import opened RowState
  import opened UrlScan

  // ---------- Lengths ----------

  /** The records that are written whatever the url ids are: those whose count has a code. */
  function Countable(ws: seq<CacheWord>): (m: nat)
    ensures m <= |ws|
  {
    if ws == [] then 0 else (if ws[0].nintags < LIMIT then 1 else 0) + Countable(ws[1..])
  }

  predicate FixedDelta(f: Format) { f.Delta1Offset? || f.Delta2? || f.Delta2Offset? || f.Delta3? }

  /** The bytes of a url_id in a record whose format is not the variable delta. */
  function UrlWidth(f: Format): (n: nat)
    requires !f.DeltaVariable?
    ensures n <= 4
  {
    match f
    case Simple => 4
    case Delta1Offset => 1
    case Delta2 => 2
    case Delta2Offset => 2
    case Delta3 => 3
    case _ => 0
  }

  /** Against the simple format every record is shorter by the difference of the widths. */
  lemma {:induction false} BodyLength(f: Format, p: nat, q: nat, ws: seq<CacheWord>)
    requires !f.DeltaVariable?
    ensures |Body(f, p, ws)| + (4 - UrlWidth(f)) * Countable(ws) == |Body(Simple, q, ws)|
    decreases |ws|
  {
    hide Put;
    if ws == [] {
    } else {
      BodyLength(f, ws[0].urlId, ws[0].urlId, ws[1..]);
      var m := Countable(ws[1..]);
      assert (4 - UrlWidth(f)) * (1 + m) == 4 - UrlWidth(f) + (4 - UrlWidth(f)) * m;
    }
  }

  lemma RowLength(f: Format, ws: seq<CacheWord>)
    requires ws != [] && !f.DeltaVariable?
    ensures |Row(f, ws)| + (4 - UrlWidth(f)) * Countable(ws) == |Header(f, ws)| + |Row(Simple, ws)|
  {
    hide Body, Header;
    BodyLength(f, Base(f, ws[0].urlId), Base(Simple, ws[0].urlId), ws);
    assert Header(Simple, ws) == [] by { NoHeader(ws); }
  }

  lemma NoHeader(ws: seq<CacheWord>)
    requires ws != []
    ensures Header(Simple, ws) == []
  {
  }

  // ---------- The groups of each format ----------

  ghost predicate Consecutive(ws: seq<CacheWord>) {
    forall i :: 0 <= i < |ws| ==> ws[i].urlId == ws[0].urlId + i
  }

  ghost predicate GapsUpTo(ws: seq<CacheWord>, d: nat) {
    forall i :: 0 < i < |ws| ==> ws[i].urlId - ws[i - 1].urlId <= d
  }

  function Spread(ws: seq<CacheWord>): int
    requires ws != []
  {
    ws[|ws| - 1].urlId - ws[0].urlId
  }

  /** Ids between the first and the last that the group does not have. */
  function Absent(ws: seq<CacheWord>): int
    requires ws != []
  {
    Spread(ws) + 1 - |ws|
  }

  /** Fewer than one id in eight is absent. */
  predicate Dense(ws: seq<CacheWord>)
    requires ws != []
  {
    Spread(ws) > 16 && 8 * (Absent(ws) + 2) <= Spread(ws) + 1
  }

  /** Two ids are 256 or more apart on average. */
  predicate Sparse(ws: seq<CacheWord>)
    requires ws != []
  {
    Spread(ws) >= 256 * (|ws| - 1)
  }

  lemma OneMoreGap(ws: seq<CacheWord>, d: nat)
    requires |ws| >= 2
    ensures GapsUpTo(ws, d) <==>
              GapsUpTo(ws[..|ws| - 1], d) && ws[|ws| - 1].urlId - ws[|ws| - 2].urlId <= d
  {
    var init := ws[..|ws| - 1];
    if GapsUpTo(init, d) && ws[|ws| - 1].urlId - ws[|ws| - 2].urlId <= d {
      forall i | 0 < i < |ws| ensures ws[i].urlId - ws[i - 1].urlId <= d {
        if i < |init| { assert init[i].urlId - init[i - 1].urlId <= d; }
      }
    }
  }

  lemma {:induction false} MaxDeltaIs(ws: seq<CacheWord>, d: nat)
    requires Increasing(ws)
    ensures MaxDelta(ws) <= d <==> GapsUpTo(ws, d)
  {
    if |ws| < 2 {
    } else {
      hide GapsUpTo;
      MaxDeltaIs(ws[..|ws| - 1], d);
      OneMoreGap(ws, d);
    }
  }

  lemma ConsecutiveIff(ws: seq<CacheWord>)
    requires ws != [] && Increasing(ws)
    ensures Absent(ws) >= 0 && (Absent(ws) == 0 <==> Consecutive(ws))
  {
    SpreadAtLeastCount(ws);
    if Absent(ws) == 0 { AllConsecutive(ws, |ws| - 1); }
  }

  lemma {:induction false} AllConsecutive(ws: seq<CacheWord>, n: nat)
    requires n < |ws| && forall i :: 0 < i < |ws| ==> ws[i].urlId == ws[i - 1].urlId + 1
    ensures forall i :: 0 <= i <= n ==> ws[i].urlId == ws[0].urlId + i
  {
    if n == 0 {
    } else {
      AllConsecutive(ws, n - 1);
      assert ws[n].urlId == ws[n - 1].urlId + 1;
    }
  }

  /** Which groups get which format: by their number, first id, gaps and spread. */
  lemma FormatIff(ws: seq<CacheWord>)
    requires ws != [] && Increasing(ws)
    ensures var f, n, first := Choose(StatOf(ws), true), |ws|, ws[0].urlId;
            && (f.SingleRange? <==> n >= 4 && Consecutive(ws))
            && (f.RangeMulti? <==> Dense(ws) && !Consecutive(ws))
            && (f.DeltaVariable? <==> n >= 3 && !Sparse(ws) && !Dense(ws) && (n == 3 || !Consecutive(ws)))
            && (f.Delta2? <==> n >= 4 && Sparse(ws) && first <= 0xFFFF && GapsUpTo(ws, 0xFFFF))
            && (f.Delta2Offset? <==> n >= 5 && Sparse(ws) && first > 0xFFFF && GapsUpTo(ws, 0xFFFF))
            && (f.Delta3? <==>
                  n >= 6 && Sparse(ws) && first <= 0xFF_FFFF && GapsUpTo(ws, 0xFF_FFFF) && !GapsUpTo(ws, 0xFFFF))
            && !f.Delta1Offset?
    ensures Choose(StatOf(ws), false).Simple?
  {
    hide Increasing, Consecutive, GapsUpTo, MaxDelta;
    ConsecutiveIff(ws);
    MaxDeltaIs(ws, 0xFFFF);
    MaxDeltaIs(ws, 0xFF_FFFF);
  }

  // ---------- Whether the choice saves bytes ----------

  /** Where the simple format is chosen no fixed-width delta that fits the group gives a shorter row. */
  lemma SimpleIsShortest(ws: seq<CacheWord>, f: Format)
    requires ws != [] && Increasing(ws) && Choose(StatOf(ws), true).Simple? && FixedDelta(f) && UrlsFit(f, ws)
    ensures |Row(Simple, ws)| <= |Row(f, ws)|
  {
    hide Row, Increasing, GapsUpTo, Choose, StatOf;
    FormatIff(ws);
    RowLength(f, ws);
    FitIsSmall(f, ws);
    HeaderLength(f, ws);
    if f.Delta1Offset? { SmallGapsAreNotSparse(ws); }
  }

  lemma HeaderLength(f: Format, ws: seq<CacheWord>)
    requires ws != []
    ensures |Header(f, ws)| == match f
                               case Simple => 0
                               case SingleRange => 14
                               case RangeMulti => 10 + 8 * |Ranges(ws)|
                               case Delta1Offset => 10
                               case Delta2Offset => 8
                               case _ => 6
  {
  }

  lemma FitIsSmall(f: Format, ws: seq<CacheWord>)
    requires ws != [] && Increasing(ws) && UrlsFit(f, ws)
    ensures f.Delta1Offset? ==> GapsUpTo(ws, 0xFF) && GapsUpTo(ws, 0xFFFF)
    ensures f.Delta2? ==> GapsUpTo(ws, 0xFFFF) && ws[0].urlId <= 0xFFFF
    ensures f.Delta2Offset? ==> GapsUpTo(ws, 0xFFFF)
    ensures f.Delta3? ==> GapsUpTo(ws, 0xFF_FFFF) && ws[0].urlId <= 0xFF_FFFF
  {
  }

  lemma {:induction false} SmallGaps(ws: seq<CacheWord>, d: nat)
    requires ws != [] && GapsUpTo(ws, d)
    ensures Spread(ws) <= d * (|ws| - 1)
  {
    if |ws| == 1 {
    } else {
      OneMoreGap(ws, d);
      SmallGaps(ws[..|ws| - 1], d);
      assert d * (|ws| - 1) == d * (|ws| - 2) + d;
    }
  }

  lemma SmallGapsAreNotSparse(ws: seq<CacheWord>)
    requires ws != [] && GapsUpTo(ws, 0xFF)
    ensures |ws| > 1 ==> !Sparse(ws)
  {
    SmallGaps(ws, 0xFF);
  }

  /** Between two ranges at least one id is absent. */
  lemma {:induction false} FewRanges(ws: seq<CacheWord>)
    requires ws != [] && Increasing(ws)
    ensures |Ranges(ws)| <= Absent(ws) + 1
    decreases |ws|
  {
    hide RunLen;
    var n := RunLen(ws);
    RunIsConsecutive(ws);
    SpreadAtLeastCount(ws);
    if n == |ws| {
    } else {
      FewRanges(ws[n..]);
    }
  }

  /** The codes of the differences of the url ids. */
  function CodesLength(prev: nat, ws: seq<CacheWord>): nat
    decreases |ws|
  {
    if ws == [] then 0 else |TryPut(Minus(ws[0].urlId, prev), 4)| + CodesLength(ws[0].urlId, ws[1..])
  }

  lemma {:induction false} VariableLength(prev: nat, q: nat, ws: seq<CacheWord>)
    requires Countable(ws) == |ws| && Increasing(ws) && (ws != [] ==> UrlFits(DeltaVariable, prev, ws[0].urlId))
    requires forall i :: 0 < i < |ws| ==> UrlFits(DeltaVariable, ws[i - 1].urlId, ws[i].urlId)
    ensures |Body(DeltaVariable, prev, ws)| + 4 * |ws| == CodesLength(prev, ws) + |Body(Simple, q, ws)|
    decreases |ws|
  {
    hide Put;
    if ws == [] {
    } else {
      assert forall i :: 0 < i < |ws| - 1 ==> ws[1..][i] == ws[i + 1] && ws[1..][i - 1] == ws[i];
      if |ws| > 1 { assert UrlFits(DeltaVariable, ws[0].urlId, ws[1].urlId); }
      VariableLength(ws[0].urlId, ws[0].urlId, ws[1..]);
    }
  }

  /**
   * What the choice saves when every count has a code: ranges and two-byte deltas give a shorter row than the simple
   * format, three-byte deltas one that is not longer, and shorter from seven documents on; variable deltas save
   * bytes exactly if their codes do.
   */
  lemma ChosenSaves(ws: seq<CacheWord>)
    requires ws != [] && Increasing(ws) && Countable(ws) == |ws|
    ensures var f, simple := Choose(StatOf(ws), true), |Row(Simple, ws)|;
            && (f.SingleRange? || f.RangeMulti? || f.Delta2? || f.Delta2Offset? ==> |Row(f, ws)| < simple)
            && (f.Delta3? ==> |Row(f, ws)| <= simple && (|Row(f, ws)| < simple <==> |ws| >= 7))
            && (f.DeltaVariable? && UrlsFit(f, ws) ==>
                  (|Row(f, ws)| < simple <==> 6 + CodesLength(0, ws) < 4 * |ws|))
  {
    hide Row, Increasing, GapsUpTo, Choose, StatOf, Countable;
    var f := Choose(StatOf(ws), true);
    FormatIff(ws);
    HeaderLength(f, ws);
    if f.DeltaVariable? {
      if UrlsFit(f, ws) { VariableSaves(ws); }
    } else {
      RowLength(f, ws);
      if f.RangeMulti? { FewRanges(ws); }
    }
  }

  lemma VariableSaves(ws: seq<CacheWord>)
    requires ws != [] && Increasing(ws) && Countable(ws) == |ws| && UrlsFit(DeltaVariable, ws)
    ensures |Row(DeltaVariable, ws)| + 4 * |ws| == 6 + CodesLength(0, ws) + |Row(Simple, ws)|
  {
    hide Body, Increasing, Countable, CodesLength;
    VariableLength(0, 0, ws);
    HeaderLength(DeltaVariable, ws);
    NoHeader(ws);
  }

  // ---------- Whether the last document comes back ----------

  /** The bytes of the last record of a group of at least two documents, if differences take so many for the url_id. */
  function LastBytes(ws: seq<CacheWord>, urlBytes: nat): nat
    requires ws != []
  {
    var w := ws[|ws| - 1];
    urlBytes + |TryPut(w.nintags, 4)| + |w.intags|
  }

  function LastGap(ws: seq<CacheWord>): nat
    requires |ws| >= 2
  {
    Minus(ws[|ws| - 1].urlId, ws[|ws| - 2].urlId)
  }

  /**
   * The last document is lost: with differences of one, two or three bytes, or of variable length, its record has less
   * than six bytes.
   */
  ghost predicate LastIsLost(ws: seq<CacheWord>)
    requires ws != []
  {
    var n, first := |ws|, ws[0].urlId;
    || (n >= 3 && !Sparse(ws) && !Dense(ws) && (n == 3 || !Consecutive(ws))
        && LastBytes(ws, |TryPut(LastGap(ws), 4)|) < 6)
    || (n >= (if first <= 0xFFFF then 4 else 5) && Sparse(ws) && GapsUpTo(ws, 0xFFFF) && LastBytes(ws, 2) < 6)
    || (n >= 6 && Sparse(ws) && first <= 0xFF_FFFF && GapsUpTo(ws, 0xFF_FFFF) && !GapsUpTo(ws, 0xFFFF)
        && LastBytes(ws, 3) < 6)
  }

  /** How many documents of a group come back, said of its url ids and the bytes of its last record. */
  lemma ReturnedIs(ws: seq<CacheWord>, useCompr: bool)
    requires ws != [] && Increasing(ws) && ws[|ws| - 1].nintags < LIMIT
    requires Choose(StatOf(ws), useCompr).DeltaVariable? ==> UrlsFit(DeltaVariable, ws)
    ensures Returned(Choose(StatOf(ws), useCompr), ws) == |ws| - if useCompr && LastIsLost(ws) then 1 else 0
  {
    hide Increasing, GapsUpTo, Consecutive, Choose, StatOf, TryPut, Put;
    FormatIff(ws);
    if |ws| >= 2 { LastRecord(Choose(StatOf(ws), useCompr), ws); }
  }

  lemma LastRecord(f: Format, ws: seq<CacheWord>)
    requires |ws| >= 2 && Increasing(ws) && ws[|ws| - 1].nintags < LIMIT && (f.DeltaVariable? ==> UrlsFit(f, ws))
    ensures var n := |ws| - 1;
            |Record(f, PrevUrl(f, ws, n), ws[n])| ==
            LastBytes(ws, if f.DeltaVariable? then |TryPut(LastGap(ws), 4)| else UrlWidth(f))
  {
    hide Put;
  }
}

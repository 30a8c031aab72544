/** What packing, unpacking and the url limit promise together. */
module RowTheorems {
  import opened Bytes
  import opened Seqs
  import opened Coord
  import opened Rows
  import opened Sections
  import opened RowHeader
  import opened UrlScan
  import opened RowState
  import opened RowReader
  import opened ReadBack
  import Packer

  // ---------- Round trip ----------

  /**
   * Where the chosen format can be read back: the header is told from the older one,
   * and every variable delta has a code. Both are conditions on the url ids alone.
   */
  ghost predicate Recoverable(ws: seq<CacheWord>, useCompr: bool)
    requires ws != []
  {
    var f := Choose(StatOf(ws), useCompr);
    HeaderReadable(f, ws) && (f.DeltaVariable? ==> UrlsFit(f, ws))
  }

  lemma ManyRecords(f: Format, ws: seq<CacheWord>, ps: seq<Posting>, k: nat)
    requires Packable(f, ws, ps) && k <= |ws|
    ensures |Body(f, PrevUrl(f, ws, k), ws[k..])| >= 2 * (|ws| - k)
    decreases |ws| - k
  {
    hide Increasing, UrlsFit, Record;
    if k < |ws| {
      FitsAt(f, ws, k);
      assert Carries(ws[k], ps[k]);
      RecordCodes(f, PrevUrl(f, ws, k), ws[k], ps[k]);
      assert ws[k..][1..] == ws[k + 1..];
      ManyRecords(f, ws, ps, k + 1);
    }
  }

  /** Every row with a marker is longer than the ten bytes the reader asks for. */
  lemma ChosenRowIsLong(ws: seq<CacheWord>, ps: seq<Posting>, useCompr: bool)
    requires ws != [] && Packable(Choose(StatOf(ws), useCompr), ws, ps)
    ensures var f := Choose(StatOf(ws), useCompr);
            f.Simple? || |Row(f, ws)| > 10
  {
    hide Body, UrlsFit, CarriesAll, Increasing;
    var f := Choose(StatOf(ws), useCompr);
    ManyRecords(f, ws, ps, 0);
    assert ws[0..] == ws;
  }

  /**
   * A group of cache entries packed with the format the statistics choose and read back
   * under a limit gives the sections of its documents, all but a short last delta record.
   */
  method PackThenUnpack(ws: seq<CacheWord>, useCompr: bool, limit: Limit, t: Template,
                        save: bool, needCoords: bool, wide: bool, ghost ps: seq<Posting>)
    returns (row: seq<byte>, list: SectionList)
    requires ws != [] && |ws| < URL_LIMIT && Packer.GroupLen(ws) == |ws| && Increasing(ws) && CarriesAll(ws, ps)
    requires Recoverable(ws, useCompr) && SortedUrls(limit.urls)
    ensures list.nsections <= list.sections.Length && list.ncoords <= list.coords.Length
    ensures var n := Returned(Choose(StatOf(ws), useCompr), ws);
            && Filled(list.sections[..list.nsections], list.coords[..list.ncoords],
                      Kept(ps[..n], limit), save, t, row, needCoords)
            && ReadRow(row) == Reading(ps[..n], true)
  {
    hide ReadRow, Row, Filled, Body, Header, StatOf, HeaderReadable;
    var buf := new Packer.Dstr();
    assert ws[..|ws|] == ws;
    var count := Packer.PackOneWord(ws, buf, useCompr);
    row := buf.data;
    ghost var f := Choose(StatOf(ws), useCompr);
    ChosenFormatFits(ws, useCompr);
    ChosenRowIsLong(ws, ps, useCompr);
    assert row == Row(f, ws);
    ReadRowOf(f, ws, ps);
    list := Unpack(row, limit, t, save, needCoords, wide, f, ws, ps);
  }

  /** A record is lost while packing exactly when its url_id or its count has no code. */
  lemma NothingDroppedIff(f: Format, ws: seq<CacheWord>, ps: seq<Posting>)
    requires ws != [] && Increasing(ws) && CarriesAll(ws, ps) && f.DeltaVariable?
    ensures UrlsFit(f, ws) <==> forall k :: 0 <= k < |ws| ==> !Dropped(f, PrevUrl(f, ws, k), ws[k])
  {
    if UrlsFit(f, ws) {
      forall k | 0 <= k < |ws| ensures !Dropped(f, PrevUrl(f, ws, k), ws[k]) {
        assert Carries(ws[k], ps[k]);
      }
    } else if !UrlFits(f, Base(f, ws[0].urlId), ws[0].urlId) {
      assert Dropped(f, PrevUrl(f, ws, 0), ws[0]);
    } else {
      var i :| 0 < i < |ws| && !UrlFits(f, ws[i - 1].urlId, ws[i].urlId);
      assert Dropped(f, PrevUrl(f, ws, i), ws[i]);
    }
  }

  /** A row of at most ten bytes is taken for an uncompressed one, which has room for one document. */
  lemma ShortRow(s: seq<byte>)
    requires |s| <= 10
    ensures |ReadRow(s).postings| <= 1
  {
    hide ReadFrom, GetInt4;
    var st := ReadHeader(s);
    if ReadFrom(s, 0, st).postings != [] {
      var next := FirstRead(s, 0, st);
      var rest := ReadFrom(s, next, st).postings;
      if rest != [] { var beyond := FirstRead(s, next, st); }
    }
  }

  /** A variable delta row that lost a record is the row of a smaller group, and read as that. */
  lemma LostRecord(ws: seq<CacheWord>, ps: seq<Posting>)
    requires |ws| > 1 && |ws| < URL_LIMIT && Increasing(ws) && CarriesAll(ws, ps) && !UrlsFit(DeltaVariable, ws)
    ensures |ReadRow(Row(DeltaVariable, ws)).postings| < |ps|
  {
    hide Increasing, CarriesAll, Marker, ReadRow, Returned, Body, Rebased;
    var s, rs := Row(DeltaVariable, ws), Rebased(0, 0, ws);
    assert |ws| == |ps| && ws[0].urlId > 0 by { Starts(ws, ps); }
    var qs := RebasedPostings(0, 0, ws, ps);
    BodyOfRebased(0, 0, ws, ps);
    if |rs| == |ws| { NothingLost(0, 0, ws); }
    if |s| <= 10 {
      ShortRow(s);
    } else {
      assert rs != [] by { if rs == [] { EmptyBody(); } }
      CodableIsIncreasing(0, rs);
      assert s == Row(DeltaVariable, rs);
      ReadRowOf(DeltaVariable, rs, qs);
    }
  }

  lemma Starts(ws: seq<CacheWord>, ps: seq<Posting>)
    requires ws != [] && Increasing(ws) && CarriesAll(ws, ps)
    ensures |ws| == |ps| && ws[0].urlId > 0
  {
  }

  lemma EmptyBody()
    ensures Body(DeltaVariable, 0, []) == []
  {
  }

  /**
   * Which groups survive: what is read back from the packed row is the whole group if and only if its header can be
   * told from the older one, every variable delta has a code, and no short last delta record is held back.
   */
  lemma RoundTripIff(ws: seq<CacheWord>, ps: seq<Posting>, useCompr: bool)
    requires ws != [] && |ws| < URL_LIMIT && Increasing(ws) && CarriesAll(ws, ps)
    ensures var f := Choose(StatOf(ws), useCompr);
            ReadRow(Row(f, ws)) == Reading(ps, true) <==> Recoverable(ws, useCompr) && Returned(f, ws) == |ws|
  {
    hide Increasing, CarriesAll, Row, ReadRow, Returned, UrlsFit, HeaderReadable;
    var f := Choose(StatOf(ws), useCompr);
    ChosenFormatFits(ws, useCompr);
    ChosenHeaderReadable(ws, useCompr);
    if f.DeltaVariable? && !UrlsFit(f, ws) {
      LostRecord(ws, ps);
    } else {
      ChosenRowIsLong(ws, ps, useCompr);
      if HeaderReadable(f, ws) {
        ReadRowOf(f, ws, ps);
        assert ps[..|ps|] == ps;
      } else if f.SingleRange? {
        MisreadSingleRange(ws, ps);
      } else if f.Delta3? {
        MisreadDelta3(ws, ps);
      } else {
        SameUrls(ws, ps);
        MisreadRangeMulti(ws, ps);
      }
    }
  }

  // ---------- What a stored section says ----------

  /**
   * The fields of a section and the coordinates it points to, in terms of the positions of its posting: shown are all
   * of them, but for the last one where lengths are saved and there is more than one.
   */
  ghost predicate Tells(sec: Section, cs: seq<Coord2>, p: Posting, save: bool, t: Template, needCoords: bool) {
    var ps := Positions(p.gaps);
    var n := |ps| - if save && |ps| > 1 then 1 else 0;
    && n >= 1 && sec.urlId == p.urlId && sec.ncoords == n
    && sec.minpos == ps[0] && sec.maxpos == ps[n - 1] && (forall i :: 0 <= i < n ==> sec.minpos <= ps[i] <= sec.maxpos)
    && sec.seclen == (if |ps| == 1 then ps[0] else if save then ps[|ps| - 1] else 0)
    && sec.secno == t.secno && sec.wordnum == t.wordnum && sec.order == t.order
    && (needCoords ==>
          && sec.coord + n <= |cs| && cs[sec.coord].pos == sec.minpos && cs[sec.coord + n - 1].pos == sec.maxpos
          && forall i :: 0 <= i < n ==> cs[sec.coord + i] == Coord2(ps[i], t.order))
  }

  lemma SumsDoNotFall(gaps: seq<value>, i: nat, j: nat)
    requires i <= j < |gaps|
    ensures Positions(gaps)[i] <= Positions(gaps)[j]
  {
    RunningSumsAt(0, gaps, i);
    RunningSumsAt(0, gaps, j);
    SumConcat(gaps[..i + 1], gaps[i + 1..j + 1]);
    assert gaps[..j + 1] == gaps[..i + 1] + gaps[i + 1..j + 1];
  }

  /** Every section that was stored tells its posting. */
  lemma StoredSectionTells(secs: seq<Section>, cs: seq<Coord2>, ks: seq<Posting>, save: bool, t: Template, s: seq<byte>,
                           needCoords: bool, j: nat)
    requires Filled(secs, cs, ks, save, t, s, needCoords) && j < |ks|
    ensures |secs| == |ks| && Tells(secs[j], cs, ks[j], save, t, needCoords)
  {
    hide Codes, AllCoords, RunningSums;
    assert SectionIs(secs[j], ks, j, save, t, s);
    var gaps := ks[j].gaps;
    var n := Shown(ks[j], save);
    forall i | 0 <= i < n ensures Positions(gaps)[0] <= Positions(gaps)[i] <= Positions(gaps)[n - 1] {
      SumsDoNotFall(gaps, 0, i);
      SumsDoNotFall(gaps, i, n - 1);
    }
    if needCoords {
      CoordsAt(ks, j, save, t.order);
      var before, these := AllCoords(ks[..j], save, t.order), Coords(ks[j], save, t.order);
      forall i | 0 <= i < n ensures cs[|before| + i] == Coord2(Positions(gaps)[i], t.order) {
        assert (before + these)[|before| + i] == these[i];
      }
    }
  }

  // ---------- The bytes of the formats ----------

  /** A number of four bytes starts with the lowest. */
  lemma LittleEndian(v: nat)
    requires v < 0x1_0000_0000
    ensures var b: seq<int> := Int4(v); b[0] + 0x100 * b[1] + 0x1_0000 * b[2] + 0x100_0000 * b[3] == v
  {
    Digits256(v);
  }

  /** The markers of the seven formats: four bytes 255, then the format's number as two bytes. */
  lemma Markers()
    ensures Marker(SingleRange) == [255, 255, 255, 255, 4, 0] && Marker(DeltaVariable) == [255, 255, 255, 255, 5, 0]
    ensures Marker(Delta2) == [255, 255, 255, 255, 6, 0] && Marker(Delta2Offset) == [255, 255, 255, 255, 7, 0]
    ensures Marker(Delta3) == [255, 255, 255, 255, 8, 0] && Marker(Delta1Offset) == [255, 255, 255, 255, 9, 0]
    ensures Marker(RangeMulti) == [255, 255, 255, 255, 10, 0]
  {
  }

  lemma OneRecord(f: Format, prev: nat, url: nat, rest: seq<CacheWord>)
    requires url < prev + LIMIT
    ensures Body(f, prev, [Once(url)] + rest) == UrlBytes(f, prev, url) + [1, 1] + Body(f, url, rest)
  {
    hide UrlBytes;
    assert ([Once(url)] + rest)[1..] == rest;
    assert Record(f, prev, Once(url)) == UrlBytes(f, prev, url) + [1] + [1] == UrlBytes(f, prev, url) + [1, 1];
  }

  /** Three documents with position 1 in each. */
  function Thrice(a: nat, b: nat, c: nat): seq<CacheWord> { [Once(a), Once(b), Once(c)] }

  lemma ThreeRecords(f: Format, a: nat, b: nat, c: nat)
    requires a < LIMIT && b < a + LIMIT && c < b + LIMIT
    ensures Body(f, 0, Thrice(a, b, c)) ==
            UrlBytes(f, 0, a) + [1, 1] + (UrlBytes(f, a, b) + [1, 1] + (UrlBytes(f, b, c) + [1, 1]))
  {
    hide UrlBytes, Once, Body;
    assert Thrice(a, b, c) == [Once(a)] + ([Once(b)] + [Once(c)]) && [Once(c)] == [Once(c)] + [];
    OneRecord(f, 0, a, [Once(b)] + [Once(c)]);
    OneRecord(f, a, b, [Once(c)]);
    OneRecord(f, b, c, []);
    assert Body(f, c, []) == [] by { NoRecord(f, c); }
    assert UrlBytes(f, b, c) + [1, 1] + [] == UrlBytes(f, b, c) + [1, 1];
  }

  lemma NoRecord(f: Format, prev: nat)
    ensures Body(f, prev, []) == []
  {
  }

  lemma DeltaRow(f: Format)
    requires f.DeltaVariable? || f.Delta2? || f.Delta3?
    ensures Row(f, Thrice(1, 3, 5)) ==
            Marker(f) + (UrlBytes(f, 0, 1) + [1, 1] + (UrlBytes(f, 1, 3) + [1, 1] + (UrlBytes(f, 3, 5) + [1, 1])))
  {
    hide Marker, Body, UrlBytes;
    ThreeRecords(f, 1, 3, 5);
    assert Marker(f) + [] == Marker(f);
  }

  /** The rows of documents 1, 3 and 5 as differences. */
  lemma LiteralDeltaRows()
    ensures Row(DeltaVariable, Thrice(1, 3, 5)) == Marker(DeltaVariable) + [1, 1, 1, 2, 1, 1, 2, 1, 1]
    ensures Row(Delta2, Thrice(1, 3, 5)) == Marker(Delta2) + [1, 0, 1, 1, 2, 0, 1, 1, 2, 0, 1, 1]
    ensures Row(Delta3, Thrice(1, 3, 5)) == Marker(Delta3) + [1, 0, 0, 1, 1, 2, 0, 0, 1, 1, 2, 0, 0, 1, 1]
  {
    hide Marker, Row, Thrice, UrlBytes;
    DeltaRow(DeltaVariable);
    DeltaRow(Delta2);
    DeltaRow(Delta3);
    DifferenceBytes();
  }

  lemma DifferenceBytes()
    ensures UrlBytes(DeltaVariable, 0, 1) == [1]
        && UrlBytes(DeltaVariable, 1, 3) == UrlBytes(DeltaVariable, 3, 5) == [2]
    ensures UrlBytes(Delta2, 0, 1) == [1, 0] && UrlBytes(Delta2, 1, 3) == UrlBytes(Delta2, 3, 5) == [2, 0]
    ensures UrlBytes(Delta3, 0, 1) == [1, 0, 0] && UrlBytes(Delta3, 1, 3) == UrlBytes(Delta3, 3, 5) == [2, 0, 0]
  {
  }

  /** Documents 1, 2 and 3 as one range, and 1, 2 and 5 as two. */
  lemma LiteralRangeRows()
    ensures Row(SingleRange, Thrice(1, 2, 3)) == Marker(SingleRange) + [1, 0, 0, 0, 3, 0, 0, 0] + [1, 1, 1, 1, 1, 1]
    ensures Row(RangeMulti, Thrice(1, 2, 5)) ==
            Marker(RangeMulti) + ([2, 0, 0, 0] + [1, 0, 0, 0, 2, 0, 0, 0, 5, 0, 0, 0, 5, 0, 0, 0]) + [1, 1, 1, 1, 1, 1]
  {
    hide Marker, Body, Ranges, RangeBytes;
    ThreeRecords(SingleRange, 1, 2, 3);
    ThreeRecords(RangeMulti, 1, 2, 5);
    TwoRanges();
    assert Int4(1) == [1, 0, 0, 0] && Int4(2) == [2, 0, 0, 0] && Int4(3) == [3, 0, 0, 0];
  }

  lemma TwoRanges()
    ensures Ranges(Thrice(1, 2, 5)) == [(1, 2), (5, 5)]
    ensures RangeBytes([(1, 2), (5, 5)]) == [1, 0, 0, 0, 2, 0, 0, 0, 5, 0, 0, 0, 5, 0, 0, 0]
  {
    hide Int4;
    var ws := Thrice(1, 2, 5);
    assert ws[1..] == [Once(2), Once(5)] && ws[2..] == [Once(5)];
    assert RunLen(ws[1..]) == 1 && RunLen(ws) == 2;
    OneRange(5);
    assert Int4(1) == [1, 0, 0, 0] && Int4(2) == [2, 0, 0, 0] by { SmallInt4(1); SmallInt4(2); }
    assert [(1, 2), (5, 5)][1..] == [(5, 5)];
  }

  lemma SmallInt4(v: nat)
    requires v < 256
    ensures Int4(v) == [v, 0, 0, 0]
  {
  }

  lemma OneRange(url: nat)
    ensures Ranges([Once(url)]) == [(url, url)]
    ensures url < 256 ==> RangeBytes([(url, url)]) == [url, 0, 0, 0, url, 0, 0, 0]
  {
    assert [Once(url)][1..] == [] && [(url, url)][1..] == [];
  }

  // ---------- Limit pushdown ----------

  /** A section without its pointers, which depend on what was stored before it. */
  function View(sec: Section): Section { sec.(coord := 0, packed := 0) }

  function Views(secs: seq<Section>): (vs: seq<Section>)
    ensures |vs| == |secs|
  {
    seq(|secs|, i requires 0 <= i < |secs| => View(secs[i]))
  }

  /** The sections whose url_id the limit lets through. */
  function FilterByUrl(vs: seq<Section>, limit: Limit): seq<Section> {
    if vs == [] then [] else
    var n := |vs| - 1;
    FilterByUrl(vs[..n], limit) + if Active(vs[n].urlId, limit) then [vs[n]] else []
  }

  ghost predicate NoneEmpty(ks: seq<Posting>) { forall j :: 0 <= j < |ks| ==> ks[j].gaps != [] }

  ghost function Wanted(ks: seq<Posting>, save: bool, t: Template): (vs: seq<Section>)
    requires NoneEmpty(ks)
    ensures |vs| == |ks|
  {
    seq(|ks|, i requires 0 <= i < |ks| => SectionFor(ks[i], save, t, 0, 0))
  }

  lemma ViewsAreWanted(secs: seq<Section>, cs: seq<Coord2>, ks: seq<Posting>, save: bool, t: Template, s: seq<byte>,
                       n: bool)
    requires Filled(secs, cs, ks, save, t, s, n)
    ensures NoneEmpty(ks) && Views(secs) == Wanted(ks, save, t)
  {
    hide AllCoords, Codes;
    forall j | 0 <= j < |ks| ensures ks[j].gaps != [] && Views(secs)[j] == SectionFor(ks[j], save, t, 0, 0) {
      assert SectionIs(secs[j], ks, j, save, t, s);
    }
  }

  lemma {:induction false} WantedKept(ps: seq<Posting>, limit: Limit, save: bool, t: Template)
    requires NoneEmpty(ps) && NoneEmpty(Kept(ps, limit))
    ensures Wanted(Kept(ps, limit), save, t) == FilterByUrl(Wanted(ps, save, t), limit)
    decreases |ps|
  {
    hide SectionFor, Active;
    if ps == [] {
    } else {
      var n := |ps| - 1;
      var ks, init := Kept(ps, limit), Kept(ps[..n], limit);
      var vs, last := Wanted(ps, save, t), SectionFor(ps[n], save, t, 0, 0);
      UrlOfSection(ps[n], save, t);
      assert forall j :: 0 <= j < |init| ==> init[j] == ks[j];
      WantedKept(ps[..n], limit, save, t);
      assert vs[..n] == Wanted(ps[..n], save, t);
      WantedAppend(ks, init, ps[n], Active(ps[n].urlId, limit), save, t);
      assert vs[n] == last;
    }
  }

  lemma UrlOfSection(p: Posting, save: bool, t: Template)
    requires p.gaps != []
    ensures SectionFor(p, save, t, 0, 0).urlId == p.urlId
  {
  }

  lemma WantedAppend(ks: seq<Posting>, init: seq<Posting>, p: Posting, active: bool, save: bool, t: Template)
    requires NoneEmpty(ks) && NoneEmpty(init) && p.gaps != []
    requires ks == init + if active then [p] else []
    ensures Wanted(ks, save, t) == Wanted(init, save, t) + if active then [SectionFor(p, save, t, 0, 0)] else []
  {
    hide SectionFor;
    if !active { assert ks == init; }
  }

  lemma {:induction false} CoordsAt(ks: seq<Posting>, j: nat, save: bool, order: byte)
    requires j < |ks|
    ensures AllCoords(ks[..j], save, order) + Coords(ks[j], save, order) <= AllCoords(ks, save, order)
    decreases |ks|
  {
    var n := |ks| - 1;
    if j < n {
      CoordsAt(ks[..n], j, save, order);
      assert ks[..n][..j] == ks[..j];
    } else {
      assert ks[..n] == ks[..j];
    }
  }

  /** The coordinates a section points to. */
  function Slice(sec: Section, cs: seq<Coord2>): seq<Coord2> {
    if sec.coord + sec.ncoords <= |cs| then cs[sec.coord..sec.coord + sec.ncoords] else []
  }

  /** The coordinates of the sections that the limit lets through, in order. */
  function SlicesKept(secs: seq<Section>, cs: seq<Coord2>, limit: Limit): seq<Coord2> {
    if secs == [] then [] else
    var n := |secs| - 1;
    SlicesKept(secs[..n], cs, limit) + if Active(secs[n].urlId, limit) then Slice(secs[n], cs) else []
  }

  lemma SliceIs(secs: seq<Section>, cs: seq<Coord2>, ks: seq<Posting>, save: bool, t: Template, s: seq<byte>, j: nat)
    requires Filled(secs, cs, ks, save, t, s, true) && j < |ks|
    ensures |secs| == |ks| && secs[j].urlId == ks[j].urlId && Slice(secs[j], cs) == Coords(ks[j], save, t.order)
  {
    hide Coords, Codes, AllCoords;
    assert SectionIs(secs[j], ks, j, save, t, s);
    CoordsAt(ks, j, save, t.order);
    var before, these := AllCoords(ks[..j], save, t.order), Coords(ks[j], save, t.order);
    assert cs[|before|..|before| + |these|] == (before + these)[|before|..] == these;
  }

  lemma {:induction false} SlicesAreKept(secs: seq<Section>, cs: seq<Coord2>, ks: seq<Posting>, limit: Limit,
                                         save: bool, t: Template, s: seq<byte>, j: nat)
    requires Filled(secs, cs, ks, save, t, s, true) && |secs| == |ks| && j <= |ks|
    ensures SlicesKept(secs[..j], cs, limit) == AllCoords(Kept(ks[..j], limit), save, t.order)
    decreases j
  {
    hide Filled, Coords, Slice, Active;
    if j == 0 {
    } else {
      var i := j - 1;
      SlicesAreKept(secs, cs, ks, limit, save, t, s, i);
      SliceIs(secs, cs, ks, save, t, s, i);
      assert secs[..j][..i] == secs[..i];
      KeptStep(ks, i, limit);
      if Active(ks[i].urlId, limit) {
        AllCoordsAppend(Kept(ks[..i], limit), ks[i], save, t.order);
      } else {
        assert Kept(ks[..j], limit) == Kept(ks[..i], limit);
      }
    }
  }

  /**
   * Unpacking under a limit equals unpacking everything and then filtering by url_id, in the sections and, where they
   * are stored, in the coordinates.
   */
  lemma LimitPushdown(all: seq<Section>, allCoords: seq<Coord2>, ps: seq<Posting>,
                      limited: seq<Section>, cs: seq<Coord2>, limit: Limit,
                      save: bool, t: Template, s: seq<byte>, n1: bool, n2: bool)
    requires Filled(all, allCoords, ps, save, t, s, n1)
    requires Filled(limited, cs, Kept(ps, limit), save, t, s, n2)
    ensures Views(limited) == FilterByUrl(Views(all), limit)
    ensures n1 && n2 ==> cs == SlicesKept(all, allCoords, limit)
  {
    ViewsAreWanted(all, allCoords, ps, save, t, s, n1);
    ViewsAreWanted(limited, cs, Kept(ps, limit), save, t, s, n2);
    WantedKept(ps, limit, save, t);
    if n1 && n2 {
      SlicesAreKept(all, allCoords, ps, limit, save, t, s, |ps|);
      assert all[..|ps|] == all && ps[..|ps|] == ps;
    }
  }

  /** The documents on an including list, those off an excluding one, or all if the list is empty. */
  function Lets(limit: Limit): Posting -> bool {
    (p: Posting) =>
      limit.urls == [] || if limit.exclude then p.urlId !in limit.urls else p.urlId in limit.urls
  }

  /** What a limit keeps: exactly those documents, in order. */
  lemma {:induction false} KeptPicks(ps: seq<Posting>, limit: Limit) returns (at: seq<nat>)
    ensures Picked(Kept(ps, limit), ps, Lets(limit), at)
    decreases |ps|
  {
    if ps == [] {
      at := [];
    } else {
      hide Picked, Lets;
      var init, last := ps[..|ps| - 1], ps[|ps| - 1];
      at := KeptPicks(init, limit);
      PickedSnoc(Kept(init, limit), init, Lets(limit), at, last);
      assert init + [last] == ps;
      LetsActive(last, limit);
      if Lets(limit)(last) { at := at + [|init|]; } else { assert Kept(init, limit) + [] == Kept(init, limit); }
    }
  }

  lemma LetsActive(p: Posting, limit: Limit)
    ensures Lets(limit)(p) <==> Active(p.urlId, limit)
  {
  }

  /** An empty list lets every document through, as an including and as an excluding limit. */
  lemma {:induction false} NoLimitKeepsAll(ps: seq<Posting>, exclude: bool)
    ensures Kept(ps, Limit([], exclude)) == ps
    decreases |ps|
  {
    if ps == [] {
    } else {
      NoLimitKeepsAll(ps[..|ps| - 1], exclude);
      assert ps == ps[..|ps| - 1] + [ps[|ps| - 1]];
    }
  }

  /** The same of two readings of a row: with the limit, and without one. */
  method UnpackTwice(s: seq<byte>, limit: Limit, exclude: bool, t: Template, save: bool, needCoords: bool, wide: bool,
                     ghost f: Format, ghost ws: seq<CacheWord>, ghost ps: seq<Posting>)
    returns (all: SectionList, limited: SectionList)
    requires Packable(f, ws, ps) && HeaderReadable(f, ws) && s == Row(f, ws) && (f.Simple? || |s| > 10)
    requires SortedUrls(limit.urls)
    ensures all.nsections <= all.sections.Length && all.ncoords <= all.coords.Length
    ensures limited.nsections <= limited.sections.Length && limited.ncoords <= limited.coords.Length
    ensures Views(limited.sections[..limited.nsections]) == FilterByUrl(Views(all.sections[..all.nsections]), limit)
    ensures needCoords ==>
              limited.coords[..limited.ncoords] ==
              SlicesKept(all.sections[..all.nsections], all.coords[..all.ncoords], limit)
  {
    hide Filled, Packable, HeaderReadable, Row, Returned, Kept, FilterByUrl, SlicesKept;
    limited := Unpack(s, limit, t, save, needCoords, wide, f, ws, ps);
    ghost var secs, cs := limited.sections[..limited.nsections], limited.coords[..limited.ncoords];
    all := Unpack(s, Limit([], exclude), t, save, needCoords, wide, f, ws, ps);
    SameLength(f, ws, ps);
    ghost var qs := ps[..Returned(f, ws)];
    NoLimitKeepsAll(qs, exclude);
    LimitPushdown(all.sections[..all.nsections], all.coords[..all.ncoords], qs, secs, cs, limit, save, t, s,
                  needCoords, needCoords);
  }

  // ---------- Header-only decoding ----------

  /** Without coordinates every section has the same url_id, minpos, maxpos, seclen and ncoords as with them. */
  lemma HeaderOnlyRefinesFull(full: seq<Section>, cs: seq<Coord2>, header: seq<Section>, hs: seq<Coord2>,
                              ks: seq<Posting>, save: bool, t: Template, s: seq<byte>)
    requires Filled(full, cs, ks, save, t, s, true) && Filled(header, hs, ks, save, t, s, false)
    ensures |full| == |header|
    ensures forall j :: 0 <= j < |full| ==> full[j].(packed := 0) == header[j].(packed := 0)
    ensures forall j :: 0 <= j < |full| ==> full[j].coord + full[j].ncoords <= |cs|
    ensures forall j, i :: 0 <= j < |full| && 0 <= i < full[j].ncoords ==>
              cs[full[j].coord + i].pos == Positions(ks[j].gaps)[i]
  {
    hide AllCoords, Codes, RunningSums;
    forall j | 0 <= j < |full|
      ensures full[j].(packed := 0) == header[j].(packed := 0)
      ensures full[j].coord + full[j].ncoords <= |cs|
      ensures forall i :: 0 <= i < full[j].ncoords ==> cs[full[j].coord + i].pos == Positions(ks[j].gaps)[i]
    {
      assert SectionIs(full[j], ks, j, save, t, s) && SectionIs(header[j], ks, j, save, t, s);
      CoordsAt(ks, j, save, t.order);
    }
  }

  // ---------- Inputs outside the domain ----------

  /** A one-byte record: the word occurs once, at position 1. */
  function Once(url: nat): CacheWord { CacheWord([0x61], 1, url, 1, [1]) }

  lemma OnceCarries(url: nat)
    ensures Carries(Once(url), OnceAt(url))
  {
    var gaps: seq<value> := [1];
    assert gaps[1..] == [];
  }

  function OnceAt(url: nat): Posting { Posting(url, [1]) }

  lemma ThreeCarry(a: nat, b: nat, c: nat)
    ensures CarriesAll([Once(a), Once(b), Once(c)], [OnceAt(a), OnceAt(b), OnceAt(c)])
  {
    hide Carries;
    OnceCarries(a);
    OnceCarries(b);
    OnceCarries(c);
  }

  lemma FourCarry(a: nat, b: nat, c: nat, d: nat)
    ensures CarriesAll([Once(a), Once(b), Once(c), Once(d)], [OnceAt(a), OnceAt(b), OnceAt(c), OnceAt(d)])
  {
    hide Carries;
    OnceCarries(a);
    OnceCarries(b);
    OnceCarries(c);
    OnceCarries(d);
  }

  /** Four consecutive documents from 65536 on: the single range is written, but not these documents are read back. */
  lemma UnreadableHeaderExists()
    ensures var ws := [Once(0x10000), Once(0x10001), Once(0x10002), Once(0x10003)];
            var ps := [OnceAt(0x10000), OnceAt(0x10001), OnceAt(0x10002), OnceAt(0x10003)];
            && Increasing(ws) && CarriesAll(ws, ps) && Choose(StatOf(ws), true) == SingleRange
            && ReadRow(Row(SingleRange, ws)) != Reading(ps, true)
  {
    hide Row, ReadRow, MaxDelta, Carries;
    var ws := [Once(0x10000), Once(0x10001), Once(0x10002), Once(0x10003)];
    FourCarry(0x10000, 0x10001, 0x10002, 0x10003);
    RoundTripIff(ws, [OnceAt(0x10000), OnceAt(0x10001), OnceAt(0x10002), OnceAt(0x10003)], true);
  }

  /** Documents 1, 3 and 5 with one occurrence each: the last one is not read back. */
  lemma LostLastRecordExists()
    ensures var ws := [Once(1), Once(3), Once(5)];
            Choose(StatOf(ws), true) == DeltaVariable
            && ReadRow(Row(DeltaVariable, ws)) == Reading([OnceAt(1), OnceAt(3)], true)
  {
    hide Row, ReadRow, Carries;
    var ws, ps := [Once(1), Once(3), Once(5)], [OnceAt(1), OnceAt(3), OnceAt(5)];
    assert Choose(StatOf(ws), true) == DeltaVariable;
    assert Record(DeltaVariable, 3, ws[2]) == [2, 1, 1];
    ThreeCarry(1, 3, 5);
    ChosenRowIsLong(ws, ps, true);
    ReadRowOf(DeltaVariable, ws, ps);
    assert ps[..2] == [OnceAt(1), OnceAt(3)];
  }

  /** Documents from 3000000 on: the first difference has no code, and fewer documents are read back. */
  lemma DroppedRecordExists()
    ensures var ws := [Once(3_000_000), Once(3_000_001), Once(3_000_003)];
            Choose(StatOf(ws), true) == DeltaVariable && |ReadRow(Row(DeltaVariable, ws)).postings| < 3
  {
    hide Row, ReadRow, Carries;
    var ws := [Once(3_000_000), Once(3_000_001), Once(3_000_003)];
    assert Choose(StatOf(ws), true) == DeltaVariable;
    ThreeCarry(3_000_000, 3_000_001, 3_000_003);
    LostRecord(ws, [OnceAt(3_000_000), OnceAt(3_000_001), OnceAt(3_000_003)]);
  }
}

/**
 * What the main loop of UdmSectionListBlobCoordsUnpack reads from arbitrary bytes, all documents let through,
 * and for which groups that is what was packed (dbmode-blob.c:1733-1802, 1851-2084).
 */
module ReadBack {
  import opened Bytes
  import opened Seqs
  import opened Coord
  import opened Rows
  import opened Sections
  import opened RowHeader
  import opened UrlScan
  import opened RowState
  import opened RowReader
  import opened Unpacker

  // ---------- The reader on arbitrary bytes ----------

  /** The documents read; not `defined` when a byte outside the row or a value that was never set is used. */
  datatype Reading = Reading(postings: seq<Posting>, defined: bool)

  /** Codes read one after another, and where reading stopped. */
  datatype Run = Run(gaps: seq<value>, next: nat, defined: bool)

  /** udm_coord_get skips such a byte without setting its result. */
  predicate Unset(s: seq<byte>, i: nat) { i < |s| && 0x80 <= s[i] < 0xC2 }

  function ReadGaps(s: seq<byte>, pos: nat, n: nat): (r: Run)
    requires pos <= |s|
    ensures pos <= r.next <= |s| && (r.gaps != [] <==> pos < r.next) && |r.gaps| <= n
    decreases n
  {
    if n == 0 then Run([], pos, true)
    else if Unset(s, pos) then Run([], pos, false)
    else
      var got := Get(0, s, pos, |s|);
      if got.nbytes == 0 then Run([], pos, true)
      else
        PutGet(0, s, pos, |s|);
        var r := ReadGaps(s, pos + got.nbytes, n - 1);
        Run([got.value] + r.gaps, r.next, r.defined)
  }

  /** The formats the main loop has a branch for. */
  predicate Known(kind: nat) { kind == 0 || 4 <= kind <= 10 }

  /** One document behind its url_id: the count and the codes; or the loop ends. */
  datatype Doc = Doc(posting: Posting, next: nat) | End(defined: bool)

  function ReadDoc(s: seq<byte>, pos: nat, url: nat): (d: Doc)
    ensures d.Doc? ==> pos < d.next <= |s| && d.posting.urlId == url
  {
    if Unset(s, pos) then End(false)
    else
      var count := Get(0, s, pos, |s|);
      var first := pos + count.nbytes;
      if count.nbytes == 0 || count.value == 0 then End(true)
      else if first >= |s| then End(false)
      else
        var run := ReadGaps(s, first, count.value);
        if !run.defined then End(false)
        else if run.gaps == [] then End(true)
        else Doc(Posting(url, run.gaps), run.next)
  }

  /** The main loop from its state before a record. */
  function ReadFrom(s: seq<byte>, pos: nat, st: Stat): (r: Reading)
    requires st.Stat?
    decreases |s| - pos
  {
    if pos >= Guard(s, st) then Reading([], true)
    else if !Known(st.kind) || !Readable(s, pos, st) || (st.kind == 5 && Unset(s, pos)) then Reading([], false)
    else
      var u := NextUrl(s, pos, st);
      if !u.ok then Reading([], true)
      else
        var d := ReadDoc(s, u.next, u.url);
        if d.End? then Reading([], d.defined)
        else
          var rest := ReadFrom(s, d.next, u.st);
          Reading([d.posting] + rest.postings, rest.defined)
  }

  function ReadRow(s: seq<byte>): (r: Reading) {
    var st := ReadHeader(s);
    if st.Truncated? then Reading([], false) else ReadFrom(s, st.body, st)
  }

  // ---------- Packed rows ----------

  lemma ReadGap(s: seq<byte>, pos: nat, gaps: seq<value>)
    requires gaps != [] && pos <= |s| && Codes(gaps) <= s[pos..]
    ensures var next := pos + |Put(gaps[0])|;
            && pos < |s| && !Unset(s, pos) && next <= |s| && Codes(gaps[1..]) <= s[next..]
            && Get(0, s, pos, |s|) == Scan(|Put(gaps[0])|, gaps[0])
            && next + |Codes(gaps[1..])| == pos + |Codes(gaps)|
  {
    hide Get, Put, Sum, Decode, GetQuick, Codes;
    FirstGap(0, gaps, s, pos);
    DropIsSlice(s, pos);
    ScanStep(0, gaps, s, pos, |s|);
  }

  lemma {:induction false} ReadGapsOf(s: seq<byte>, pos: nat, gaps: seq<value>)
    requires pos <= |s| && Codes(gaps) <= s[pos..]
    ensures ReadGaps(s, pos, |gaps|) == Run(gaps, pos + |Codes(gaps)|, true)
    ensures gaps != [] ==> pos < |s| && !Unset(s, pos)
    decreases |gaps|
  {
    hide Get, Put, Unset;
    if gaps == [] {
    } else {
      hide Codes;
      ReadGap(s, pos, gaps);
      ReadGapsOf(s, pos + |Put(gaps[0])|, gaps[1..]);
    }
  }

  lemma ReadDocOf(s: seq<byte>, pos: nat, p: Posting)
    requires pos <= |s| && Valid(p) && Codes([|p.gaps|] + p.gaps) <= s[pos..]
    ensures ReadDoc(s, pos, p.urlId) == Doc(p, pos + |Codes([|p.gaps|] + p.gaps)|)
  {
    hide Get, Put, Codes, ReadGaps, Sum, Decode, GetQuick;
    var codes := [|p.gaps|] + p.gaps;
    CodesTail(|p.gaps|, p.gaps);
    ReadGap(s, pos, codes);
    ReadGapsOf(s, pos + |Put(|p.gaps|)|, p.gaps);
  }

  /** From any record of a packed row on, the postings that the end guard lets through. */
  lemma {:induction false} ReadFromAt(s: seq<byte>, f: Format, ws: seq<CacheWord>, ps: seq<Posting>,
                                      k: nat, m: nat, st: Stat, pos: nat)
    requires At(s, f, ws, ps, k, m, st, pos) && |ws| == |ps| && ws != [] && k <= Returned(f, ws)
    requires st.Stat? && pos <= |s| && st.kind == TypeCode(f)
    ensures ReadFrom(s, pos, st) == Reading(ps[k..Returned(f, ws)], true)
    decreases |ws| - k
  {
    hide At, NextUrl, Readable, Codes, Returned, Guard, Carries, ReadDoc, Valid;
    GuardIsReturned(s, f, ws, ps, k, m, st, pos);
    if k == Returned(f, ws) {
    } else {
      var m' := LoopStep(s, f, ws, ps, k, m, st, pos);
      NotUnset(s, f, ws, ps, k, m, st, pos);
      CarriedIsValid(ws[k], ps[k]);
      var u := NextUrl(s, pos, st);
      ReadDocOf(s, u.next, ps[k]);
      ReadFromAt(s, f, ws, ps, k + 1, m', u.st, u.next + |Codes([|ps[k].gaps|] + ps[k].gaps)|);
      assert ps[k..Returned(f, ws)] == [ps[k]] + ps[k + 1..Returned(f, ws)];
    }
  }

  lemma CarriedIsValid(w: CacheWord, p: Posting)
    requires Carries(w, p)
    ensures Valid(p) && |p.gaps| < LIMIT
  {
  }

  lemma NotUnset(s: seq<byte>, f: Format, ws: seq<CacheWord>, ps: seq<Posting>, k: nat, m: nat, st: Stat, pos: nat)
    requires At(s, f, ws, ps, k, m, st, pos) && k < |ws| && st.Stat? && pos <= |s| && st.kind == TypeCode(f)
    ensures st.kind == 5 ==> !Unset(s, pos)
  {
    hide Body, Record, Codes, Increasing, UrlsFit, UrlState, MinRecord;
    if f.DeltaVariable? {
      RecordAt(s, f, ws, ps, k, m, st, pos);
      FitsAt(f, ws, k);
      var d := ws[k].urlId - PrevUrl(f, ws, k);
      assert UrlBytes(f, PrevUrl(f, ws, k), ws[k].urlId) == Put(d);
      DecodePut(0, d, s, pos);
    }
  }

  /** On the domain of the format a packed row gives back its postings, but for a short last delta record. */
  lemma ReadRowOf(f: Format, ws: seq<CacheWord>, ps: seq<Posting>)
    requires Packable(f, ws, ps) && HeaderReadable(f, ws) && (f.Simple? || |Row(f, ws)| > 10)
    ensures |ws| == |ps| && ReadRow(Row(f, ws)) == Reading(ps[..Returned(f, ws)], true)
  {
    hide At, Row, Returned, HeaderReadable, ReadHeader, ReadFrom, UrlState, TypeCode;
    var s := Row(f, ws);
    SameLength(f, ws, ps);
    StartOfRow(s, f, ws, ps);
    AtStart(s, f, ws, ps, ReadHeader(s));
    ReadFromAt(s, f, ws, ps, 0, 0, ReadHeader(s), ReadHeader(s).body);
    assert ps[0..Returned(f, ws)] == ps[..Returned(f, ws)];
  }

  // ---------- A misread header ----------

  /** What a reading that is not empty starts with. */
  lemma FirstRead(s: seq<byte>, pos: nat, st: Stat) returns (next: nat)
    requires st.Stat? && ReadFrom(s, pos, st).postings != []
    ensures pos < Guard(s, st) && Readable(s, pos, st)
    ensures var u, r := NextUrl(s, pos, st), ReadFrom(s, pos, st);
            && u.ok && u.next < next <= |s| && u.st.Stat?
            && r.postings[0].urlId == u.url && r.postings[1..] == ReadFrom(s, next, u.st).postings
  {
    hide ReadDoc, Guard, Readable;
    var u := NextUrl(s, pos, st);
    var d := ReadDoc(s, u.next, u.url);
    next := d.next;
    var rest := ReadFrom(s, next, u.st);
    assert ([d.posting] + rest.postings)[1..] == rest.postings;
  }

  /** An unreadable header is taken for the older one of eight bytes. */
  lemma MisreadType(f: Format, ws: seq<CacheWord>, ps: seq<Posting>)
    requires Packable(f, ws, ps) && !f.Simple? && !HeaderReadable(f, ws) && |Row(f, ws)| > 10
    ensures RawType(Row(f, ws)) == TypeCode(f)
  {
    hide Body, Codes, RawType;
    BodyStart(f, ws, ps);
    var body := Body(f, Base(f, ws[0].urlId), ws);
    PayloadStart(f, ws, body);
    RowIsMarkerThen(f, ws, HeaderData(f, ws) + body);
    MarkerThen(f, HeaderData(f, ws) + body);
  }

  /** Four bytes read two bytes too late: the upper half of one number and the lower half of the next. */
  function Across(a: nat, b: nat): nat { a / 0x10000 + 0x10000 * (b % 0x10000) }

  lemma ReadAcross(s: seq<byte>, i: nat, a: nat, b: nat)
    requires i + 4 <= |s| && Int4(a) <= s[i..] && Int4(b) <= s[i + 4..] && a < 0x1_0000_0000
    ensures i + 8 <= |s| && GetInt4(s, i + 2) == Across(a, b)
  {
    var x, y := s[i..], s[i + 4..];
    assert s[i + 2] == x[2] == a / 0x10000 % 256 && s[i + 3] == x[3] == a / 0x100_0000 % 256;
    assert s[i + 4] == y[0] == b % 256 && s[i + 5] == y[1] == b / 256 % 256;
    Digits256(a);
    Digits256(b);
  }

  lemma AcrossIsNotFirst(a: nat, b: nat)
    requires 0 < a < URL_LIMIT && a % 0x10000 == 0
    ensures Across(a, b) != a
  {
  }

  lemma MisreadSingleRange(ws: seq<CacheWord>, ps: seq<Posting>)
    requires Packable(SingleRange, ws, ps) && !HeaderReadable(SingleRange, ws) && |Row(SingleRange, ws)| > 10
    ensures ReadRow(Row(SingleRange, ws)).postings != ps
  {
    hide Body, Codes, RawType, Int4, GetInt4, Across, ReadFrom;
    var s, first, last := Row(SingleRange, ws), ws[0].urlId, ws[|ws| - 1].urlId;
    MisreadType(SingleRange, ws, ps);
    var body := Body(SingleRange, Base(SingleRange, first), ws);
    assert s[6..] == Int4(first) + (Int4(last) + body);
    assert s[10..] == Int4(last) + body;
    ReadAcross(s, 6, first, last);
    AcrossIsNotFirst(first, last);
    assert Carries(ws[0], ps[0]);
    var st := ReadHeader(s);
    if st.Stat? && ReadFrom(s, st.body, st).postings != [] {
      var next := FirstRead(s, st.body, st);
    }
  }

  lemma ShiftedDelta3(s: seq<byte>, first: nat)
    requires 0 < first < 0x100_0000 && first % 0x10000 == 0 && |s| >= 11 && Int3(first) <= s[6..]
    ensures GetInt3(s, 8) != first
  {
    var high := first / 0x10000;
    assert s[8] == s[6..][2] == Int3(first)[2] == high;
    var b: int, c: int := s[9], s[10];
    LowByte(s[8], 256 * high - b - 256 * c);
  }

  lemma LowByte(a: int, q: int)
    requires 0 < a < 256
    ensures a != 256 * q
  {
  }

  lemma MisreadDelta3(ws: seq<CacheWord>, ps: seq<Posting>)
    requires Packable(Delta3, ws, ps) && !HeaderReadable(Delta3, ws) && |Row(Delta3, ws)| > 10
    ensures ReadRow(Row(Delta3, ws)).postings != ps
  {
    hide Body, Codes, RawType, Int3, GetInt3, ReadFrom;
    var s, first := Row(Delta3, ws), ws[0].urlId;
    MisreadType(Delta3, ws, ps);
    BodyStart(Delta3, ws, ps);
    assert s[6..] == Body(Delta3, 0, ws);
    ShiftedDelta3(s, first);
    assert Carries(ws[0], ps[0]);
    var st := ReadHeader(s);
    if ReadFrom(s, st.body, st).postings != [] {
      var next := FirstRead(s, st.body, st);
    }
  }

  /** The range list: non-empty ranges with a gap between neighbours, the first being the leading run. */
  lemma {:induction false} RangesOrdered(ws: seq<CacheWord>)
    requires ws != [] && Increasing(ws)
    ensures var rs := Ranges(ws);
            && rs[0] == (ws[0].urlId, ws[0].urlId + RunLen(ws) - 1)
            && (forall k :: 0 <= k < |rs| ==> rs[k].0 <= rs[k].1 < URL_LIMIT)
            && (forall k :: 0 < k < |rs| ==> rs[k - 1].1 + 1 < rs[k].0)
            && (|rs| > 1 ==> RunLen(ws) < |ws| && ws[RunLen(ws)].urlId == rs[1].0)
    decreases |ws|
  {
    hide RunLen;
    var n, rs := RunLen(ws), Ranges(ws);
    var rest := ws[n..];
    RunIsConsecutive(ws);
    assert rs == [(ws[0].urlId, ws[n - 1].urlId)] + Ranges(rest);
    if rest == [] {
    } else {
      RangesOrdered(rest);
      assert forall k :: 0 < k < |rs| ==> rs[k] == Ranges(rest)[k - 1];
    }
  }

  lemma {:induction false} RangeAt(rs: seq<(nat, nat)>, k: nat, s: seq<byte>, i: nat)
    requires k < |rs| && i <= |s| && RangeBytes(rs) <= s[i..]
    ensures i + 8 * k + 8 <= |s| && Int4(rs[k].0) <= s[i + 8 * k..] && Int4(rs[k].1) <= s[i + 8 * k + 4..]
  {
    hide Int4;
    var lo, hi, rest := Int4(rs[0].0), Int4(rs[0].1), RangeBytes(rs[1..]);
    DropIsSlice(s, i);
    Assoc(lo, hi, rest);
    PrefixSplit(lo, hi + rest, s, i, |s|);
    PrefixSplit(hi, rest, s, i + 4, |s|);
    DropIsSlice(s, i + 8);
    if k == 0 {
    } else {
      RangeAt(rs[1..], k - 1, s, i + 8);
    }
  }

  lemma RangePlace(rs: seq<(nat, nat)>, k: nat, s: seq<byte>, p: nat)
    requires k < |rs| && |s| >= 10 && RangeBytes(rs) <= s[10..] && p == 10 + 8 * k
    ensures p + 8 <= |s| && Int4(rs[k].0) <= s[p..] && Int4(rs[k].1) <= s[p + 4..]
  {
    hide Int4, RangeBytes;
    RangeAt(rs, k, s, 10);
  }

  /** Both numbers of range k, which starts at p, as they are read two bytes too late. */
  lemma ReadRangeAcross(rs: seq<(nat, nat)>, k: nat, s: seq<byte>, p: nat)
    requires k < |rs| && |s| >= 10 && RangeBytes(rs) <= s[10..] && rs[k].0 < URL_LIMIT && rs[k].1 < URL_LIMIT
    requires p == 10 + 8 * k
    ensures p + 8 <= |s| && GetInt4(s, p + 2) == Across(rs[k].0, rs[k].1)
    ensures k + 1 < |rs| ==> p + 10 <= |s| && GetInt4(s, p + 6) == Across(rs[k].1, rs[k + 1].0)
  {
    hide Int4, GetInt4, Across, RangeBytes;
    RangePlace(rs, k, s, p);
    ReadAcross(s, p, rs[k].0, rs[k].1);
    if k + 1 < |rs| {
      RangePlace(rs, k + 1, s, p + 8);
      ReadAcross(s, p + 4, rs[k].1, rs[k + 1].0);
    }
  }

  /**
   * After i + 1 documents of the leading run were read as packed, k shifted ranges having been passed: the upper half
   * of the bound in use grows with every range, so it is never the end of the run, and the reading goes wrong there.
   */
  ghost predicate Astray(s: seq<byte>, ws: seq<CacheWord>, i: nat, k: nat, st: Stat) {
    && ws != [] && Increasing(ws) && i < RunLen(ws)
    && var rs := Ranges(ws);
       && |rs| >= 0x10000 && k + 1 < |rs| && |s| >= 10 && RangeBytes(rs) <= s[10..]
       && ws[0].urlId == Across(ws[0].urlId, rs[0].1)
       && st.Stat? && st.kind == 10 && st.cur == ws[0].urlId + i && st.rangePtr == 20 + 8 * k
       && st.rangeMax == Across(rs[k].1, rs[k + 1].0)
       && rs[k].1 / 0x10000 >= rs[0].1 / 0x10000 + k
  }

  lemma AcrossHalves(a: nat, b: nat)
    requires a < URL_LIMIT
    ensures Across(a, b) % 0x10000 == a / 0x10000 && Across(a, b) / 0x10000 == b % 0x10000
  {
  }

  /** Read shifted, a range that follows the last one without a gap starts in the next upper half. */
  lemma NextIsHigher(prev: nat, lo: nat, hi: nat)
    requires prev < URL_LIMIT && lo <= hi < URL_LIMIT && Across(lo, hi) == Across(prev, lo) + 1
    ensures hi / 0x10000 >= prev / 0x10000 + 1
  {
    AcrossHalves(lo, hi);
    AcrossHalves(prev, lo);
  }

  /** The end of the leading run is no bound that is used, or the range after it is misread too. */
  lemma EndIsMissed(first: nat, last: nat, bound: nat, lo: nat, hi: nat, k: nat, x: nat)
    requires first <= last < lo <= hi < URL_LIMIT && bound < URL_LIMIT && first == Across(first, last)
    requires bound / 0x10000 >= last / 0x10000 + k && Across(bound, x) == last
    requires k == 0 ==> bound == last && x == lo
    ensures k == 0 && Across(lo, hi) != lo
  {
    AcrossHalves(first, last);
    AcrossHalves(bound, x);
    AcrossHalves(lo, hi);
  }

  lemma {:induction false} StaysAstray(s: seq<byte>, ws: seq<CacheWord>, ps: seq<Posting>,
                                       i: nat, k: nat, st: Stat, pos: nat)
    requires Astray(s, ws, i, k, st) && |ps| == |ws| && forall j :: 0 <= j < |ws| ==> ps[j].urlId == ws[j].urlId
    ensures ReadFrom(s, pos, st).postings != ps[i + 1..]
    decreases |ws| - i
  {
    hide RunLen, Ranges, RangeBytes, Across, GetInt4, ReadFrom, Guard;
    var rs, r := Ranges(ws), ReadFrom(s, pos, st).postings;
    RangesOrdered(ws);
    RunIsConsecutive(ws);
    if r == ps[i + 1..] {
      var next := FirstRead(s, pos, st);
      var u := NextUrl(s, pos, st);
      assert u.url == ps[i + 1].urlId == ws[i + 1].urlId;
      ReadRangeAcross(rs, k + 1, s, 18 + 8 * k);
      if i + 1 == RunLen(ws) {
        if u.url != st.cur + 1 { EndIsMissed(rs[0].0, rs[0].1, rs[k].1, rs[1].0, rs[1].1, k, rs[k + 1].0); }
      } else {
        assert ps[i + 1..][1..] == ps[i + 2..];
        if st.cur == st.rangeMax && st.nranges != 0 {
          NextIsHigher(rs[k].1, rs[k + 1].0, rs[k + 1].1);
          StaysAstray(s, ws, ps, i + 1, k + 1, u.st, next);
        } else {
          StaysAstray(s, ws, ps, i + 1, k, u.st, next);
        }
      }
    }
  }

  lemma {:induction false} MultiRangeStart(ws: seq<CacheWord>, s: seq<byte>, body: seq<byte>)
    requires ws != [] && Increasing(ws) && |Ranges(ws)| % 0x10000 == 0 && |ws| < URL_LIMIT
    requires s == Marker(RangeMulti) + (Int4(|Ranges(ws)|) + RangeBytes(Ranges(ws)) + body)
    ensures |s| >= 12 && RangeBytes(Ranges(ws)) <= s[10..] && |Ranges(ws)| >= 0x10000
    ensures GetInt4(s, 8) == Across(|Ranges(ws)|, ws[0].urlId)
  {
    hide Int4, GetInt4, Marker, Ranges, RunLen, Across;
    RangesOrdered(ws);
    var rs, n, m := Ranges(ws), Int4(|Ranges(ws)|), Marker(RangeMulti);
    var table := RangeBytes(rs);
    assert s[10..] == table + body && s[6..] == n + table + body;
    RangeAt(rs, 0, s, 10);
    ReadAcross(s, 6, |rs|, rs[0].0);
  }

  lemma MultiRangeHeader(s: seq<byte>)
    requires RawType(s) == 10 && |s| >= 12
    ensures ReadHeader(s) == if GetInt4(s, 8) >= URL_LIMIT then Truncated
                             else Stat(10, 0, 0, 0, GetInt4(s, 8), 12, 12 + 8 * GetInt4(s, 8))
  {
    hide RawType, GetInt4;
  }

  lemma ShiftedRangesMislead(s: seq<byte>, ws: seq<CacheWord>, ps: seq<Posting>, pos: nat, st: Stat)
    requires ws != [] && Increasing(ws) && |ps| == |ws| && forall j :: 0 <= j < |ws| ==> ps[j].urlId == ws[j].urlId
    requires |s| >= 10 && RangeBytes(Ranges(ws)) <= s[10..] && |Ranges(ws)| >= 0x10000
    requires st.Stat? && st.kind == 10 && st.cur == st.rangeMax && st.nranges != 0 && st.rangePtr == 12
    ensures ReadFrom(s, pos, st).postings != ps
  {
    hide Int4, GetInt4, Across, ReadFrom, RunLen, Ranges, RangeBytes, Guard;
    RangesOrdered(ws);
    ReadRangeAcross(Ranges(ws), 0, s, 10);
    if ReadFrom(s, pos, st).postings == ps {
      var next := FirstRead(s, pos, st);
      var u := NextUrl(s, pos, st);
      assert u.url == ps[0].urlId == ws[0].urlId;
      assert ps[1..] == ps[0 + 1..];
      StaysAstray(s, ws, ps, 0, 0, u.st, next);
    }
  }

  lemma MultiRangeRow(ws: seq<CacheWord>)
    requires ws != []
    ensures Row(RangeMulti, ws) ==
            Marker(RangeMulti) + (Int4(|Ranges(ws)|) + RangeBytes(Ranges(ws)) + Body(RangeMulti, 0, ws))
  {
    hide Marker, Int4, Ranges, RangeBytes, Body;
    var n, body := Int4(|Ranges(ws)|) + RangeBytes(Ranges(ws)), Body(RangeMulti, 0, ws);
    Assoc(Marker(RangeMulti), n, body);
  }

  lemma RangeCount(ws: seq<CacheWord>, x: seq<byte>)
    requires ws != [] && HeaderData(RangeMulti, ws) <= x
    ensures |x| >= 2 && GetInt2(x, 0) == |Ranges(ws)| % 0x10000
  {
    hide Ranges, RangeBytes;
    assert Int4(|Ranges(ws)|) <= x;
    TwoBytes(|Ranges(ws)|, x);
  }

  lemma MisreadRangesType(ws: seq<CacheWord>)
    requires ws != [] && Increasing(ws) && |ws| < URL_LIMIT && !HeaderReadable(RangeMulti, ws)
    ensures RawType(Row(RangeMulti, ws)) == 10
  {
    hide Body, RawType, Ranges, RangeBytes, Marker, GetInt2;
    var x := HeaderData(RangeMulti, ws) + Body(RangeMulti, 0, ws);
    RowIsMarkerThen(RangeMulti, ws, x);
    RangeCount(ws, x);
    MarkerThen(RangeMulti, x);
  }

  /**
   * The count of ranges is misread as one whose upper half is the lower half of the first url_id; where that is
   * negative, reading is undefined. Otherwise other documents are read, whatever coordinates the entries hold.
   */
  lemma MisreadRangeMulti(ws: seq<CacheWord>, ps: seq<Posting>)
    requires ws != [] && Increasing(ws) && |ws| < URL_LIMIT && !HeaderReadable(RangeMulti, ws)
    requires |ps| == |ws| && forall j :: 0 <= j < |ws| ==> ps[j].urlId == ws[j].urlId
    ensures ReadRow(Row(RangeMulti, ws)).postings != ps
    ensures ReadHeader(Row(RangeMulti, ws)).Truncated? <==> ws[0].urlId % 0x10000 >= 0x8000
    ensures ws[0].urlId % 0x10000 >= 0x8000 ==> ReadRow(Row(RangeMulti, ws)) == Reading([], false)
  {
    hide Row, RawType, Int4, GetInt4, ReadFrom, Ranges, RangeBytes, Marker, ReadHeader, Increasing;
    var s := Row(RangeMulti, ws);
    MultiRangeRow(ws);
    MisreadRangesType(ws);
    MultiRangeStart(ws, s, Body(RangeMulti, 0, ws));
    MultiRangeHeader(s);
    MisreadCount(ws);
    var st := ReadHeader(s);
    if st.Stat? { ShiftedRangesMislead(s, ws, ps, st.body, st); }
  }

  lemma {:induction false} NoMoreRangesThanWords(ws: seq<CacheWord>)
    ensures |Ranges(ws)| <= |ws|
    decreases |ws|
  {
    hide RunLen;
    if ws == [] {
    } else {
      NoMoreRangesThanWords(ws[RunLen(ws)..]);
    }
  }

  lemma MisreadCount(ws: seq<CacheWord>)
    requires ws != [] && |ws| < URL_LIMIT && |Ranges(ws)| >= 0x10000
    ensures Across(|Ranges(ws)|, ws[0].urlId) != 0
    ensures Across(|Ranges(ws)|, ws[0].urlId) >= URL_LIMIT <==> ws[0].urlId % 0x10000 >= 0x8000
  {
    NoMoreRangesThanWords(ws);
    AcrossHalves(|Ranges(ws)|, ws[0].urlId);
  }

  lemma SameUrls(ws: seq<CacheWord>, ps: seq<Posting>)
    requires CarriesAll(ws, ps)
    ensures |ps| == |ws| && forall j :: 0 <= j < |ws| ==> ps[j].urlId == ws[j].urlId
  {
    forall j | 0 <= j < |ws| ensures ps[j].urlId == ws[j].urlId { assert Carries(ws[j], ps[j]); }
  }

  // ---------- A variable delta that has no code ----------

  /** The records that are written, with the url ids that the differences written add up to. */
  function Rebased(prev: nat, base: nat, ws: seq<CacheWord>): (rs: seq<CacheWord>)
    ensures |rs| <= |ws|
    decreases |ws|
  {
    if ws == [] then []
    else if Dropped(DeltaVariable, prev, ws[0]) then Rebased(ws[0].urlId, base, ws[1..])
    else
      var url := base + Minus(ws[0].urlId, prev);
      [ws[0].(urlId := url)] + Rebased(ws[0].urlId, url, ws[1..])
  }

  function RebasedPostings(prev: nat, base: nat, ws: seq<CacheWord>, ps: seq<Posting>): (rs: seq<Posting>)
    requires |ws| == |ps|
    ensures |rs| == |Rebased(prev, base, ws)|
    decreases |ws|
  {
    if ws == [] then []
    else if Dropped(DeltaVariable, prev, ws[0]) then RebasedPostings(ws[0].urlId, base, ws[1..], ps[1..])
    else
      var url := base + Minus(ws[0].urlId, prev);
      [ps[0].(urlId := url)] + RebasedPostings(ws[0].urlId, url, ws[1..], ps[1..])
  }

  /** Url ids above base whose differences all have a code. */
  ghost predicate CodableFrom(base: nat, ws: seq<CacheWord>)
    decreases |ws|
  {
    ws == [] || (base < ws[0].urlId < base + LIMIT && ws[0].urlId < URL_LIMIT && CodableFrom(ws[0].urlId, ws[1..]))
  }

  lemma {:induction false} CodableIsIncreasing(base: nat, ws: seq<CacheWord>)
    requires CodableFrom(base, ws)
    ensures Increasing(ws) && forall i :: 0 <= i < |ws| ==> base < ws[i].urlId
    ensures forall i :: 0 < i < |ws| ==> UrlFits(DeltaVariable, ws[i - 1].urlId, ws[i].urlId)
    ensures ws != [] ==> UrlFits(DeltaVariable, base, ws[0].urlId)
    decreases |ws|
  {
    if ws == [] {
    } else {
      CodableIsIncreasing(ws[0].urlId, ws[1..]);
      assert forall i :: 0 < i < |ws| ==> ws[i] == ws[1..][i - 1];
    }
  }

  /** The bytes written are the body of the rebased group, which is packable. */
  lemma {:induction false} BodyOfRebased(prev: nat, base: nat, ws: seq<CacheWord>, ps: seq<Posting>)
    requires Increasing(ws) && CarriesAll(ws, ps) && base <= prev && (ws != [] ==> prev < ws[0].urlId)
    ensures |ws| == |ps| && SameBody(prev, base, ws, ps)
    decreases |ws|
  {
    hide Increasing, SameBody, CarriesAll, Dropped;
    if ws == [] {
      NothingRebased(prev, base);
      NoPostings(ws, ps);
    } else {
      var url := base + Minus(ws[0].urlId, prev);
      LaterWords(ws, ps);
      if Dropped(DeltaVariable, prev, ws[0]) {
        BodyOfRebased(ws[0].urlId, base, ws[1..], ps[1..]);
        LostStep(prev, base, ws, ps);
      } else {
        BodyOfRebased(ws[0].urlId, url, ws[1..], ps[1..]);
        WrittenStep(prev, base, ws, ps);
      }
    }
  }

  ghost predicate SameBody(prev: nat, base: nat, ws: seq<CacheWord>, ps: seq<Posting>)
    requires |ws| == |ps|
  {
    var rs := Rebased(prev, base, ws);
    && Body(DeltaVariable, prev, ws) == Body(DeltaVariable, base, rs)
    && CodableFrom(base, rs) && CarriesAll(rs, RebasedPostings(prev, base, ws, ps))
  }

  lemma NothingRebased(prev: nat, base: nat)
    ensures SameBody(prev, base, [], [])
  {
  }

  lemma NoPostings(ws: seq<CacheWord>, ps: seq<Posting>)
    requires ws == [] && CarriesAll(ws, ps)
    ensures ps == []
  {
  }

  lemma LostStep(prev: nat, base: nat, ws: seq<CacheWord>, ps: seq<Posting>)
    requires ws != [] && |ws| == |ps| && Dropped(DeltaVariable, prev, ws[0])
    requires SameBody(ws[0].urlId, base, ws[1..], ps[1..])
    ensures SameBody(prev, base, ws, ps)
  {
    hide Dropped, Record, CodableFrom, CarriesAll;
    NoRecord(prev, ws[0]);
    BodyStep(prev, ws);
  }

  lemma WrittenStep(prev: nat, base: nat, ws: seq<CacheWord>, ps: seq<Posting>)
    requires ws != [] && CarriesAll(ws, ps) && base <= prev < ws[0].urlId < URL_LIMIT
    requires !Dropped(DeltaVariable, prev, ws[0])
    requires SameBody(ws[0].urlId, base + Minus(ws[0].urlId, prev), ws[1..], ps[1..])
    ensures SameBody(prev, base, ws, ps)
  {
    hide Dropped, Record, CodableFrom, CarriesAll, Body;
    var url, rs := base + Minus(ws[0].urlId, prev), Rebased(prev, base, ws);
    assert rs[0] == ws[0].(urlId := url) && rs[1..] == Rebased(ws[0].urlId, url, ws[1..]);
    BodyStep(prev, ws);
    BodyStep(base, rs);
    RebasedStep(prev, base, ws, ps);
  }

  lemma BodyStep(prev: nat, ws: seq<CacheWord>)
    requires ws != []
    ensures Body(DeltaVariable, prev, ws) ==
        Record(DeltaVariable, prev, ws[0]) + Body(DeltaVariable, ws[0].urlId, ws[1..])
  {
  }

  lemma LaterWords(ws: seq<CacheWord>, ps: seq<Posting>)
    requires ws != [] && Increasing(ws) && CarriesAll(ws, ps)
    ensures |ws| == |ps| && Increasing(ws[1..]) && CarriesAll(ws[1..], ps[1..]) && ws[0].urlId < URL_LIMIT
    ensures |ws| > 1 ==> ws[0].urlId < ws[1..][0].urlId
  {
    hide Carries;
  }

  lemma NoRecord(prev: nat, w: CacheWord)
    requires Dropped(DeltaVariable, prev, w)
    ensures Record(DeltaVariable, prev, w) == []
  {
  }

  /** If no record is lost, every difference has a code. */
  lemma {:induction false} NothingLost(prev: nat, base: nat, ws: seq<CacheWord>)
    requires Increasing(ws) && |Rebased(prev, base, ws)| == |ws|
    ensures ws != [] ==> UrlFits(DeltaVariable, prev, ws[0].urlId)
    ensures forall i :: 0 < i < |ws| ==> UrlFits(DeltaVariable, ws[i - 1].urlId, ws[i].urlId)
    decreases |ws|
  {
    if ws == [] {
    } else {
      NothingLost(ws[0].urlId, base + Minus(ws[0].urlId, prev), ws[1..]);
      assert forall i :: 0 < i < |ws| ==> ws[i] == ws[1..][i - 1];
    }
  }

  lemma RebasedStep(prev: nat, base: nat, ws: seq<CacheWord>, ps: seq<Posting>)
    requires ws != [] && CarriesAll(ws, ps) && base <= prev < ws[0].urlId && !Dropped(DeltaVariable, prev, ws[0])
    requires var url := base + Minus(ws[0].urlId, prev);
             CarriesAll(Rebased(ws[0].urlId, url, ws[1..]), RebasedPostings(ws[0].urlId, url, ws[1..], ps[1..]))
    ensures Record(DeltaVariable, prev, ws[0]) == Record(DeltaVariable, base, Rebased(prev, base, ws)[0])
    ensures CarriesAll(Rebased(prev, base, ws), RebasedPostings(prev, base, ws, ps))
    ensures ws[0].urlId < URL_LIMIT && CodableFrom(Rebased(prev, base, ws)[0].urlId, Rebased(prev, base, ws)[1..]) ==>
              CodableFrom(base, Rebased(prev, base, ws))
  {
    hide Put, TryPut;
    assert Carries(ws[0], ps[0]);
  }
}

/**
 * The rows of the blob index: one row per (word, section), in one of the url_id
 * compression formats (dbmode-blob.c, UdmBlobCachePack*).
 */
module Rows {
  import opened Bytes
  import opened Coord

  /** UDM_BLOB_CACHE_WORD: the coordinates of one word in one section of one document, already coded. */
  datatype CacheWord = CacheWord(word: seq<byte>, secno: byte, urlId: nat, nintags: nat, intags: seq<byte>)

  /** UdmBlobCacheCheckValue: entries without a url_id, section or coordinates are not taken (dbmode-blob.c:129-160). */
  predicate Refused(w: CacheWord) { w.urlId == 0 || w.secno == 0 || w.nintags == 0 }

  datatype Format =
    | Simple | SingleRange | DeltaVariable | Delta2 | Delta2Offset | Delta3 | Delta1Offset | RangeMulti

  function TypeCode(f: Format): (c: nat)
    ensures c == 0 || 4 <= c <= 10
  {
    match f
    case Simple => 0
    case SingleRange => 4
    case DeltaVariable => 5
    case Delta2 => 6
    case Delta2Offset => 7
    case Delta3 => 8
    case Delta1Offset => 9
    case RangeMulti => 10
  }

  const URL_LIMIT := 0x8000_0000

  /** Url ids of one (word, section) group after the cache sort: positive 31-bit numbers, strictly increasing. */
  ghost predicate Increasing(ws: seq<CacheWord>) {
    && (forall i :: 0 <= i < |ws| ==> 0 < ws[i].urlId < URL_LIMIT)
    && (forall i, j :: 0 <= i < j < |ws| ==> ws[i].urlId < ws[j].urlId)
  }

  // ---------- Records ----------

  function Minus(a: nat, b: nat): nat { if a >= b then a - b else 0 }

  /** udm_put_int_with_format on the url_id (Simple) or on its difference from the previous one. */
  function UrlBytes(f: Format, prev: nat, url: nat): seq<byte> {
    match f
    case Simple => Int4(url)
    case SingleRange => []
    case RangeMulti => []
    case DeltaVariable => TryPut(Minus(url, prev), 4)
    case Delta1Offset => [Minus(url, prev) % 256]
    case Delta2 => Int2(Minus(url, prev))
    case Delta2Offset => Int2(Minus(url, prev))
    case Delta3 => Int3(Minus(url, prev))
  }

  /** A record is left out when its coordinate count, or its variable url_id delta, has no code. */
  predicate Dropped(f: Format, prev: nat, w: CacheWord) {
    w.nintags >= LIMIT || (f.DeltaVariable? && Minus(w.urlId, prev) >= LIMIT)
  }

  function Record(f: Format, prev: nat, w: CacheWord): seq<byte> {
    if Dropped(f, prev, w) then [] else UrlBytes(f, prev, w.urlId) + Put(w.nintags) + w.intags
  }

  function Body(f: Format, prev: nat, ws: seq<CacheWord>): seq<byte>
    decreases |ws|
  {
    if ws == [] then [] else Record(f, prev, ws[0]) + Body(f, ws[0].urlId, ws[1..])
  }

  // ---------- Ranges ----------

  /** Length of the leading run of consecutive url ids. */
  function RunLen(ws: seq<CacheWord>): (n: nat)
    requires ws != []
    ensures 1 <= n <= |ws|
    decreases |ws|
  {
    if |ws| > 1 && ws[1].urlId <= ws[0].urlId + 1 then 1 + RunLen(ws[1..]) else 1
  }

  lemma {:induction false} RunIsConsecutive(ws: seq<CacheWord>)
    requires ws != [] && Increasing(ws)
    ensures forall i :: 0 <= i < RunLen(ws) ==> ws[i].urlId == ws[0].urlId + i
    ensures RunLen(ws) < |ws| ==> ws[RunLen(ws)].urlId > ws[RunLen(ws) - 1].urlId + 1
    decreases |ws|
  {
    if |ws| > 1 && ws[1].urlId <= ws[0].urlId + 1 {
      RunIsConsecutive(ws[1..]);
      assert forall i :: 1 <= i < RunLen(ws) ==> ws[i] == ws[1..][i - 1];
    }
  }

  function Ranges(ws: seq<CacheWord>): (rs: seq<(nat, nat)>)
    ensures |rs| <= |ws| && (ws != [] ==> rs != [])
    decreases |ws|
  {
    if ws == [] then [] else [(ws[0].urlId, ws[RunLen(ws) - 1].urlId)] + Ranges(ws[RunLen(ws)..])
  }

  function RangeBytes(rs: seq<(nat, nat)>): (b: seq<byte>)
    ensures |b| == 8 * |rs|
  {
    if rs == [] then [] else Int4(rs[0].0) + Int4(rs[0].1) + RangeBytes(rs[1..])
  }

  lemma {:induction false} RangesOnce(ws: seq<CacheWord>)
    requires ws != []
    ensures |Ranges(ws)| == 1 + |Ranges(ws[RunLen(ws)..])|
    ensures RangeBytes(Ranges(ws)) ==
            Int4(ws[0].urlId) + Int4(ws[RunLen(ws) - 1].urlId) + RangeBytes(Ranges(ws[RunLen(ws)..]))
  {
    hide Int4, RunLen;
    var head, tail := (ws[0].urlId, ws[RunLen(ws) - 1].urlId), Ranges(ws[RunLen(ws)..]);
    assert Ranges(ws) == [head] + tail;
    assert ([head] + tail)[1..] == tail;
  }

  // ---------- Rows ----------

  /** The value the first url_id delta is taken from. */
  function Base(f: Format, first: nat): (b: nat)
    ensures b <= first
  {
    match f
    case Delta2Offset => first / 0x10000 * 0x10000
    case Delta1Offset => first
    case _ => 0
  }

  function Marker(f: Format): (b: seq<byte>)
    ensures |b| == 6
  {
    Int4(0xFFFF_FFFF) + Int2(TypeCode(f))
  }

  function HeaderData(f: Format, ws: seq<CacheWord>): seq<byte>
    requires ws != []
  {
    match f
    case SingleRange => Int4(ws[0].urlId) + Int4(ws[|ws| - 1].urlId)
    case RangeMulti => Int4(|Ranges(ws)|) + RangeBytes(Ranges(ws))
    case Delta2Offset => Int2(ws[0].urlId / 0x10000)
    case Delta1Offset => Int4(ws[0].urlId)
    case _ => []
  }

  function Header(f: Format, ws: seq<CacheWord>): seq<byte>
    requires ws != []
  {
    if f.Simple? then [] else Marker(f) + HeaderData(f, ws)
  }

  function Row(f: Format, ws: seq<CacheWord>): seq<byte>
    requires ws != []
  {
    Header(f, ws) + Body(f, Base(f, ws[0].urlId), ws)
  }

  // ---------- Choosing the format ----------

  datatype WordStat = WordStat(minUrl: nat, maxUrl: nat, distinctMinusOne: nat, maxDelta: nat)

  /** The largest difference of neighbouring url ids, 0 for a single one. */
  function MaxDelta(ws: seq<CacheWord>): nat {
    if |ws| < 2 then 0 else
    var last := Minus(ws[|ws| - 1].urlId, ws[|ws| - 2].urlId);
    var d := MaxDelta(ws[..|ws| - 1]);
    if last > d then last else d
  }

  lemma {:induction false} MaxDeltaBounds(ws: seq<CacheWord>, i: nat)
    requires 0 < i < |ws|
    ensures Minus(ws[i].urlId, ws[i - 1].urlId) <= MaxDelta(ws)
  {
    if i < |ws| - 1 { MaxDeltaBounds(ws[..|ws| - 1], i); }
  }

  function StatOf(ws: seq<CacheWord>): WordStat
    requires ws != []
  {
    WordStat(ws[0].urlId, ws[|ws| - 1].urlId, |ws| - 1, MaxDelta(ws))
  }

  /** The branches of UdmBlobCachePackOneWordForBdict. */
  function Choose(st: WordStat, useCompr: bool): Format {
    var rangeSize := st.maxUrl - st.minUrl;
    var missing := rangeSize - st.distinctMinusOne;
    if !useCompr then Simple
    else if st.distinctMinusOne > 2 && rangeSize == st.distinctMinusOne then SingleRange
    else if missing + 1 < (rangeSize + 1) / 8 && rangeSize > 16 then RangeMulti
    else if st.distinctMinusOne > 1 && st.distinctMinusOne > rangeSize / 256 then DeltaVariable
    else if st.maxDelta <= 0xFFFF && st.minUrl <= 0xFFFF && st.distinctMinusOne > 2 then Delta2
    else if st.maxDelta <= 0xFFFF && st.minUrl >= 0xFFFF && st.distinctMinusOne > 3 then Delta2Offset
    else if st.maxDelta <= 0xFF_FFFF && st.minUrl <= 0xFF_FFFF && st.distinctMinusOne > 4 then Delta3
    else Simple
  }

  /** The url_id (or its delta) survives the width the format gives it. */
  ghost predicate UrlFits(f: Format, prev: nat, url: nat) {
    match f
    case Simple => true
    case SingleRange => url == prev + 1
    case RangeMulti => true
    case DeltaVariable => url < prev + LIMIT
    case Delta1Offset => url < prev + 0x100
    case Delta2 => url < prev + 0x1_0000
    case Delta2Offset => url < prev + 0x1_0000
    case Delta3 => url < prev + 0x100_0000
  }

  ghost predicate UrlsFit(f: Format, ws: seq<CacheWord>)
    requires ws != []
  {
    && (f.SingleRange? || UrlFits(f, Base(f, ws[0].urlId), ws[0].urlId))
    && (forall i :: 0 < i < |ws| ==> UrlFits(f, ws[i - 1].urlId, ws[i].urlId))
  }

  lemma {:induction false} SpreadAtLeastCount(ws: seq<CacheWord>)
    requires ws != [] && Increasing(ws)
    ensures ws[|ws| - 1].urlId - ws[0].urlId >= |ws| - 1
    ensures ws[|ws| - 1].urlId - ws[0].urlId == |ws| - 1 ==>
              forall i :: 0 < i < |ws| ==> ws[i].urlId == ws[i - 1].urlId + 1
  {
    if |ws| <= 1 {
    } else {
      var pre := ws[..|ws| - 1];
      SpreadAtLeastCount(pre);
      assert pre[|pre| - 1] == ws[|ws| - 2];
    }
  }

  /** Whatever the statistics choose is wide enough for every url_id, except possibly DeltaVariable. */
  lemma ChosenFormatFits(ws: seq<CacheWord>, useCompr: bool)
    requires ws != [] && Increasing(ws)
    ensures var f := Choose(StatOf(ws), useCompr);
            f.DeltaVariable? || UrlsFit(f, ws)
  {
    SpreadAtLeastCount(ws);
    forall i | 0 < i < |ws| ensures ws[i].urlId - ws[i - 1].urlId <= MaxDelta(ws) { MaxDeltaBounds(ws, i); }
  }

  /** What the six-byte header needs: the next two payload bytes are not both zero. */
  ghost predicate HeaderReadable(f: Format, ws: seq<CacheWord>)
    requires ws != []
  {
    match f
    case SingleRange => ws[0].urlId % 0x10000 != 0
    case Delta1Offset => ws[0].urlId % 0x10000 != 0
    case Delta3 => ws[0].urlId % 0x10000 != 0
    case RangeMulti => |Ranges(ws)| % 0x10000 != 0
    case Delta2Offset => ws[0].urlId >= 0x10000
    case _ => true
  }

  /**
   * Of the formats the statistics choose three can have an unreadable header: for such first url ids and range counts.
   */
  lemma ChosenHeaderReadable(ws: seq<CacheWord>, useCompr: bool)
    requires ws != [] && Increasing(ws)
    ensures var f := Choose(StatOf(ws), useCompr);
            f.SingleRange? || f.Delta3? || f.RangeMulti? || HeaderReadable(f, ws)
    ensures var f := Choose(StatOf(ws), useCompr);
            f.SingleRange? || f.Delta3? ==> (HeaderReadable(f, ws) <==> ws[0].urlId % 0x10000 != 0)
    ensures var f := Choose(StatOf(ws), useCompr);
            f.RangeMulti? ==> (HeaderReadable(f, ws) <==> |Ranges(ws)| % 0x10000 != 0)
  {
  }
}

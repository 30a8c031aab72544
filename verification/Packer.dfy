/** The methods that write the rows (dbmode-blob.c:924-1417). */
module Packer {
  import opened Bytes
  import opened Seqs
  import opened Coord
  import opened Rows

  /** UDM_DSTR: a growing byte buffer; Append returns the number of bytes it added. */
  class Dstr {
    var data: seq<byte>

    constructor ()
      ensures data == []
    {
      data := [];
    }

    method Append(b: seq<byte>) returns (n: nat)
      modifies this
      ensures data == old(data) + b && n == |b|
    {
      data := data + b;
      n := |b|;
    }
  }

  predicate SameGroup(a: CacheWord, b: CacheWord) { a.word == b.word && a.secno == b.secno }

  /** How many leading entries belong to the (word, section) of the first. */
  function GroupLen(ws: seq<CacheWord>): (n: nat)
    requires ws != []
    ensures 1 <= n <= |ws|
    ensures forall i :: 0 <= i < n ==> SameGroup(ws[i], ws[0])
    ensures n < |ws| ==> !SameGroup(ws[n], ws[0])
    decreases |ws|
  {
    if |ws| > 1 && SameGroup(ws[1], ws[0]) then 1 + GroupLen(ws[1..]) else 1
  }

  method OneWordStat(ws: seq<CacheWord>) returns (count: nat, st: WordStat)
    requires ws != [] && Increasing(ws[..GroupLen(ws)])
    ensures count == GroupLen(ws) && st == StatOf(ws[..count])
  {
    ghost var g := ws[..GroupLen(ws)];
    st := WordStat(ws[0].urlId, ws[0].urlId, 0, 0);
    count := 0;
    while count < |ws|
      invariant count <= |g| && st == StatOf(g[..if count == 0 then 1 else count])
    {
      var w := ws[count];
      if w.secno != ws[0].secno || w.word != ws[0].word { break; }
      if w.urlId != st.maxUrl {
        var delta := w.urlId - st.maxUrl;
        st := st.(distinctMinusOne := st.distinctMinusOne + 1);
        if delta > st.maxDelta { st := st.(maxDelta := delta); }
      }
      st := st.(maxUrl := w.urlId);
      assert g[..count + 1][..count] == g[..count];
      count := count + 1;
    }
    assert g[..count] == ws[..count];
  }

  /** udm_put_int_with_format: fixed widths 0 to 4, or 5 for the variable code. */
  function PutIntWithFormat(i: nat, format: nat): seq<byte>
    requires format <= 5
  {
    if format == 0 then []
    else if format == 1 then [i % 256]
    else if format == 2 then Int2(i)
    else if format == 3 then Int3(i)
    else if format == 4 then Int4(i)
    else TryPut(i, 4)
  }

  /** UdmBlobCachePackOneWordDocForBdict; `ok` is false where the source reports an error. */
  method PackDoc(buf: Dstr, urlId: nat, w: CacheWord, format: nat) returns (ok: bool)
    requires format <= 5
    modifies buf
    ensures buf.data == old(buf.data) +
              if w.nintags >= LIMIT || (format == 5 && urlId >= LIMIT) then []
              else PutIntWithFormat(urlId, format) + Put(w.nintags) + w.intags
  {
    var urlBytes := PutIntWithFormat(urlId, format);
    var countBytes := TryPut(w.nintags, 4);
    if countBytes == [] { return false; }
    var n := buf.Append(urlBytes);
    if n == 0 && format != 0 { return false; }
    n := buf.Append(countBytes);
    if n == 0 { return false; }
    n := buf.Append(w.intags);
    ok := n != 0;
  }

  lemma BodyStep(pre: seq<byte>, f: Format, prev: nat, ws: seq<CacheWord>, k: nat)
    requires k < |ws|
    ensures pre + Body(f, prev, ws[k..]) == pre + Record(f, prev, ws[k]) + Body(f, ws[k].urlId, ws[k + 1..])
  {
    hide Record;
    assert ws[k..][1..] == ws[k + 1..];
    Assoc(pre, Record(f, prev, ws[k]), Body(f, ws[k].urlId, ws[k + 1..]));
  }

  lemma BodyEnd(pre: seq<byte>, f: Format, prev: nat, ws: seq<CacheWord>)
    ensures pre + Body(f, prev, ws[|ws|..]) == pre && ws[0..] == ws
  {
  }

  /** One pass of the simple packer's loop. */
  method PackSimpleDoc(buf: Dstr, w: CacheWord)
    modifies buf
    ensures buf.data == old(buf.data) + Record(Simple, 0, w)
  {
    var countBytes := TryPut(w.nintags, 4);
    if countBytes == [] { return; }
    var n := buf.Append(Int4(w.urlId));
    n := buf.Append(countBytes);
    n := buf.Append(w.intags);
  }

  method PackSimple(ws: seq<CacheWord>, buf: Dstr)
    requires ws != [] && Increasing(ws)
    modifies buf
    ensures buf.data == old(buf.data) + Row(Simple, ws)
  {
    hide Record, Body;
    ghost var prev: nat := 0;
    RowParts(buf.data, Simple, ws);
    BodyEnd(buf.data, Simple, 0, ws);
    for k := 0 to |ws|
      invariant buf.data + Body(Simple, prev, ws[k..]) == old(buf.data) + Row(Simple, ws)
    {
      BodyStep(buf.data, Simple, prev, ws, k);
      SimpleIgnoresPrev(prev, ws[k]);
      PackSimpleDoc(buf, ws[k]);
      prev := ws[k].urlId;
    }
    BodyEnd(buf.data, Simple, prev, ws);
  }

  lemma SimpleIgnoresPrev(prev: nat, w: CacheWord)
    ensures Record(Simple, prev, w) == Record(Simple, 0, w)
  {
  }

  /** The width udm_put_int_with_format is called with. */
  function Width(f: Format): (n: nat)
    requires !f.Simple?
    ensures n <= 5
  {
    match f
    case SingleRange => 0
    case RangeMulti => 0
    case Delta1Offset => 1
    case Delta2 => 2
    case Delta2Offset => 2
    case Delta3 => 3
    case DeltaVariable => 5
  }

  lemma RecordBytes(f: Format, prev: nat, w: CacheWord, i: nat)
    requires !f.Simple? && prev <= w.urlId && (Width(f) == 0 || i == w.urlId - prev)
    ensures Record(f, prev, w) ==
            if w.nintags >= LIMIT || (Width(f) == 5 && i >= LIMIT) then []
            else PutIntWithFormat(i, Width(f)) + Put(w.nintags) + w.intags
  {
  }

  /** Records after the header, for the formats that share UdmBlobCachePackOneWordDocForBdict. */
  method PackDocs(ws: seq<CacheWord>, buf: Dstr, f: Format, first: nat)
    requires ws != [] && Increasing(ws) && first <= ws[0].urlId && !f.Simple?
    modifies buf
    ensures buf.data == old(buf.data) + Body(f, first, ws)
  {
    hide Record, Body, PutIntWithFormat, Put;
    var prev: nat := first;
    BodyEnd(buf.data, f, first, ws);
    for k := 0 to |ws|
      invariant k < |ws| ==> prev <= ws[k].urlId
      invariant buf.data + Body(f, prev, ws[k..]) == old(buf.data) + Body(f, first, ws)
    {
      BodyStep(buf.data, f, prev, ws, k);
      var delta := if Width(f) == 0 then 0 else ws[k].urlId - prev;
      RecordBytes(f, prev, ws[k], delta);
      var ok := PackDoc(buf, delta, ws[k], Width(f));
      prev := ws[k].urlId;
    }
    BodyEnd(buf.data, f, prev, ws);
  }

  /** UdmDSTRAppendCompressionType: types above 3 have a six-byte marker. */
  method AppendMarker(buf: Dstr, f: Format)
    requires !f.Simple?
    modifies buf
    ensures buf.data == old(buf.data) + Marker(f)
  {
    var n := buf.Append(Int4(0xFFFF_FFFF));
    n := buf.Append(Int2(TypeCode(f)));
  }

  /** Delta1Offset, Delta2, Delta3, and Delta2Offset when an offset is given. */
  method PackDeltaFixed(ws: seq<CacheWord>, buf: Dstr, deltaFormat: nat, offset: nat)
    requires ws != [] && Increasing(ws) && 1 <= deltaFormat <= 3
    requires offset == 0 || offset == ws[0].urlId
    requires deltaFormat == 1 ==> offset != 0
    requires deltaFormat == 3 ==> offset == 0
    modifies buf
    ensures buf.data == old(buf.data) +
              Row(if deltaFormat == 1 then Delta1Offset
                  else if offset != 0 then Delta2Offset
                  else if deltaFormat == 2 then Delta2 else Delta3, ws)
  {
    ghost var before := buf.data;
    var f, prev: nat;
    if deltaFormat == 1 {
      f, prev := Delta1Offset, offset;
      AppendMarker(buf, f);
      var n := buf.Append(Int4(offset));
    } else if offset == 0 {
      f, prev := if deltaFormat == 2 then Delta2 else Delta3, 0;
      AppendMarker(buf, f);
    } else {
      f, prev := Delta2Offset, offset / 0x10000 * 0x10000;
      AppendMarker(buf, f);
      var n := buf.Append(Int2(offset / 0x10000));
    }
    assert buf.data == before + Header(f, ws);
    RowParts(before, f, ws);
    PackDocs(ws, buf, f, prev);
  }

  lemma RowParts(pre: seq<byte>, f: Format, ws: seq<CacheWord>)
    requires ws != []
    ensures pre + Header(f, ws) + Body(f, Base(f, ws[0].urlId), ws) == pre + Row(f, ws)
  {
    hide Header, Body;
    Assoc(pre, Header(f, ws), Body(f, Base(f, ws[0].urlId), ws));
  }

  method PackDeltaVariable(ws: seq<CacheWord>, buf: Dstr)
    requires ws != [] && Increasing(ws)
    modifies buf
    ensures buf.data == old(buf.data) + Row(DeltaVariable, ws)
  {
    AppendMarker(buf, DeltaVariable);
    PackDocs(ws, buf, DeltaVariable, 0);
  }

  method PackSingleRange(ws: seq<CacheWord>, st: WordStat, buf: Dstr)
    requires ws != [] && Increasing(ws) && st == StatOf(ws)
    modifies buf
    ensures buf.data == old(buf.data) + Row(SingleRange, ws)
  {
    ghost var before := buf.data;
    AppendMarker(buf, SingleRange);
    var n := buf.Append(Int4(st.minUrl));
    n := buf.Append(Int4(st.maxUrl));
    assert buf.data == before + Header(SingleRange, ws);
    RowParts(before, SingleRange, ws);
    PackDocs(ws, buf, SingleRange, 0);
  }

  lemma RunLenStep(ws: seq<CacheWord>, k: nat, m: nat)
    requires k <= m && m + 1 < |ws| && ws[m + 1].urlId <= ws[m].urlId + 1
    requires RunLen(ws[m..]) + (m - k) == RunLen(ws[k..])
    ensures RunLen(ws[m + 1..]) + (m + 1 - k) == RunLen(ws[k..])
  {
    assert ws[m..][1..] == ws[m + 1..];
  }

  lemma RangesStep(ws: seq<CacheWord>, k: nat, m: nat)
    requires k <= m < |ws| && RunLen(ws[k..]) == m + 1 - k
    ensures |Ranges(ws[k..])| == 1 + |Ranges(ws[m + 1..])|
    ensures RangeBytes(Ranges(ws[k..])) == Int4(ws[k].urlId) + Int4(ws[m].urlId) + RangeBytes(Ranges(ws[m + 1..]))
  {
    hide Int4, RangeBytes, Ranges, RunLen;
    RangesOnce(ws[k..]);
    assert ws[k..][m + 1 - k..] == ws[m + 1..];
  }

  /** The inner loop of the range writer: the last entry of the run that starts at k. */
  method RunEnd(ws: seq<CacheWord>, k: nat) returns (w: nat)
    requires k < |ws|
    ensures k <= w < |ws| && RunLen(ws[k..]) == w + 1 - k
  {
    w := k;
    while !(w + 1 == |ws| || ws[w + 1].urlId > ws[w].urlId + 1)
      invariant k <= w < |ws| && RunLen(ws[w..]) + (w - k) == RunLen(ws[k..])
      decreases |ws| - w
    {
      RunLenStep(ws, k, w);
      w := w + 1;
    }
  }

  /** The range list of the multi-range header; returns how many ranges were written. */
  method AppendRanges(ws: seq<CacheWord>, buf: Dstr) returns (nranges: nat)
    requires ws != []
    modifies buf
    ensures buf.data == old(buf.data) + RangeBytes(Ranges(ws)) && nranges == |Ranges(ws)|
  {
    nranges := 0;
    var w := 0;
    assert ws[0..] == ws;
    while w < |ws|
      invariant w <= |ws| && nranges + |Ranges(ws[w..])| == |Ranges(ws)|
      invariant buf.data + RangeBytes(Ranges(ws[w..])) == old(buf.data) + RangeBytes(Ranges(ws))
    {
      ghost var before := buf.data;
      var last := RunEnd(ws, w);
      var n := buf.Append(Int4(ws[w].urlId));
      n := buf.Append(Int4(ws[last].urlId));
      RangesStep(ws, w, last);
      Assoc4(before, Int4(ws[w].urlId), Int4(ws[last].urlId), RangeBytes(Ranges(ws[last + 1..])));
      nranges := nranges + 1;
      w := last + 1;
    }
  }

  lemma Patched(a: seq<byte>, b: seq<byte>, c: seq<byte>)
    ensures (a + b + c)[..|a|] == a && (a + b + c)[|a| + |b|..] == c
  {
  }

  method PackRangeMulti(ws: seq<CacheWord>, buf: Dstr)
    requires ws != [] && Increasing(ws)
    modifies buf
    ensures buf.data == old(buf.data) + Row(RangeMulti, ws)
  {
    ghost var start := buf.data;
    AppendMarker(buf, RangeMulti);
    var offset := |buf.data|;
    ghost var before := buf.data;
    var n := buf.Append(Int4(0));
    var nranges := AppendRanges(ws, buf);
    // udm_put_int4 over the reserved place
    Patched(before, Int4(0), RangeBytes(Ranges(ws)));
    buf.data := buf.data[..offset] + Int4(nranges) + buf.data[offset + 4..];
    assert buf.data == start + Header(RangeMulti, ws);
    RowParts(start, RangeMulti, ws);
    PackDocs(ws, buf, RangeMulti, 0);
  }

  /** UdmBlobCachePackOneWordForBdict on the entries from the current one to the end of the cache. */
  method PackOneWord(ws: seq<CacheWord>, buf: Dstr, useCompr: bool) returns (count: nat)
    requires ws != [] && Increasing(ws[..GroupLen(ws)])
    modifies buf
    ensures count == GroupLen(ws)
    ensures var g := ws[..count];
            buf.data == old(buf.data) + Row(Choose(StatOf(g), useCompr), g)
  {
    var st;
    count, st := OneWordStat(ws);
    var g := ws[..count];
    if useCompr {
      var rangeSize := st.maxUrl - st.minUrl;
      var missing := rangeSize - st.distinctMinusOne;
      if st.distinctMinusOne > 2 && rangeSize == st.distinctMinusOne {
        PackSingleRange(g, st, buf);
        return;
      } else if missing + 1 < (rangeSize + 1) / 8 && rangeSize > 16 {
        PackRangeMulti(g, buf);
        return;
      } else if st.distinctMinusOne > 1 && st.distinctMinusOne > rangeSize / 256 {
        PackDeltaVariable(g, buf);
        return;
      } else if st.maxDelta <= 0xFFFF && st.minUrl <= 0xFFFF && st.distinctMinusOne > 2 {
        PackDeltaFixed(g, buf, 2, 0);
        return;
      } else if st.maxDelta <= 0xFFFF && st.minUrl >= 0xFFFF && st.distinctMinusOne > 3 {
        PackDeltaFixed(g, buf, 2, st.minUrl);
        return;
      } else if st.maxDelta <= 0xFF_FFFF && st.minUrl <= 0xFF_FFFF && st.distinctMinusOne > 4 {
        PackDeltaFixed(g, buf, 3, 0);
        return;
      }
    }
    PackSimple(g, buf);
  }
}

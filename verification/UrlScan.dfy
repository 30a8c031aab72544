/** The url_id of each record, in every format (dbmode-blob.c:1909-1987). */
module UrlScan {
  import opened Bytes
  import opened Seqs
  import opened Coord
  import opened Rows
  import opened Sections
  import opened RowHeader

  datatype UrlStep = UrlStep(ok: bool, url: nat, next: nat, st: Stat)

  predicate RangeKind(kind: nat) { kind == 4 || kind == 10 }

  /** What the main loop's guard and the range table make readable. */
  predicate Readable(s: seq<byte>, pos: nat, st: Stat) {
    && st.Stat?
    && (if RangeKind(st.kind) then pos <= |s| else pos + 6 <= |s|)
    && (st.kind == 10 && st.cur == st.rangeMax && st.nranges != 0 ==> st.rangePtr + 8 <= |s|)
  }

  const SIZE_MAX := 0xFFFF_FFFF_FFFF_FFFF

  function NextUrl(s: seq<byte>, pos: nat, st: Stat): (r: UrlStep)
    requires Readable(s, pos, st)
  {
    if st.kind == 4 then UrlStep(true, st.cur, pos, st.(cur := st.cur + 1))
    else if st.kind == 10 then
      if st.cur == st.rangeMax && st.nranges != 0 then
        var lo, hi := GetInt4(s, st.rangePtr), GetInt4(s, st.rangePtr + 4);
        UrlStep(true, lo, pos, st.(cur := lo, rangeMin := lo, rangeMax := hi, nranges := st.nranges - 1,
                                   rangePtr := st.rangePtr + 8))
      else
        // the test on nranges decrements it even when it is zero
        var left := if st.cur == st.rangeMax then SIZE_MAX else st.nranges;
        UrlStep(true, st.cur + 1, pos, st.(cur := st.cur + 1, nranges := left))
    else if st.kind == 0 then UrlStep(true, GetInt4(s, pos), pos + 4, st)
    else
      var d :=
        if st.kind == 5 then Get(0, s, pos, |s|)
        else if st.kind == 9 then Scan(1, s[pos])
        else if st.kind == 8 then Scan(3, GetInt3(s, pos))
        else Scan(2, GetInt2(s, pos));
      if d.nbytes == 0 then UrlStep(false, 0, pos, st)
      else UrlStep(true, st.cur + d.value, pos + d.nbytes, st.(cur := st.cur + d.value))
  }

  /** The url_id before record k. */
  function PrevUrl(f: Format, ws: seq<CacheWord>, k: nat): nat
    requires ws != [] && k <= |ws|
  {
    if k == 0 then Base(f, ws[0].urlId) else ws[k - 1].urlId
  }

  /** Before record k: m documents are left in the current range, and the range table holds those after it. */
  ghost predicate InRanges(s: seq<byte>, ws: seq<CacheWord>, k: nat, m: nat, st: Stat) {
    && st.Stat? && k + m <= |ws| && st.rangePtr <= |s|
    && (forall j :: k <= j < k + m ==> ws[j].urlId == st.cur + 1 + (j - k))
    && st.rangeMax == st.cur + m
    && st.nranges == |Ranges(ws[k + m..])|
    && RangeBytes(Ranges(ws[k + m..])) <= s[st.rangePtr..]
  }

  ghost predicate UrlState(s: seq<byte>, f: Format, ws: seq<CacheWord>, k: nat, m: nat, st: Stat)
    requires ws != [] && k <= |ws|
  {
    && st.Stat? && st.kind == TypeCode(f)
    && match f
       case Simple => true
       case SingleRange => st.cur == ws[0].urlId + k
       case RangeMulti => InRanges(s, ws, k, m, st)
       case _ => st.cur == PrevUrl(f, ws, k)
  }

  lemma RangeTableStep(s: seq<byte>, ws: seq<CacheWord>, k: nat, st: Stat)
    requires k < |ws| && Increasing(ws) && InRanges(s, ws, k, 0, st)
    ensures st.nranges != 0 && st.rangePtr + 8 <= |s|
    ensures GetInt4(s, st.rangePtr) == ws[k].urlId
    ensures var n := RunLen(ws[k..]);
            && GetInt4(s, st.rangePtr + 4) == ws[k].urlId + n - 1
            && |Ranges(ws[k..])| == 1 + |Ranges(ws[k + n..])|
            && RangeBytes(Ranges(ws[k + n..])) <= s[st.rangePtr + 8..]
            && forall j :: k <= j < k + n ==> ws[j].urlId == ws[k].urlId + (j - k)
  {
    hide Int4, GetInt4, RangeBytes, Ranges, RunLen;
    var g := ws[k..];
    var n := RunLen(g);
    RunIsConsecutive(g);
    RangesOnce(g);
    assert g[n..] == ws[k + n..];
    assert forall j :: k <= j < k + n ==> ws[j] == g[j - k];
    var lo, hi, rest := Int4(g[0].urlId), Int4(g[n - 1].urlId), RangeBytes(Ranges(g[n..]));
    var p := st.rangePtr;
    assert ws[k + 0..] == g;
    DropIsSlice(s, p);
    Assoc(lo, hi, rest);
    PrefixSplit(lo, hi + rest, s, p, |s|);
    PrefixSplit(hi, rest, s, p + 4, |s|);
    DropIsSlice(s, p + 8);
    Int4RoundTrip(g[0].urlId, s, p);
    Int4RoundTrip(g[n - 1].urlId, s, p + 4);
  }

  lemma RangeMultiStep(s: seq<byte>, ws: seq<CacheWord>, k: nat, m: nat, st: Stat, pos: nat) returns (m': nat)
    requires k < |ws| && Increasing(ws) && pos <= |s| && st.Stat? && st.kind == 10 && InRanges(s, ws, k, m, st)
    ensures Readable(s, pos, st)
    ensures var r := NextUrl(s, pos, st);
            r.ok && r.url == ws[k].urlId && r.next == pos && r.st.Stat? && r.st.kind == 10
              && InRanges(s, ws, k + 1, m', r.st)
  {
    hide GetInt4, RangeBytes, Ranges, RunLen;
    if m == 0 {
      RangeTableStep(s, ws, k, st);
      m' := RunLen(ws[k..]) - 1;
      assert k + RunLen(ws[k..]) == k + 1 + m';
    } else {
      m' := m - 1;
      assert k + m == k + 1 + m';
    }
  }

  lemma DeltaStep(s: seq<byte>, f: Format, prev: nat, url: nat, st: Stat, pos: nat)
    requires !f.Simple? && !f.SingleRange? && !f.RangeMulti? && prev <= url && UrlFits(f, prev, url)
    requires pos + 6 <= |s| && UrlBytes(f, prev, url) <= s[pos..]
    requires st.Stat? && st.kind == TypeCode(f) && st.cur == prev
    ensures NextUrl(s, pos, st) == UrlStep(true, url, pos + |UrlBytes(f, prev, url)|, st.(cur := url))
  {
    hide Int2, Int3, GetInt2, GetInt3, Put, Get;
    match f
    case DeltaVariable =>
      DropIsSlice(s, pos);
      GetPut(0, url - prev, s, pos, |s|);
    case Delta1Offset => assert s[pos] == s[pos..][0];
    case Delta3 => Int3RoundTrip(url - prev, s, pos);
    case Delta2 => Int2RoundTrip(url - prev, s, pos);
    case Delta2Offset => Int2RoundTrip(url - prev, s, pos);
    case Simple =>
    case SingleRange =>
    case RangeMulti =>
  }

  /** The next url_id is that of record k, and the state is right for record k + 1. */
  lemma UrlStepCorrect(s: seq<byte>, f: Format, ws: seq<CacheWord>, k: nat, m: nat, st: Stat, pos: nat)
    returns (m': nat)
    requires k < |ws| && Increasing(ws) && UrlsFit(f, ws) && UrlState(s, f, ws, k, m, st)
    requires if f.SingleRange? || f.RangeMulti? then pos <= |s| else pos + 6 <= |s|
    requires UrlBytes(f, PrevUrl(f, ws, k), ws[k].urlId) <= s[pos..]
    ensures Readable(s, pos, st)
    ensures var r := NextUrl(s, pos, st);
            && r.ok && r.url == ws[k].urlId && r.next == pos + |UrlBytes(f, PrevUrl(f, ws, k), ws[k].urlId)|
            && UrlState(s, f, ws, k + 1, m', r.st)
  {
    hide Int4, GetInt4, RangeBytes, Ranges, RunLen, Int2, Int3, GetInt2, GetInt3, Put, Get, TryPut;
    m' := 0;
    match f
    case RangeMulti => m' := RangeMultiStep(s, ws, k, m, st, pos);
    case SingleRange => ConsecutiveAt(ws, k);
    case Simple => Int4RoundTrip(ws[k].urlId, s, pos);
    case _ => DeltaStep(s, f, PrevUrl(f, ws, k), ws[k].urlId, st, pos);
  }

  lemma {:induction false} ConsecutiveAt(ws: seq<CacheWord>, k: nat)
    requires k < |ws| && UrlsFit(SingleRange, ws)
    ensures ws[k].urlId == ws[0].urlId + k
  {
    if k == 0 {
    } else {
      ConsecutiveAt(ws, k - 1);
    }
  }
}

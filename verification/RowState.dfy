/** Where the unpacker stands in a packed row (dbmode-blob.c:1805-1848 and the main loop). */
module RowState {
  import opened Bytes
  import opened Seqs
  import opened Coord
  import opened Rows
  import opened Sections
  import opened RowHeader
  import opened UrlScan

  /** UdmExpectedSectionCount: how many sections a row of this length can hold. */
  function ExpectedSectionCount(kind: nat, length: nat): nat {
    match kind
    case 0 => length / 6
    case 5 => length / 3
    case 4 => length / 2
    case 10 => length / 2
    case 9 => length / 3
    case 6 => length / 4
    case 7 => length / 4
    case 8 => length / 5
    case _ => length
  }

  predicate DeltaFormat(f: Format) { !f.Simple? && !f.SingleRange? && !f.RangeMulti? }

  function MinRecord(f: Format): (n: nat)
    ensures n >= 2
  {
    match f
    case Simple => 6
    case SingleRange => 2
    case RangeMulti => 2
    case DeltaVariable => 3
    case Delta1Offset => 3
    case Delta2 => 4
    case Delta2Offset => 4
    case Delta3 => 5
  }

  lemma ExpectedGrows(f: Format, a: nat, b: nat)
    requires a + MinRecord(f) <= b
    ensures ExpectedSectionCount(TypeCode(f), a) + 1 <= ExpectedSectionCount(TypeCode(f), b)
  {
  }

  lemma ExpectedMonotone(f: Format, a: nat, b: nat)
    requires a <= b
    ensures ExpectedSectionCount(TypeCode(f), a) <= ExpectedSectionCount(TypeCode(f), b)
  {
  }

  /**
   * How many documents a search gets back: a delta format loses its last record when
   * that record is shorter than six bytes, because of the end guard.
   */
  function Returned(f: Format, ws: seq<CacheWord>): (n: nat)
    requires ws != []
    ensures |ws| - 1 <= n <= |ws|
  {
    var last := |ws| - 1;
    if DeltaFormat(f) && |Record(f, PrevUrl(f, ws, last), ws[last])| < 6 then last else |ws|
  }

  /** Before record k of a packed row: the rest of the bytes are the rest of the records. */
  ghost predicate At(s: seq<byte>, f: Format, ws: seq<CacheWord>, ps: seq<Posting>, k: nat, m: nat, st: Stat,
                     pos: nat) {
    && Packable(f, ws, ps) && k <= |ws| && pos <= |s|
    && UrlState(s, f, ws, k, m, st)
    && s[pos..] == Body(f, PrevUrl(f, ws, k), ws[k..])
  }

  /** The end guard of the main loop: last_urlid_start. */
  function Guard(s: seq<byte>, st: Stat): int
    requires st.Stat?
  {
    if RangeKind(st.kind) then |s| - 1 else |s| - 5
  }

  lemma FitsAt(f: Format, ws: seq<CacheWord>, k: nat)
    requires k < |ws| && Increasing(ws) && UrlsFit(f, ws)
    ensures PrevUrl(f, ws, k) <= ws[k].urlId
    ensures f.SingleRange? || UrlFits(f, PrevUrl(f, ws, k), ws[k].urlId)
  {
  }

  /** The bytes of record k: url_id, then the codes of the count and of the gaps. */
  lemma RecordAt(s: seq<byte>, f: Format, ws: seq<CacheWord>, ps: seq<Posting>, k: nat, m: nat, st: Stat, pos: nat)
    requires At(s, f, ws, ps, k, m, st, pos) && k < |ws|
    ensures Carries(ws[k], ps[k])
    ensures var u := UrlBytes(f, PrevUrl(f, ws, k), ws[k].urlId);
            var codes := Codes([|ps[k].gaps|] + ps[k].gaps);
            && |Record(f, PrevUrl(f, ws, k), ws[k])| == |u| + |codes| >= MinRecord(f)
            && u <= s[pos..] && pos + |u| + |codes| <= |s|
            && codes <= s[pos + |u|..]
            && s[pos + |u| + |codes|..] == Body(f, ws[k].urlId, ws[k + 1..])
  {
    hide Put, Int4, Int2, Int3, Codes, UrlBytes, UrlsFit, Increasing;
    assert Carries(ws[k], ps[k]);
    var prev := PrevUrl(f, ws, k);
    FitsAt(f, ws, k);
    var u := UrlBytes(f, prev, ws[k].urlId);
    var codes := Codes([|ps[k].gaps|] + ps[k].gaps);
    RecordCodes(f, prev, ws[k], ps[k]);
    var rest := Body(f, ws[k].urlId, ws[k + 1..]);
    assert ws[k..][0] == ws[k] && ws[k..][1..] == ws[k + 1..];
    Assoc(u, codes, rest);
    assert s[pos..] == u + (codes + rest);
    Suffix(u, codes + rest, s, pos);
    Suffix(codes, rest, s, pos + |u|);
  }

  lemma RecordCodes(f: Format, prev: nat, w: CacheWord, p: Posting)
    requires Carries(w, p) && prev <= w.urlId && (f.SingleRange? || UrlFits(f, prev, w.urlId))
    ensures var u, codes := UrlBytes(f, prev, w.urlId), Codes([|p.gaps|] + p.gaps);
            Record(f, prev, w) == u + codes && |u| + |codes| >= MinRecord(f)
  {
    hide Put, Int4, Int2, Int3;
    var g := [|p.gaps|] + p.gaps;
    assert g[0] == |p.gaps| && g[1..] == p.gaps;
    Assoc(UrlBytes(f, prev, w.urlId), Put(|p.gaps|), Codes(p.gaps));
  }

  lemma AfterRecord(s: seq<byte>, f: Format, ws: seq<CacheWord>, ps: seq<Posting>, k: nat, m: nat, st: Stat, pos: nat)
    requires At(s, f, ws, ps, k, m, st, pos)
    ensures k < |ws| ==> |s| - pos == |Record(f, PrevUrl(f, ws, k), ws[k])| + |Body(f, ws[k].urlId, ws[k + 1..])|
    ensures k < |ws| ==> |Record(f, PrevUrl(f, ws, k), ws[k])| >= MinRecord(f)
    ensures k == |ws| ==> |s| == pos
  {
    hide Record, Increasing, UrlState;
    if k < |ws| {
      RecordAt(s, f, ws, ps, k, m, st, pos);
    }
  }

  /** The end guard lets through exactly the records that are returned. */
  lemma GuardIsReturned(s: seq<byte>, f: Format, ws: seq<CacheWord>, ps: seq<Posting>, k: nat, m: nat, st: Stat,
                        pos: nat)
    requires At(s, f, ws, ps, k, m, st, pos)
    ensures pos < Guard(s, st) <==> k < Returned(f, ws)
  {
    hide Record, Increasing, Body, UrlFits;
    AfterRecord(s, f, ws, ps, k, m, st, pos);
    if k == |ws| - 1 {
      BodyOfNone(f, ws[k].urlId, ws);
    } else if k < |ws| - 1 {
      FitsAt(f, ws, k + 1);
      RecordCodes(f, ws[k].urlId, ws[k + 1], ps[k + 1]);
      BodyHasHead(f, ws[k].urlId, ws, k + 1);
    }
  }

  lemma BodyOfNone(f: Format, prev: nat, ws: seq<CacheWord>)
    ensures Body(f, prev, ws[|ws|..]) == []
  {
  }

  lemma BodyHasHead(f: Format, prev: nat, ws: seq<CacheWord>, k: nat)
    requires k < |ws|
    ensures |Body(f, prev, ws[k..])| >= |Record(f, prev, ws[k])|
  {
  }
}

/** Reading the compression header back (dbmode-blob.c, UdmBlobCoordsGetCompressionType). */
module RowHeader {
  import opened Bytes
  import opened Coord
  import opened Rows
  import opened Sections

  /** UDM_BLOB_CACHE_WORD_STAT as the unpacker uses it; `body` is where the records start. */
  datatype Stat =
    | Truncated
    | Stat(kind: nat, cur: nat, rangeMin: nat, rangeMax: nat, nranges: nat, rangePtr: nat, body: nat)

  function RawType(s: seq<byte>): nat {
    if |s| > 10 && GetInt4(s, 0) == 0xFFFF_FFFF then GetInt4(s, 4) else 0
  }

  function HeaderSize(s: seq<byte>): nat {
    if RawType(s) >= 0x10000 then 6 else 8
  }

  /**
   * Truncated stands for a header that would be read past the end, or whose number of ranges is negative as an int4,
   * so that the records would start before the row; no header that is read as it was written is.
   */
  function ReadHeader(s: seq<byte>): Stat {
    var kind := RawType(s) % 0x10000;
    var h := HeaderSize(s);
    if kind == 4 then
      if |s| < h + 8 then Truncated else
      Stat(kind, GetInt4(s, h), GetInt4(s, h), GetInt4(s, h + 4), 0, 0, h + 8)
    else if kind == 5 || kind == 6 || kind == 8 then Stat(kind, 0, 0, 0, 0, 0, h)
    else if kind == 7 then
      if |s| < h + 2 then Truncated else
      Stat(kind, GetInt2(s, h) * 0x10000, 0, 0, 0, 0, h + 2)
    else if kind == 9 then
      if |s| < h + 4 then Truncated else
      Stat(kind, GetInt4(s, h), 0, 0, 0, 0, h + 4)
    else if kind == 10 then
      if |s| < h + 4 || GetInt4(s, h) >= URL_LIMIT then Truncated else
      Stat(kind, 0, 0, 0, GetInt4(s, h), h + 4, h + 4 + 8 * GetInt4(s, h))
    else Stat(kind, 0, 0, 0, 0, 0, 0)
  }

  /** What the packer meant by the header. */
  function Intended(f: Format, ws: seq<CacheWord>): Stat
    requires ws != []
  {
    var first, last := ws[0].urlId, ws[|ws| - 1].urlId;
    match f
    case Simple => Stat(0, 0, 0, 0, 0, 0, 0)
    case SingleRange => Stat(4, first, first, last, 0, 0, 14)
    case RangeMulti => Stat(10, 0, 0, 0, |Ranges(ws)|, 10, 10 + 8 * |Ranges(ws)|)
    case Delta2Offset => Stat(7, first / 0x10000 * 0x10000, 0, 0, 0, 0, 8)
    case Delta1Offset => Stat(9, first, 0, 0, 0, 0, 10)
    case _ => Stat(TypeCode(f), 0, 0, 0, 0, 0, 6)
  }

  /** A group as the cache sort leaves it, every url_id within reach of the format. */
  ghost predicate Packable(f: Format, ws: seq<CacheWord>, ps: seq<Posting>) {
    && ws != [] && |ws| < URL_LIMIT && Increasing(ws) && CarriesAll(ws, ps) && UrlsFit(f, ws)
  }

  lemma RecordOfPosting(f: Format, prev: nat, w: CacheWord, p: Posting)
    requires Carries(w, p) && prev <= w.urlId && (f.SingleRange? || UrlFits(f, prev, w.urlId))
    ensures Record(f, prev, w) == UrlBytes(f, prev, w.urlId) + Put(|p.gaps|) + Codes(p.gaps)
    ensures UrlBytes(f, prev, w.urlId) <= Record(f, prev, w)
    ensures |Record(f, prev, w)| >= |UrlBytes(f, prev, w.urlId)| + 2
  {
  }

  lemma TwoBytes(v: nat, x: seq<byte>)
    requires |x| >= 2 && x[0] == v % 256 && x[1] == v / 256 % 256
    ensures GetInt2(x, 0) == v % 0x10000
  {
  }

  lemma DataStart(f: Format, ws: seq<CacheWord>, body: seq<byte>)
    requires ws != [] && Increasing(ws) && |ws| < URL_LIMIT && |body| >= 1
    requires f.SingleRange? || f.Delta1Offset? || f.RangeMulti? || f.Delta2Offset?
    ensures var x := HeaderData(f, ws) + body;
            |x| >= 3 && (GetInt2(x, 0) != 0 <==> HeaderReadable(f, ws))
  {
    var x := HeaderData(f, ws) + body;
    match f
    case SingleRange => TwoBytes(ws[0].urlId, x);
    case Delta1Offset => TwoBytes(ws[0].urlId, x);
    case RangeMulti => TwoBytes(|Ranges(ws)|, x);
    case Delta2Offset => TwoBytes(ws[0].urlId / 0x10000, x);
  }

  lemma UrlStart(f: Format, first: nat, body: seq<byte>)
    requires 0 < first && UrlBytes(f, 0, first) <= body && |body| >= |UrlBytes(f, 0, first)| + 2
    requires f.Delta2? || f.Delta3? || f.DeltaVariable?
    requires UrlFits(f, 0, first)
    ensures |body| >= 3 && (GetInt2(body, 0) == 0 <==> f.Delta3? && first % 0x10000 == 0)
  {
    var u := UrlBytes(f, 0, first);
    assert body[0] == u[0];
    if f.DeltaVariable? {
      PutIsRfc3629(first);
    } else {
      assert body[1] == u[1];
      TwoBytes(first, body);
    }
  }

  lemma BodyStart(f: Format, ws: seq<CacheWord>, ps: seq<Posting>)
    requires Packable(f, ws, ps)
    ensures var first := ws[0].urlId;
            var body := Body(f, Base(f, first), ws);
            UrlBytes(f, Base(f, first), first) <= body && |body| >= |UrlBytes(f, Base(f, first), first)| + 2
  {
    RecordOfPosting(f, Base(f, ws[0].urlId), ws[0], ps[0]);
  }

  /** The first two bytes after the marker, as a number. */
  lemma PayloadStart(f: Format, ws: seq<CacheWord>, body: seq<byte>)
    requires ws != [] && Increasing(ws) && |ws| < URL_LIMIT && UrlsFit(f, ws) && !f.Simple?
    requires UrlBytes(f, Base(f, ws[0].urlId), ws[0].urlId) <= body
    requires |body| >= |UrlBytes(f, Base(f, ws[0].urlId), ws[0].urlId)| + 2
    ensures var x := HeaderData(f, ws) + body;
            |x| >= 3 && (GetInt2(x, 0) != 0 <==> HeaderReadable(f, ws))
  {
    if f.Delta2? || f.Delta3? || f.DeltaVariable? {
      UrlStart(f, ws[0].urlId, body);
      assert [] + body == body;
    } else {
      DataStart(f, ws, body);
    }
  }

  lemma MarkerThen(f: Format, x: seq<byte>)
    requires !f.Simple? && |x| >= 5
    ensures var s := Marker(f) + x;
            RawType(s) == TypeCode(f) + 0x10000 * GetInt2(x, 0)
  {
    var s := Marker(f) + x;
    assert s[..6] == Marker(f);
    Int4RoundTrip(0xFFFF_FFFF, s, 0);
    Int2RoundTrip(TypeCode(f), s, 4);
    assert GetInt4(s, 4) == GetInt2(s, 4) + 0x10000 * GetInt2(x, 0);
  }

  lemma SimpleHasNoMarker(ws: seq<CacheWord>, ps: seq<Posting>)
    requires Packable(Simple, ws, ps)
    ensures ReadHeader(Row(Simple, ws)) == Intended(Simple, ws)
  {
    hide Int4, Put, Codes, GetInt4, Body;
    BodyStart(Simple, ws, ps);
    var s := Row(Simple, ws);
    var u := Int4(ws[0].urlId);
    assert u <= s;
    assert s == [] + u + s[4..];
    Int4At([], ws[0].urlId, s[4..]);
  }

  lemma ReadTwoInts(m: seq<byte>, a: nat, b: nat, body: seq<byte>)
    requires |m| == 6 && a < 0x1_0000_0000 && b < 0x1_0000_0000
    ensures var s := m + (Int4(a) + Int4(b) + body);
            GetInt4(s, 6) == a && GetInt4(s, 10) == b
  {
    var s := m + (Int4(a) + Int4(b) + body);
    assert s == m + Int4(a) + (Int4(b) + body) == (m + Int4(a)) + Int4(b) + body;
    Int4At(m, a, Int4(b) + body);
    Int4At(m + Int4(a), b, body);
  }

  lemma ReadInt4(m: seq<byte>, a: nat, rest: seq<byte>, body: seq<byte>)
    requires |m| == 6 && a < 0x1_0000_0000
    ensures GetInt4(m + (Int4(a) + rest + body), 6) == a
  {
    assert m + (Int4(a) + rest + body) == m + Int4(a) + (rest + body);
    Int4At(m, a, rest + body);
  }

  lemma ReadInt2(m: seq<byte>, a: nat, body: seq<byte>)
    requires |m| == 6 && a < 0x10000
    ensures GetInt2(m + (Int2(a) + body), 6) == a
  {
    assert m + (Int2(a) + body) == m + Int2(a) + body;
    Int2At(m, a, body);
  }

  lemma ReadSixByteHeader(f: Format, ws: seq<CacheWord>, body: seq<byte>)
    requires ws != [] && Increasing(ws) && |ws| < URL_LIMIT && !f.Simple?
    requires |HeaderData(f, ws) + body| >= 5 && GetInt2(HeaderData(f, ws) + body, 0) != 0
    ensures ReadHeader(Marker(f) + (HeaderData(f, ws) + body)) == Intended(f, ws)
  {
    hide Int4, Int2, GetInt4, GetInt2, RangeBytes, Ranges, Codes, Put, Body;
    MarkerThen(f, HeaderData(f, ws) + body);
    var first, last, m := ws[0].urlId, ws[|ws| - 1].urlId, Marker(f);
    match f
    case SingleRange => ReadTwoInts(m, first, last, body);
    case RangeMulti => ReadInt4(m, |Ranges(ws)|, RangeBytes(Ranges(ws)), body);
    case Delta1Offset =>
      assert Int4(first) + [] == Int4(first);
      ReadInt4(m, first, [], body);
    case Delta2Offset => ReadInt2(m, first / 0x10000, body);
    case _ =>
  }

  /**
   * The header of a packed row is read back as it was written exactly when the two bytes
   * after the marker are not both zero; otherwise it is taken for the older eight-byte header.
   */
  lemma HeaderReadBack(f: Format, ws: seq<CacheWord>, ps: seq<Posting>)
    requires Packable(f, ws, ps) && (f.Simple? || |Row(f, ws)| > 10)
    ensures ReadHeader(Row(f, ws)) == Intended(f, ws) <==> HeaderReadable(f, ws)
  {
    if f.Simple? {
      SimpleHasNoMarker(ws, ps);
    } else {
      BodyStart(f, ws, ps);
      var body := Body(f, Base(f, ws[0].urlId), ws);
      PayloadStart(f, ws, body);
      var x := HeaderData(f, ws) + body;
      RowIsMarkerThen(f, ws, x);
      if GetInt2(x, 0) != 0 {
        ReadSixByteHeader(f, ws, body);
      } else {
        MarkerThen(f, x);
        EightByteBody(f, ws, Row(f, ws));
      }
    }
  }

  lemma RowIsMarkerThen(f: Format, ws: seq<CacheWord>, x: seq<byte>)
    requires ws != [] && !f.Simple? && x == HeaderData(f, ws) + Body(f, Base(f, ws[0].urlId), ws)
    ensures Row(f, ws) == Marker(f) + x
  {
  }

  lemma EightByteBody(f: Format, ws: seq<CacheWord>, s: seq<byte>)
    requires ws != [] && !f.Simple? && RawType(s) == TypeCode(f)
    ensures ReadHeader(s) != Intended(f, ws)
  {
  }
}

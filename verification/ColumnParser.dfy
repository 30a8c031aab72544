/** Reading a column of the forward record back (dbmode-blob.c, UdmBlob2BlobConvertOneColumn). */
module ColumnParser {
  import opened Bytes
  import opened Seqs
  import opened Coord
  import opened Rows
  import opened Sections
  import opened ForwardRecord

  /** What the column says: one cache entry per (word, section), in order. */
  ghost function Entries(ws: seq<Word>, url: nat, c: Context): (es: seq<CacheWord>)
    requires GoodColumn(ws, c)
    decreases |ws|
  {
    if ws == [] then [] else
    var vs := GapValues(0, ws, c);
    [CacheWord(ws[0].word, ws[0].secno, url, |vs|, Codes(vs))] + Entries(AfterSection(ws), url, c)
  }

  /** Sections configured as not indexed are skipped. */
  function Visible(es: seq<CacheWord>, noindex: byte -> bool): seq<CacheWord> {
    if es == [] then [] else (if noindex(es[0].secno) then [] else [es[0]]) + Visible(es[1..], noindex)
  }

  // ---------- The caches ----------

  /** Which of the 256 caches a word goes to. */
  function Seed(hash: seq<byte> -> nat, word: seq<byte>): (c: nat)
    ensures c < 256
  {
    hash(word) / 256 % 256
  }

  function Bucket(log: seq<CacheWord>, hash: seq<byte> -> nat, c: nat): seq<CacheWord> {
    if log == [] then [] else
    var n := |log| - 1;
    Bucket(log[..n], hash, c) + if Seed(hash, log[n].word) == c then [log[n]] else []
  }

  class CacheSet {
    const hash: seq<byte> -> nat
    const buckets: array<seq<CacheWord>>
    ghost var log: seq<CacheWord> // everything added since the caches were empty

    ghost predicate Valid()
      reads this, buckets
    {
      buckets.Length == 256 && forall c :: 0 <= c < 256 ==> buckets[c] == Bucket(log, hash, c)
    }

    constructor (h: seq<byte> -> nat)
      ensures Valid() && fresh(buckets) && log == [] && hash == h
    {
      hash := h;
      buckets := new seq<CacheWord>[256](_ => []);
      log := [];
    }

    /** UdmBlobCacheAdd2: entries without a url_id, section or coordinates are refused. */
    method Add2(w: CacheWord) returns (ok: bool)
      requires Valid()
      modifies this, buckets
      ensures Valid() && ok == (w.urlId != 0 && w.secno != 0 && w.nintags != 0)
      ensures log == if ok then old(log) + [w] else old(log)
    {
      ok := false;
      if Refused(w) { return; }
      var seed := Seed(hash, w.word);
      buckets[seed] := buckets[seed] + [w];
      log := log + [w];
      assert log[..|log| - 1] == old(log);
      ok := true;
    }

    /** UdmBlobCacheFree on every cache, after a column was written. */
    method Clear()
      requires buckets.Length == 256
      modifies this, buckets
      ensures Valid() && log == []
    {
      forall c | 0 <= c < 256 { buckets[c] := []; }
      log := [];
    }
  }

  // ---------- Shape of the bytes ----------

  lemma {:induction false} NextSectionDiffers(ws: seq<Word>)
    requires ws != [] && AfterSection(ws) != []
    ensures !SameSection(ws[0], AfterSection(ws)[0])
    decreases |ws|
  {
    if !EndOfSection(ws) { NextSectionDiffers(ws[1..]); }
  }

  /** Gap codes of the leading section, then everything after it. */
  ghost function Tail(ws: seq<Word>, c: Context): seq<byte>
    requires ws != [] && GoodColumn(ws, c)
  {
    Codes(GapValues(0, ws, c)) + Enc(AfterSection(ws), ws[0].word, ws[0].secno, 0, c)
  }

  lemma TailIsEnc(ws: seq<Word>, c: Context)
    requires ws != [] && GoodColumn(ws, c)
    ensures Enc(ws, ws[0].word, ws[0].secno, 0, c) == Tail(ws, c)
  {
    EncSection(0, ws, c);
  }

  lemma StepHead(ws: seq<Word>, pw: seq<byte>, ps: byte, c: Context)
    requires ws != [] && ws[0].secno != 0 && !(ws[0].word == pw && ws[0].secno == ps)
    ensures Step(ws, pw, ps, 0, c) ==
            (if ws[0].word == pw then [] else (if pw == [] then [] else [0, 0]) + ws[0].word) + [0, ws[0].secno]
            + Step(ws, ws[0].word, ws[0].secno, 0, c)
  {
    hide GapCode, SectionLength;
    var a := if ws[0].word == pw then [] else (if pw == [] then [] else [0, 0]) + ws[0].word;
    var z := if EndOfSection(ws) then SectionLength(c, ws[0]) else [];
    Assoc4(a + [0, ws[0].secno], [], GapCode(0, ws[0].pos), z);
    assert [] + [] + GapCode(0, ws[0].pos) + z == GapCode(0, ws[0].pos) + z;
  }

  lemma EncHead(ws: seq<Word>, pw: seq<byte>, ps: byte, c: Context)
    requires ws != [] && GoodColumn(ws, c) && !(ws[0].word == pw && ws[0].secno == ps)
    ensures Enc(ws, pw, ps, 0, c) ==
            (if ws[0].word == pw then [] else (if pw == [] then [] else [0, 0]) + ws[0].word) + [0, ws[0].secno]
              + Tail(ws, c)
  {
    hide Step, Tail, GoodSection;
    StepHead(ws, pw, ps, c);
    TailIsEnc(ws, c);
    var a := (if ws[0].word == pw then [] else (if pw == [] then [] else [0, 0]) + ws[0].word) + [0, ws[0].secno];
    Assoc(a, Step(ws, ws[0].word, ws[0].secno, 0, c), Enc(ws[1..], ws[0].word, ws[0].secno, ws[0].pos, c));
  }

  lemma Regroup(a: seq<byte>, secno: byte, t: seq<byte>)
    ensures a + [0, secno] + t == a + [0] + ([secno] + t) && [] + [0, secno] + t == [0] + ([secno] + t)
  {
  }

  /** A column starts with its first word. */
  lemma ColumnStart(ws: seq<Word>, c: Context)
    requires ws != [] && GoodColumn(ws, c)
    ensures Enc(ws, [], 0, 0, c) == ws[0].word + [0] + ([ws[0].secno] + Tail(ws, c))
  {
    hide Enc, Tail;
    EncHead(ws, [], 0, c);
    assert [] + ws[0].word == ws[0].word;
    Regroup(ws[0].word, ws[0].secno, Tail(ws, c));
  }

  /** After a section: the end, another section of the word, or two zero bytes and the next word. */
  lemma AfterTail(ws: seq<Word>, c: Context)
    requires ws != [] && GoodColumn(ws, c)
    ensures var r := AfterSection(ws);
            var b := Enc(r, ws[0].word, ws[0].secno, 0, c);
            && (r == [] ==> b == [])
            && (r != [] && r[0].word == ws[0].word ==> b == [0] + ([r[0].secno] + Tail(r, c)))
            && (r != [] && r[0].word != ws[0].word ==> b == [0, 0] + Enc(r, [], 0, 0, c))
  {
    hide Tail, Step, GoodSection, AfterSection;
    var r := AfterSection(ws);
    if r != [] {
      NextSectionDiffers(ws);
      EncHead(r, ws[0].word, ws[0].secno, c);
      if r[0].word == ws[0].word {
        Regroup([], r[0].secno, Tail(r, c));
      } else {
        EncHead(r, [], 0, c);
        Assoc4([0, 0], r[0].word, [0, r[0].secno], Tail(r, c));
      }
    }
  }

  // ---------- The parser ----------

  /** The scan to the next zero byte or the end of the value. */
  method ScanToZero(val: seq<byte>, pos: nat, ghost a: seq<byte>, ghost b: seq<byte>) returns (end: nat)
    requires pos <= |val| && val[pos..] == a + b && 0 !in a && (b == [] || b[0] == 0)
    ensures end == pos + |a| <= |val| && val[end..] == b && val[pos..end] == a
  {
    Suffix(a, b, val, pos);
    assert forall k :: 0 <= k < |a| ==> val[pos + k] == val[pos..][k] == a[k];
    assert b != [] ==> val[pos + |a|] == val[pos + |a|..][0] == 0;
    end := pos;
    while end < |val| && val[end] != 0
      invariant pos <= end <= pos + |a| <= |val|
    {
      assert val[pos + (end - pos)] != 0;
      end := end + 1;
    }
    assert val[pos..end] == val[pos..][..end - pos];
  }

  lemma VisibleConcat(pre: seq<CacheWord>, w: CacheWord, rest: seq<CacheWord>, noindex: byte -> bool)
    ensures pre + Visible([w] + rest, noindex) ==
            (if noindex(w.secno) then pre else pre + [w]) + Visible(rest, noindex)
  {
    assert ([w] + rest)[1..] == rest;
    if noindex(w.secno) {
      assert [] + Visible(rest, noindex) == Visible(rest, noindex);
    } else {
      Assoc(pre, [w], Visible(rest, noindex));
    }
  }

  /** One section record: its number, its coordinates, and the entry for the cache. */
  method ParseSection(val: seq<byte>, pos: nat, url: nat, word: seq<byte>, noindex: byte -> bool, cache: CacheSet,
                      ghost rest: seq<Word>, ghost c: Context)
    returns (next: nat)
    requires cache.Valid() && url != 0 && rest != [] && GoodColumn(rest, c) && word == rest[0].word
    requires pos <= |val| && val[pos..] == [rest[0].secno] + Tail(rest, c)
    modifies cache, cache.buckets
    ensures cache.Valid() && next <= |val| && pos < next
    ensures val[next..] == Enc(AfterSection(rest), rest[0].word, rest[0].secno, 0, c)
    ensures cache.log + Visible(Entries(AfterSection(rest), url, c), noindex) ==
            old(cache.log) + Visible(Entries(rest, url, c), noindex)
  {
    hide Enc, Codes, GoodSection, Visible, GapValues;
    ghost var vs := GapValues(0, rest, c);
    ghost var after := Enc(AfterSection(rest), rest[0].word, rest[0].secno, 0, c);
    GapsAreCodable(0, rest, c);
    NoZeroGaps(rest, c);
    AfterTail(rest, c);
    Suffix([rest[0].secno], Tail(rest, c), val, pos);
    assert val[pos] == val[pos..][0];
    var secno := val[pos];
    var start := pos + 1;
    next := ScanToZero(val, start, Codes(vs), after);
    Terminated(val, start, Codes(vs), after);
    var nintags := CoordLen(val + [0], start, vs); // a value that comes from the database ends in a NUL character
    VisibleConcat(cache.log, CacheWord(word, secno, url, nintags, val[start..next]),
      Entries(AfterSection(rest), url, c), noindex);
    if !noindex(secno) {
      var ok := cache.Add2(CacheWord(word, secno, url, nintags, val[start..next]));
    }
  }

  lemma Terminated(val: seq<byte>, pos: nat, a: seq<byte>, b: seq<byte>)
    requires pos <= |val| && val[pos..] == a + b && (b == [] || b[0] == 0)
    ensures a + [0] <= (val + [0])[pos..]
  {
    assert (val + [0])[pos..] == a + b + [0];
  }

  lemma NoZeroGaps(ws: seq<Word>, c: Context)
    requires ws != [] && GoodColumn(ws, c)
    ensures 0 !in GapValues(0, ws, c) && 0 !in Codes(GapValues(0, ws, c)) && |GapValues(0, ws, c)| > 0
  {
    GapsAreCodable(0, ws, c);
    CodesHaveNoZero(GapValues(0, ws, c));
  }

  /** All sections of one word; the ghost result is what is left of the column. */
  method ParseWord(val: seq<byte>, pos: nat, url: nat, word: seq<byte>, noindex: byte -> bool, cache: CacheSet,
                   ghost ws: seq<Word>, ghost c: Context)
    returns (next: nat, ghost rest: seq<Word>)
    requires cache.Valid() && url != 0 && ws != [] && GoodColumn(ws, c) && word == ws[0].word
    requires pos <= |val| && val[pos..] == [ws[0].secno] + Tail(ws, c)
    modifies cache, cache.buckets
    ensures cache.Valid() && GoodColumn(rest, c) && |rest| < |ws|
    ensures rest == [] ==> next >= |val|
    ensures rest != [] ==> next <= |val| && val[next..] == Enc(rest, [], 0, 0, c)
    ensures cache.log + Visible(Entries(rest, url, c), noindex) ==
        old(cache.log) + Visible(Entries(ws, url, c), noindex)
  {
    hide Enc, Tail, Visible, Entries, GoodSection;
    rest, next := ws, pos;
    while next < |val|
      invariant cache.Valid() && rest != [] && GoodColumn(rest, c) && word == rest[0].word && |rest| <= |ws|
      invariant next <= |val| && val[next..] == [rest[0].secno] + Tail(rest, c)
      invariant cache.log + Visible(Entries(rest, url, c), noindex) ==
          old(cache.log) + Visible(Entries(ws, url, c), noindex)
      decreases |rest|
    {
      AfterTail(rest, c);
      next := ParseSection(val, next, url, word, noindex, cache, rest, c);
      rest := AfterSection(rest);
      ghost var here := val[next..];
      assert forall k :: 0 <= k < |here| ==> val[next + k] == here[k];
      assert next + 2 <= |val| ==> val[next + 1..] == here[1..] && val[next + 2..] == here[2..];
      next := next + 1;
      if next >= |val| || val[next] == 0 {
        next := next + 1;
        break;
      }
    }
  }

  /** One row's column: every section of every word, in order, goes to the caches. */
  method ParseColumn(val: seq<byte>, url: nat, noindex: byte -> bool, cache: CacheSet, ghost ws: seq<Word>,
                     ghost c: Context)
    requires cache.Valid() && url != 0 && GoodColumn(ws, c) && val == Enc(ws, [], 0, 0, c)
    modifies cache, cache.buckets
    ensures cache.Valid() && cache.log == old(cache.log) + Visible(Entries(ws, url, c), noindex)
  {
    hide Enc, Tail, Visible, Entries, GoodSection;
    ghost var rest := ws;
    var pos: nat := 0;
    assert val[0..] == val;
    NothingLeft(c, url, noindex);
    while pos < |val|
      invariant cache.Valid() && GoodColumn(rest, c)
      invariant rest == [] ==> pos >= |val|
      invariant rest != [] ==> pos <= |val| && val[pos..] == Enc(rest, [], 0, 0, c)
      invariant cache.log + Visible(Entries(rest, url, c), noindex) ==
          old(cache.log) + Visible(Entries(ws, url, c), noindex)
      decreases |rest|
    {
      ColumnStart(rest, c);
      ghost var x := [rest[0].secno] + Tail(rest, c);
      Assoc(rest[0].word, [0], x);
      var start := pos;
      pos := ScanToZero(val, start, rest[0].word, [0] + x);
      var word := val[start..pos];
      Suffix([0], x, val, pos);
      pos := pos + 1;
      if pos >= |val| { break; }
      pos, rest := ParseWord(val, pos, url, word, noindex, cache, rest, c);
    }
    assert rest != [] ==> pos == |val|;
    StartNotEmpty(rest, c);
  }

  lemma NothingLeft(c: Context, url: nat, noindex: byte -> bool)
    ensures Enc([], [], 0, 0, c) == [] && Visible(Entries([], url, c), noindex) == []
  {
  }

  lemma StartNotEmpty(ws: seq<Word>, c: Context)
    requires GoodColumn(ws, c)
    ensures ws != [] ==> Enc(ws, [], 0, 0, c) != []
  {
    if ws != [] { ColumnStart(ws, c); }
  }
}

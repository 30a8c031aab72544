/** Conversion of a word cache into the blob cache: every posting goes out exactly once (dbmode-single.c:537-571). */
module MultiConvert {
  import opened Bytes
  import opened Seqs
  import Coord
  import opened Order
  import opened MultiCache
  import opened MultiPack
  import opened Rows
  import opened Sections

  /** UDM_BLOB_CACHE with UdmBlobCacheAdd. */
  class BlobCache {
    var words: seq<CacheWord>

    constructor ()
      ensures words == []
    {
      words := [];
    }

    method Add(w: CacheWord) returns (ok: bool)
      modifies this
      ensures ok == (w.urlId != 0 && w.secno != 0 && w.nintags != 0)
      ensures words == if ok then old(words) + [w] else old(words)
    {
      ok := !Refused(w);
      if ok { words := words + [w]; }
    }
  }

  function PackedString(xs: seq<nat>): seq<byte> {
    if Ascends(0, xs) then CString(Coord.Codes(Differences(0, xs))) else []
  }

  /**
   * The entry for a word's positions in a section of a document: their number, and what strlen leaves of their codes.
   */
  function EntryFor(u: nat, s: byte, w: seq<byte>, xs: seq<nat>): CacheWord {
    CacheWord(w, s, u, |xs|, PackedString(xs))
  }

  function Taken(e: CacheWord): seq<CacheWord> { if Refused(e) then [] else [e] }

  /** What goes out of each level. */
  function FromWords(u: nat, s: byte, ws: Words): seq<CacheWord> {
    if ws == [] then [] else Taken(EntryFor(u, s, ws[0].key, ws[0].value)) + FromWords(u, s, ws[1..])
  }

  function FromParts(u: nat, ss: Parts): seq<CacheWord> {
    if ss == [] then [] else FromWords(u, ss[0].key, ss[0].value) + FromParts(u, ss[1..])
  }

  function FromUrls(us: Urls, listed: set<nat>): seq<CacheWord> {
    if us == [] then []
    else (if us[0].key in listed then FromParts(us[0].key, us[0].value.sections) else []) + FromUrls(us[1..], listed)
  }

  function FromTables(ts: seq<Urls>, listed: set<nat>): seq<CacheWord> {
    if ts == [] then [] else FromUrls(ts[0], listed) + FromTables(ts[1..], listed)
  }

  // ---------- The nested loops ----------

  /** All positions of these words have a code and do not fall. */
  ghost predicate Codable(ws: Words) { forall i :: 0 <= i < |ws| ==> ws[i].value != [] && Ascends(0, ws[i].value) }

  ghost predicate CodableParts(ss: Parts) { forall i :: 0 <= i < |ss| ==> Codable(ss[i].value) }

  ghost predicate CodableUrls(us: Urls) { forall i :: 0 <= i < |us| ==> CodableParts(us[i].value.sections) }

  method ConvertWords(u: nat, s: byte, ws: Words, out: BlobCache)
    requires Codable(ws)
    modifies out
    ensures out.words == old(out.words) + FromWords(u, s, ws)
  {
    hide Coord.Codes, CString, Differences, Ascends;
    ghost var rest := ws;
    for i := 0 to |ws|
      invariant rest == ws[i..] && out.words + FromWords(u, s, rest) == old(out.words) + FromWords(u, s, ws)
    {
      var intag := PutIntag(ws[i].value);
      var e := CacheWord(ws[i].key, s, u, |ws[i].value|, CString(intag.bytes));
      assert rest[0] == ws[i] && rest[1..] == ws[i + 1..] && e == EntryFor(u, s, rest[0].key, rest[0].value);
      Assoc(out.words, Taken(e), FromWords(u, s, rest[1..]));
      var ok := out.Add(e);
      rest := rest[1..];
    }
    assert out.words + [] == out.words;
  }

  method ConvertParts(u: nat, ss: Parts, out: BlobCache)
    requires CodableParts(ss)
    modifies out
    ensures out.words == old(out.words) + FromParts(u, ss)
  {
    hide Codable, FromWords;
    ghost var rest := ss;
    for i := 0 to |ss|
      invariant rest == ss[i..] && out.words + FromParts(u, rest) == old(out.words) + FromParts(u, ss)
    {
      assert rest[0] == ss[i] && rest[1..] == ss[i + 1..];
      Assoc(out.words, FromWords(u, ss[i].key, ss[i].value), FromParts(u, rest[1..]));
      ConvertWords(u, ss[i].key, ss[i].value, out);
      rest := rest[1..];
    }
    assert out.words + [] == out.words;
  }

  method ConvertUrls(us: Urls, listed: set<nat>, out: BlobCache)
    requires CodableUrls(us)
    modifies out
    ensures out.words == old(out.words) + FromUrls(us, listed)
  {
    hide CodableParts, FromParts;
    ghost var rest := us;
    for i := 0 to |us|
      invariant rest == us[i..] && out.words + FromUrls(rest, listed) == old(out.words) + FromUrls(us, listed)
    {
      assert rest[0] == us[i] && rest[1..] == us[i + 1..];
      var part := if us[i].key in listed then FromParts(us[i].key, us[i].value.sections) else [];
      Assoc(out.words, part, FromUrls(rest[1..], listed));
      assert out.words + [] == out.words;
      if us[i].key in listed { ConvertParts(us[i].key, us[i].value.sections, out); }
      rest := rest[1..];
    }
    assert out.words + [] == out.words;
  }

  // ---------- Every posting exactly once ----------

  /** The outputs of one word in one section of a document. */
  function Mine(outs: seq<CacheWord>, u: nat, s: byte, w: seq<byte>): seq<CacheWord> {
    if outs == [] then []
    else
      var o, rest := outs[0], Mine(outs[1..], u, s, w);
      if o.urlId == u && o.secno == s && o.word == w then [o] + rest else rest
  }

  lemma {:induction false} MineConcat(a: seq<CacheWord>, b: seq<CacheWord>, u: nat, s: byte, w: seq<byte>)
    ensures Mine(a + b, u, s, w) == Mine(a, u, s, w) + Mine(b, u, s, w)
  {
    if a == [] {
      assert a + b == b;
    } else {
      assert (a + b)[1..] == a[1..] + b;
      MineConcat(a[1..], b, u, s, w);
    }
  }

  function Once(present: bool, u: nat, s: byte, w: seq<byte>, xs: seq<nat>): seq<CacheWord> {
    if present && u != 0 && s != 0 && xs != [] then [EntryFor(u, s, w, xs)] else []
  }

  lemma TailDistinct<K, V>(es: seq<Entry<K, V>>)
    requires es != [] && DistinctKeys(es)
    ensures DistinctKeys(es[1..]) && forall i :: 0 <= i < |es[1..]| ==>
        es[1..][i] == es[i + 1] && es[1..][i].key != es[0].key
  {
    forall i | 0 <= i < |es[1..]| ensures es[1..][i] == es[i + 1] { }
  }

  lemma {:induction false} NotThere<K, V>(es: seq<Entry<K, V>>, k: K, none: V)
    requires forall i :: 0 <= i < |es| ==> es[i].key != k
    ensures Get(es, k, none) == none
  {
    if es == [] {
    } else {
      forall i | 0 <= i < |es| - 1 ensures es[1..][i].key != k { assert es[1..][i] == es[i + 1]; }
      NotThere(es[1..], k, none);
    }
  }

  lemma {:induction false} WordsOnce(u0: nat, s0: byte, ws: Words, u: nat, s: byte, w: seq<byte>)
    requires GoodWords(ws)
    ensures Mine(FromWords(u0, s0, ws), u, s, w) == Once(u == u0 && s == s0, u, s, w, InWords(ws, w))
  {
    if ws == [] {
    } else {
      hide PackedString;
      TailDistinct(ws);
      WordsOnce(u0, s0, ws[1..], u, s, w);
      MineConcat(Taken(EntryFor(u0, s0, ws[0].key, ws[0].value)), FromWords(u0, s0, ws[1..]), u, s, w);
      MineTaken(EntryFor(u0, s0, ws[0].key, ws[0].value), u, s, w);
      if ws[0].key == w { NotThere(ws[1..], w, []); }
    }
  }

  lemma MineTaken(e: CacheWord, u: nat, s: byte, w: seq<byte>)
    ensures Mine(Taken(e), u, s, w) == if !Refused(e) && e.urlId == u && e.secno == s && e.word == w then [e] else []
  {
    assert [e][1..] == [];
  }

  lemma {:induction false} PartsOnce(u0: nat, ss: Parts, u: nat, s: byte, w: seq<byte>)
    requires GoodParts(ss)
    ensures Mine(FromParts(u0, ss), u, s, w) == Once(u == u0, u, s, w, InParts(ss, s, w))
  {
    if ss == [] {
    } else {
      hide FromWords, GoodWords, EntryFor;
      TailDistinct(ss);
      PartsOnce(u0, ss[1..], u, s, w);
      WordsOnce(u0, ss[0].key, ss[0].value, u, s, w);
      MineConcat(FromWords(u0, ss[0].key, ss[0].value), FromParts(u0, ss[1..]), u, s, w);
      if ss[0].key == s { NotThere(ss[1..], s, []); }
    }
  }

  lemma {:induction false} UrlsOnce(us: Urls, listed: set<nat>, u: nat, s: byte, w: seq<byte>)
    requires GoodUrls(us)
    ensures Mine(FromUrls(us, listed), u, s, w) == Once(u in listed, u, s, w, InUrls(us, u, s, w))
  {
    if us == [] {
    } else {
      hide FromParts, GoodParts, EntryFor, InParts;
      TailDistinct(us);
      UrlsOnce(us[1..], listed, u, s, w);
      PartsOnce(us[0].key, us[0].value.sections, u, s, w);
      MineConcat(if us[0].key in listed then FromParts(us[0].key, us[0].value.sections)
        else [], FromUrls(us[1..], listed), u, s, w);
      if us[0].key == u { NotThere(us[1..], u, NO_URL); }
      NoParts(s, w);
    }
  }

  lemma NoParts(s: byte, w: seq<byte>)
    ensures InParts([], s, w) == []
  {
  }

  /** From table t on: only the table of the word holds it. */
  lemma {:induction false} TablesOnce(ts: seq<Urls>, listed: set<nat>, u: nat, s: byte, w: seq<byte>, t: nat, home: nat)
    requires t <= home && forall i: nat :: i < |ts| ==>
        GoodUrls(ts[i]) && (t + i != home ==> InUrls(ts[i], u, s, w) == [])
    ensures Mine(FromTables(ts, listed), u, s, w) ==
              Once(u in listed, u, s, w, if home < t + |ts| then InUrls(ts[home - t], u, s, w) else [])
    decreases |ts|
  {
    hide FromUrls, GoodUrls, EntryFor, InUrls;
    if ts == [] {
    } else {
      UrlsOnce(ts[0], listed, u, s, w);
      MineConcat(FromUrls(ts[0], listed), FromTables(ts[1..], listed), u, s, w);
      if t == home {
        NoneLater(ts[1..], listed, u, s, w);
      } else {
        forall i: nat | i < |ts| - 1 ensures ts[1..][i] == ts[i + 1] { }
        TablesOnce(ts[1..], listed, u, s, w, t + 1, home);
      }
    }
  }

  lemma {:induction false} NoneLater(ts: seq<Urls>, listed: set<nat>, u: nat, s: byte, w: seq<byte>)
    requires forall i: nat :: i < |ts| ==> GoodUrls(ts[i]) && InUrls(ts[i], u, s, w) == []
    ensures Mine(FromTables(ts, listed), u, s, w) == []
  {
    hide FromUrls, GoodUrls, InUrls;
    if ts == [] {
    } else {
      UrlsOnce(ts[0], listed, u, s, w);
      MineConcat(FromUrls(ts[0], listed), FromTables(ts[1..], listed), u, s, w);
      forall i: nat | i < |ts| - 1 ensures ts[1..][i] == ts[i + 1] { }
      NoneLater(ts[1..], listed, u, s, w);
    }
  }

  // ---------- A valid cache can be converted ----------

  lemma DistinctFirst<K, V>(es: seq<Entry<K, V>>, i: nat, none: V)
    requires DistinctKeys(es) && i < |es|
    ensures Get(es, es[i].key, none) == es[i].value
  {
    GetFirst(es, es[i].key, none, i);
  }

  lemma {:induction false} PositionsAreSmall(log: seq<Call>, u: nat, s: byte, w: seq<byte>)
    ensures forall x :: x in PositionsOf(log, u, s, w) ==> x < Coord.LIMIT
  {
    if log == [] {
    } else {
      PositionsAreSmall(log[..|log| - 1], u, s, w);
    }
  }

  lemma {:induction false} SortedAscends(last: nat, xs: seq<nat>)
    requires Sorted<nat>(Le, xs) && (forall x :: x in xs ==> x < Coord.LIMIT) && (xs != [] ==> last <= xs[0])
    ensures Ascends(last, xs)
    decreases |xs|
  {
    if xs == [] {
    } else {
      TailSorted<nat>(Le, xs);
      assert xs[0] in xs;
      if |xs| > 1 { assert Le(xs[0], xs[1]); }
      assert forall x :: x in xs[1..] ==> x in xs;
      SortedAscends(xs[0], xs[1..]);
    }
  }

  lemma LookupAscends(a: seq<nat>, log: seq<Call>, u: nat, s: byte, w: seq<byte>)
    requires SortedFrom(a, PositionsOf(log, u, s, w))
    ensures Ascends(0, a)
  {
    PositionsAreSmall(log, u, s, w);
    forall x | x in a ensures x < Coord.LIMIT {
      assert x in multiset(a);
      assert x in PositionsOf(log, u, s, w);
    }
    SortedAscends(0, a);
  }

  /** Every list in every table is one that Lookup finds, and so can be packed. */
  lemma TablesAreCodable(cache: Cache, t: nat)
    requires cache.Valid() && t < 256
    ensures CodableUrls(cache.tables[t])
  {
    hide Ascends, PositionsOf;
    var us := cache.tables[t];
    forall i | 0 <= i < |us| ensures CodableParts(us[i].value.sections) {
      var ss := us[i].value.sections;
      forall j | 0 <= j < |ss| ensures Codable(ss[j].value) {
        var ws := ss[j].value;
        forall k | 0 <= k < |ws| ensures ws[k].value != [] && Ascends(0, ws[k].value) {
          EntryIsFound(us, i, j, k);
          var u, s, w := us[i].key, ss[j].key, ws[k].key;
          assert InUrls(us, u, s, w) == ws[k].value;
          assert cache.Lookup(u, s, w) == ws[k].value;
          LookupAscends(ws[k].value, cache.log, u, s, w);
        }
      }
    }
  }

  lemma EntryIsFound(us: Urls, i: nat, j: nat, k: nat)
    requires GoodUrls(us) && i < |us| && j < |us[i].value.sections| && k < |us[i].value.sections[j].value|
    ensures var ss := us[i].value.sections; var ws := ss[j].value;
            ws[k].value != [] && InUrls(us, us[i].key, ss[j].key, ws[k].key) == ws[k].value
  {
    hide Get;
    DistinctFirst(us, i, NO_URL);
    DistinctFirst(us[i].value.sections, j, []);
    DistinctFirst(us[i].value.sections[j].value, k, []);
  }

  method Convert(cache: Cache, listed: set<nat>) returns (out: BlobCache)
    requires cache.Valid()
    ensures fresh(out)
    ensures forall u, s, w :: Mine(out.words, u, s, w) == Once(u in listed, u, s, w, cache.Lookup(u, s, w))
  {
    hide CodableUrls, FromUrls, GoodUrls, SortedFrom, PositionsOf, InUrls, Mine, Once;
    out := new BlobCache();
    ghost var rest := cache.tables;
    assert [] + FromTables(rest, listed) == FromTables(rest, listed);
    for t := 0 to 256
      invariant fresh(out)
      invariant rest == cache.tables[t..] && out.words + FromTables(rest, listed) == FromTables(cache.tables, listed)
    {
      TablesAreCodable(cache, t);
      assert rest[0] == cache.tables[t] && rest[1..] == cache.tables[t + 1..];
      Assoc(out.words, FromUrls(cache.tables[t], listed), FromTables(rest[1..], listed));
      ConvertUrls(cache.tables[t], listed, out);
      rest := rest[1..];
    }
    assert out.words + [] == out.words;
    forall u, s, w ensures Mine(out.words, u, s, w) == Once(u in listed, u, s, w, cache.Lookup(u, s, w)) {
      TablesOnce(cache.tables, listed, u, s, w, 0, cache.TableOf(w));
    }
  }

  // ---------- What an entry carries ----------

  lemma {:induction false} StrictIsShort(last: nat, xs: seq<nat>)
    requires Strict(last, xs) && last < Coord.LIMIT && forall x :: x in xs ==> x < Coord.LIMIT
    ensures last + |xs| < Coord.LIMIT
    decreases |xs|
  {
    if xs == [] {
    } else {
      assert xs[0] in xs && forall x :: x in xs[1..] ==> x in xs;
      StrictIsShort(xs[0], xs[1..]);
    }
  }

  lemma SumIsLast(gaps: seq<Coord.value>)
    requires gaps != []
    ensures Coord.Sum(gaps) == Positions(gaps)[|gaps| - 1]
  {
    RunningSumsAt(0, gaps, |gaps| - 1);
    assert gaps[..|gaps|] == gaps;
  }

  /**
   * An entry carries its positions if and only if none is zero or repeated; otherwise it announces more codes than it
   * holds, and a reader takes the rest from what follows.
   */
  lemma EntryCarriesIff(u: nat, s: byte, w: seq<byte>, xs: seq<nat>) returns (gaps: seq<Coord.value>)
    requires xs != [] && Ascends(0, xs) && forall x :: x in xs ==> x < Coord.LIMIT
    ensures EntryFor(u, s, w, xs).intags == Coord.Codes(gaps) && EntryFor(u, s, w, xs).nintags == |xs|
    ensures if Strict(0, xs) then Carries(EntryFor(u, s, w, xs), Posting(u, gaps)) && Positions(gaps) == xs
            else |gaps| < |xs|
  {
    hide CString, Differences, Coord.Codes;
    gaps := PackedIsReadBackIff(xs);
    if Strict(0, xs) {
      StrictIsShort(0, xs);
      SumIsLast(gaps);
      assert xs[|xs| - 1] in xs;
    }
  }

  /** The same for what was added to the cache. */
  lemma ReadsBackIff(log: seq<Call>, u: nat, s: byte, w: seq<byte>, xs: seq<nat>) returns (gaps: seq<Coord.value>)
    requires SortedFrom(xs, PositionsOf(log, u, s, w)) && xs != []
    ensures EntryFor(u, s, w, xs).intags == Coord.Codes(gaps) && EntryFor(u, s, w, xs).nintags == |xs|
    ensures if Strict(0, xs) then Carries(EntryFor(u, s, w, xs), Posting(u, gaps)) && Positions(gaps) == xs
            else |gaps| < |xs|
  {
    hide EntryFor, Carries;
    LookupAscends(xs, log, u, s, w);
    PositionsAreSmall(log, u, s, w);
    forall x | x in xs ensures x < Coord.LIMIT { assert x in multiset(xs) && x in PositionsOf(log, u, s, w); }
    gaps := EntryCarriesIff(u, s, w, xs);
  }
}

/**
 * What a search reads from the rows that the conversion of a word cache writes (dbmode-single.c:549-568,
 * dbmode-blob.c:1076-1100, 1905-2084).
 */
module MultiRows {
  import opened Bytes
  import opened Seqs
  import opened Coord
  import opened Rows
  import opened Sections
  import opened RowHeader
  import opened UrlScan
  import opened RowState
  import opened ReadBack
  import opened RowTheorems
  import opened Order
  import opened Transpose
  import opened Conversion
  import MultiCache
  import opened MultiPack
  import opened MultiConvert

  // ---------- How many bytes a reading takes ----------

  /** The bytes of the records that say these postings. */
  function Need(f: Format, prev: nat, qs: seq<Posting>): nat
    decreases |qs|
  {
    if qs == [] then 0
    else
      |UrlBytes(f, prev, qs[0].urlId)| + |TryPut(|qs[0].gaps|, 4)| + |Codes(qs[0].gaps)|
      + Need(f, qs[0].urlId, qs[1..])
  }

  lemma OneGap(s: seq<byte>, pos: nat, n: nat)
    requires pos <= |s| && ReadGaps(s, pos, n).gaps != []
    ensures var r, v := ReadGaps(s, pos, n), ReadGaps(s, pos, n).gaps[0];
            && n > 0 && pos + |Put(v)| <= |s|
            && r == Run([v] + ReadGaps(s, pos + |Put(v)|, n - 1).gaps, ReadGaps(s, pos + |Put(v)|, n - 1).next,
                        r.defined)
  {
    hide Put, Decode;
    PutGet(0, s, pos, |s|);
  }

  lemma {:induction false} GapsTake(s: seq<byte>, pos: nat, n: nat)
    requires pos <= |s|
    ensures var r := ReadGaps(s, pos, n); r.next == pos + |Codes(r.gaps)|
    decreases n
  {
    hide Put, ReadGaps;
    var gaps := ReadGaps(s, pos, n).gaps;
    if gaps == [] {
    } else {
      hide Codes;
      OneGap(s, pos, n);
      GapsTake(s, pos + |Put(gaps[0])|, n - 1);
      CodesCons(gaps);
    }
  }

  lemma LongerCode(a: nat, b: nat)
    requires a <= b < LIMIT
    ensures |TryPut(a, 4)| == |Put(a)| <= |Put(b)|
  {
  }

  lemma DocTakes(s: seq<byte>, pos: nat, url: nat)
    requires pos <= |s| && ReadDoc(s, pos, url).Doc?
    ensures var d := ReadDoc(s, pos, url);
            d.next >= pos + |TryPut(|d.posting.gaps|, 4)| + |Codes(d.posting.gaps)|
  {
    hide Put, Decode, ReadGaps, Codes, TryPut;
    var count := Get(0, s, pos, |s|);
    PutGet(0, s, pos, |s|);
    GapsTake(s, pos + count.nbytes, count.value);
    LongerCode(|ReadDoc(s, pos, url).posting.gaps|, count.value);
  }

  lemma UrlTakes(s: seq<byte>, pos: nat, st: Stat, f: Format, prev: nat)
    requires Readable(s, pos, st) && st.kind == TypeCode(f) && NextUrl(s, pos, st).ok
    requires f.DeltaVariable? ==> prev == st.cur && !Unset(s, pos)
    ensures var u := NextUrl(s, pos, st);
            && u.next == pos + |UrlBytes(f, prev, u.url)| && u.st.Stat? && u.st.kind == st.kind
            && (f.DeltaVariable? ==> u.st.cur == u.url)
  {
    hide Get, Put, TryPut, Int4, Int2, Int3, GetInt4, GetInt3, GetInt2;
    if f.DeltaVariable? {
      PutGet(0, s, pos, |s|);
      LongerCode(Get(0, s, pos, |s|).value, Get(0, s, pos, |s|).value);
    }
  }

  /** The records read are not longer than the bytes from there on. */
  lemma {:induction false} ReadingTakes(s: seq<byte>, pos: nat, st: Stat, f: Format, prev: nat)
    requires pos <= |s| && st.Stat? && st.kind == TypeCode(f) && (f.DeltaVariable? ==> prev == st.cur)
    ensures pos + Need(f, prev, ReadFrom(s, pos, st).postings) <= |s|
    decreases |s| - pos
  {
    hide UrlBytes, Guard, Known, Readable, NextUrl, ReadDoc, Codes, TryPut, Unset;
    var qs := ReadFrom(s, pos, st).postings;
    if qs == [] {
    } else {
      UrlTakes(s, pos, st, f, prev);
      var u := NextUrl(s, pos, st);
      var d := ReadDoc(s, u.next, u.url);
      DocTakes(s, u.next, u.url);
      ReadingTakes(s, d.next, u.st, f, u.url);
      assert qs[1..] == ReadFrom(s, d.next, u.st).postings;
    }
  }

  // ---------- How many bytes a row holds ----------

  /** This entry was made from the positions xs. */
  ghost predicate MadeFrom(e: CacheWord, xs: seq<nat>) {
    xs != [] && Ascends(0, xs) && (forall x :: x in xs ==> x < LIMIT) && e == EntryFor(e.urlId, e.secno, e.word, xs)
  }

  ghost predicate AllMade(g: seq<CacheWord>, lists: seq<seq<nat>>) {
    |g| == |lists| && forall i :: 0 <= i < |g| ==> MadeFrom(g[i], lists[i])
  }

  ghost predicate AllStrict(lists: seq<seq<nat>>) { forall i :: 0 <= i < |lists| ==> Strict(0, lists[i]) }

  /** These postings say that the documents of the group have these positions. */
  ghost predicate Say(qs: seq<Posting>, g: seq<CacheWord>, lists: seq<seq<nat>>) {
    && |qs| == |g| == |lists|
    && forall i :: 0 <= i < |g| ==> qs[i].urlId == g[i].urlId && Positions(qs[i].gaps) == lists[i]
  }

  lemma {:induction false} CutIsShorter(gaps: seq<value>)
    ensures |Codes(BeforeZero(gaps))| <= |Codes(gaps)|
    ensures |Codes(BeforeZero(gaps))| == |Codes(gaps)| ==> BeforeZero(gaps) == gaps
  {
    hide Put;
    if gaps == [] || gaps[0] == 0 {
    } else {
      CutIsShorter(gaps[1..]);
      CodesCons(BeforeZero(gaps));
      assert gaps == [gaps[0]] + gaps[1..];
    }
  }

  lemma FirstDifference(base: nat, x: nat, rest: seq<nat>)
    requires base <= x < base + LIMIT && Ascends(x, rest)
    ensures Ascends(base, [x] + rest) && Differences(base, [x] + rest) == [x - base] + Differences(x, rest)
  {
    assert ([x] + rest)[1..] == rest;
  }

  lemma {:induction false} GapsOfSums(base: nat, gaps: seq<value>)
    ensures Ascends(base, RunningSums(base, gaps)) && Differences(base, RunningSums(base, gaps)) == gaps
    decreases |gaps|
  {
    if gaps == [] {
    } else {
      hide Ascends, Differences;
      GapsOfSums(base + gaps[0], gaps[1..]);
      FirstDifference(base, base + gaps[0], RunningSums(base + gaps[0], gaps[1..]));
      assert gaps == [gaps[0]] + gaps[1..];
    }
  }

  /** The string of an entry has all codes of its positions if and only if none is zero or repeated. */
  lemma StringFits(xs: seq<nat>, gaps: seq<value>)
    requires Positions(gaps) == xs
    ensures |PackedString(xs)| <= |Codes(gaps)| && (|PackedString(xs)| == |Codes(gaps)| ==> Strict(0, xs))
  {
    hide Codes, CString, BeforeZero, RunningSums;
    GapsOfSums(0, gaps);
    CStringOfCodes(gaps);
    CutIsShorter(gaps);
    ReadBackIff(0, xs);
  }

  lemma RecordFits(f: Format, prev: nat, e: CacheWord, xs: seq<nat>, q: Posting)
    requires MadeFrom(e, xs) && q.urlId == e.urlId && Positions(q.gaps) == xs
    ensures var room := |UrlBytes(f, prev, q.urlId)| + |TryPut(|q.gaps|, 4)| + |Codes(q.gaps)|;
            |Record(f, prev, e)| <= room && (|Record(f, prev, e)| == room ==> Strict(0, xs))
  {
    hide Put, PackedString, UrlBytes, Ascends, RunningSums;
    StringFits(xs, q.gaps);
    CodesNone(q.gaps);
  }

  lemma {:induction false} BodyFits(f: Format, prev: nat, g: seq<CacheWord>, lists: seq<seq<nat>>, qs: seq<Posting>)
    requires AllMade(g, lists) && Say(qs, g, lists)
    ensures |Body(f, prev, g)| <= Need(f, prev, qs)
    ensures |Body(f, prev, g)| == Need(f, prev, qs) ==> AllStrict(lists)
    decreases |g|
  {
    hide Record, UrlBytes, TryPut, Codes, Positions, MadeFrom;
    if g == [] {
    } else {
      RecordFits(f, prev, g[0], lists[0], qs[0]);
      BodyFits(f, g[0].urlId, g[1..], lists[1..], qs[1..]);
      if AllStrict(lists[1..]) && Strict(0, lists[0]) {
        forall i | 0 <= i < |lists| ensures Strict(0, lists[i]) { assert i > 0 ==> lists[i] == lists[1..][i - 1]; }
      }
    }
  }

  // ---------- Where the records start ----------

  /** An uncompressed row starts with a url_id, so it is not taken for one with a marker. */
  lemma {:induction false} SimpleBodyStart(prev: nat, g: seq<CacheWord>)
    requires Increasing(g) && |Body(Simple, prev, g)| >= 4
    ensures GetInt4(Body(Simple, prev, g), 0) < URL_LIMIT
    decreases |g|
  {
    hide Put, Int4, GetInt4;
    var b := Body(Simple, prev, g);
    if Record(Simple, prev, g[0]) == [] {
      assert b == Body(Simple, g[0].urlId, g[1..]);
      SimpleBodyStart(g[0].urlId, g[1..]);
    } else {
      var rest := Put(g[0].nintags) + g[0].intags + Body(Simple, g[0].urlId, g[1..]);
      assert b == [] + Int4(g[0].urlId) + rest;
      Int4At([], g[0].urlId, rest);
    }
  }

  /** A header that is not undefined leaves room for what was written before the records. */
  lemma HeaderCovers(f: Format, g: seq<CacheWord>)
    requires g != [] && Increasing(g) && |g| < URL_LIMIT && (f.Simple? || |Row(f, g)| > 10)
    requires f.RangeMulti? ==> HeaderReadable(f, g)
    ensures var st := ReadHeader(Row(f, g));
            st.Stat? ==> st.kind == TypeCode(f) && st.body >= |Header(f, g)| && (f.DeltaVariable? ==> st.cur == 0)
  {
    hide Body, Int4, Int2, GetInt4, GetInt2, Ranges, RangeBytes, Increasing;
    var body := Body(f, Base(f, g[0].urlId), g);
    if f.Simple? {
      assert Row(f, g) == body;
      if |body| >= 4 { SimpleBodyStart(0, g); }
    } else {
      var x := HeaderData(f, g) + body;
      RowIsMarkerThen(f, g, x);
      MarkerThen(f, x);
      if f.RangeMulti? {
        RangeCount(g, x);
        ReadSixByteHeader(f, g, body);
      }
    }
  }

  // ---------- What is read ----------

  /** Only formats for more than one document have a marker. */
  lemma MarkedIsMany(g: seq<CacheWord>, useCompr: bool)
    requires g != [] && Increasing(g)
    ensures Choose(StatOf(g), useCompr).Simple? || |g| > 1
  {
  }

  /** Whatever the header is taken for: a row that says all positions has all their codes. */
  lemma OnlyStrictIsSaid(g: seq<CacheWord>, lists: seq<seq<nat>>, useCompr: bool)
    requires g != [] && |g| < URL_LIMIT && Increasing(g) && AllMade(g, lists)
    requires Say(ReadRow(Row(Choose(StatOf(g), useCompr), g)).postings, g, lists)
    ensures AllStrict(lists)
  {
    hide Row, Header, ReadHeader, ReadFrom, Increasing, Choose, Body, HeaderReadable, AllMade, MadeFrom, Positions;
    var f := Choose(StatOf(g), useCompr);
    var s := Row(f, g);
    var qs, st := ReadRow(s).postings, ReadHeader(s);
    MarkedIsMany(g, useCompr);
    if !f.Simple? && |s| <= 10 {
      ShortRow(s);
    } else if f.RangeMulti? && !HeaderReadable(f, g) {
      MisreadRangeMulti(g, qs);
    } else {
      HeaderCovers(f, g);
      var next := FirstRead(s, st.body, st);
      ReadingTakes(s, st.body, st, f, Base(f, g[0].urlId));
      BodyFits(f, Base(f, g[0].urlId), g, lists, qs);
      RowLength(f, g);
    }
  }

  lemma RowLength(f: Format, g: seq<CacheWord>)
    requires g != []
    ensures |Row(f, g)| == |Header(f, g)| + |Body(f, Base(f, g[0].urlId), g)|
  {
  }

  /** Entries without a zero or repeated position carry what they were made from. */
  lemma {:induction false} StrictIsCarried(g: seq<CacheWord>, lists: seq<seq<nat>>) returns (ps: seq<Posting>)
    requires AllMade(g, lists) && AllStrict(lists)
    ensures CarriesAll(g, ps) && Say(ps, g, lists)
    decreases |g|
  {
    hide Carries, EntryFor, Positions;
    if g == [] {
      ps := [];
    } else {
      var gaps := EntryCarriesIff(g[0].urlId, g[0].secno, g[0].word, lists[0]);
      var rest := StrictIsCarried(g[1..], lists[1..]);
      ps := [Posting(g[0].urlId, gaps)] + rest;
      forall i | 0 < i < |g| ensures ps[i] == rest[i - 1] && g[i] == g[1..][i - 1] && lists[i] == lists[1..][i - 1] { }
    }
  }

  lemma SaidOnce(a: seq<Posting>, b: seq<Posting>, g: seq<CacheWord>, lists: seq<seq<nat>>)
    requires Say(a, g, lists) && Say(b, g, lists)
    ensures a == b
  {
    hide RunningSums;
    forall i | 0 <= i < |a| ensures a[i] == b[i] {
      GapsOfSums(0, a[i].gaps);
      GapsOfSums(0, b[i].gaps);
    }
  }

  /**
   * What a search reads from the row of a group: every document with its positions, if and only if no position is zero
   * or repeated, the url_ids are recoverable and no short last delta record is held back.
   */
  lemma RowSaysIff(g: seq<CacheWord>, lists: seq<seq<nat>>, useCompr: bool)
    requires g != [] && |g| < URL_LIMIT && Increasing(g) && AllMade(g, lists)
    ensures var f := Choose(StatOf(g), useCompr);
            var r := ReadRow(Row(f, g));
            r.defined && Say(r.postings, g, lists) <==>
              AllStrict(lists) && Recoverable(g, useCompr) && Returned(f, g) == |g|
  {
    hide Row, ReadRow, Choose, Say, AllMade, CarriesAll, Increasing, Recoverable, Returned, AllStrict;
    var r := ReadRow(Row(Choose(StatOf(g), useCompr), g));
    if AllStrict(lists) {
      var ps := StrictIsCarried(g, lists);
      RoundTripIff(g, ps, useCompr);
      if Say(r.postings, g, lists) { SaidOnce(r.postings, ps, g, lists); }
    } else if Say(r.postings, g, lists) {
      OnlyStrictIsSaid(g, lists, useCompr);
    }
  }

  // ---------- A repeated position ----------

  /**
   * Positions 5 and 5 of document 1, and position 7 of document 2: one code is written for document 1 and two are
   * announced, so the row says that document 1 has the positions 5 and 7, and document 2 is gone.
   */
  lemma RepeatedPositionMisleads(w: seq<byte>, s: byte)
    ensures var g := [EntryFor(1, s, w, [5, 5]), EntryFor(2, s, w, [7])];
            && Choose(StatOf(g), false).Simple?
            && ReadRow(Row(Simple, g)) == Reading([Posting(1, [5, 2])], true) && Positions([5, 2]) == [5, 7]
  {
    var g := [EntryFor(1, s, w, [5, 5]), EntryFor(2, s, w, [7])];
    TwoEntries(w, s);
    TwoRecords(g[0], g[1]);
    MisreadRecords();
  }

  lemma TwoEntries(w: seq<byte>, s: byte)
    ensures EntryFor(1, s, w, [5, 5]) == CacheWord(w, s, 1, 2, [5])
    ensures EntryFor(2, s, w, [7]) == CacheWord(w, s, 2, 1, [7])
  {
    var xs: seq<nat>, ys: seq<nat> := [5, 5], [7];
    assert xs[1..] == [5] && ys[1..] == [];
    assert Ascends(5, [5]) && Differences(5, [5]) == [0] && Differences(0, xs) == [5, 0];
    assert Codes([0]) == [0] && Codes([5, 0]) == [5, 0] by { assert [5, 0][1..] == [0]; }
    assert CString([5, 0]) == [5] by { assert [5, 0][1..] == [0]; }
    assert Differences(0, ys) == [7] && Codes([7]) == [7] && CString([7]) == [7];
  }

  lemma TwoRecords(a: CacheWord, b: CacheWord)
    requires a.urlId == 1 && a.nintags == 2 && a.intags == [5] && b.urlId == 2 && b.nintags == 1 && b.intags == [7]
    ensures Row(Simple, [a, b]) == [1, 0, 0, 0, 2, 5, 2, 0, 0, 0, 1, 7]
  {
    assert [a, b][1..] == [b];
    assert Record(Simple, 0, a) == [1, 0, 0, 0, 2, 5] && Record(Simple, 1, b) == [2, 0, 0, 0, 1, 7];
    assert Body(Simple, 1, [b]) == Record(Simple, 1, b) + Body(Simple, 2, []);
  }

  lemma MisreadRecords()
    ensures ReadRow([1, 0, 0, 0, 2, 5, 2, 0, 0, 0, 1, 7]) == Reading([Posting(1, [5, 2])], true)
    ensures Positions([5, 2]) == [5, 7]
  {
    var s: seq<byte> := [1, 0, 0, 0, 2, 5, 2, 0, 0, 0, 1, 7];
    var st := Stat(0, 0, 0, 0, 0, 0, 0);
    assert ReadHeader(s) == st;
    assert ReadGaps(s, 6, 1) == Run([2], 7, true);
    assert ReadGaps(s, 5, 2) == Run([5, 2], 7, true);
    assert ReadDoc(s, 4, 1) == Doc(Posting(1, [5, 2]), 7);
    assert ReadFrom(s, 7, st) == Reading([], true);
    assert [5, 2][1..] == [2];
  }

  // ---------- From the cache to the rows ----------

  lemma {:induction false} MineHas(words: seq<CacheWord>, e: CacheWord)
    ensures e in words <==> e in Mine(words, e.urlId, e.secno, e.word)
  {
    if words == [] {
    } else {
      MineHas(words[1..], e);
      assert words == [words[0]] + words[1..];
    }
  }

  lemma {:induction false} MineTwice(words: seq<CacheWord>, i: nat, j: nat)
    requires i < j < |words|
    requires words[i].word == words[j].word && words[i].secno == words[j].secno && words[i].urlId == words[j].urlId
    ensures |Mine(words, words[j].urlId, words[j].secno, words[j].word)| >= 2
  {
    var e := words[j];
    if i > 0 {
      MineTwice(words[1..], i - 1, j - 1);
    } else {
      assert words[1..][j - 1] == e;
      MineHas(words[1..], e);
    }
  }

  /** An entry of the blob cache: the positions of a word in a section of a listed document. */
  ghost predicate Converted(e: CacheWord, cache: MultiCache.Cache, listed: set<nat>)
    requires |cache.tables| == 256
    reads cache
  {
    var xs := cache.Lookup(e.urlId, e.secno, e.word);
    && e.urlId in listed && e.urlId != 0 && e.secno != 0 && xs != []
    && e == EntryFor(e.urlId, e.secno, e.word, xs)
  }

  ghost predicate OnceEach(words: seq<CacheWord>, cache: MultiCache.Cache, listed: set<nat>)
    requires |cache.tables| == 256
    reads cache
  {
    forall u, s, w :: Mine(words, u, s, w) == MultiConvert.Once(u in listed, u, s, w, cache.Lookup(u, s, w))
  }

  lemma WordsAreConverted(words: seq<CacheWord>, cache: MultiCache.Cache, listed: set<nat>)
    requires cache.Valid() && OnceEach(words, cache, listed)
    ensures Keyed(words) && forall e :: e in words <==> Converted(e, cache, listed)
  {
    hide Converted, OnceEach, Keyed;
    forall e ensures e in words <==> Converted(e, cache, listed) { WordIsConverted(words, cache, listed, e); }
    WordsAreKeyed(words, cache, listed);
  }

  lemma WordIsConverted(words: seq<CacheWord>, cache: MultiCache.Cache, listed: set<nat>, e: CacheWord)
    requires |cache.tables| == 256 && OnceEach(words, cache, listed)
    ensures e in words <==> Converted(e, cache, listed)
  {
    hide Mine, EntryFor;
    MineHas(words, e);
    EntryKey(e.urlId, e.secno, e.word, cache.Lookup(e.urlId, e.secno, e.word));
  }

  lemma EntryKey(u: nat, s: byte, w: seq<byte>, xs: seq<nat>)
    ensures var e := EntryFor(u, s, w, xs); e.urlId == u && e.secno == s && e.word == w
  {
  }

  lemma WordsAreKeyed(words: seq<CacheWord>, cache: MultiCache.Cache, listed: set<nat>)
    requires |cache.tables| == 256 && OnceEach(words, cache, listed)
    ensures Keyed(words)
  {
    hide Mine, EntryFor;
    forall i, j | 0 <= i < j < |words|
      ensures words[i].word != words[j].word || words[i].secno != words[j].secno || words[i].urlId != words[j].urlId
    {
      var e := words[j];
      if words[i].word == e.word && words[i].secno == e.secno && words[i].urlId == e.urlId { MineTwice(words, i, j); }
    }
  }

  lemma SortedWords(words: seq<CacheWord>, cache: MultiCache.Cache, listed: set<nat>)
    requires cache.Valid() && OnceEach(words, cache, listed) && forall u :: u in listed ==> u < URL_LIMIT
    ensures Writable(Sort(EntryLe, words)) && forall e :: e in Sort(EntryLe, words) <==> Converted(e, cache, listed)
  {
    hide Sort, EntryFor, OnceEach;
    var sorted := Sort(EntryLe, words);
    WordsAreConverted(words, cache, listed);
    EntryLeIsTotal();
    SortProperties(EntryLe, words);
    KeyedByMultiset(words, sorted);
    forall e ensures e in sorted <==> e in words { assert e in multiset(sorted) <==> e in multiset(words); }
    forall i | 0 <= i < |sorted| ensures 0 < sorted[i].urlId < URL_LIMIT { assert sorted[i] in sorted; }
  }

  /** The positions that the entries of a group were made from. */
  ghost function ListsOf(g: seq<CacheWord>, cache: MultiCache.Cache): (lists: seq<seq<nat>>)
    requires |cache.tables| == 256
    reads cache
    ensures |lists| == |g|
    ensures forall i :: 0 <= i < |g| ==> lists[i] == cache.Lookup(g[i].urlId, g[i].secno, g[i].word)
  {
    if g == [] then []
    else [cache.Lookup(g[0].urlId, g[0].secno, g[0].word)] + ListsOf(g[1..], cache)
  }

  lemma EntryIsMade(e: CacheWord, cache: MultiCache.Cache, listed: set<nat>)
    requires cache.Valid() && Converted(e, cache, listed)
    ensures MadeFrom(e, cache.Lookup(e.urlId, e.secno, e.word))
  {
    hide EntryFor, Ascends, MultiCache.PositionsOf;
    var xs := cache.Lookup(e.urlId, e.secno, e.word);
    LookupAscends(xs, cache.log, e.urlId, e.secno, e.word);
    PositionsAreSmall(cache.log, e.urlId, e.secno, e.word);
    forall x | x in xs ensures x < LIMIT {
      assert x in multiset(xs) && x in MultiCache.PositionsOf(cache.log, e.urlId, e.secno, e.word);
    }
  }

  /** What a search reads from the row of a group, in terms of the cache. */
  ghost predicate RowIsExact(g: seq<CacheWord>, cache: MultiCache.Cache, useCompr: bool)
    requires g != [] && |cache.tables| == 256
    reads cache
  {
    var f := Choose(StatOf(g), useCompr);
    var r := ReadRow(Row(f, g));
    r.defined && Say(r.postings, g, ListsOf(g, cache)) <==>
      AllStrict(ListsOf(g, cache)) && Recoverable(g, useCompr) && Returned(f, g) == |g|
  }

  lemma GroupIsExact(g: seq<CacheWord>, cache: MultiCache.Cache, listed: set<nat>, useCompr: bool)
    requires cache.Valid() && IsGroup(g) && forall e :: e in g ==> Converted(e, cache, listed)
    ensures RowIsExact(g, cache, useCompr)
  {
    hide Row, ReadRow, Choose, Say, Recoverable, Returned, AllStrict, MadeFrom, Converted;
    forall i | 0 <= i < |g| ensures MadeFrom(g[i], ListsOf(g, cache)[i]) {
      assert g[i] in g;
      EntryIsMade(g[i], cache, listed);
    }
    SpreadAtLeastCount(g);
    RowSaysIff(g, ListsOf(g, cache), useCompr);
  }

  /**
   * UdmSingle2BlobSQL: the listed documents' words go through the blob cache into one row per word and section. Each
   * row holds exactly the documents that have the word there, and says their positions exactly under the condition.
   */
  method ConvertToBlob(cache: MultiCache.Cache, listed: set<nat>, useCompr: bool)
    returns (table: seq<BdictRow>, ghost groups: seq<seq<CacheWord>>)
    requires cache.Valid() && forall u :: u in listed ==> u < URL_LIMIT
    ensures forall i :: 0 <= i < |groups| ==> groups[i] != [] && IsGroup(groups[i])
    ensures KeysApart(groups) && table == TableFor(groups, useCompr)
    ensures forall e :: InGroups(groups, e) <==> Converted(e, cache, listed)
    ensures forall i :: 0 <= i < |groups| ==> RowIsExact(groups[i], cache, useCompr)
    ensures MultiCache.Fit(cache.log) ==> forall u, s, w ::
        MultiCache.SortedFrom(cache.Lookup(u, s, w), MultiCache.CalledWith(cache.log, u, s, w))
  {
    hide Sort, Writable, GroupsOf, Mine, MultiConvert.Once, EntryFor, RowFor, RowIsExact, KeysApart, Increasing,
         Converted;
    var out := Convert(cache, listed);
    SortedWords(out.words, cache, listed);
    out.words := Sort(EntryLe, out.words);
    groups := GroupsOf(out.words);
    GroupsProperties(out.words);
    table := WriteCache(out.words, useCompr);
    if MultiCache.Fit(cache.log) {
      forall u, s, w
        ensures MultiCache.SortedFrom(cache.Lookup(u, s, w), MultiCache.CalledWith(cache.log, u, s, w))
      {
        MultiCache.LookupIsCalled(cache, u, s, w);
      }
    }
    forall i | 0 <= i < |groups| ensures RowIsExact(groups[i], cache, useCompr) {
      forall e | e in groups[i] ensures Converted(e, cache, listed) { assert InGroups(groups, e); }
      GroupIsExact(groups[i], cache, listed, useCompr);
    }
  }
}

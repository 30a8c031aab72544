/** The full conversion, and what its table says about the documents (dbmode-blob.c:3850-3903 and 3911-3970). */
module Conversion {
  import opened Bytes
  import opened Seqs
  import opened Coord
  import opened Order
  import opened Rows
  import opened Sections
  import opened ForwardRecord
  import opened ColumnParser
  import opened Columns
  import opened Packer
  import opened Transpose

  // ---------- What a column's caches hold ----------

  /** Entry e says exactly what document k says about its word and section. */
  ghost predicate FromDoc(e: CacheWord, ix: Index, k: nat) {
    && k < |ix.docs| && ix.listed(ix.docs[k].url) && e.secno != 0 && !ix.noindex(e.secno)
    && EntryIsSound(e, ix.docs[k].url, ix.docs[k].words, ix.docs[k].wordpos, ix.save)
  }

  ghost predicate FromSome(e: CacheWord, ix: Index, n: nat) { exists k: nat :: k < n && FromDoc(e, ix, k) }

  predicate HasPosting(es: seq<CacheWord>, w: Word, url: nat) {
    exists i :: 0 <= i < |es| && SameKey(es[i], w) && es[i].urlId == url
  }

  /** A word the search must find: of a real, indexed section of a listed document. */
  predicate Wanted(ix: Index, k: nat, w: Word) {
    k < |ix.docs| && ix.listed(ix.docs[k].url) && w in ix.docs[k].words && w.secno != 0 && !ix.noindex(w.secno)
  }

  predicate InClass(word: seq<byte>, ix: Index, t: nat) { ix.hash(word) % 32 == t }

  lemma {:induction false} VisibleProperties(es: seq<CacheWord>, noindex: byte -> bool)
    ensures forall e :: e in Visible(es, noindex) <==> e in es && !noindex(e.secno)
    ensures KeysDistinct(es) ==> KeysDistinct(Visible(es, noindex))
  {
    if es == [] {
    } else {
      var tail, r := es[1..], Visible(es[1..], noindex);
      VisibleProperties(tail, noindex);
      assert es == [es[0]] + tail;
      if KeysDistinct(es) { NewKey(es, r); }
    }
  }

  lemma NewKey(es: seq<CacheWord>, r: seq<CacheWord>)
    requires es != [] && KeysDistinct(es) && forall e :: e in r ==> e in es[1..]
    ensures KeysDistinct(es[1..]) && forall i :: 0 <= i < |r| ==>
        es[0].word != r[i].word || es[0].secno != r[i].secno
  {
    var tail := es[1..];
    assert forall i :: 0 <= i < |tail| ==> tail[i] == es[i + 1];
    forall i | 0 <= i < |r| ensures es[0].word != r[i].word || es[0].secno != r[i].secno {
      assert r[i] in tail;
      var j :| 0 <= j < |tail| && tail[j] == r[i];
      assert es[j + 1] == tail[j];
    }
  }

  lemma EntrySoundInDoc(e: CacheWord, d: Document, hash: seq<byte> -> nat, t: nat, save: bool)
    requires EntryIsSound(e, d.url, Column(d, hash, t), d.wordpos, save) && FromWord(e, Column(d, hash, t))
    requires forall w :: w in Column(d, hash, t) <==> w in d.words && InColumn(w, hash, t)
    ensures EntryIsSound(e, d.url, d.words, d.wordpos, save) && e.secno != 0 && hash(e.word) % 32 == t
  {
    hide Spells, Column;
    var col := Column(d, hash, t);
    var i :| 0 <= i < |col| && SameKey(e, col[i]);
    assert col[i] in col;
    var gaps :| Describes(e, gaps, d.url, col, d.wordpos, save);
    SpellsMore(gaps, col, d.words, d.wordpos, e.word, e.secno, save);
    assert Describes(e, gaps, d.url, d.words, d.wordpos, save);
  }

  lemma DocLogProperties(ix: Index, k: nat, t: nat)
    requires GoodIndex(ix) && k < |ix.docs|
    ensures var es := DocLog(ix, ix.docs[k], t);
            && KeysDistinct(es)
            && (forall e :: e in es ==> FromDoc(e, ix, k) && InClass(e.word, ix, t) && e.urlId == ix.docs[k].url)
            && (forall w :: Wanted(ix, k, w) && InClass(w.word, ix, t) ==> HasPosting(es, w, ix.docs[k].url))
  {
    hide Entries, Visible, Column, Describes, EntryIsSound, GoodDocument, Enc;
    var d := ix.docs[k];
    var col, c := Column(d, ix.hash, t), Ctx(ix, d);
    ColumnIsReady(d, ix.hash, t, ix.save);
    ReadyIsGood(col, c);
    var all := Entries(col, d.url, c);
    EntriesSayTheColumn(col, d.url, c);
    VisibleProperties(all, ix.noindex);
    if ix.listed(d.url) {
      var es := DocLog(ix, d, t);
      forall e | e in es ensures FromDoc(e, ix, k) && InClass(e.word, ix, t) && e.urlId == d.url {
        EntrySoundInDoc(e, d, ix.hash, t, ix.save);
        SoundHasUrl(e, d.url, d.words, d.wordpos, ix.save);
      }
      forall w | Wanted(ix, k, w) && InClass(w.word, ix, t) ensures HasPosting(es, w, d.url) {
        assert w in col;
        var i :| 0 <= i < |all| && SameKey(all[i], w);
        assert all[i] in all && all[i] in es;
        var j :| 0 <= j < |es| && es[j] == all[i];
      }
    }
  }

  lemma SoundHasUrl(e: CacheWord, url: nat, words: seq<Word>, wordpos: byte -> nat, save: bool)
    requires EntryIsSound(e, url, words, wordpos, save)
    ensures e.urlId == url
  {
    hide Spells;
    var gaps :| Describes(e, gaps, url, words, wordpos, save);
  }

  /** After n documents: sound, complete for those documents, no posting twice. */
  lemma {:induction false} ColumnLogProperties(ix: Index, t: nat, n: nat)
    requires GoodIndex(ix) && n <= |ix.docs|
    ensures var log := ColumnLog(ix, t, n);
            && Keyed(log)
            && (forall i :: 0 <= i < |log| ==> InClass(log[i].word, ix, t) && FromSome(log[i], ix, n))
            && (forall k: nat, w :: k < n && Wanted(ix, k, w) && InClass(w.word, ix, t) ==>
              HasPosting(log, w, ix.docs[k].url))
  {
    hide DocLog, FromDoc, GoodDocument, Wanted;
    if n == 0 {
    } else {
      ColumnLogProperties(ix, t, n - 1);
      DocLogProperties(ix, n - 1, t);
      var pre, es := ColumnLog(ix, t, n - 1), DocLog(ix, ix.docs[n - 1], t);
      var log := pre + es;
      forall i, j | 0 <= i < |pre| && 0 <= j < |es| ensures pre[i].urlId != es[j].urlId {
        assert FromSome(pre[i], ix, n - 1);
        var k: nat :| k < n - 1 && FromDoc(pre[i], ix, k);
        FromDocHasUrl(pre[i], ix, k);
        assert es[j] in es;
      }
      forall i | 0 <= i < |log| ensures InClass(log[i].word, ix, t) && FromSome(log[i], ix, n) {
        if i >= |pre| {
          assert log[i] in es;
          assert FromDoc(log[i], ix, n - 1);
        } else {
          assert FromSome(pre[i], ix, n - 1);
        }
      }
      forall k: nat, w | k < n && Wanted(ix, k, w) && InClass(w.word, ix, t)
        ensures HasPosting(log, w, ix.docs[k].url)
      {
        PostingInEither(pre, es, w, ix.docs[k].url);
      }
    }
  }

  lemma FromDocHasUrl(e: CacheWord, ix: Index, k: nat)
    requires FromDoc(e, ix, k)
    ensures k < |ix.docs| && e.urlId == ix.docs[k].url
  {
    SoundHasUrl(e, ix.docs[k].url, ix.docs[k].words, ix.docs[k].wordpos, ix.save);
  }

  lemma PostingInEither(a: seq<CacheWord>, b: seq<CacheWord>, w: Word, url: nat)
    ensures HasPosting(a + b, w, url) <==> HasPosting(a, w, url) || HasPosting(b, w, url)
  {
    var s := a + b;
    if HasPosting(a, w, url) {
      var i :| 0 <= i < |a| && SameKey(a[i], w) && a[i].urlId == url;
      assert s[i] == a[i];
    }
    if HasPosting(b, w, url) {
      var i :| 0 <= i < |b| && SameKey(b[i], w) && b[i].urlId == url;
      assert s[|a| + i] == b[i];
    }
  }

  // ---------- One cache: filter, sort, group ----------

  lemma {:induction false} BucketProperties(log: seq<CacheWord>, hash: seq<byte> -> nat, c: nat)
    ensures forall e :: e in Bucket(log, hash, c) <==> e in log && Seed(hash, e.word) == c
    ensures Keyed(log) ==> Keyed(Bucket(log, hash, c))
    decreases |log|
  {
    hide Seed;
    if log == [] {
    } else {
      var n := |log| - 1;
      BucketProperties(log[..n], hash, c);
      assert log == log[..n] + [log[n]];
      if Keyed(log) { BucketStaysKeyed(log, Bucket(log[..n], hash, c)); }
    }
  }

  lemma BucketStaysKeyed(log: seq<CacheWord>, b: seq<CacheWord>)
    requires log != [] && Keyed(log) && (Keyed(log[..|log| - 1]) ==> Keyed(b))
    requires forall e :: e in b ==> e in log[..|log| - 1]
    ensures Keyed(b) && Keyed(b + [log[|log| - 1]])
  {
    var n := |log| - 1;
    forall i | 0 <= i < |b|
      ensures b[i].word != log[n].word || b[i].secno != log[n].secno || b[i].urlId != log[n].urlId
    {
      assert b[i] in b;
    }
  }

  lemma KeyedByMultiset(a: seq<CacheWord>, b: seq<CacheWord>)
    requires multiset(a) == multiset(b) && Keyed(a)
    ensures Keyed(b)
  {
    assert Distinct(a);
    DistinctByMultiset(a, b);
    forall i, j | 0 <= i < j < |b|
      ensures b[i].word != b[j].word || b[i].secno != b[j].secno || b[i].urlId != b[j].urlId
    {
      assert b[i] in multiset(b) && b[j] in multiset(b);
      var k :| 0 <= k < |a| && a[k] == b[i];
      var l :| 0 <= l < |a| && a[l] == b[j];
    }
  }

  /** The cache c of column t, sorted. */
  ghost function SortedCache(ix: Index, t: nat, c: nat): seq<CacheWord>
    requires GoodIndex(ix)
  {
    Sort(EntryLe, Bucket(ColumnLog(ix, t, |ix.docs|), ix.hash, c))
  }

  lemma SortedCacheProperties(ix: Index, t: nat, c: nat)
    requires GoodIndex(ix)
    ensures Writable(SortedCache(ix, t, c))
    ensures forall e :: e in SortedCache(ix, t, c) <==> e in ColumnLog(ix, t, |ix.docs|) && Seed(ix.hash, e.word) == c
  {
    hide ColumnLog, Bucket, Sort, FromDoc, GoodDocument;
    var n := |ix.docs|;
    var log := ColumnLog(ix, t, n);
    var b, s := Bucket(log, ix.hash, c), SortedCache(ix, t, c);
    ColumnLogProperties(ix, t, n);
    BucketProperties(log, ix.hash, c);
    EntryLeIsTotal();
    SortProperties(EntryLe, b);
    KeyedByMultiset(b, s);
    forall e ensures e in s <==> e in b { assert e in multiset(s) <==> e in multiset(b); }
    forall i | 0 <= i < |s| ensures 0 < s[i].urlId < URL_LIMIT {
      assert s[i] in s && s[i] in log;
      var j :| 0 <= j < |log| && log[j] == s[i];
      assert FromSome(log[j], ix, n);
      var k: nat :| k < n && FromDoc(log[j], ix, k);
      FromDocHasUrl(log[j], ix, k);
      GoodUrl(ix.docs[k], ix.save);
    }
  }

  lemma GoodUrl(d: Document, save: bool)
    requires GoodDocument(d, save)
    ensures 0 < d.url < URL_LIMIT
  {
  }

  // ---------- Groups ----------

  ghost predicate IsGroup(g: seq<CacheWord>) {
    g != [] && Increasing(g) && forall i :: 0 <= i < |g| ==> SameGroup(g[i], g[0])
  }

  predicate InGroups(gs: seq<seq<CacheWord>>, e: CacheWord) { exists i :: 0 <= i < |gs| && e in gs[i] }

  /** One group per (word, section). */
  ghost predicate KeysApart(gs: seq<seq<CacheWord>>) {
    forall i, j :: 0 <= i < j < |gs| && gs[i] != [] && gs[j] != [] ==> !SameGroup(gs[i][0], gs[j][0])
  }

  lemma GroupEndsKey(ws: seq<CacheWord>, j: nat)
    requires Writable(ws) && ws != [] && GroupLen(ws) <= j < |ws|
    ensures !SameGroup(ws[j], ws[0])
  {
    var n := GroupLen(ws);
    assert EntryLe(ws[0], ws[n]) && (j == n || EntryLe(ws[n], ws[j]));
    StrLeTotal(ws[0].word, ws[n].word);
  }

  lemma {:induction false} GroupsProperties(ws: seq<CacheWord>)
    requires Writable(ws)
    ensures var gs := GroupsOf(ws);
            && (forall i :: 0 <= i < |gs| ==> IsGroup(gs[i]))
            && KeysApart(gs)
            && (forall e :: InGroups(gs, e) <==> e in ws)
    decreases |ws|
  {
    hide Writable, IsGroup, GroupLen;
    if ws == [] {
    } else {
      var n := GroupLen(ws);
      var g, tail := ws[..n], ws[n..];
      WritableParts(ws, n);
      GroupsProperties(tail);
      LeadingIsGroup(ws);
      var gs, rest := GroupsOf(ws), GroupsOf(tail);
      assert gs == [g] + rest && ws == g + tail;
      forall j | 0 <= j < |rest| && rest[j] != [] ensures !SameGroup(g[0], rest[j][0]) {
        LaterGroupDiffers(ws, rest, j);
      }
      forall e ensures InGroups(gs, e) <==> e in ws {
        InGroupsCons(g, rest, e);
      }
    }
  }

  lemma LeadingIsGroup(ws: seq<CacheWord>)
    requires Writable(ws) && ws != []
    ensures IsGroup(ws[..GroupLen(ws)])
  {
    LeadingGroupIncreases(ws);
  }

  lemma LaterGroupDiffers(ws: seq<CacheWord>, rest: seq<seq<CacheWord>>, j: nat)
    requires Writable(ws) && ws != [] && j < |rest| && rest[j] != []
    requires forall e :: InGroups(rest, e) <==> e in ws[GroupLen(ws)..]
    ensures !SameGroup(ws[0], rest[j][0])
  {
    var n := GroupLen(ws);
    var e := rest[j][0];
    assert e in rest[j] && InGroups(rest, e);
    var k :| 0 <= k < |ws| - n && ws[n..][k] == e;
    GroupEndsKey(ws, n + k);
  }

  lemma InGroupsCons(g: seq<CacheWord>, rest: seq<seq<CacheWord>>, e: CacheWord)
    ensures InGroups([g] + rest, e) <==> e in g || InGroups(rest, e)
  {
    var gs := [g] + rest;
    if e in g { assert e in gs[0]; }
    if InGroups(rest, e) {
      var i :| 0 <= i < |rest| && e in rest[i];
      assert e in gs[i + 1];
    }
  }

  lemma InGroupsConcat(a: seq<seq<CacheWord>>, b: seq<seq<CacheWord>>, e: CacheWord)
    ensures InGroups(a + b, e) <==> InGroups(a, e) || InGroups(b, e)
  {
    var gs := a + b;
    if InGroups(a, e) {
      var i :| 0 <= i < |a| && e in a[i];
      assert e in gs[i];
    }
    if InGroups(b, e) {
      var i :| 0 <= i < |b| && e in b[i];
      assert e in gs[|a| + i];
    }
  }

  // ---------- All caches of all columns ----------

  /** The rows of the first c caches of column t. */
  ghost function CacheGroups(ix: Index, t: nat, c: nat): seq<seq<CacheWord>>
    requires GoodIndex(ix)
  {
    if c == 0 then [] else CacheGroups(ix, t, c - 1) + GroupsOf(SortedCache(ix, t, c - 1))
  }

  /** The rows of the first t columns. */
  ghost function Groups(ix: Index, t: nat): seq<seq<CacheWord>>
    requires GoodIndex(ix)
  {
    if t == 0 then [] else Groups(ix, t - 1) + CacheGroups(ix, t - 1, 256)
  }

  ghost predicate AllGroups(gs: seq<seq<CacheWord>>) {
    (forall i :: 0 <= i < |gs| ==> IsGroup(gs[i])) && KeysApart(gs)
  }

  lemma KeysApartConcat(a: seq<seq<CacheWord>>, b: seq<seq<CacheWord>>)
    requires AllGroups(a) && AllGroups(b)
    requires forall x, y :: InGroups(a, x) && InGroups(b, y) ==> x.word != y.word
    ensures AllGroups(a + b)
  {
    hide Increasing;
    forall i, j | 0 <= i < |a| && 0 <= j < |b| ensures !SameGroup(a[i][0], b[j][0]) {
      assert a[i][0] in a[i] && InGroups(a, a[i][0]);
      assert b[j][0] in b[j] && InGroups(b, b[j][0]);
    }
  }

  lemma {:induction false} CacheGroupsProperties(ix: Index, t: nat, c: nat)
    requires GoodIndex(ix)
    ensures AllGroups(CacheGroups(ix, t, c))
    ensures forall e :: InGroups(CacheGroups(ix, t, c), e) <==>
        e in ColumnLog(ix, t, |ix.docs|) && Seed(ix.hash, e.word) < c
  {
    hide IsGroup, ColumnLog, GroupsOf, SortedCache, GoodDocument, Seed;
    if c > 0 {
      CacheGroupsProperties(ix, t, c - 1);
      SortedCacheProperties(ix, t, c - 1);
      GroupsProperties(SortedCache(ix, t, c - 1));
      var a, b := CacheGroups(ix, t, c - 1), GroupsOf(SortedCache(ix, t, c - 1));
      KeysApartConcat(a, b);
      forall e ensures InGroups(a + b, e) <==> InGroups(a, e) || InGroups(b, e) { InGroupsConcat(a, b, e); }
    } else {
      assert forall e :: !InGroups([], e);
    }
  }

  ghost predicate InLogs(e: CacheWord, ix: Index, t: nat)
    requires GoodIndex(ix)
  {
    exists u: nat :: u < t && e in ColumnLog(ix, u, |ix.docs|)
  }

  lemma {:induction false} GroupsOfColumns(ix: Index, t: nat)
    requires GoodIndex(ix)
    ensures AllGroups(Groups(ix, t))
    ensures forall e :: InGroups(Groups(ix, t), e) <==> InLogs(e, ix, t)
  {
    hide IsGroup, ColumnLog, CacheGroups, GoodDocument, Seed, FromDoc;
    if t > 0 {
      GroupsOfColumns(ix, t - 1);
      CacheGroupsProperties(ix, t - 1, 256);
      var a, b := Groups(ix, t - 1), CacheGroups(ix, t - 1, 256);
      forall x, y | InGroups(a, x) && InGroups(b, y) ensures x.word != y.word {
        var u: nat :| u < t - 1 && x in ColumnLog(ix, u, |ix.docs|);
        ClassOf(x, ix, u);
        ClassOf(y, ix, t - 1);
      }
      KeysApartConcat(a, b);
      forall e ensures InGroups(a + b, e) <==> InLogs(e, ix, t) { InGroupsConcat(a, b, e); }
    } else {
      assert forall e :: !InGroups([], e);
    }
  }

  lemma ClassOf(e: CacheWord, ix: Index, t: nat)
    requires GoodIndex(ix) && e in ColumnLog(ix, t, |ix.docs|)
    ensures InClass(e.word, ix, t) && FromSome(e, ix, |ix.docs|)
  {
    hide ColumnLog, FromDoc, GoodDocument;
    ColumnLogProperties(ix, t, |ix.docs|);
    var log := ColumnLog(ix, t, |ix.docs|);
    var i :| 0 <= i < |log| && log[i] == e;
  }

  /**
   * The transposition, end to end: one row per (word, section); every entry of a row says exactly what
   * one listed document says; every wanted word of every listed document has its entry, in one row.
   */
  lemma EveryPostingInExactlyOneRow(ix: Index)
    requires GoodIndex(ix)
    ensures AllGroups(Groups(ix, 32))
    ensures forall e :: InGroups(Groups(ix, 32), e) ==> FromSome(e, ix, |ix.docs|)
    ensures forall k: nat, w :: Wanted(ix, k, w) ==>
              exists i :: 0 <= i < |Groups(ix, 32)| && HasPosting(Groups(ix, 32)[i], w, ix.docs[k].url)
  {
    hide Groups, ColumnLog, FromDoc, GoodDocument, AllGroups;
    GroupsOfColumns(ix, 32);
    var gs, n := Groups(ix, 32), |ix.docs|;
    forall e | InGroups(gs, e) ensures FromSome(e, ix, n) {
      assert InLogs(e, ix, 32);
      var u: nat :| u < 32 && e in ColumnLog(ix, u, n);
      ClassOf(e, ix, u);
    }
    forall k: nat, w | Wanted(ix, k, w)
      ensures exists i :: 0 <= i < |gs| && HasPosting(gs[i], w, ix.docs[k].url)
    {
      var t := ix.hash(w.word) % 32;
      ColumnLogProperties(ix, t, n);
      var log := ColumnLog(ix, t, n);
      assert InClass(w.word, ix, t) && HasPosting(log, w, ix.docs[k].url);
      var j :| 0 <= j < |log| && SameKey(log[j], w) && log[j].urlId == ix.docs[k].url;
      assert log[j] in log && InLogs(log[j], ix, 32) && InGroups(gs, log[j]);
      var i :| 0 <= i < |gs| && log[j] in gs[i];
      var m :| 0 <= m < |gs[i]| && gs[i][m] == log[j];
      assert HasPosting(gs[i], w, ix.docs[k].url);
    }
  }
}

/** Converting all columns, and searching the result for one word: the index end to end. */
module IndexSearch {
  import opened Bytes
  import opened Seqs
  import opened Coord
  import opened Order
  import opened Rows
  import opened Sections
  import opened ForwardRecord
  import opened ColumnParser
  import opened Columns
  import opened Transpose
  import opened Conversion
  import Packer
  import RowHeader
  import RowState
  import RowReader
  import RowChoice
  import RowTheorems

  // ---------- Conversion ----------

  lemma TableConcat(a: seq<seq<CacheWord>>, b: seq<seq<CacheWord>>, useCompr: bool)
    requires forall i :: 0 <= i < |a| ==> a[i] != []
    requires forall i :: 0 <= i < |b| ==> b[i] != []
    ensures forall i :: 0 <= i < |a + b| ==> (a + b)[i] != []
    ensures TableFor(a + b, useCompr) == TableFor(a, useCompr) + TableFor(b, useCompr)
  {
    hide RowFor;
  }

  /** UdmBlob2BlobWriteCache: all 256 caches of one column. */
  method WriteCaches(cache: CacheSet, useCompr: bool, ghost ix: Index, ghost t: nat) returns (table: seq<BdictRow>)
    requires GoodIndex(ix) && cache.Valid() && cache.hash == ix.hash && cache.log == ColumnLog(ix, t, |ix.docs|)
    ensures AllGroups(CacheGroups(ix, t, 256))
    ensures forall i :: 0 <= i < |CacheGroups(ix, t, 256)| ==> CacheGroups(ix, t, 256)[i] != []
    ensures table == TableFor(CacheGroups(ix, t, 256), useCompr)
  {
    hide AllGroups, ColumnLog, Bucket, Sort, GroupsOf, RowFor, GoodDocument, Writable;
    table := [];
    for c := 0 to 256
      invariant forall i :: 0 <= i < |CacheGroups(ix, t, c)| ==> CacheGroups(ix, t, c)[i] != []
      invariant table == TableFor(CacheGroups(ix, t, c), useCompr)
    {
      SortedCacheProperties(ix, t, c);
      var sorted := Sort(EntryLe, cache.buckets[c]);
      var part := WriteCache(sorted, useCompr);
      TableConcat(CacheGroups(ix, t, c), GroupsOf(sorted), useCompr);
      table := table + part;
    }
    CacheGroupsProperties(ix, t, 256);
  }

  /** The 32 columns one after another (UdmBlob2BlobConsequent). */
  method Convert(rows: seq<BdictiRow>, hash: seq<byte> -> nat, listed: nat -> bool, noindex: byte -> bool,
                 useCompr: bool, ghost ix: Index)
    returns (table: seq<BdictRow>)
    requires GoodIndex(ix) && Stored(rows, ix) && hash == ix.hash && listed == ix.listed && noindex == ix.noindex
    ensures AllGroups(Groups(ix, 32))
    ensures forall i :: 0 <= i < |Groups(ix, 32)| ==> Groups(ix, 32)[i] != []
    ensures table == TableFor(Groups(ix, 32), useCompr)
  {
    hide AllGroups, ColumnLog, CacheGroups, RowFor, GoodDocument, Stored;
    table := [];
    var cache := new CacheSet(hash);
    for t := 0 to 32
      invariant cache.Valid() && cache.log == [] && fresh(cache) && fresh(cache.buckets) && cache.hash == hash
      invariant forall i :: 0 <= i < |Groups(ix, t)| ==> Groups(ix, t)[i] != []
      invariant table == TableFor(Groups(ix, t), useCompr)
    {
      ConvertOneColumn(rows, t, listed, noindex, cache, ix);
      var part := WriteCaches(cache, useCompr, ix, t);
      TableConcat(Groups(ix, t), CacheGroups(ix, t, 256), useCompr);
      table := table + part;
      cache.Clear();
    }
    GroupsOfColumns(ix, 32);
  }

  // ---------- Search ----------

  ghost predicate Answers(e: CacheWord, gaps: seq<value>, ix: Index) {
    Carries(e, Posting(e.urlId, gaps)) && SaysDoc(e.urlId, gaps, e.word, e.secno, ix)
  }

  lemma SomeGaps(e: CacheWord, ix: Index)
    requires FromSome(e, ix, |ix.docs|)
    ensures exists gaps :: Answers(e, gaps, ix)
  {
    hide Spells, Carries;
    var k: nat :| k < |ix.docs| && FromDoc(e, ix, k);
    var d := ix.docs[k];
    var gaps :| Describes(e, gaps, d.url, d.words, d.wordpos, ix.save);
    assert SaysDocAt(e.urlId, gaps, e.word, e.secno, ix, k);
    assert Answers(e, gaps, ix);
  }

  /** Gaps of an entry that some document describes. */
  ghost function GapsOf(e: CacheWord, ix: Index): (gaps: seq<value>)
    requires FromSome(e, ix, |ix.docs|)
    ensures Answers(e, gaps, ix)
  {
    SomeGaps(e, ix);
    var gaps :| Answers(e, gaps, ix);
    gaps
  }

  /** The gaps spell out what a listed document says about (word, secno). */
  ghost predicate SaysDoc(url: nat, gaps: seq<value>, word: seq<byte>, secno: byte, ix: Index) {
    exists k: nat :: k < |ix.docs| && SaysDocAt(url, gaps, word, secno, ix, k)
  }

  ghost predicate SaysDocAt(url: nat, gaps: seq<value>, word: seq<byte>, secno: byte, ix: Index, k: nat)
    requires k < |ix.docs|
  {
    && ix.docs[k].url == url && ix.listed(url)
    && Spells(gaps, ix.docs[k].words, ix.docs[k].wordpos, word, secno, ix.save)
  }

  /** The postings of (word, secno): one per listed document that has the word there, in url order, each exact. */
  ghost predicate AnswerFor(ps: seq<Posting>, word: seq<byte>, secno: byte, ix: Index) {
    && (forall i, j :: 0 <= i < j < |ps| ==> ps[i].urlId < ps[j].urlId)
    && (forall i :: 0 <= i < |ps| ==> SaysDoc(ps[i].urlId, ps[i].gaps, word, secno, ix))
    && (forall k: nat, w :: Wanted(ix, k, w) && w.word == word && w.secno == secno ==> HasUrl(ps, ix.docs[k].url))
  }

  predicate HasUrl(ps: seq<Posting>, url: nat) { exists i :: 0 <= i < |ps| && ps[i].urlId == url }

  lemma GroupAnswers(ix: Index, g: seq<CacheWord>) returns (ps: seq<Posting>)
    requires GoodIndex(ix) && g in Groups(ix, 32)
    ensures IsGroup(g) && CarriesAll(g, ps) && AnswerFor(ps, g[0].word, g[0].secno, ix)
  {
    hide Groups, FromDoc, GoodDocument, Carries, SaysDoc;
    EveryPostingInExactlyOneRow(ix);
    var gs := Groups(ix, 32);
    var i :| 0 <= i < |gs| && gs[i] == g;
    assert IsGroup(gs[i]);
    forall j | 0 <= j < |g| ensures FromSome(g[j], ix, |ix.docs|) { assert g[j] in gs[i] && InGroups(gs, g[j]); }
    ps := seq(|g|, j requires 0 <= j < |g| => Posting(g[j].urlId, GapsOf(g[j], ix)));
    forall k: nat, w | Wanted(ix, k, w) && w.word == g[0].word && w.secno == g[0].secno
      ensures HasUrl(ps, ix.docs[k].url)
    {
      var l :| 0 <= l < |gs| && HasPosting(gs[l], w, ix.docs[k].url);
      var m :| 0 <= m < |gs[l]| && SameKey(gs[l][m], w) && gs[l][m].urlId == ix.docs[k].url;
      OneGroupPerKey(gs, i, l, m);
      assert ps[m].urlId == ix.docs[k].url;
    }
  }

  lemma OneGroupPerKey(gs: seq<seq<CacheWord>>, i: nat, l: nat, m: nat)
    requires AllGroups(gs) && i < |gs| && l < |gs| && gs[i] != [] && m < |gs[l]|
    requires gs[l][m].word == gs[i][0].word && gs[l][m].secno == gs[i][0].secno
    ensures l == i
  {
    hide Increasing;
    assert IsGroup(gs[l]) && IsGroup(gs[i]);
    assert Packer.SameGroup(gs[l][m], gs[l][0]);
  }

  lemma NoGroupNoDocument(ix: Index, word: seq<byte>, secno: byte)
    requires GoodIndex(ix)
    requires forall g: seq<CacheWord> :: g in Groups(ix, 32) ==>
        IsGroup(g) && !(g[0].word == word && g[0].secno == secno)
    ensures AnswerFor([], word, secno, ix)
  {
    hide Groups, FromDoc, GoodDocument, SaysDoc;
    EveryPostingInExactlyOneRow(ix);
    var gs := Groups(ix, 32);
    forall k: nat, w | Wanted(ix, k, w) ensures !(w.word == word && w.secno == secno) {
      var l :| 0 <= l < |gs| && HasPosting(gs[l], w, ix.docs[k].url);
      var m :| 0 <= m < |gs[l]| && SameKey(gs[l][m], w) && gs[l][m].urlId == ix.docs[k].url;
      assert gs[l] in gs && IsGroup(gs[l]);
      assert Packer.SameGroup(gs[l][m], gs[l][0]);
    }
  }

  /** The row of a word and section, or |table|. */
  method FindRow(table: seq<BdictRow>, word: seq<byte>, secno: byte) returns (i: nat)
    ensures i <= |table| && (i < |table| ==> table[i].word == word && table[i].secno == secno)
    ensures i == |table| ==> forall j :: 0 <= j < |table| ==> !(table[j].word == word && table[j].secno == secno)
  {
    i := 0;
    while i < |table|
      invariant i <= |table| && forall j :: 0 <= j < i ==> !(table[j].word == word && table[j].secno == secno)
    {
      if table[i].word == word && table[i].secno == secno { return; }
      i := i + 1;
    }
  }

  /** What the reader needs of the row of a group. */
  lemma GroupIsReadable(ix: Index, g: seq<CacheWord>, ps: seq<Posting>, useCompr: bool)
    requires IsGroup(g) && CarriesAll(g, ps) && (useCompr ==> RowTheorems.Recoverable(g, true))
    ensures var f := Choose(StatOf(g), useCompr);
            && RowHeader.Packable(f, g, ps) && HeaderReadable(f, g)
            && (f.Simple? || |Row(f, g)| > 10)
            && |ps| - 1 <= RowState.Returned(f, g) <= |ps|
            && (!useCompr ==> RowState.Returned(f, g) == |ps|)
  {
    hide CarriesAll, Row, MaxDelta;
    SpreadAtLeastCount(g);
    ChosenFormatFits(g, useCompr);
    SameLength(g, ps);
    RowTheorems.ChosenRowIsLong(g, ps, useCompr);
  }

  lemma CountReturned(g: seq<CacheWord>, ps: seq<Posting>, useCompr: bool)
    requires IsGroup(g) && CarriesAll(g, ps) && (useCompr ==> RowTheorems.Recoverable(g, true))
    ensures RowState.Returned(Choose(StatOf(g), useCompr), g) ==
            |ps| - if useCompr && RowChoice.LastIsLost(g) then 1 else 0
  {
    hide Choose, StatOf, Increasing, RowChoice.LastIsLost, UrlsFit;
    SameLength(g, ps);
    assert Carries(g[|g| - 1], ps[|g| - 1]);
    if !useCompr { RowChoice.FormatIff(g); }
    RowChoice.ReturnedIs(g, useCompr);
  }

  lemma SameLength(g: seq<CacheWord>, ps: seq<Posting>)
    requires CarriesAll(g, ps)
    ensures |g| == |ps|
  {
  }

  /** The group of a word and section, if the index has one, is in the domain of its format. */
  ghost predicate Readable(ix: Index, word: seq<byte>, secno: byte)
    requires GoodIndex(ix)
  {
    forall g: seq<CacheWord> :: g in Groups(ix, 32) && g != [] && g[0].word == word && g[0].secno == secno ==>
      RowTheorems.Recoverable(g, true)
  }

  /** The row read is that of a group of the index, and as many of its postings come back as the reader returns. */
  ghost predicate FromGroup(g: seq<CacheWord>, ps: seq<Posting>, n: nat, row: seq<byte>, useCompr: bool, ix: Index)
    requires GoodIndex(ix)
  {
    && g in Groups(ix, 32) && g != [] && CarriesAll(g, ps)
    && row == Row(Choose(StatOf(g), useCompr), g) && n == RowState.Returned(Choose(StatOf(g), useCompr), g)
  }

  /**
   * What a section that a search returns says of a document: its first and last position of the word, with coordinates
   * all of them and nothing else, and the length of the section if lengths are saved.
   */
  ghost predicate SectionSays(sec: Section, cs: seq<Coord2>, d: Document, word: seq<byte>, secno: byte, save: bool,
                              t: Template, needCoords: bool) {
    && sec.urlId == d.url && sec.ncoords >= 1
    && Word(word, sec.minpos, secno) in d.words && Word(word, sec.maxpos, secno) in d.words
    && (forall x: nat :: Word(word, x, secno) in d.words ==> sec.minpos <= x <= sec.maxpos)
    && sec.seclen == (if save then d.wordpos(secno) + 1 else if sec.ncoords == 1 then sec.minpos else 0)
    && sec.secno == t.secno && sec.wordnum == t.wordnum && sec.order == t.order
    && (needCoords ==>
          && sec.coord + sec.ncoords <= |cs|
          && (forall i, j :: sec.coord <= i < j < sec.coord + sec.ncoords ==> cs[i].pos < cs[j].pos)
          && (forall x: nat :: Word(word, x, secno) in d.words <==>
                exists i :: sec.coord <= i < sec.coord + sec.ncoords && cs[i] == Coord2(x, t.order)))
  }

  lemma TellsDocument(sec: Section, cs: seq<Coord2>, p: Posting, d: Document, word: seq<byte>, secno: byte, save: bool,
                      t: Template, needCoords: bool)
    requires RowTheorems.Tells(sec, cs, p, save, t, needCoords) && d.url == p.urlId
    requires Spells(p.gaps, d.words, d.wordpos, word, secno, save)
    ensures SectionSays(sec, cs, d, word, secno, save, t, needCoords)
  {
    hide RunningSums, StrictlyIncreasing;
    var ps := Positions(p.gaps);
    var n := sec.ncoords;
    var shown := ps[..n];
    assert shown[0] == ps[0] && shown[n - 1] == ps[n - 1];
    assert shown[0] in shown && shown[n - 1] in shown;
    forall x: nat | Word(word, x, secno) in d.words ensures sec.minpos <= x <= sec.maxpos {
      var i :| 0 <= i < n && shown[i] == x;
      assert ps[i] == x;
    }
    if needCoords {
      assert forall i :: 0 <= i < n ==> shown[i] == ps[i];
      CoordsAreWords(shown, cs, sec.coord, d, word, secno, t.order);
    }
  }

  lemma CoordsAreWords(shown: seq<nat>, cs: seq<Coord2>, at: nat, d: Document, word: seq<byte>, secno: byte,
                       order: byte)
    requires StrictlyIncreasing(shown) && at + |shown| <= |cs|
    requires forall i :: 0 <= i < |shown| ==> cs[at + i] == Coord2(shown[i], order)
    requires forall x :: x in shown <==> Word(word, x, secno) in d.words
    ensures forall i, j :: at <= i < j < at + |shown| ==> cs[i].pos < cs[j].pos
    ensures forall x :: Word(word, x, secno) in d.words <==>
                        exists i :: at <= i < at + |shown| && cs[i] == Coord2(x, order)
  {
    assert forall i :: at <= i < at + |shown| ==> cs[i] == Coord2(shown[i - at], order);
    forall x: nat
      ensures Word(word, x, secno) in d.words <==> exists i :: at <= i < at + |shown| && cs[i] == Coord2(x, order)
    {
      if x in shown {
        var i :| 0 <= i < |shown| && shown[i] == x;
        assert cs[at + i] == Coord2(x, order);
      }
    }
  }

  ghost predicate SomeSays(sec: Section, cs: seq<Coord2>, ix: Index, word: seq<byte>, secno: byte, t: Template,
                           needCoords: bool) {
    exists k: nat :: k < |ix.docs| && ix.listed(ix.docs[k].url) &&
                     SectionSays(sec, cs, ix.docs[k], word, secno, ix.save, t, needCoords)
  }

  /** Every section of an answer says what a listed document has. */
  ghost predicate AllSay(secs: seq<Section>, cs: seq<Coord2>, ix: Index, word: seq<byte>, secno: byte, t: Template,
                         needCoords: bool) {
    forall j :: 0 <= j < |secs| ==> SomeSays(secs[j], cs, ix, word, secno, t, needCoords)
  }

  lemma AnswerSays(secs: seq<Section>, cs: seq<Coord2>, ps: seq<Posting>, n: nat, limit: Limit, ix: Index,
                   word: seq<byte>, secno: byte, t: Template, row: seq<byte>, needCoords: bool)
    requires n <= |ps| && AnswerFor(ps, word, secno, ix)
    requires RowReader.Filled(secs, cs, Kept(ps[..n], limit), ix.save, t, row, needCoords)
    ensures AllSay(secs, cs, ix, word, secno, t, needCoords)
  {
    hide Spells, RowReader.Filled, RowTheorems.Tells, SectionSays, Kept, RowTheorems.Lets;
    var ks := Kept(ps[..n], limit);
    var at := RowTheorems.KeptPicks(ps[..n], limit);
    SameCount(secs, cs, ks, ix.save, t, row, needCoords);
    forall j | 0 <= j < |secs| ensures SomeSays(secs[j], cs, ix, word, secno, t, needCoords) {
      RowTheorems.StoredSectionTells(secs, cs, ks, ix.save, t, row, needCoords, j);
      var p := ps[at[j]];
      assert ks[j] == p && SaysDoc(p.urlId, p.gaps, word, secno, ix);
      var k: nat :| k < |ix.docs| && SaysDocAt(p.urlId, p.gaps, word, secno, ix, k);
      TellsDocument(secs[j], cs, p, ix.docs[k], word, secno, ix.save, t, needCoords);
    }
  }

  /** The document has the word in the section, and its url is to be searched. */
  ghost predicate Sought(ix: Index, k: nat, word: seq<byte>, secno: byte, limit: Limit) {
    && (exists w :: Wanted(ix, k, w) && w.word == word && w.secno == secno)
    && (limit.urls == [] ||
        if limit.exclude then ix.docs[k].url !in limit.urls else ix.docs[k].url in limit.urls)
  }

  /** Every document sought has a section; if one document is lost it is the one with the largest url_id. */
  ghost predicate AllFound(secs: seq<Section>, ix: Index, word: seq<byte>, secno: byte, limit: Limit, all: bool) {
    forall k: nat :: Sought(ix, k, word, secno, limit) && (all || !IsLast(ix, k, word, secno)) ==>
      HasSection(secs, ix.docs[k].url)
  }

  ghost predicate HasSection(secs: seq<Section>, url: nat) { exists j :: 0 <= j < |secs| && secs[j].urlId == url }

  /** No other document that has the word there has a larger url_id. */
  ghost predicate IsLast(ix: Index, k: nat, word: seq<byte>, secno: byte)
    requires k < |ix.docs|
  {
    forall l: nat, w :: Wanted(ix, l, w) && w.word == word && w.secno == secno ==> ix.docs[l].url <= ix.docs[k].url
  }

  lemma AnswerIsFound(secs: seq<Section>, cs: seq<Coord2>, ps: seq<Posting>, n: nat, limit: Limit, ix: Index,
                      word: seq<byte>, secno: byte, t: Template, row: seq<byte>, needCoords: bool)
    requires n <= |ps| <= n + 1 && AnswerFor(ps, word, secno, ix)
    requires RowReader.Filled(secs, cs, Kept(ps[..n], limit), ix.save, t, row, needCoords)
    ensures AllFound(secs, ix, word, secno, limit, n == |ps|)
  {
    hide SaysDoc, RowReader.Filled, Kept;
    var ks := Kept(ps[..n], limit);
    var at := RowTheorems.KeptPicks(ps[..n], limit);
    forall k: nat | Sought(ix, k, word, secno, limit) && (n == |ps| || !IsLast(ix, k, word, secno))
      ensures HasSection(secs, ix.docs[k].url)
    {
      var i :| 0 <= i < |ps| && ps[i].urlId == ix.docs[k].url;
      if n < |ps| {
        var l: nat, w :| Wanted(ix, l, w) && w.word == word && w.secno == secno && ix.docs[l].url > ix.docs[k].url;
        var m :| 0 <= m < |ps| && ps[m].urlId == ix.docs[l].url;
        assert i < m;
      }
      assert RowTheorems.Lets(limit)(ps[..n][i]);
      var j :| 0 <= j < |at| && at[j] == i;
      RowTheorems.StoredSectionTells(secs, cs, ks, ix.save, t, row, needCoords, j);
      assert secs[j].urlId == ix.docs[k].url;
    }
  }

  lemma SameCount(secs: seq<Section>, cs: seq<Coord2>, ks: seq<Posting>, save: bool, t: Template, row: seq<byte>,
                  needCoords: bool)
    requires RowReader.Filled(secs, cs, ks, save, t, row, needCoords)
    ensures |secs| == |ks|
  {
  }

  /**
   * A search for one word in one section of the converted table: the documents that have the word, with exactly its
   * positions, narrowed by the limit. With compression on this needs the format's domain of the group searched, and
   * its last posting comes back exactly when the reader returns it.
   */
  method FindWord(table: seq<BdictRow>, word: seq<byte>, secno: byte, useCompr: bool, limit: Limit, t: Template,
                  save: bool, needCoords: bool, wide: bool, ghost ix: Index)
    returns (found: bool, list: RowReader.SectionList,
             ghost row: seq<byte>, ghost g: seq<CacheWord>, ghost ps: seq<Posting>, ghost n: nat)
    requires GoodIndex(ix) && save == ix.save && RowReader.SortedUrls(limit.urls)
    requires forall i :: 0 <= i < |Groups(ix, 32)| ==> Groups(ix, 32)[i] != []
    requires table == TableFor(Groups(ix, 32), useCompr) && (useCompr ==> Readable(ix, word, secno))
    ensures AnswerFor(ps, word, secno, ix) && (found <==> ps != [])
    ensures if found then FromGroup(g, ps, n, row, useCompr, ix) else n == 0
    ensures n <= |ps| && (found ==> g != [] && n == |ps| - if useCompr && RowChoice.LastIsLost(g) then 1 else 0)
    ensures list.nsections <= list.sections.Length && list.ncoords <= list.coords.Length
    ensures RowReader.Filled(list.sections[..list.nsections], list.coords[..list.ncoords],
                             Kept(ps[..n], limit), save, t, row, needCoords)
  {
    hide AllGroups, Groups, GoodDocument, Wanted, RowReader.Filled, Carries, SaysDoc, Row, Increasing,
         RowTheorems.Recoverable, RowChoice.LastIsLost;
    GroupsOfColumns(ix, 32);
    ghost var gs := Groups(ix, 32);
    var i := FindRow(table, word, secno);
    found := i < |table|;
    if found {
      g := gs[i];
      ps := GroupAnswers(ix, g);
      CountReturned(g, ps, useCompr);
      GroupIsReadable(ix, g, ps, useCompr);
      ghost var f := Choose(StatOf(g), useCompr);
      row, n := table[i].intag, RowState.Returned(f, g);
      list := RowReader.Unpack(table[i].intag, limit, t, save, needCoords, wide, f, g, ps);
      SameLength(g, ps);
    } else {
      row, g, ps, n := [], [], [], 0;
      list := new RowReader.SectionList(0, 0);
      forall g: seq<CacheWord> | g in gs ensures IsGroup(g) && !(g[0].word == word && g[0].secno == secno) {
        var j :| 0 <= j < |gs| && gs[j] == g;
        GroupAt(gs, j);
        assert table[j] == RowFor(g, useCompr);
      }
      NoGroupNoDocument(ix, word, secno);
      RowReader.FilledNone(ps, save, t, row, needCoords, limit, list.sections[..0], list.coords[..0]);
    }
  }

  lemma GroupAt(gs: seq<seq<CacheWord>>, j: nat)
    requires AllGroups(gs) && j < |gs|
    ensures IsGroup(gs[j])
  {
    hide IsGroup;
  }

  // ---------- From documents to answers ----------

  /** The index of the documents that have words; the others leave no record. */
  ghost function Recorded(ix: Index): Index { ix.(docs := WithWords(ix.docs)) }

  lemma {:induction false} WithWordsIsGood(ix: Index)
    requires GoodIndex(ix)
    ensures GoodIndex(Recorded(ix))
    decreases |ix.docs|
  {
    hide GoodDocument;
    var docs, r := ix.docs, WithWords(ix.docs);
    forall k: nat | k < |r| ensures GoodDocument(r[k], ix.save) {
      assert r[k] in docs;
    }
    if docs == [] {
    } else {
      var n := |docs| - 1;
      var rest := WithWords(docs[..n]);
      WithWordsIsGood(ix.(docs := docs[..n]));
      forall k: nat, l: nat | k < l < |r| ensures r[k].url != r[l].url {
        if l < |rest| {
          assert Recorded(ix.(docs := docs[..n])).docs[k].url != Recorded(ix.(docs := docs[..n])).docs[l].url;
        } else {
          assert rest[k] in docs[..n];
          var j: nat :| j < n && docs[j] == rest[k];
        }
      }
    }
  }

  /** Documents without words have no part in an answer. */
  lemma SameAnswer(ix: Index, ps: seq<Posting>, word: seq<byte>, secno: byte)
    requires AnswerFor(ps, word, secno, Recorded(ix))
    ensures AnswerFor(ps, word, secno, ix)
  {
    hide Spells;
    var r := Recorded(ix);
    forall i | 0 <= i < |ps| ensures SaysDoc(ps[i].urlId, ps[i].gaps, word, secno, ix) {
      var k: nat :| k < |r.docs| && SaysDocAt(ps[i].urlId, ps[i].gaps, word, secno, r, k);
      assert r.docs[k] in r.docs && r.docs[k] in ix.docs;
      var l: nat :| l < |ix.docs| && ix.docs[l] == r.docs[k];
      assert SaysDocAt(ps[i].urlId, ps[i].gaps, word, secno, ix, l);
    }
    forall k: nat, w | Wanted(ix, k, w) && w.word == word && w.secno == secno ensures HasUrl(ps, ix.docs[k].url) {
      assert ix.docs[k] in r.docs;
      var l: nat :| l < |r.docs| && r.docs[l] == ix.docs[k];
      assert Wanted(r, l, w);
    }
  }

  /**
   * The whole way: documents are stored, the record table is converted, and a word is searched in a section. The
   * answer is about the documents themselves.
   */
  method IndexAndFind(docs: seq<Document>, listed: nat -> bool, hash: seq<byte> -> nat, noindex: byte -> bool,
                      save: bool, useCompr: bool, word: seq<byte>, secno: byte, limit: Limit, t: Template,
                      needCoords: bool, wide: bool)
    returns (found: bool, list: RowReader.SectionList,
             ghost row: seq<byte>, ghost g: seq<CacheWord>, ghost ps: seq<Posting>, ghost n: nat)
    requires GoodIndex(Index(docs, listed, hash, noindex, save)) && RowReader.SortedUrls(limit.urls)
    requires useCompr ==> var r := Recorded(Index(docs, listed, hash, noindex, save));
                          GoodIndex(r) ==> Readable(r, word, secno)
    ensures var ix := Index(docs, listed, hash, noindex, save);
            AnswerFor(ps, word, secno, ix) && (found <==> ps != []) &&
            GoodIndex(Recorded(ix)) && (if found then FromGroup(g, ps, n, row, useCompr, Recorded(ix)) else n == 0)
    ensures n <= |ps| && (found ==> g != [] && n == |ps| - if useCompr && RowChoice.LastIsLost(g) then 1 else 0)
    ensures list.nsections <= list.sections.Length && list.ncoords <= list.coords.Length
    ensures RowReader.Filled(list.sections[..list.nsections], list.coords[..list.ncoords],
                             Kept(ps[..n], limit), save, t, row, needCoords)
    ensures AllSay(list.sections[..list.nsections], list.coords[..list.ncoords],
                   Index(docs, listed, hash, noindex, save), word, secno, t, needCoords)
    ensures AllFound(list.sections[..list.nsections], Index(docs, listed, hash, noindex, save), word, secno, limit,
                     n == |ps|)
  {
    hide AllSay, AllFound, RowChoice.LastIsLost, AnswerFor, FromGroup, Groups, RecordOf, Readable, GoodIndex,
         RowReader.Filled, Kept;
    ghost var ix := Index(docs, listed, hash, noindex, save);
    WithWordsIsGood(ix);
    var rows := StoreDocuments(docs, hash, save);
    var table := Convert(rows, hash, listed, noindex, useCompr, Recorded(ix));
    found, list, row, g, ps, n :=
      FindWord(table, word, secno, useCompr, limit, t, save, needCoords, wide, Recorded(ix));
    SameAnswer(ix, ps, word, secno);
    AnswerSays(list.sections[..list.nsections], list.coords[..list.ncoords], ps, n, limit, ix, word, secno, t, row,
               needCoords);
    AnswerIsFound(list.sections[..list.nsections], list.coords[..list.ncoords], ps, n, limit, ix, word, secno, t, row,
                  needCoords);
  }
}

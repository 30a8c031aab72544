/** From a document's words to its 32 sorted columns, and what a column's entries say (dbmode-blob.c:2292-2428). */
module Columns {
  import opened Bytes
  import opened Seqs
  import opened Coord
  import opened Order
  import opened Rows
  import opened Sections
  import opened ForwardRecord
  import opened ColumnParser

  datatype Document = Document(url: nat, words: seq<Word>, wordpos: byte -> nat)

  /** swbcmp: word, then section, then position. */
  predicate WordLe(a: Word, b: Word) {
    if a.word != b.word then StrLe(a.word, b.word)
    else if a.secno != b.secno then a.secno < b.secno
    else a.pos <= b.pos
  }

  lemma WordLeTransitive(a: Word, b: Word, c: Word)
    requires WordLe(a, b) && WordLe(b, c)
    ensures WordLe(a, c)
  {
    if a.word != b.word && b.word != c.word {
      StrLeTransitive(a.word, b.word, c.word);
      StrLeTotal(a.word, b.word);
    }
  }

  lemma WordLeIsTotal()
    ensures TotalOrder(WordLe)
    ensures forall a, b :: WordLe(a, b) && WordLe(b, a) ==> a == b
  {
    forall a: Word, b: Word ensures (WordLe(a, b) || WordLe(b, a)) && (WordLe(a, b) && WordLe(b, a) ==> a == b) {
      StrLeTotal(a.word, b.word);
    }
    forall a: Word, b: Word, c: Word | WordLe(a, b) && WordLe(b, c) ensures WordLe(a, c) {
      WordLeTransitive(a, b, c);
    }
  }

  /** Words of section 0 go to no list, the others to the list of their hash. */
  predicate InColumn(w: Word, hash: seq<byte> -> nat, t: nat) { w.secno != 0 && hash(w.word) % 32 == t }

  function Pick(ws: seq<Word>, hash: seq<byte> -> nat, t: nat): (r: seq<Word>)
    ensures forall w :: w in r <==> w in ws && InColumn(w, hash, t)
  {
    if ws == [] then [] else (if InColumn(ws[0], hash, t) then [ws[0]] else []) + Pick(ws[1..], hash, t)
  }

  function Column(d: Document, hash: seq<byte> -> nat, t: nat): seq<Word> {
    Sort(WordLe, Pick(d.words, hash, t))
  }

  /**
   * What the indexer guarantees of a word of a section: a real string, its position counted from 1 and not above
   * 0x1FFFFF (word.c:47, 74).
   */
  ghost predicate GoodWord(w: Word, wordpos: byte -> nat) {
    w.word != [] && 0 !in w.word && 1 <= w.pos <= wordpos(w.secno) && w.pos < LIMIT
  }

  /** There is a later position of the word in its section, or the step from this one to the length has a code. */
  ghost predicate ReachesLength(words: seq<Word>, w: Word, wordpos: byte -> nat) {
    wordpos(w.secno) + 1 - w.pos < LIMIT || exists v :: v in words && SameSection(v, w) && v.pos > w.pos
  }

  /** The word does not stand at every position there is, so that its positions and the length can be counted. */
  ghost predicate LeavesRoom(words: seq<Word>, w: Word) {
    exists p: nat :: 1 <= p < LIMIT && Word(w.word, p, w.secno) !in words
  }

  /** With section lengths saved, what the length of the word's section needs to have a code and to be counted. */
  ghost predicate LengthFits(words: seq<Word>, w: Word, c: Context) {
    c.save ==> ReachesLength(words, w, c.wordpos) && LeavesRoom(words, w)
  }

  ghost predicate Distinct<T>(s: seq<T>) { forall i, j :: 0 <= i < j < |s| ==> s[i] != s[j] }

  /** No word twice at one position, and section lengths that can be written. */
  ghost predicate GoodDocument(d: Document, save: bool) {
    && 0 < d.url < URL_LIMIT
    && (forall i, j :: 0 <= i < j < |d.words| && d.words[i].secno != 0 ==> d.words[i] != d.words[j])
    && forall w :: w in d.words && w.secno != 0 ==>
         GoodWord(w, d.wordpos) && LengthFits(d.words, w, Context(save, d.wordpos))
  }

  lemma {:induction false} PickDistinct(ws: seq<Word>, hash: seq<byte> -> nat, t: nat)
    requires forall i, j :: 0 <= i < j < |ws| && ws[i].secno != 0 ==> ws[i] != ws[j]
    ensures Distinct(Pick(ws, hash, t))
  {
    if ws == [] {
    } else {
      var tail := ws[1..];
      assert forall i :: 0 <= i < |tail| ==> tail[i] == ws[i + 1];
      PickDistinct(tail, hash, t);
      var r := Pick(tail, hash, t);
      assert ws[0].secno != 0 ==> ws[0] !in tail;
      assert forall i :: 0 <= i < |r| ==> r[i] in r;
    }
  }

  lemma DistinctByMultiset<T>(a: seq<T>, b: seq<T>)
    requires multiset(a) == multiset(b) && Distinct(a)
    ensures Distinct(b)
  {
    forall i, j | 0 <= i < j < |b| ensures b[i] != b[j] {
      if b[i] == b[j] {
        assert b == b[..i] + [b[i]] + b[i + 1..j] + [b[j]] + b[j + 1..];
        assert multiset(b)[b[i]] >= 2;
        DistinctCountsOnce(a, b[i]);
      }
    }
  }

  lemma {:induction false} DistinctCountsOnce<T>(a: seq<T>, x: T)
    requires Distinct(a)
    ensures multiset(a)[x] <= 1
  {
    if a == [] {
    } else {
      var t := a[1..];
      assert a == [a[0]] + t;
      assert Distinct(t) by { assert forall i :: 0 <= i < |t| ==> t[i] == a[i + 1]; }
      DistinctCountsOnce(t, x);
      assert a[0] !in t;
    }
  }

  // ---------- Sorted columns are good ----------

  /** Strictly sorted words of real sections. */
  ghost predicate Ready(ws: seq<Word>, c: Context) {
    && Sorted(WordLe, ws) && Distinct(ws)
    && forall i :: 0 <= i < |ws| ==> ws[i].secno != 0 && GoodWord(ws[i], c.wordpos) && LengthFits(ws, ws[i], c)
  }

  lemma ReadyTail(ws: seq<Word>, c: Context)
    requires ws != [] && Ready(ws, c)
    ensures Ready(ws[1..], c)
  {
    hide LengthFits;
    var tail := ws[1..];
    assert forall i :: 0 <= i < |tail| ==> tail[i] == ws[i + 1];
    forall i | 0 <= i < |tail| ensures LengthFits(tail, tail[i], c) { FitsInTail(ws, i + 1, c); }
  }

  /** The later position of a word that is not the first is not the first either. */
  lemma FitsInTail(ws: seq<Word>, i: nat, c: Context)
    requires Sorted(WordLe, ws) && 0 < i < |ws| && LengthFits(ws, ws[i], c)
    ensures LengthFits(ws[1..], ws[i], c)
  {
    var w, tail := ws[i], ws[1..];
    assert ws == [ws[0]] + tail && WordLe(ws[0], w);
    if c.save {
      var p: nat :| 1 <= p < LIMIT && Word(w.word, p, w.secno) !in ws;
      assert Word(w.word, p, w.secno) !in tail;
      if c.wordpos(w.secno) + 1 - w.pos >= LIMIT {
        var v :| v in ws && SameSection(v, w) && v.pos > w.pos;
        assert v in tail;
      }
    }
  }

  lemma {:induction false} ReadyAfterSection(ws: seq<Word>, c: Context)
    requires ws != [] && Ready(ws, c)
    ensures Ready(AfterSection(ws), c)
    decreases |ws|
  {
    hide Ready;
    ReadyTail(ws, c);
    if !EndOfSection(ws) { ReadyAfterSection(ws[1..], c); }
  }

  lemma {:induction false} ReadySection(prev: nat, ws: seq<Word>, c: Context)
    requires ws != [] && Ready(ws, c) && prev < ws[0].pos
    ensures GoodSection(prev, ws, c)
    decreases |ws|
  {
    if EndOfSection(ws) {
      LastReachesLength(ws, c);
    } else {
      ReadyTail(ws, c);
      assert WordLe(ws[0], ws[1]) && ws[0] != ws[1];
      ReadySection(ws[0].pos, ws[1..], c);
    }
  }

  lemma LastReachesLength(ws: seq<Word>, c: Context)
    requires ws != [] && Ready(ws, c) && EndOfSection(ws)
    ensures c.save ==> c.wordpos(ws[0].secno) + 1 - ws[0].pos < LIMIT
  {
    assert LengthFits(ws, ws[0], c);
    if c.save && c.wordpos(ws[0].secno) + 1 - ws[0].pos >= LIMIT {
      var v :| v in ws && SameSection(v, ws[0]) && v.pos > ws[0].pos;
      var j :| 0 <= j < |ws| && ws[j] == v;
      NotMetAgain(ws, j);
    }
  }

  /** In a sorted list, a word whose neighbour has another (word, section) is not met again. */
  lemma NotMetAgain(ws: seq<Word>, j: nat)
    requires Sorted(WordLe, ws) && 1 <= j < |ws| && !SameSection(ws[0], ws[1])
    ensures !SameSection(ws[0], ws[j])
  {
    assert WordLe(ws[0], ws[1]) && (j == 1 || WordLe(ws[1], ws[j]));
    StrLeTotal(ws[0].word, ws[1].word);
  }

  /** How many codes a section can have; one less if the word does not stand at p. */
  lemma {:induction false} CountOfGaps(prev: nat, ws: seq<Word>, c: Context, p: nat)
    requires ws != [] && GoodSection(prev, ws, c) && p < LIMIT && Word(ws[0].word, p, ws[0].secno) !in ws
    ensures |Gaps(prev, ws, c)| <= LIMIT - 1 - prev + (if c.save then 1 else 0) - if p > prev then 1 else 0
    decreases |ws|
  {
    assert ws[0] in ws && ws[0].pos != p;
    if EndOfSection(ws) {
    } else {
      assert forall w :: w in ws[1..] ==> w in ws;
      CountOfGaps(ws[0].pos, ws[1..], c, p);
    }
  }

  lemma FewGaps(ws: seq<Word>, c: Context)
    requires ws != [] && Ready(ws, c) && GoodSection(0, ws, c)
    ensures |Gaps(0, ws, c)| < LIMIT
  {
    hide GoodSection, Gaps;
    assert LengthFits(ws, ws[0], c);
    if c.save {
      var p: nat :| 1 <= p < LIMIT && Word(ws[0].word, p, ws[0].secno) !in ws;
      CountOfGaps(0, ws, c, p);
    } else {
      assert forall i :: 0 <= i < |ws| ==> ws[i].pos >= 1;
      CountOfGaps(0, ws, c, 0);
    }
  }

  lemma {:induction false} ReadyIsGood(ws: seq<Word>, c: Context)
    requires Ready(ws, c)
    ensures GoodColumn(ws, c)
    decreases |ws|
  {
    hide GoodSection, Gaps;
    if ws == [] {
    } else {
      ReadySection(0, ws, c);
      FewGaps(ws, c);
      ReadyAfterSection(ws, c);
      ReadyIsGood(AfterSection(ws), c);
    }
  }

  lemma ColumnIsReady(d: Document, hash: seq<byte> -> nat, t: nat, save: bool)
    requires GoodDocument(d, save)
    ensures Ready(Column(d, hash, t), Context(save, d.wordpos))
    ensures forall w :: w in Column(d, hash, t) <==> w in d.words && InColumn(w, hash, t)
  {
    hide LengthFits, GoodWord;
    WordLeIsTotal();
    var p := Pick(d.words, hash, t);
    var c := Context(save, d.wordpos);
    SortProperties(WordLe, p);
    PickDistinct(d.words, hash, t);
    DistinctByMultiset(p, Column(d, hash, t));
    var s := Column(d, hash, t);
    forall w ensures w in s <==> w in p { assert w in multiset(s) <==> w in multiset(p); }
    forall i | 0 <= i < |s| ensures s[i].secno != 0 && GoodWord(s[i], d.wordpos) && LengthFits(s, s[i], c) {
      assert s[i] in s;
      FitsInColumn(d, s, hash, t, s[i], c);
    }
  }

  lemma FitsInColumn(d: Document, s: seq<Word>, hash: seq<byte> -> nat, t: nat, w: Word, c: Context)
    requires forall v :: v in s <==> v in d.words && InColumn(v, hash, t)
    requires w in s && LengthFits(d.words, w, c)
    ensures LengthFits(s, w, c)
  {
    if c.save {
      var p: nat :| 1 <= p < LIMIT && Word(w.word, p, w.secno) !in d.words;
      assert Word(w.word, p, w.secno) !in s;
      if c.wordpos(w.secno) + 1 - w.pos >= LIMIT {
        var v :| v in d.words && SameSection(v, w) && v.pos > w.pos;
        assert v in s;
      }
    }
  }

  // ---------- What the entries of a column say ----------

  /** Positions of the leading section. */
  function SectionPos(ws: seq<Word>): (ps: seq<nat>)
    requires ws != []
    ensures ps != []
    decreases |ws|
  {
    [ws[0].pos] + if EndOfSection(ws) then [] else SectionPos(ws[1..])
  }

  lemma {:induction false} GapsGiveBackPositions(prev: nat, ws: seq<Word>, c: Context)
    requires ws != [] && GoodSection(prev, ws, c)
    ensures RunningSums(prev, Gaps(prev, ws, c)) ==
            SectionPos(ws) + if c.save then [c.wordpos(ws[0].secno) + 1] else []
    decreases |ws|
  {
    hide GoodSection;
    var w, rest := ws[0], ws[1..];
    assert w.pos > prev by { GoodHead(prev, ws, c); }
    if !EndOfSection(ws) {
      GoodHead(prev, ws, c);
      GapsGiveBackPositions(w.pos, rest, c);
      SumsCons(prev, w.pos - prev, Gaps(w.pos, rest, c));
      Assoc([w.pos], SectionPos(rest), if c.save then [c.wordpos(w.secno) + 1] else []);
    } else if c.save {
      GoodHead(prev, ws, c);
      SumsCons(prev, w.pos - prev, [c.wordpos(w.secno) + 1 - w.pos]);
      SumsCons(w.pos, c.wordpos(w.secno) + 1 - w.pos, []);
    } else {
      SumsCons(prev, w.pos - prev, []);
    }
  }

  lemma GoodHead(prev: nat, ws: seq<Word>, c: Context)
    requires ws != [] && GoodSection(prev, ws, c)
    ensures prev < ws[0].pos <= c.wordpos(ws[0].secno)
    ensures !EndOfSection(ws) ==> GoodSection(ws[0].pos, ws[1..], c) && ws[1].secno == ws[0].secno
  {
  }

  lemma SumsCons(base: nat, x: nat, rest: seq<nat>)
    ensures RunningSums(base, [x] + rest) == [base + x] + RunningSums(base + x, rest)
    ensures [x] + [] == [x] && RunningSums(base, []) == []
  {
    assert ([x] + rest)[1..] == rest;
  }

  predicate StrictlyIncreasing(ps: seq<nat>) { forall i, j :: 0 <= i < j < |ps| ==> ps[i] < ps[j] }

  lemma {:induction false} SectionPosIncreases(ws: seq<Word>, c: Context)
    requires ws != [] && Ready(ws, c)
    ensures StrictlyIncreasing(SectionPos(ws))
    ensures forall i :: 0 <= i < |SectionPos(ws)| ==> ws[0].pos <= SectionPos(ws)[i]
    decreases |ws|
  {
    if !EndOfSection(ws) {
      ReadyTail(ws, c);
      assert WordLe(ws[0], ws[1]) && ws[0] != ws[1];
      SectionPosIncreases(ws[1..], c);
    }
  }

  /** The leading section takes all words of its (word, section), and only those. */
  lemma {:induction false} SplitSection(ws: seq<Word>, c: Context)
    requires ws != [] && Ready(ws, c)
    ensures forall w :: w in AfterSection(ws) ==> w in ws && !SameSection(w, ws[0])
    ensures forall w :: w in ws ==> w in AfterSection(ws) || SameSection(w, ws[0])
    ensures forall x :: x in SectionPos(ws) <==> Word(ws[0].word, x, ws[0].secno) in ws
    decreases |ws|
  {
    var tail := ws[1..];
    assert ws == [ws[0]] + tail;
    if EndOfSection(ws) {
      forall w | w in tail ensures !SameSection(w, ws[0]) {
        var j :| 0 <= j < |tail| && tail[j] == w;
        NotMetAgain(ws, j + 1);
      }
    } else {
      ReadyTail(ws, c);
      SplitSection(tail, c);
      forall x ensures x in SectionPos(ws) <==> Word(ws[0].word, x, ws[0].secno) in ws {
        assert x in SectionPos(ws) <==> x == ws[0].pos || x in SectionPos(tail);
      }
    }
  }

  /** The gaps spell out the positions of (word, secno) among words, then the section length if it is saved. */
  ghost predicate Spells(gaps: seq<value>, words: seq<Word>, wordpos: byte -> nat, word: seq<byte>, secno: byte,
                         save: bool) {
    var ps := Positions(gaps);
    var n := if save then |ps| - 1 else |ps|;
    && n >= 1 && StrictlyIncreasing(ps[..n])
    && (forall x :: x in ps[..n] <==> Word(word, x, secno) in words)
    && (save ==> ps[n] == wordpos(secno) + 1)
  }

  /** The entry carries exactly what the words say about its word and section in document url. */
  ghost predicate Describes(e: CacheWord, gaps: seq<value>, url: nat, words: seq<Word>, wordpos: byte -> nat,
                            save: bool) {
    e.urlId == url && Carries(e, Posting(url, gaps)) && Spells(gaps, words, wordpos, e.word, e.secno, save)
  }

  lemma FirstEntry(ws: seq<Word>, url: nat, c: Context)
    requires ws != [] && Ready(ws, c) && GoodColumn(ws, c)
    ensures var gaps := GapValues(0, ws, c);
            Describes(CacheWord(ws[0].word, ws[0].secno, url, |gaps|, Codes(gaps)), gaps, url, ws, c.wordpos, c.save)
  {
    hide Codes, RunningSums, Gaps, SectionPos;
    var gaps := GapValues(0, ws, c);
    GapsAreCodable(0, ws, c);
    GapsGiveBackPositions(0, ws, c);
    SectionPosIncreases(ws, c);
    SplitSection(ws, c);
    var sp, ps := SectionPos(ws), Positions(gaps);
    if c.save {
      assert ps[..|ps| - 1] == sp;
    } else {
      assert ps == sp && ps[..|ps|] == sp;
    }
  }

  lemma SpellsMore(gaps: seq<value>, some: seq<Word>, all: seq<Word>, wordpos: byte -> nat, word: seq<byte>,
                   secno: byte, save: bool)
    requires Spells(gaps, some, wordpos, word, secno, save)
    requires forall x :: Word(word, x, secno) in some <==> Word(word, x, secno) in all
    ensures Spells(gaps, all, wordpos, word, secno, save)
  {
  }

  ghost predicate EntryIsSound(e: CacheWord, url: nat, words: seq<Word>, wordpos: byte -> nat, save: bool) {
    exists gaps :: Describes(e, gaps, url, words, wordpos, save)
  }

  predicate SameKey(e: CacheWord, w: Word) { e.word == w.word && e.secno == w.secno }

  ghost predicate AllSound(es: seq<CacheWord>, url: nat, ws: seq<Word>, c: Context) {
    forall e :: e in es ==> EntryIsSound(e, url, ws, c.wordpos, c.save)
  }

  predicate FromWord(e: CacheWord, ws: seq<Word>) { exists i :: 0 <= i < |ws| && SameKey(e, ws[i]) }

  predicate HasKey(es: seq<CacheWord>, w: Word) { exists i :: 0 <= i < |es| && SameKey(es[i], w) }

  predicate KeysDistinct(es: seq<CacheWord>) {
    forall i, j :: 0 <= i < j < |es| ==> es[i].word != es[j].word || es[i].secno != es[j].secno
  }

  lemma EntriesHead(ws: seq<Word>, url: nat, c: Context)
    requires ws != [] && GoodColumn(ws, c)
    ensures var gaps := GapValues(0, ws, c);
            Entries(ws, url, c) ==
              [CacheWord(ws[0].word, ws[0].secno, url, |gaps|, Codes(gaps))] + Entries(AfterSection(ws), url, c)
  {
  }

  /** Every entry describes the column; every word of the column has an entry, no (word, section) has two. */
  lemma {:induction false} EntriesSayTheColumn(ws: seq<Word>, url: nat, c: Context)
    requires Ready(ws, c) && GoodColumn(ws, c)
    ensures var es := Entries(ws, url, c);
            && AllSound(es, url, ws, c) && KeysDistinct(es)
            && (forall e :: e in es ==> FromWord(e, ws))
            && (forall w :: w in ws ==> HasKey(es, w))
    decreases |ws|
  {
    hide GoodSection, Describes, Codes, Gaps, Spells, EntryIsSound, AfterSection, Entries, SectionPos, Ready;
    if ws != [] {
      var rest := AfterSection(ws);
      ReadyAfterSection(ws, c);
      EntriesSayTheColumn(rest, url, c);
      FirstEntry(ws, url, c);
      SplitSection(ws, c);
      EntriesHead(ws, url, c);
      var es, tail := Entries(ws, url, c), Entries(rest, url, c);
      assert SameKey(es[0], ws[0]);
      assert EntryIsSound(es[0], url, ws, c.wordpos, c.save) by {
        DescribedIsSound(es[0], GapValues(0, ws, c), url, ws, c);
      }
      forall e | e in tail
        ensures EntryIsSound(e, url, ws, c.wordpos, c.save) && FromWord(e, ws) && !SameKey(e, ws[0])
      {
        var i :| 0 <= i < |rest| && SameKey(e, rest[i]);
        assert rest[i] in rest;
        EntrySoundInAll(e, url, rest, ws, c);
        var k :| 0 <= k < |ws| && ws[k] == rest[i];
      }
      forall w | w in ws ensures HasKey(es, w) {
        if w in rest {
          var i :| 0 <= i < |tail| && SameKey(tail[i], w);
          assert es[i + 1] == tail[i];
        }
      }
      assert forall j :: 0 <= j < |tail| ==> es[j + 1] == tail[j] && tail[j] in tail;
    } else {
      EntriesOfNothing(url, c);
    }
  }

  lemma EntriesOfNothing(url: nat, c: Context)
    ensures Entries([], url, c) == []
  {
  }

  lemma DescribedIsSound(e: CacheWord, gaps: seq<value>, url: nat, ws: seq<Word>, c: Context)
    requires Describes(e, gaps, url, ws, c.wordpos, c.save)
    ensures EntryIsSound(e, url, ws, c.wordpos, c.save)
  {
  }

  lemma EntrySoundInAll(e: CacheWord, url: nat, rest: seq<Word>, ws: seq<Word>, c: Context)
    requires ws != [] && EntryIsSound(e, url, rest, c.wordpos, c.save) && FromWord(e, rest)
    requires forall w :: w in rest ==> w in ws && !SameSection(w, ws[0])
    requires forall w :: w in ws ==> w in rest || SameSection(w, ws[0])
    ensures EntryIsSound(e, url, ws, c.wordpos, c.save)
  {
    hide Spells, Positions, Carries;
    var i :| 0 <= i < |rest| && SameKey(e, rest[i]);
    assert rest[i] in rest;
    var gaps :| Describes(e, gaps, url, rest, c.wordpos, c.save);
    SpellsMore(gaps, rest, ws, c.wordpos, e.word, e.secno, c.save);
    assert Describes(e, gaps, url, ws, c.wordpos, c.save);
  }
}

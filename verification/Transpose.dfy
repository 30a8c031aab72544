/**
 * From forward records to one row per (word, section) (dbmode-blob.c:249-269, 2311-2440, 3035-3096, 3575-3686,
 * 3850-3950).
 */
module Transpose {
  import opened Bytes
  import opened Seqs
  import opened Coord
  import opened Order
  import opened Rows
  import opened Sections
  import opened ForwardRecord
  import opened ColumnParser
  import opened Columns
  import opened Packer

  /**
   * The conversion's inputs: documents with their words, the url list, hash function, unindexed sections,
   * SaveSectionSize.
   */
  datatype Index = Index(docs: seq<Document>, listed: nat -> bool, hash: seq<byte> -> nat, noindex: byte -> bool,
                         save: bool)

  /** A "bdicti" record: url_id and the 32 intag columns. */
  datatype BdictiRow = BdictiRow(url: nat, intag: seq<seq<byte>>)

  /** A "bdict" record. */
  datatype BdictRow = BdictRow(word: seq<byte>, secno: byte, intag: seq<byte>)

  ghost predicate GoodIndex(ix: Index) {
    && (forall k :: 0 <= k < |ix.docs| ==> GoodDocument(ix.docs[k], ix.save))
    && (forall k, l :: 0 <= k < l < |ix.docs| ==> ix.docs[k].url != ix.docs[l].url)
  }

  function Ctx(ix: Index, d: Document): Context { Context(ix.save, d.wordpos) }

  // ---------- Storing a document ----------

  /** The two passes over the document's words: every list gets its words, in document order. */
  method Distribute(words: seq<Word>, hash: seq<byte> -> nat) returns (lists: array<seq<Word>>)
    ensures fresh(lists) && lists.Length == 32
    ensures forall t :: 0 <= t < 32 ==> lists[t] == Pick(words, hash, t)
  {
    lists := new seq<Word>[32](_ => []);
    assert words[0..] == words && words[|words|..] == [];
    assert forall t :: 0 <= t < 32 ==> [] + Pick(words, hash, t) == Pick(words, hash, t);
    for i := 0 to |words|
      invariant lists.Length == 32
      invariant forall t :: 0 <= t < 32 ==> lists[t] + Pick(words[i..], hash, t) == Pick(words, hash, t)
    {
      var w := words[i];
      var h := if w.secno != 0 then hash(w.word) % 32 else 0xFF;
      forall t | 0 <= t < 32
        ensures lists[t] + Pick(words[i..], hash, t) ==
                (if InColumn(w, hash, t) then lists[t] + [w] else lists[t]) + Pick(words[i + 1..], hash, t)
      {
        PickStep(lists[t], words, i, hash, t);
      }
      if h < 32 { lists[h] := lists[h] + [w]; }
    }
    assert forall t :: 0 <= t < 32 ==> lists[t] + [] == lists[t] && Pick([], hash, t) == [];
  }

  datatype StoredRow = NoRow | ARow(row: BdictiRow)

  /** The record of a document: its 32 sorted columns, encoded. */
  ghost predicate RecordOf(row: BdictiRow, d: Document, hash: seq<byte> -> nat, save: bool) {
    && row.url == d.url && |row.intag| == 32
    && forall t :: 0 <= t < 32 ==> row.intag[t] == Enc(Column(d, hash, t), [], 0, 0, Context(save, d.wordpos))
  }

  /**
   * UdmStoreWordsBlob without the SQL: nothing for a document without words; otherwise distribute the words into 32
   * lists, sort each, encode each.
   */
  method StoreWords(d: Document, hash: seq<byte> -> nat, save: bool) returns (stored: StoredRow)
    ensures stored.NoRow? <==> d.words == []
    ensures stored.ARow? ==> RecordOf(stored.row, d, hash, save)
  {
    hide Enc, Sort, Pick;
    if d.words == [] { return NoRow; }
    var lists := Distribute(d.words, hash);
    var intag := [];
    for t := 0 to 32
      invariant |intag| == t && forall u :: 0 <= u < 32 ==> lists[u] == Pick(d.words, hash, u)
      invariant forall u :: 0 <= u < t ==> intag[u] == Enc(Column(d, hash, u), [], 0, 0, Context(save, d.wordpos))
    {
      var column := EncodeColumn(Sort(WordLe, lists[t]), Context(save, d.wordpos));
      intag := intag + [column];
    }
    stored := ARow(BdictiRow(d.url, intag));
  }

  function WithWords(docs: seq<Document>): (r: seq<Document>)
    ensures forall d :: d in r <==> d in docs && d.words != []
  {
    if docs == [] then []
    else
      var rest, last := WithWords(docs[..|docs| - 1]), docs[|docs| - 1];
      assert docs == docs[..|docs| - 1] + [last];
      if last.words == [] then rest else rest + [last]
  }

  /** Every document in turn: one record for each that has words. */
  method StoreDocuments(docs: seq<Document>, hash: seq<byte> -> nat, save: bool) returns (rows: seq<BdictiRow>)
    ensures |rows| == |WithWords(docs)|
    ensures forall k :: 0 <= k < |rows| ==> RecordOf(rows[k], WithWords(docs)[k], hash, save)
  {
    hide RecordOf;
    rows := [];
    for i := 0 to |docs|
      invariant |rows| == |WithWords(docs[..i])|
      invariant forall k :: 0 <= k < |rows| ==> RecordOf(rows[k], WithWords(docs[..i])[k], hash, save)
    {
      assert docs[..i + 1][..i] == docs[..i];
      var stored := StoreWords(docs[i], hash, save);
      if stored.ARow? { rows := rows + [stored.row]; }
    }
    assert docs[..|docs|] == docs;
  }

  lemma PickStep(pre: seq<Word>, ws: seq<Word>, i: nat, hash: seq<byte> -> nat, t: nat)
    requires i < |ws|
    ensures pre + Pick(ws[i..], hash, t) ==
            (if InColumn(ws[i], hash, t) then pre + [ws[i]] else pre) + Pick(ws[i + 1..], hash, t)
  {
    assert ws[i..][1..] == ws[i + 1..];
    if InColumn(ws[i], hash, t) {
      Assoc(pre, [ws[i]], Pick(ws[i + 1..], hash, t));
    } else {
      assert [] + Pick(ws[i + 1..], hash, t) == Pick(ws[i + 1..], hash, t);
    }
  }

  // ---------- One column of every document ----------

  ghost function DocLog(ix: Index, d: Document, t: nat): seq<CacheWord>
    requires GoodDocument(d, ix.save)
  {
    ColumnIsReady(d, ix.hash, t, ix.save);
    ReadyIsGood(Column(d, ix.hash, t), Ctx(ix, d));
    if ix.listed(d.url) then Visible(Entries(Column(d, ix.hash, t), d.url, Ctx(ix, d)), ix.noindex) else []
  }

  /** What the caches have received after the first n documents of column t. */
  ghost function ColumnLog(ix: Index, t: nat, n: nat): seq<CacheWord>
    requires GoodIndex(ix) && n <= |ix.docs|
  {
    if n == 0 then [] else ColumnLog(ix, t, n - 1) + DocLog(ix, ix.docs[n - 1], t)
  }

  /** The bdicti rows hold the stored documents. */
  ghost predicate Stored(rows: seq<BdictiRow>, ix: Index) {
    |rows| == |ix.docs| && forall k :: 0 <= k < |rows| ==> RecordOf(rows[k], ix.docs[k], ix.hash, ix.save)
  }

  /** UdmBlob2BlobConvertOneColumn. */
  method ConvertOneColumn(rows: seq<BdictiRow>, t: nat, listed: nat -> bool, noindex: byte -> bool, cache: CacheSet,
                          ghost ix: Index)
    requires GoodIndex(ix) && Stored(rows, ix) && listed == ix.listed && noindex == ix.noindex && t < 32
    requires cache.Valid() && cache.log == []
    modifies cache, cache.buckets
    ensures cache.Valid() && cache.log == ColumnLog(ix, t, |ix.docs|)
  {
    hide Enc, Entries, Visible, Column, DocLog, GoodDocument;
    for k := 0 to |rows|
      invariant cache.Valid() && cache.log == ColumnLog(ix, t, k)
    {
      ConvertDocument(rows[k], t, listed, noindex, cache, ix, k);
    }
  }

  /** One row of the column. */
  method ConvertDocument(row: BdictiRow, t: nat, listed: nat -> bool, noindex: byte -> bool, cache: CacheSet,
                         ghost ix: Index, ghost k: nat)
    requires GoodIndex(ix) && listed == ix.listed && noindex == ix.noindex && t < 32 && k < |ix.docs|
    requires row.url == ix.docs[k].url && |row.intag| == 32
    requires row.intag[t] == Enc(Column(ix.docs[k], ix.hash, t), [], 0, 0, Ctx(ix, ix.docs[k]))
    requires cache.Valid()
    modifies cache, cache.buckets
    ensures cache.Valid() && cache.log == old(cache.log) + DocLog(ix, ix.docs[k], t)
  {
    hide Enc, Entries, Visible, Column;
    ghost var d := ix.docs[k];
    ColumnIsReady(d, ix.hash, t, ix.save);
    ReadyIsGood(Column(d, ix.hash, t), Ctx(ix, d));
    if listed(row.url) {
      ParseColumn(row.intag[t], row.url, noindex, cache, Column(d, ix.hash, t), Ctx(ix, d));
    } else {
      assert cache.log + [] == cache.log;
    }
  }

  // ---------- Writing one cache ----------

  /** bccmpwrd: word, then section, then url_id. */
  predicate EntryLe(a: CacheWord, b: CacheWord) {
    if a.word != b.word then StrLe(a.word, b.word)
    else if a.secno != b.secno then a.secno < b.secno
    else a.urlId <= b.urlId
  }

  lemma EntryLeIsTotal()
    ensures TotalOrder(EntryLe)
  {
    forall a: CacheWord, b: CacheWord ensures EntryLe(a, b) || EntryLe(b, a) { StrLeTotal(a.word, b.word); }
    forall a: CacheWord, b: CacheWord, c: CacheWord | EntryLe(a, b) && EntryLe(b, c) ensures EntryLe(a, c) {
      if a.word != b.word && b.word != c.word {
        StrLeTransitive(a.word, b.word, c.word);
        StrLeTotal(a.word, b.word);
      }
    }
  }

  function GroupsOf(ws: seq<CacheWord>): (gs: seq<seq<CacheWord>>)
    decreases |ws|
  {
    if ws == [] then [] else [ws[..GroupLen(ws)]] + GroupsOf(ws[GroupLen(ws)..])
  }

  function RowFor(g: seq<CacheWord>, useCompr: bool): BdictRow
    requires g != []
  {
    BdictRow(g[0].word, g[0].secno, Row(Choose(StatOf(g), useCompr), g))
  }

  function TableFor(gs: seq<seq<CacheWord>>, useCompr: bool): (t: seq<BdictRow>)
    requires forall i :: 0 <= i < |gs| ==> gs[i] != []
    ensures |t| == |gs|
  {
    seq(|gs|, i requires 0 <= i < |gs| => RowFor(gs[i], useCompr))
  }

  /** No two entries agree on word, section and url_id. */
  ghost predicate Keyed(ws: seq<CacheWord>) {
    forall i, j :: 0 <= i < j < |ws| ==>
      ws[i].word != ws[j].word || ws[i].secno != ws[j].secno || ws[i].urlId != ws[j].urlId
  }

  ghost predicate RealUrls(ws: seq<CacheWord>) { forall i :: 0 <= i < |ws| ==> 0 < ws[i].urlId < URL_LIMIT }

  ghost predicate Writable(ws: seq<CacheWord>) { Sorted(EntryLe, ws) && Keyed(ws) && RealUrls(ws) }

  lemma WritableParts(ws: seq<CacheWord>, n: nat)
    requires Writable(ws) && n <= |ws|
    ensures Writable(ws[n..])
  {
    assert forall i :: 0 <= i < |ws| - n ==> ws[n..][i] == ws[n + i];
  }

  lemma LeadingGroupIncreases(ws: seq<CacheWord>)
    requires ws != [] && Writable(ws)
    ensures Increasing(ws[..GroupLen(ws)])
  {
    var g := ws[..GroupLen(ws)];
    forall i, j | 0 <= i < j < |g| ensures g[i].urlId < g[j].urlId {
      assert SameGroup(ws[i], ws[0]) && SameGroup(ws[j], ws[0]);
      assert EntryLe(ws[i], ws[j]);
    }
  }

  /** The write loop of UdmBlobCacheWrite over a sorted cache. */
  method WriteCache(ws: seq<CacheWord>, useCompr: bool) returns (table: seq<BdictRow>)
    requires Writable(ws)
    ensures forall i :: 0 <= i < |GroupsOf(ws)| ==> GroupsOf(ws)[i] != []
    ensures table == TableFor(GroupsOf(ws), useCompr)
  {
    hide GroupsOf, RowFor, Row, Increasing, Writable;
    table := [];
    var buf := new Dstr();
    var w := 0;
    GroupsNotEmpty(ws);
    assert ws[0..] == ws;
    assert [] + TableFor(GroupsOf(ws), useCompr) == TableFor(GroupsOf(ws), useCompr);
    while w < |ws|
      invariant w <= |ws| && buf.data == []
      invariant forall i :: 0 <= i < |GroupsOf(ws[w..])| ==> GroupsOf(ws[w..])[i] != []
      invariant table + TableFor(GroupsOf(ws[w..]), useCompr) == TableFor(GroupsOf(ws), useCompr)
    {
      var rest := ws[w..];
      WritableParts(ws, w);
      LeadingGroupIncreases(rest);
      var count := PackOneWord(rest, buf, useCompr);
      GroupsNotEmpty(rest[count..]);
      GroupsStep(table, rest, useCompr);
      assert rest[count..] == ws[w + count..];
      assert [] + Row(Choose(StatOf(rest[..count]), useCompr), rest[..count]) ==
          Row(Choose(StatOf(rest[..count]), useCompr), rest[..count]);
      table := table + [BdictRow(rest[0].word, rest[0].secno, buf.data)];
      buf.data := [];
      w := w + count;
    }
    NoGroups(ws);
    assert table + [] == table;
  }

  lemma {:induction false} GroupsNotEmpty(ws: seq<CacheWord>)
    ensures forall i :: 0 <= i < |GroupsOf(ws)| ==> GroupsOf(ws)[i] != []
    decreases |ws|
  {
    if ws == [] {
    } else {
      GroupsNotEmpty(ws[GroupLen(ws)..]);
    }
  }

  lemma NoGroups(ws: seq<CacheWord>)
    ensures GroupsOf(ws[|ws|..]) == []
  {
  }

  lemma GroupsStep(table: seq<BdictRow>, ws: seq<CacheWord>, useCompr: bool)
    requires ws != []
    requires forall i :: 0 <= i < |GroupsOf(ws)| ==> GroupsOf(ws)[i] != []
    requires forall i :: 0 <= i < |GroupsOf(ws[GroupLen(ws)..])| ==> GroupsOf(ws[GroupLen(ws)..])[i] != []
    ensures var n := GroupLen(ws);
            table + TableFor(GroupsOf(ws), useCompr) ==
            table + [BdictRow(ws[0].word, ws[0].secno, Row(Choose(StatOf(ws[..n]), useCompr), ws[..n]))]
            + TableFor(GroupsOf(ws[n..]), useCompr)
  {
    hide Row, StatOf, Choose, GroupLen;
    var n := GroupLen(ws);
    var g, rest := ws[..n], GroupsOf(ws[n..]);
    assert GroupsOf(ws) == [g] + rest;
    TableCons(g, rest, useCompr);
    Assoc(table, [RowFor(g, useCompr)], TableFor(rest, useCompr));
  }

  lemma TableCons(g: seq<CacheWord>, rest: seq<seq<CacheWord>>, useCompr: bool)
    requires g != [] && (forall i :: 0 <= i < |rest| ==> rest[i] != [])
    requires forall i :: 0 <= i < |[g] + rest| ==> ([g] + rest)[i] != []
    ensures TableFor([g] + rest, useCompr) == [RowFor(g, useCompr)] + TableFor(rest, useCompr)
  {
    hide RowFor;
  }
}

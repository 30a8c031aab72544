/**
 * The four-level word cache, its packing and its conversion (dbmode-multi.c:101-227, 351-384, 459-500;
 * dbmode-single.c:537-571).
 */
module MultiCache {
  import opened Bytes
  import opened Seqs
  import opened Coord
  import opened Order
  import Sections

  // ---------- One level: an array searched by key, growing at its end ----------

  datatype Entry<K, V> = Entry(key: K, value: V)

  function Get<K(==), V>(es: seq<Entry<K, V>>, k: K, none: V): V {
    if es == [] then none else if es[0].key == k then es[0].value else Get(es[1..], k, none)
  }

  ghost predicate DistinctKeys<K, V>(es: seq<Entry<K, V>>) {
    forall i, j :: 0 <= i < j < |es| ==> es[i].key != es[j].key
  }

  ghost predicate FirstAt<K, V>(es: seq<Entry<K, V>>, k: K, i: nat) {
    i < |es| && es[i].key == k && forall j :: 0 <= j < i ==> es[j].key != k
  }

  lemma {:induction false} GetFirst<K, V>(es: seq<Entry<K, V>>, k: K, none: V, i: nat)
    requires FirstAt(es, k, i)
    ensures Get(es, k, none) == es[i].value
  {
    if i == 0 {
    } else {
      assert es[0].key != k;
      forall j | 0 <= j < i - 1 ensures es[1..][j].key != k { assert es[1..][j] == es[j + 1]; }
      GetFirst(es[1..], k, none, i - 1);
    }
  }

  lemma {:induction false} GetSet<K, V>(es: seq<Entry<K, V>>, k: K, none: V, i: nat, v: V, l: K)
    requires FirstAt(es, k, i)
    ensures Get(es[i := Entry(k, v)], l, none) == if l == k then v else Get(es, l, none)
  {
    if i > 0 {
      assert es[0].key != k;
      forall j | 0 <= j < i - 1 ensures es[1..][j].key != k { assert es[1..][j] == es[j + 1]; }
      GetSet(es[1..], k, none, i - 1, v, l);
      assert es[i := Entry(k, v)][1..] == es[1..][i - 1 := Entry(k, v)];
    } else {
      assert es[i := Entry(k, v)][1..] == es[1..];
    }
  }

  lemma {:induction false} GetAppend<K, V>(es: seq<Entry<K, V>>, k: K, none: V, l: K)
    requires forall j :: 0 <= j < |es| ==> es[j].key != k
    ensures Get(es + [Entry(k, none)], l, none) == Get(es, l, none)
  {
    if es == [] {
      assert es + [Entry(k, none)] == [Entry(k, none)];
      assert [Entry(k, none)][1..] == [];
    } else {
      assert (es + [Entry(k, none)])[1..] == es[1..] + [Entry(k, none)];
      forall j | 0 <= j < |es| - 1 ensures es[1..][j].key != k { assert es[1..][j] == es[j + 1]; }
      GetAppend(es[1..], k, none, l);
    }
  }

  /** The entry of a key, which is appended if there is none. */
  method FindOrAppend<K(==), V>(es: seq<Entry<K, V>>, k: K, none: V) returns (r: seq<Entry<K, V>>, i: nat)
    ensures FirstAt(r, k, i) && forall l :: Get(r, l, none) == Get(es, l, none)
    ensures DistinctKeys(es) ==> DistinctKeys(r)
    ensures forall j :: 0 <= j < |r| ==> r[j] in es || (j == i && r[j] == Entry(k, none))
  {
    r, i := es, 0;
    while i < |es|
      invariant i <= |es| && forall j :: 0 <= j < i ==> es[j].key != k
    {
      if es[i].key == k { return; }
      i := i + 1;
    }
    r := es + [Entry(k, none)];
    forall l ensures Get(r, l, none) == Get(es, l, none) { GetAppend(es, k, none, l); }
  }

  // ---------- The four levels ----------

  type Words = seq<Entry<seq<byte>, seq<nat>>>

  type Parts = seq<Entry<byte, Words>>

  datatype Url = Url(reindex: byte, sections: Parts)

  type Urls = seq<Entry<nat, Url>>

  const NO_URL := Url(0, [])

  /** Positions have 21 bits. */
  function Masked(pos: nat): nat { pos % LIMIT }

  /** A position that fits keeps its value; of a larger one the low 21 bits are left. */
  lemma MaskedIsLowBits(pos: nat)
    ensures pos <= 0x1F_FFFF ==> Masked(pos) == pos
    ensures Masked(pos) <= 0x1F_FFFF && exists q: nat :: pos == q * 0x20_0000 + Masked(pos)
  {
    assert pos == (pos / 0x20_0000) * 0x20_0000 + Masked(pos);
  }

  /** One more position in a word's sorted list. */
  function Added(intags: seq<nat>, pos: nat): seq<nat> { Sort<nat>(Le, intags + [Masked(pos)]) }

  ghost predicate GoodWords(ws: Words) { DistinctKeys(ws) && forall i :: 0 <= i < |ws| ==> ws[i].value != [] }

  ghost predicate GoodParts(ss: Parts) { DistinctKeys(ss) && forall i :: 0 <= i < |ss| ==> GoodWords(ss[i].value) }

  ghost predicate GoodUrls(us: Urls) {
    DistinctKeys(us) && forall i :: 0 <= i < |us| ==> GoodParts(us[i].value.sections)
  }

  function InWords(ws: Words, w: seq<byte>): seq<nat> { Get(ws, w, []) }

  function InParts(ss: Parts, s: byte, w: seq<byte>): seq<nat> { InWords(Get(ss, s, []), w) }

  function InUrls(us: Urls, u: nat, s: byte, w: seq<byte>): seq<nat> { InParts(Get(us, u, NO_URL).sections, s, w) }

  lemma AddedIsNotEmpty(intags: seq<nat>, pos: nat)
    ensures Added(intags, pos) != []
  {
    assert |Added(intags, pos)| == |intags| + 1;
  }

  /** UdmMultiCacheAddSection. */
  method AddSection(ws: Words, word: seq<byte>, pos: nat) returns (r: Words)
    requires GoodWords(ws)
    ensures GoodWords(r)
    ensures forall w :: InWords(r, w) == if w == word then Added(InWords(ws, w), pos) else InWords(ws, w)
  {
    hide Get, Added;
    var i;
    r, i := FindOrAppend(ws, word, []);
    GetFirst(r, word, [], i);
    AddedIsNotEmpty(r[i].value, pos);
    var v := Added(r[i].value, pos);
    forall w ensures Get(r[i := Entry(word, v)], w, []) == if w == word then v else Get(r, w, []) {
      GetSet(r, word, [], i, v, w);
    }
    r := r[i := Entry(word, v)];
  }

  /** UdmMultiCacheAddURL. */
  method AddUrl(ss: Parts, secno: byte, word: seq<byte>, pos: nat) returns (r: Parts)
    requires GoodParts(ss)
    ensures GoodParts(r)
    ensures forall s, w :: InParts(r, s, w) == if s == secno && w == word then Added(InParts(ss, s, w), pos)
        else InParts(ss, s, w)
  {
    hide Get, Added, GoodWords, InWords;
    var i;
    r, i := FindOrAppend(ss, secno, []);
    GetFirst(r, secno, [], i);
    NewPart(ss, r, secno, i);
    var v := AddSection(r[i].value, word, pos);
    forall s ensures Get(r[i := Entry(secno, v)], s, []) == if s == secno then v else Get(r, s, []) {
      GetSet(r, secno, [], i, v, s);
    }
    r := r[i := Entry(secno, v)];
  }

  lemma NewPart(ss: Parts, r: Parts, secno: byte, i: nat)
    requires GoodParts(ss) && i < |r| && forall j :: 0 <= j < |r| ==> r[j] in ss || (j == i && r[j] == Entry(secno, []))
    ensures forall j :: 0 <= j < |r| ==> GoodWords(r[j].value)
  {
    assert forall e :: e in ss ==> GoodWords(e.value);
  }

  lemma NewUrl(us: Urls, r: Urls, e: Entry<nat, Url>, i: nat)
    requires GoodUrls(us) && GoodParts(e.value.sections)
    requires i < |r| && forall j :: 0 <= j < |r| ==> r[j] in us || (j == i && r[j] == e)
    ensures forall j :: 0 <= j < |r| ==> GoodParts(r[j].value.sections)
  {
    hide GoodParts;
    assert forall x :: x in us ==> GoodParts(x.value.sections);
  }

  /** UdmMultiCacheAddTable; a new url remembers whether it is being reindexed. */
  method AddTable(us: Urls, url: nat, reindex: byte, secno: byte, word: seq<byte>, pos: nat) returns (r: Urls)
    requires GoodUrls(us)
    ensures GoodUrls(r)
    ensures forall u, s, w :: InUrls(r, u, s, w) ==
              if u == url && s == secno && w == word then Added(InUrls(us, u, s, w), pos) else InUrls(us, u, s, w)
  {
    hide Get, Added, GoodParts, InParts;
    NoPartsGood();
    var i;
    r, i := FindOrAppend(us, url, Url(reindex, []));
    ghost var r0 := r;
    GetFirst(r, url, Url(reindex, []), i);
    NewUrl(us, r, Entry(url, Url(reindex, [])), i);
    var v := AddUrl(r[i].value.sections, secno, word, pos);
    r := r[i := Entry(url, r[i].value.(sections := v))];
    forall u ensures Get(r, u, NO_URL).sections == if u == url then v else Get(us, u, NO_URL).sections {
      GetSet(r0, url, NO_URL, i, r[i].value, u);
      NoneIsNone(us, u, reindex);
      NoneIsNone(r0, u, reindex);
    }
    NoneIsNone(r0, url, reindex);
    NoneIsNone(us, url, reindex);
  }

  lemma NoPartsGood()
    ensures GoodParts([])
  {
  }

  /** What a missing url would record does not matter for its sections. */
  lemma {:induction false} NoneIsNone(us: Urls, u: nat, reindex: byte)
    ensures Get(us, u, NO_URL).sections == Get(us, u, Url(reindex, [])).sections
  {
    if us == [] {
    } else {
      NoneIsNone(us[1..], u, reindex);
    }
  }

  // ---------- The cache ----------

  /** One call of UdmMultiCacheAdd. */
  datatype Call = Call(url: nat, reindex: byte, secno: byte, word: seq<byte>, pos: nat)

  /** The positions added for a word in a section of a document, in the order of the calls. */
  function PositionsOf(log: seq<Call>, u: nat, s: byte, w: seq<byte>): seq<nat> {
    if log == [] then []
    else
      var rest, c := PositionsOf(log[..|log| - 1], u, s, w), log[|log| - 1];
      if c.url == u && c.secno == s && c.word == w then rest + [Masked(c.pos)] else rest
  }

  /** The positions of the calls themselves. */
  function CalledWith(log: seq<Call>, u: nat, s: byte, w: seq<byte>): seq<nat> {
    if log == [] then []
    else
      var rest, c := CalledWith(log[..|log| - 1], u, s, w), log[|log| - 1];
      if c.url == u && c.secno == s && c.word == w then rest + [c.pos] else rest
  }

  /** The indexer counts no position above 0x1FFFFF (word.c:47). */
  ghost predicate Fit(log: seq<Call>) { forall c :: c in log ==> c.pos <= 0x1F_FFFF }

  lemma {:induction false} PositionsAreCalled(log: seq<Call>, u: nat, s: byte, w: seq<byte>)
    requires Fit(log)
    ensures PositionsOf(log, u, s, w) == CalledWith(log, u, s, w)
  {
    if log == [] {
    } else {
      assert forall c :: c in log[..|log| - 1] ==> c in log;
      PositionsAreCalled(log[..|log| - 1], u, s, w);
      MaskedIsLowBits(log[|log| - 1].pos);
    }
  }

  /** Every position that was added is there as it was added, in order. */
  lemma LookupIsCalled(cache: Cache, u: nat, s: byte, w: seq<byte>)
    requires cache.Valid() && Fit(cache.log)
    ensures SortedFrom(cache.Lookup(u, s, w), CalledWith(cache.log, u, s, w))
  {
    hide InUrls, SortedFrom;
    PositionsAreCalled(cache.log, u, s, w);
  }

  /** The urls that were added for reindexing. */
  function Reindexed(log: seq<Call>): set<nat> { set c | c in log && c.reindex != 0 :: c.url }

  ghost predicate SortedFrom(a: seq<nat>, b: seq<nat>) { Sorted<nat>(Le, a) && multiset(a) == multiset(b) }

  lemma AddedIsSorted(a: seq<nat>, b: seq<nat>, pos: nat)
    requires SortedFrom(a, b)
    ensures SortedFrom(Added(a, pos), b + [Masked(pos)])
  {
    SortProperties<nat>(Le, a + [Masked(pos)]);
  }

  lemma PositionsSnoc(log: seq<Call>, c: Call, u: nat, s: byte, w: seq<byte>)
    ensures PositionsOf(log + [c], u, s, w) ==
              if c.url == u && c.secno == s && c.word == w then PositionsOf(log, u, s, w) + [Masked(c.pos)]
                  else PositionsOf(log, u, s, w)
  {
    assert (log + [c])[..|log|] == log;
  }

  lemma ReindexedSnoc(log: seq<Call>, c: Call)
    ensures Reindexed(log + [c]) == Reindexed(log) + if c.reindex != 0 then {c.url} else {}
  {
    assert forall x :: x in log + [c] <==> x in log || x == c;
  }

  class Cache {
    const hash: seq<byte> -> nat     // UdmStrHash32
    var tables: seq<Urls>
    var urls: seq<nat>               // urls to be reindexed
    var nrecs: nat
    ghost var log: seq<Call>

    function TableOf(w: seq<byte>): (t: nat)
      ensures t < 256
    {
      hash(w) % 256
    }

    /** The sorted positions of a word in a section of a document. */
    function Lookup(u: nat, s: byte, w: seq<byte>): seq<nat>
      requires |tables| == 256
      reads this
    {
      InUrls(tables[TableOf(w)], u, s, w)
    }

    /** Words lie only in their own table. */
    ghost predicate InPlace()
      requires |tables| == 256
      reads this
    {
      forall t: nat, u, s, w :: t < 256 && InUrls(tables[t], u, s, w) != [] ==> t == TableOf(w)
    }

    ghost predicate Valid()
      reads this
    {
      && |tables| == 256 && (forall t :: 0 <= t < 256 ==> GoodUrls(tables[t])) && InPlace()
      && (forall u, s, w :: SortedFrom(Lookup(u, s, w), PositionsOf(log, u, s, w)))
      && nrecs == |log| && (forall u :: u in urls <==> u in Reindexed(log))
      && (forall i, j :: 0 <= i < j < |urls| ==> urls[i] != urls[j])
    }

    constructor (hash: seq<byte> -> nat)
      ensures Valid() && log == [] && this.hash == hash
    {
      this.hash := hash;
      tables, urls, nrecs, log := seq(256, _ => []), [], 0, [];
    }

    /** UdmMultiCacheAdd: exactly the positions of this word, section and document change. */
    method Add(c: Call)
      requires Valid()
      modifies this
      ensures Valid() && log == old(log) + [c]
      ensures forall u, s, w :: Lookup(u, s, w) ==
                if u == c.url && s == c.secno && w == c.word then Added(old(Lookup(u, s, w)), c.pos)
                    else old(Lookup(u, s, w))
    {
      hide InUrls, GoodUrls, Added, PositionsOf, SortedFrom, Reindexed;
      var table := TableOf(c.word);
      nrecs := nrecs + 1;
      if c.reindex != 0 {
        if c.url !in urls { urls := urls + [c.url]; }
      }
      var v := AddTable(tables[table], c.url, c.reindex, c.secno, c.word, c.pos);
      tables := tables[table := v];
      log := log + [c];
      forall u, s, w ensures SortedFrom(Lookup(u, s, w), PositionsOf(log, u, s, w)) {
        PositionsSnoc(old(log), c, u, s, w);
        AddedIsSorted(old(Lookup(u, s, w)), PositionsOf(old(log), u, s, w), c.pos);
      }
      ReindexedSnoc(old(log), c);
    }
  }
}

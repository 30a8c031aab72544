/**
 * Live updates: table bdicti with its three record states over the converted index bdict (dbmode-blob.c:2097-2115,
 * 2311-2376, 2387-2401, 2740-2771, 3850-3903, 4016-4024, 4121-4130; dbmode-rawblob.c:47-140).
 */
module LiveIndex {
  import Order
  import opened Seqs
  import opened UrlList

  /** One occurrence of a word in a document. */
  datatype Hit = Hit(word: nat, secno: nat, pos: nat)

  /** A record of bdicti; state 0 is deleted, 1 new, 2 converted. */
  datatype Record = Record(url: nat, state: nat, hits: seq<Hit>)

  datatype Posting = Posting(url: nat, hit: Hit)

  // ---------- Contents of the tables, seen from one document ----------

  /** The hits of one document, in order. */
  function Of(ps: seq<Posting>, u: nat): (hits: seq<Hit>) {
    if ps == [] then []
    else
      var rest, last := Of(ps[..|ps| - 1], u), ps[|ps| - 1];
      if last.url == u then rest + [last.hit] else rest
  }

  function Found(hits: seq<Hit>, word: nat): seq<Hit> {
    if hits == [] then []
    else
      var rest, last := Found(hits[..|hits| - 1], word), hits[|hits| - 1];
      if last.word == word then rest + [last] else rest
  }

  /** Words outside any section are not stored. */
  function Indexed(hits: seq<Hit>): seq<Hit> {
    if hits == [] then []
    else
      var rest, last := Indexed(hits[..|hits| - 1]), hits[|hits| - 1];
      if last.secno != 0 then rest + [last] else rest
  }

  /** Of a word's hits, each as often as the document has it and in its order. */
  lemma {:induction false} FoundPicks(hits: seq<Hit>, word: nat) returns (at: seq<nat>)
    ensures Picked(Found(hits, word), hits, (h: Hit) => h.word == word, at)
  {
    if hits == [] {
      at := [];
    } else {
      var init, last := hits[..|hits| - 1], hits[|hits| - 1];
      var rest := FoundPicks(init, word);
      PickedSnoc(Found(init, word), init, (h: Hit) => h.word == word, rest, last);
      assert init + [last] == hits;
      at := if last.word == word then rest + [|init|] else rest;
    }
  }

  /** The same of the hits of real sections. */
  lemma {:induction false} IndexedPicks(hits: seq<Hit>) returns (at: seq<nat>)
    ensures Picked(Indexed(hits), hits, (h: Hit) => h.secno != 0, at)
  {
    if hits == [] {
      at := [];
    } else {
      var init, last := hits[..|hits| - 1], hits[|hits| - 1];
      var rest := IndexedPicks(init);
      PickedSnoc(Indexed(init), init, (h: Hit) => h.secno != 0, rest, last);
      assert init + [last] == hits;
      at := if last.secno != 0 then rest + [|init|] else rest;
    }
  }

  function Postings(url: nat, hits: seq<Hit>): seq<Posting> {
    seq(|hits|, i requires 0 <= i < |hits| => Posting(url, hits[i]))
  }

  lemma {:induction false} OfConcat(a: seq<Posting>, b: seq<Posting>, u: nat)
    ensures Of(a + b, u) == Of(a, u) + Of(b, u)
  {
    if b == [] {
      assert a + b == a;
    } else {
      OfConcat(a, b[..|b| - 1], u);
      assert (a + b)[..|a + b| - 1] == a + b[..|b| - 1];
    }
  }

  lemma {:induction false} OfPostings(url: nat, hits: seq<Hit>, u: nat)
    ensures Of(Postings(url, hits), u) == if u == url then hits else []
  {
    if hits == [] {
    } else {
      OfPostings(url, hits[..|hits| - 1], u);
      assert Postings(url, hits)[..|hits| - 1] == Postings(url, hits[..|hits| - 1]);
      assert hits == hits[..|hits| - 1] + [hits[|hits| - 1]];
    }
  }

  lemma {:induction false} FoundConcat(a: seq<Hit>, b: seq<Hit>, w: nat)
    ensures Found(a + b, w) == Found(a, w) + Found(b, w)
  {
    if b == [] {
      assert a + b == a;
    } else {
      FoundConcat(a, b[..|b| - 1], w);
      assert (a + b)[..|a + b| - 1] == a + b[..|b| - 1];
    }
  }

  // ---------- The table bdicti ----------

  type Table = map<nat, Record>

  /** DELETE FROM bdicti WHERE state=1 AND url_id=... */
  function DeleteNew(t: Table, url: nat): Table {
    map k | k in t && !(t[k].state == 1 && t[k].url == url) :: t[k]
  }

  /** UPDATE bdicti SET state=0 WHERE state=2 AND url_id=... */
  function MarkDeleted(t: Table, url: nat): Table {
    map k | k in t :: if t[k].state == 2 && t[k].url == url then t[k].(state := 0) else t[k]
  }

  /** DELETE FROM bdicti WHERE state=0; UPDATE bdicti SET state=2. */
  function CleanUp(t: Table): Table { map k | k in t && t[k].state != 0 :: t[k].(state := 2) }

  /** The records of one document. */
  function At(t: Table, u: nat): Table { map k | k in t && t[k].url == u :: t[k] }

  ghost predicate Has(m: Table, state: nat) { exists k :: k in m && m[k].state == state }

  ghost function HitsOf(latest: map<nat, seq<Hit>>, u: nat): seq<Hit> { if u in latest then latest[u] else [] }

  // ---------- The invariant ----------

  /**
   * Of one document: there is at most one record in state 1 or 2, which holds the latest version, and at most one in
   * state 0; the index holds the version of a converted record, and nothing of a document that was never converted.
   */
  ghost predicate GoodAt(m: Table, index: seq<Hit>, latest: seq<Hit>, hidden: bool) {
    && (forall k, l :: k in m && l in m && k != l ==> m[k].state + m[l].state == 1)
    && (forall k :: k in m ==> m[k].state <= 2 && (m[k].state != 0 ==> m[k].hits == latest))
    && (!Has(m, 1) && !Has(m, 2) ==> latest == [])
    && (Has(m, 2) ==> index == if hidden then [] else latest)
    && (!Has(m, 0) && !Has(m, 2) ==> index == [])
    && (hidden ==> Has(m, 2))
  }

  ghost predicate Good(t: Table, bdict: seq<Posting>, latest: map<nat, seq<Hit>>, hidden: set<nat>) {
    forall u: nat :: GoodAt(At(t, u), Of(bdict, u), HitsOf(latest, u), u in hidden)
  }

  /** The hits of a document's new record. */
  ghost function New(m: Table): seq<Hit> {
    if Has(m, 1) then
      var k :| k in m && m[k].state == 1;
      m[k].hits
    else []
  }

  /** What a search sees of a document: the index unless it is marked deleted, and its new record. */
  ghost function Visible(m: Table, index: seq<Hit>): seq<Hit> { (if Has(m, 0) then [] else index) + New(m) }

  /** The index minus the deleted documents plus the new ones is the latest version of every document. */
  lemma VisibleIsLatest(m: Table, index: seq<Hit>, latest: seq<Hit>, hidden: bool)
    requires GoodAt(m, index, latest, hidden)
    ensures Visible(m, index) == if hidden then [] else latest
  {
    if Has(m, 2) {
      var k :| k in m && m[k].state == 2;
      assert !Has(m, 0) && !Has(m, 1);
    }
  }

  // ---------- Each change keeps the invariant ----------

  lemma DeleteKeeps(t: Table, bdict: seq<Posting>, latest: map<nat, seq<Hit>>, hidden: set<nat>, url: nat)
    requires Good(t, bdict, latest, hidden)
    ensures var t' := MarkDeleted(DeleteNew(t, url), url);
            Good(t', bdict, latest - {url}, hidden - {url}) && !Has(At(t', url), 1) && !Has(At(t', url), 2)
  {
    hide GoodAt, Of, Has;
    var t' := MarkDeleted(DeleteNew(t, url), url);
    DeleteElsewhere(t, url);
    DeleteAt(At(t, url), At(t', url), Of(bdict, url), HitsOf(latest, url), url in hidden);
    forall u: nat ensures GoodAt(At(t', u), Of(bdict, u), HitsOf(latest - {url}, u), u in hidden - {url}) {
      assert GoodAt(At(t, u), Of(bdict, u), HitsOf(latest, u), u in hidden);
    }
  }

  lemma DeleteElsewhere(t: Table, url: nat)
    ensures var t' := MarkDeleted(DeleteNew(t, url), url);
            && (forall u: nat | u != url :: At(t', u) == At(t, u))
            && At(t', url) == Deleted(At(t, url))
  {
  }

  function Deleted(m: Table): Table {
    map k | k in m && m[k].state != 1 :: if m[k].state == 2 then m[k].(state := 0) else m[k]
  }

  lemma DeleteAt(m: Table, m': Table, index: seq<Hit>, latest: seq<Hit>, hidden: bool)
    requires GoodAt(m, index, latest, hidden)
    requires m' == Deleted(m)
    ensures GoodAt(m', index, [], false) && !Has(m', 1) && !Has(m', 2)
  {
    if Has(m, 0) {
      var k :| k in m && m[k].state == 0;
      assert m'[k].state == 0;
    } else if Has(m, 2) {
      var k :| k in m && m[k].state == 2;
      assert m'[k].state == 0;
    }
  }

  lemma InsertKeeps(t: Table, bdict: seq<Posting>, latest: map<nat, seq<Hit>>, hidden: set<nat>, url: nat,
                    hits: seq<Hit>, id: nat)
    requires Good(t, bdict, latest, hidden) && id !in t && !Has(At(t, url), 1) && !Has(At(t, url), 2)
    ensures Good(t[id := Record(url, 1, hits)], bdict, latest[url := hits], hidden)
  {
    hide GoodAt, Of, Has;
    var t' := t[id := Record(url, 1, hits)];
    forall u: nat | u != url ensures At(t', u) == At(t, u) { }
    assert At(t', url) == At(t, url)[id := Record(url, 1, hits)];
    InsertAt(At(t, url), Of(bdict, url), HitsOf(latest, url), url in hidden, id, Record(url, 1, hits));
    forall u: nat ensures GoodAt(At(t', u), Of(bdict, u), HitsOf(latest[url := hits], u), u in hidden) {
      assert GoodAt(At(t, u), Of(bdict, u), HitsOf(latest, u), u in hidden);
    }
  }

  lemma InsertAt(m: Table, index: seq<Hit>, latest: seq<Hit>, hidden: bool, id: nat, r: Record)
    requires GoodAt(m, index, latest, hidden) && !Has(m, 1) && !Has(m, 2) && id !in m && r.state == 1
    ensures GoodAt(m[id := r], index, r.hits, hidden)
  {
    var m' := m[id := r];
    assert m'[id].state == 1;
    forall k | k in m ensures m[k].state == 0 && m'[k] == m[k] { }
    if Has(m, 0) {
      var k :| k in m && m[k].state == 0;
      assert m'[k].state == 0;
    }
  }

  /** The index that a full conversion writes: all records that are not deleted, of the listed documents. */
  ghost predicate Converts(t: Table, listed: set<nat>, ps: seq<Posting>) {
    forall u: nat :: Of(ps, u) == ConvertedHits(At(t, u), u in listed)
  }

  ghost function ConvertedHits(m: Table, listed: bool): seq<Hit> {
    if listed && exists k :: k in m && m[k].state > 0 then
      var k :| k in m && m[k].state > 0;
      m[k].hits
    else []
  }

  lemma ConvertKeeps(t: Table, bdict: seq<Posting>, latest: map<nat, seq<Hit>>, hidden: set<nat>, listed: set<nat>,
                     ps: seq<Posting>)
    requires Good(t, bdict, latest, hidden) && Converts(t, listed, ps)
    ensures Good(CleanUp(t), ps, latest, set k | k in t && t[k].state != 0 && t[k].url !in listed :: t[k].url)
  {
    hide GoodAt, Of, Has, ConvertedHits;
    var t' := CleanUp(t);
    var hidden' := set k | k in t && t[k].state != 0 && t[k].url !in listed :: t[k].url;
    forall u: nat ensures GoodAt(At(t', u), Of(ps, u), HitsOf(latest, u), u in hidden') {
      assert At(t', u) == CleanUp(At(t, u));
      assert GoodAt(At(t, u), Of(bdict, u), HitsOf(latest, u), u in hidden);
      if k :| k in At(t, u) && At(t, u)[k].state != 0 { assert t[k] == At(t, u)[k]; }
      if u in hidden' {
        var k :| k in t && t[k].state != 0 && t[k].url !in listed && t[k].url == u;
        assert At(t, u)[k] == t[k];
      }
      ConvertAt(At(t, u), Of(bdict, u), HitsOf(latest, u), u in hidden, u in listed);
    }
  }

  lemma ConvertAt(m: Table, index: seq<Hit>, latest: seq<Hit>, hidden: bool, listed: bool)
    requires GoodAt(m, index, latest, hidden)
    ensures GoodAt(CleanUp(m), ConvertedHits(m, listed), latest, !listed && exists k :: k in m && m[k].state != 0)
  {
    hide CleanUp;
    if k :| k in m && m[k].state != 0 {
      OneRemains(m, index, latest, hidden, k);
      OneConverted(map[k := m[k].(state := 2)], k, if listed then latest else [], latest, !listed);
    } else {
      NoneRemains(m);
      assert !Has(m, 1) && !Has(m, 2);
    }
  }

  lemma OneRemains(m: Table, index: seq<Hit>, latest: seq<Hit>, hidden: bool, k: nat)
    requires GoodAt(m, index, latest, hidden) && k in m && m[k].state != 0
    ensures CleanUp(m) == map[k := m[k].(state := 2)] && m[k].hits == latest
    ensures forall l :: l in m && m[l].state > 0 ==> l == k
  {
    forall l | l in m && l != k ensures m[l].state == 0 { }
  }

  lemma NoneRemains(m: Table)
    requires forall k :: k in m ==> m[k].state == 0
    ensures CleanUp(m) == map[]
  {
  }

  lemma OneConverted(m: Table, k: nat, index: seq<Hit>, latest: seq<Hit>, hidden: bool)
    requires m.Keys == {k} && m[k].state == 2 && m[k].hits == latest && index == if hidden then [] else latest
    ensures GoodAt(m, index, latest, hidden)
  {
    assert Has(m, 2);
  }

  // ---------- The tables and the operations on them ----------

  lemma Append(ps: seq<Posting>, url: nat, hits: seq<Hit>)
    ensures forall u: nat :: Of(ps + Postings(url, hits), u) == if u == url then Of(ps, u) + hits else Of(ps, u)
  {
    forall u: nat ensures Of(ps + Postings(url, hits), u) == if u == url then Of(ps, u) + hits else Of(ps, u) {
      OfConcat(ps, Postings(url, hits), u);
      OfPostings(url, hits, u);
      assert Of(ps, u) + [] == Of(ps, u);
    }
  }

  /** The records k already processed contributed their hits (those of word, or all of them), the others nothing. */
  ghost predicate Collected(t: Table, done: set<nat>, ps: seq<Posting>, before: seq<Posting>,
                            pick: Record -> seq<Hit>) {
    && (forall k :: k in t && k in done && pick(t[k]) != [] ==> Of(ps, t[k].url) == Of(before, t[k].url) + pick(t[k]))
    && (forall u: nat :: (forall k :: k in t && k in done && t[k].url == u ==> pick(t[k]) == []) ==>
      Of(ps, u) == Of(before, u))
  }

  /** No two records of one document contribute. */
  ghost predicate OnePick(t: Table, pick: Record -> seq<Hit>) {
    forall k, l :: k in t && l in t && k != l && t[k].url == t[l].url ==> pick(t[k]) == [] || pick(t[l]) == []
  }

  lemma CollectNext(t: Table, done: set<nat>, ps: seq<Posting>, before: seq<Posting>, pick: Record -> seq<Hit>, k: nat)
    requires OnePick(t, pick) && Collected(t, done, ps, before, pick) && k in t && k !in done
    ensures Collected(t, done + {k}, ps + Postings(t[k].url, pick(t[k])), before, pick)
    ensures pick(t[k]) == [] ==> Collected(t, done + {k}, ps, before, pick)
  {
    hide Of;
    Append(ps, t[k].url, pick(t[k]));
    var ps' := ps + Postings(t[k].url, pick(t[k]));
    if pick(t[k]) != [] {
      assert Of(ps, t[k].url) == Of(before, t[k].url);
      forall l | l in t && l in done && pick(t[l]) != [] ensures t[l].url != t[k].url { }
    } else {
      assert forall u: nat :: Of(ps, u) + [] == Of(ps, u);
    }
  }

  /** What a full conversion takes from a record. */
  function ToConvert(listed: set<nat>): Record -> seq<Hit> {
    (r: Record) => if r.state > 0 && r.url in listed then r.hits else []
  }

  /** What a search takes from a record that is not in the index yet. */
  function ToFind(active: Urls, word: nat): Record -> seq<Hit> {
    (r: Record) => if r.state == 1 && active.Allows(r.url) then Found(r.hits, word) else []
  }

  lemma AtMostOneLive(t: Table, bdict: seq<Posting>, latest: map<nat, seq<Hit>>, hidden: set<nat>, k: nat, l: nat)
    requires Good(t, bdict, latest, hidden) && k in t && l in t && k != l && t[k].url == t[l].url
    ensures t[k].state + t[l].state == 1
  {
    hide Of, Has;
    var m := At(t, t[k].url);
    assert GoodAt(m, Of(bdict, t[k].url), HitsOf(latest, t[k].url), t[k].url in hidden);
    assert m[k] == t[k] && m[l] == t[l];
  }

  /**
   * What a search finds of one document: in the index as one list allows it, among the new records as the other does.
   */
  ghost function Both(bdict: seq<Posting>, t: Table, word: nat, inIndex: Urls, inNew: Urls, u: nat): seq<Hit> {
    (if inIndex.Allows(u) then Found(Of(bdict, u), word) else []) +
    (if inNew.Allows(u) then Found(New(At(t, u)), word) else [])
  }

  class Tables {
    var bdicti: Table
    var nextId: nat
    var bdict: seq<Posting>
    ghost var latest: map<nat, seq<Hit>>  // the stored version of every document that is not deleted
    ghost var hidden: set<nat>            // converted while not listed, and so not in the index

    ghost predicate Valid()
      reads this
    {
      Good(bdicti, bdict, latest, hidden) && forall k :: k in bdicti ==> k < nextId
    }

    /** The version of a document that a search has to return. */
    ghost function Latest(u: nat): seq<Hit>
      reads this
    {
      if u in hidden then [] else HitsOf(latest, u)
    }

    constructor ()
      ensures Valid() && latest == map[] && hidden == {}
    {
      bdicti, nextId, bdict, latest, hidden := map[], 0, [], map[], {};
    }

    /** UdmDeleteWordsFromURLBlob. */
    method DeleteWords(url: nat)
      requires Valid()
      modifies this
      ensures Valid() && latest == old(latest) - {url} && hidden == old(hidden) - {url}
      ensures !Has(At(bdicti, url), 1) && !Has(At(bdicti, url), 2) && bdict == old(bdict)
      ensures forall k :: k in bdicti <==>
                k in old(bdicti) && !(old(bdicti)[k].url == url && old(bdicti)[k].state == 1)
      ensures forall k :: k in bdicti ==>
                var r := old(bdicti)[k];
                bdicti[k] == if r.url == url && r.state == 2 then r.(state := 0) else r
    {
      hide Good, Has;
      DeleteKeeps(bdicti, bdict, latest, hidden, url);
      bdicti := DeleteNew(bdicti, url);
      bdicti := MarkDeleted(bdicti, url);
      latest, hidden := latest - {url}, hidden - {url};
    }

    /** UdmStoreWordsBlob. */
    method Store(url: nat, words: seq<Hit>)
      requires Valid()
      modifies this
      ensures Valid() && hidden == old(hidden) - {url} && HitsOf(latest, url) == Indexed(words)
      ensures forall u :: u != url ==> HitsOf(latest, u) == HitsOf(old(latest), u)
      ensures bdict == old(bdict)
    {
      hide Good, Has;
      DeleteWords(url);
      if words == [] { return; }
      InsertKeeps(bdicti, bdict, latest, hidden, url, Indexed(words), nextId);
      bdicti := bdicti[nextId := Record(url, 1, Indexed(words))];
      nextId := nextId + 1;
      latest := latest[url := Indexed(words)];
    }

    /** UdmTruncateDictBlob. */
    method Truncate()
      modifies this
      ensures Valid() && bdicti == map[] && bdict == [] && latest == map[] && hidden == {}
    {
      bdicti := map[];
      bdict, latest, hidden := [], map[], {};
    }

    /** A full conversion (delta off): exactly the documents that are not listed are lost to searches. */
    method Convert(listed: set<nat>)
      requires Valid()
      modifies this
      ensures Valid() && latest == old(latest) && bdicti == CleanUp(old(bdicti))
      ensures forall u :: u in listed ==> u !in hidden
      ensures forall u :: u !in listed ==> u in hidden || HitsOf(latest, u) == []
    {
      hide Good, Of;
      var ps: seq<Posting> := [];
      var todo := bdicti.Keys;
      ghost var pick := ToConvert(listed);
      PicksOne(bdicti, bdict, latest, hidden, pick);
      while todo != {}
        invariant todo <= bdicti.Keys && Collected(bdicti, bdicti.Keys - todo, ps, [], pick)
        invariant Valid() && bdicti == old(bdicti) && bdict == old(bdict) && latest == old(latest)
            && hidden == old(hidden)
        decreases todo
      {
        var k :| k in todo;
        CollectNext(bdicti, bdicti.Keys - todo, ps, [], pick, k);
        assert bdicti.Keys - (todo - {k}) == bdicti.Keys - todo + {k};
        if bdicti[k].state > 0 {
          if bdicti[k].url in listed { ps := ps + Postings(bdicti[k].url, bdicti[k].hits); }
        }
        todo := todo - {k};
      }
      ConversionOf(bdicti, bdict, latest, hidden, listed, ps);
      ConvertKeeps(bdicti, bdict, latest, hidden, listed, ps);
      HiddenExactly(bdicti, bdict, latest, hidden, listed);
      bdict := ps;
      hidden := set k | k in bdicti && bdicti[k].state != 0 && bdicti[k].url !in listed :: bdicti[k].url;
      bdicti := CleanUp(bdicti);
    }

    /** The sorted urls of the documents marked deleted, as an excluding list (UdmBlobLoadLiveUpdateLimit). */
    method LoadDeleted() returns (list: Urls)
      ensures list.exclude && !list.empty && forall u: nat :: u in list.urls <==> Has(At(bdicti, u), 0)
      ensures Order.Sorted<nat>(Order.Le, list.urls)
    {
      var urls: seq<nat> := [];
      var todo := bdicti.Keys;
      while todo != {}
        invariant todo <= bdicti.Keys
        invariant forall u: nat :: u in urls <==>
            exists k :: k in bdicti && k !in todo && bdicti[k].url == u && bdicti[k].state == 0
        decreases todo
      {
        var k :| k in todo;
        if bdicti[k].state == 0 { urls := urls + [bdicti[k].url]; }
        todo := todo - {k};
      }
      UnionHas([], urls);
      UnionIsSorted([], urls);
      list := Urls(Unioned([], urls), true, false);
      DeletedAre(bdicti, urls);
    }

    /** UdmFindWordBlobSimple: the postings of a word in the index, as far as the list allows them. */
    method FindInIndex(word: nat, list: Urls) returns (result: seq<Posting>)
      ensures forall u: nat :: Of(result, u) == if list.Allows(u) then Found(Of(bdict, u), word) else []
    {
      result := [];
      if list.empty { return; }
      var i: nat := 0;
      assert bdict[..0] == [];
      while i < |bdict|
        invariant i <= |bdict|
        invariant forall u: nat :: Of(result, u) == if list.Allows(u) then Found(Of(bdict[..i], u), word) else []
      {
        FoundNext(bdict, i, word, list, result);
        if bdict[i].hit.word == word && list.Allows(bdict[i].url) { result := result + [bdict[i]]; }
        i := i + 1;
      }
      assert bdict[..i] == bdict;
    }

    /** UdmFindWordRawBlobDelta: the hits of new records are added. */
    method FindInNew(word: nat, active: Urls, before: seq<Posting>) returns (result: seq<Posting>)
      requires Valid()
      ensures forall u: nat :: Of(result, u) ==
                Of(before, u) + if active.Allows(u) then Found(New(At(bdicti, u)), word) else []
    {
      hide Good, Of, Found;
      result := before;
      if active.empty { NothingNew(before); return; }
      var todo := bdicti.Keys;
      ghost var pick := ToFind(active, word);
      NothingFound(word);
      PicksOne(bdicti, bdict, latest, hidden, pick);
      while todo != {}
        invariant todo <= bdicti.Keys && Collected(bdicti, bdicti.Keys - todo, result, before, pick)
        decreases todo
      {
        var k :| k in todo;
        CollectNext(bdicti, bdicti.Keys - todo, result, before, pick, k);
        assert bdicti.Keys - (todo - {k}) == bdicti.Keys - todo + {k};
        if bdicti[k].state == 1 {
          if active.Allows(bdicti[k].url) { result := result + Postings(bdicti[k].url, Found(bdicti[k].hits, word)); }
        }
        todo := todo - {k};
      }
      FoundInNew(bdicti, bdict, latest, hidden, active, word, before, result);
    }

    /**
     * A search with live updates: what it returns of every document, and when that is exactly the hits of the latest
     * version of the documents the limit allows, in order.
     */
    method Search(word: nat, limit: Urls) returns (result: seq<Posting>, ghost deleted: Urls)
      requires Valid()
      ensures deleted.exclude && !deleted.empty && forall u: nat :: u in deleted.urls <==> Has(At(bdicti, u), 0)
      ensures forall u: nat :: Of(result, u) == Hits(bdict, bdicti, word, limit, deleted, u)
      ensures (forall u: nat :: Of(result, u) == if limit.Allows(u) then Found(Latest(u), word) else []) <==>
                Sees(bdict, bdicti, word, limit, deleted)
    {
      hide Good, Of, Found, Has, Merged, Hits, Sees;
      var list := LoadDeleted();
      deleted := list;
      SearchIsLatestIff(bdicti, bdict, latest, hidden, word, limit, list);
      if limit.empty {
        NoPostingsAtAll();
        NothingAllowed(bdict, bdicti, word, limit, list);
        return [], list;
      }
      var base := new List(limit);
      var active := Urls(limit.urls, limit.exclude, false);
      base.Merge(list);
      result := FindInIndex(word, base.list);
      result := FindInNew(word, active, result);
      HitsAre(bdict, bdicti, word, limit, list);
    }
  }

  /** What a search returns of a document: nothing of the index if the merged list is empty. */
  ghost function Hits(bdict: seq<Posting>, t: Table, word: nat, limit: Urls, deleted: Urls, u: nat): seq<Hit> {
    if limit.empty then [] else Both(bdict, t, word, Merged(limit, deleted), limit, u)
  }

  /**
   * When a search shows the latest versions: the limit includes, or nothing is marked deleted; or the merged list was
   * emptied, and the index holds no hit of an allowed document that is not deleted; or it was not, and the index
   * holds no hit of a deleted document.
   */
  ghost predicate Sees(bdict: seq<Posting>, t: Table, word: nat, limit: Urls, deleted: Urls) {
    || !Unsafe(limit, deleted)
    || (if Merged(limit, deleted).empty
        then forall u: nat :: limit.Allows(u) && !Has(At(t, u), 0) ==> Found(Of(bdict, u), word) == []
        else forall u: nat :: Has(At(t, u), 0) ==> Found(Of(bdict, u), word) == [])
  }

  lemma HitsAre(bdict: seq<Posting>, t: Table, word: nat, limit: Urls, deleted: Urls)
    requires !limit.empty
    ensures forall u: nat ::
              Hits(bdict, t, word, limit, deleted, u) == Both(bdict, t, word, Merged(limit, deleted), limit, u)
  {
  }

  lemma NothingAllowed(bdict: seq<Posting>, t: Table, word: nat, limit: Urls, deleted: Urls)
    requires limit.empty
    ensures forall u: nat :: Hits(bdict, t, word, limit, deleted, u) == []
  {
  }

  /** A search shows the latest version of every document the limit allows exactly under that condition. */
  lemma SearchIsLatestIff(t: Table, bdict: seq<Posting>, latest: map<nat, seq<Hit>>, hidden: set<nat>,
                          word: nat, limit: Urls, deleted: Urls)
    requires Good(t, bdict, latest, hidden) && deleted.exclude && !deleted.empty
    requires forall u: nat :: u in deleted.urls <==> Has(At(t, u), 0)
    ensures (forall u: nat :: Hits(bdict, t, word, limit, deleted, u) ==
               if limit.Allows(u) then Found(if u in hidden then [] else HitsOf(latest, u), word) else []) <==>
            Sees(bdict, t, word, limit, deleted)
  {
    hide Good, Of, Found, Has, Merged, HitsOf, New;
    var m := Merged(limit, deleted);
    if Unsafe(limit, deleted) { ExcludingMerged(limit, deleted); } else { MergeIsIntersectionIff(limit, deleted); }
    forall u: nat
      ensures Hits(bdict, t, word, limit, deleted, u) ==
                (if limit.Allows(u) then Found(if u in hidden then [] else HitsOf(latest, u), word) else []) <==>
              SeesAt(bdict, t, word, limit, deleted, u)
    {
      SearchIsLatest(t, bdict, latest, hidden, u, word);
      SeenAtIff(bdict, t, word, limit, deleted, u, Found(if u in hidden then [] else HitsOf(latest, u), word));
    }
    SeesEverywhere(bdict, t, word, limit, deleted);
  }

  /** The condition for one document. */
  ghost predicate SeesAt(bdict: seq<Posting>, t: Table, word: nat, limit: Urls, deleted: Urls, u: nat) {
    || !Unsafe(limit, deleted)
    || Found(Of(bdict, u), word) == []
    || (if Merged(limit, deleted).empty then !limit.Allows(u) || Has(At(t, u), 0) else !Has(At(t, u), 0))
  }

  lemma SeesEverywhere(bdict: seq<Posting>, t: Table, word: nat, limit: Urls, deleted: Urls)
    ensures Sees(bdict, t, word, limit, deleted) <==> forall u: nat :: SeesAt(bdict, t, word, limit, deleted, u)
  {
    hide Of, Found, Has, Merged, Unsafe;
    if Unsafe(limit, deleted) && forall u: nat :: SeesAt(bdict, t, word, limit, deleted, u) {
      var emptied := Merged(limit, deleted).empty;
      forall u: nat | if emptied then limit.Allows(u) && !Has(At(t, u), 0) else Has(At(t, u), 0)
        ensures Found(Of(bdict, u), word) == []
      {
        assert SeesAt(bdict, t, word, limit, deleted, u);
      }
    }
  }

  lemma SeenAtIff(bdict: seq<Posting>, t: Table, word: nat, limit: Urls, deleted: Urls, u: nat, shown: seq<Hit>)
    requires deleted.exclude && !deleted.empty && (u in deleted.urls <==> Has(At(t, u), 0))
    requires shown == (if Has(At(t, u), 0) then [] else Found(Of(bdict, u), word)) + Found(New(At(t, u)), word)
    requires Unsafe(limit, deleted) ==>
               var m := Merged(limit, deleted);
               !m.empty ==> (m.Allows(u) <==> u !in limit.urls || u in deleted.urls)
    requires !Unsafe(limit, deleted) ==> (Merged(limit, deleted).Allows(u) <==> limit.Allows(u) && deleted.Selects(u))
    ensures Hits(bdict, t, word, limit, deleted, u) == (if limit.Allows(u) then shown else []) <==>
              SeesAt(bdict, t, word, limit, deleted, u)
  {
    hide Of, Found, Has, Merged, New;
    var index, new' := Found(Of(bdict, u), word), Found(New(At(t, u)), word);
    assert |index + new'| == |index| + |new'|;
    assert [] + new' == new';
  }

  lemma PicksOne(t: Table, bdict: seq<Posting>, latest: map<nat, seq<Hit>>, hidden: set<nat>, pick: Record -> seq<Hit>)
    requires Good(t, bdict, latest, hidden) && forall r: Record :: r.state == 0 ==> pick(r) == []
    ensures OnePick(t, pick)
  {
    hide Good;
    forall k, l | k in t && l in t && k != l && t[k].url == t[l].url ensures pick(t[k]) == [] || pick(t[l]) == [] {
      AtMostOneLive(t, bdict, latest, hidden, k, l);
    }
  }

  lemma ConversionOf(t: Table, bdict: seq<Posting>, latest: map<nat, seq<Hit>>, hidden: set<nat>, listed: set<nat>,
                     ps: seq<Posting>)
    requires Good(t, bdict, latest, hidden) && Collected(t, t.Keys, ps, [], ToConvert(listed))
    ensures Converts(t, listed, ps)
  {
    hide Good, Of;
    forall u: nat ensures Of(ps, u) == ConvertedHits(At(t, u), u in listed) {
      ConversionAt(t, bdict, latest, hidden, listed, ps, u);
    }
  }

  lemma ConversionAt(t: Table, bdict: seq<Posting>, latest: map<nat, seq<Hit>>, hidden: set<nat>, listed: set<nat>,
                     ps: seq<Posting>, u: nat)
    requires Good(t, bdict, latest, hidden) && Collected(t, t.Keys, ps, [], ToConvert(listed))
    ensures Of(ps, u) == ConvertedHits(At(t, u), u in listed)
  {
    hide Good, Of;
    var m := At(t, u);
    NoPostings(u);
    if u in listed && exists k :: k in m && m[k].state > 0 {
      var k :| k in m && m[k].state > 0 && m[k].hits == ConvertedHits(m, true);
      assert t[k] == m[k];
      if t[k].hits == [] {
        forall l | l in t && t[l].url == u ensures ToConvert(listed)(t[l]) == [] {
          if l != k { AtMostOneLive(t, bdict, latest, hidden, k, l); }
        }
      } else {
        assert ToConvert(listed)(t[k]) == t[k].hits;
      }
    } else {
      forall k | k in t && t[k].url == u ensures ToConvert(listed)(t[k]) == [] { assert m[k] == t[k]; }
    }
  }

  lemma NoPostings(u: nat)
    ensures Of([], u) == []
  {
  }

  lemma HiddenExactly(t: Table, bdict: seq<Posting>, latest: map<nat, seq<Hit>>, hidden: set<nat>, listed: set<nat>)
    requires Good(t, bdict, latest, hidden)
    ensures var h := set k | k in t && t[k].state != 0 && t[k].url !in listed :: t[k].url;
            forall u: nat :: u !in listed ==> u in h || HitsOf(latest, u) == []
  {
    hide Of;
    forall u: nat | u !in listed && HitsOf(latest, u) != []
      ensures exists k :: k in t && t[k].state != 0 && t[k].url == u
    {
      var m := At(t, u);
      assert GoodAt(m, Of(bdict, u), HitsOf(latest, u), u in hidden);
      var k :| k in m && m[k].state != 0;
      assert t[k] == m[k];
    }
  }

  lemma DeletedAre(t: Table, urls: seq<nat>)
    requires forall u: nat :: u in urls <==> exists k :: k in t && t[k].url == u && t[k].state == 0
    ensures forall u: nat :: u in urls <==> Has(At(t, u), 0)
  {
    forall u: nat ensures u in urls <==> Has(At(t, u), 0) {
      if u in urls {
        var k :| k in t && t[k].url == u && t[k].state == 0;
        assert At(t, u)[k].state == 0;
      }
      if Has(At(t, u), 0) {
        var k :| k in At(t, u) && At(t, u)[k].state == 0;
        assert t[k].url == u && t[k].state == 0;
      }
    }
  }

  lemma FoundNext(bdict: seq<Posting>, i: nat, word: nat, list: Urls, result: seq<Posting>)
    requires i < |bdict|
    requires forall u: nat :: Of(result, u) == if list.Allows(u) then Found(Of(bdict[..i], u), word) else []
    ensures var result' := if bdict[i].hit.word == word && list.Allows(bdict[i].url) then result + [bdict[i]]
        else result;
            forall u: nat :: Of(result', u) == if list.Allows(u) then Found(Of(bdict[..i + 1], u), word) else []
  {
    hide Of, Found;
    var p := bdict[i];
    var result' := if p.hit.word == word && list.Allows(p.url) then result + [p] else result;
    assert bdict[..i + 1] == bdict[..i] + [p];
    forall u: nat ensures Of(result', u) == if list.Allows(u) then Found(Of(bdict[..i + 1], u), word) else [] {
      OfSnoc(bdict[..i], p, u);
      OfSnoc(result, p, u);
      FoundSnoc(Of(bdict[..i], u), p.hit, word);
    }
  }

  lemma OfSnoc(ps: seq<Posting>, p: Posting, u: nat)
    ensures Of(ps + [p], u) == if p.url == u then Of(ps, u) + [p.hit] else Of(ps, u)
  {
    assert (ps + [p])[..|ps|] == ps;
  }

  lemma FoundSnoc(hits: seq<Hit>, h: Hit, word: nat)
    ensures Found(hits + [h], word) == if h.word == word then Found(hits, word) + [h] else Found(hits, word)
  {
    assert (hits + [h])[..|hits|] == hits;
  }

  lemma NothingFound(word: nat)
    ensures Found([], word) == []
  {
  }

  lemma NothingNew(before: seq<Posting>)
    ensures forall u: nat :: Of(before, u) == Of(before, u) + []
  {
  }

  lemma NoPostingsAtAll()
    ensures forall u: nat :: Of([], u) == []
  {
  }

  lemma FoundInNew(t: Table, bdict: seq<Posting>, latest: map<nat, seq<Hit>>, hidden: set<nat>, active: Urls, word: nat,
                   before: seq<Posting>, ps: seq<Posting>)
    requires Good(t, bdict, latest, hidden) && Collected(t, t.Keys, ps, before, ToFind(active, word))
    ensures forall u: nat :: Of(ps, u) == Of(before, u) + if active.Allows(u) then Found(New(At(t, u)), word) else []
  {
    hide Good, Of, Found;
    forall u: nat ensures Of(ps, u) == Of(before, u) + if active.Allows(u) then Found(New(At(t, u)), word) else [] {
      FoundInNewAt(t, bdict, latest, hidden, active, word, before, ps, u);
    }
  }

  lemma FoundInNewAt(t: Table, bdict: seq<Posting>, latest: map<nat, seq<Hit>>, hidden: set<nat>, active: Urls,
                     word: nat,
                     before: seq<Posting>, ps: seq<Posting>, u: nat)
    requires Good(t, bdict, latest, hidden) && Collected(t, t.Keys, ps, before, ToFind(active, word))
    ensures Of(ps, u) == Of(before, u) + if active.Allows(u) then Found(New(At(t, u)), word) else []
  {
    hide Good, Of, Found;
    NothingFound(word);
    var m := At(t, u);
    if active.Allows(u) && Has(m, 1) {
      var k :| k in m && m[k].state == 1 && m[k].hits == New(m);
      assert t[k] == m[k];
      if Found(t[k].hits, word) == [] {
        forall l | l in t && t[l].url == u ensures ToFind(active, word)(t[l]) == [] {
          if l != k { AtMostOneLive(t, bdict, latest, hidden, k, l); }
        }
      } else {
        assert ToFind(active, word)(t[k]) == Found(t[k].hits, word);
      }
    } else {
      forall k | k in t && t[k].url == u ensures ToFind(active, word)(t[k]) == [] { assert m[k] == t[k]; }
    }
  }

  /** What both halves of a search find in a document together. */
  lemma SearchIsLatest(t: Table, bdict: seq<Posting>, latest: map<nat, seq<Hit>>, hidden: set<nat>, u: nat, word: nat)
    requires Good(t, bdict, latest, hidden)
    ensures (if Has(At(t, u), 0) then [] else Found(Of(bdict, u), word)) + Found(New(At(t, u)), word) ==
            Found(if u in hidden then [] else HitsOf(latest, u), word)
  {
    hide Of, Has, New, GoodAt;
    var m, index := At(t, u), Of(bdict, u);
    assert GoodAt(m, index, HitsOf(latest, u), u in hidden);
    VisibleIsLatest(m, index, HitsOf(latest, u), u in hidden);
    FoundConcat(if Has(m, 0) then [] else index, New(m), word);
    NothingFound(word);
  }

  /**
   * What is stored is found: after a document was stored a search without a limit returns exactly its hits of the word
   * in real sections, each as often as the document has it and in its order.
   */
  method StoreAndSearch(tables: Tables, u: nat, words: seq<Hit>, word: nat)
    returns (result: seq<Posting>, ghost at: seq<nat>)
    requires tables.Valid()
    modifies tables
    ensures tables.Valid()
    ensures Picked(Of(result, u), words, (h: Hit) => h.secno != 0 && h.word == word, at)
  {
    hide Good, Of, Found, Indexed, Merged, Picked;
    tables.Store(u, words);
    ghost var deleted;
    result, deleted := tables.Search(word, Urls([], false, false));
    assert !Unsafe(Urls([], false, false), deleted);
    assert Of(result, u) == Found(Indexed(words), word);
    ghost var at1 := IndexedPicks(words);
    ghost var at2 := FoundPicks(Indexed(words), word);
    at := PickedTwice(words, Indexed(words), Found(Indexed(words), word), (h: Hit) => h.secno != 0,
                      (h: Hit) => h.word == word, (h: Hit) => h.secno != 0 && h.word == word, at1, at2);
  }

  /**
   * With an excluding limit a deleted document is still found: document 1 was stored, converted and deleted, and the
   * limit excludes only document 7.
   */
  lemma DeletedIsFound(h: Hit) returns (t: Table, bdict: seq<Posting>, limit: Urls, deleted: Urls)
    ensures t == MarkDeleted(DeleteNew(CleanUp(map[0 := Record(1, 1, [h])]), 1), 1) && Of(bdict, 1) == [h]
    ensures Good(t, bdict, map[], {}) && Has(At(t, 1), 0) && deleted == Urls([1], true, false)
        && limit == Urls([7], true, false)
    ensures Both(bdict, t, h.word, Merged(limit, deleted), limit, 1) == [h]
  {
    hide Of, Found, Merged, New, GoodAt, Restrict;
    t, bdict := map[0 := Record(1, 0, [h])], Postings(1, [h]);
    limit, deleted := Urls([7], true, false), Urls([1], true, false);
    WitnessTable(t, bdict, h);
    WitnessLists();
    FoundOne(h);
  }

  lemma WitnessTable(t: Table, bdict: seq<Posting>, h: Hit)
    requires t == map[0 := Record(1, 0, [h])] && bdict == Postings(1, [h])
    ensures Good(t, bdict, map[], {}) && Has(At(t, 1), 0) && Of(bdict, 1) == [h] && New(At(t, 1)) == []
    ensures t == MarkDeleted(DeleteNew(CleanUp(map[0 := Record(1, 1, [h])]), 1), 1)
  {
    hide Of;
    forall u: nat ensures GoodAt(At(t, u), Of(bdict, u), [], false) {
      OfPostings(1, [h], u);
      if u == 1 { assert At(t, 1)[0].state == 0; } else { assert At(t, u) == map[]; }
    }
    OfPostings(1, [h], 1);
    assert At(t, 1)[0].state == 0;
    assert CleanUp(map[0 := Record(1, 1, [h])]) == map[0 := Record(1, 2, [h])];
  }

  lemma WitnessLists()
    ensures Merged(Urls([7], true, false), Urls([1], true, false)).Allows(1)
  {
    hide Unioned;
    UnionHas([7], [1]);
    RestrictHas(Unioned([7], [1]), [1], false);
    assert 7 in Unioned([7], [1]) && 7 in Restrict(Unioned([7], [1]), [1], false);
  }

  lemma FoundOne(h: Hit)
    ensures Found([h], h.word) == [h] && Found([], h.word) == [] && [h] + [] == [h]
    ensures h.secno != 0 ==> Indexed([h]) == [h]
  {
    assert [h][..0] == [];
  }

  /**
   * When all urls of an excluding limit are marked deleted the index is skipped: documents 1 and 2 are stored and
   * converted and 1 is deleted; a search that excludes 1 does not find 2.
   */
  method IndexIsSkipped(h: Hit) returns (tables: Tables, result: seq<Posting>)
    requires h.secno != 0
    ensures tables.Valid() && tables.Latest(2) == [h] == Found([h], h.word) && Of(result, 2) == []
  {
    hide Good, Of, Found, Merged, Indexed;
    FoundOne(h);
    tables := new Tables();
    tables.Store(1, [h]);
    tables.Store(2, [h]);
    tables.Convert({1, 2});
    ghost var k := ConvertedRecord(tables.bdicti, tables.bdict, tables.latest, tables.hidden, 1);
    tables.DeleteWords(1);
    assert At(tables.bdicti, 1)[k].state == 0;
    var limit := Urls([1], true, false);
    ghost var deleted;
    result, deleted := tables.Search(h.word, limit);
    ghost var m := At(tables.bdicti, 2);
    assert !Has(m, 1);
    NothingFound(h.word);
    NothingLeft(limit, deleted);
  }

  lemma ConvertedRecord(t: Table, bdict: seq<Posting>, latest: map<nat, seq<Hit>>, hidden: set<nat>, url: nat)
    returns (k: nat)
    requires Good(t, bdict, latest, hidden) && HitsOf(latest, url) != [] && forall k :: k in t ==> t[k].state == 2
    ensures k in t && t[k].url == url && t[k].state == 2
  {
    hide Of;
    var m := At(t, url);
    assert GoodAt(m, Of(bdict, url), HitsOf(latest, url), url in hidden);
    k :| k in m && m[k].state != 0;
    assert t[k] == m[k];
  }

  lemma NothingLeft(limit: Urls, deleted: Urls)
    requires limit == Urls([1], true, false) && deleted.exclude && !deleted.empty && 1 in deleted.urls
    ensures Merged(limit, deleted).empty
  {
    ExcludingMerged(limit, deleted);
  }

  // ---------- Runs ----------

  datatype Call = Store(url: nat, words: seq<Hit>) | Delete(url: nat) | Convert(listed: set<nat>) | Truncate

  /** The version of a document that was stored last and not deleted since. */
  function Stored(calls: seq<Call>, u: nat): seq<Hit> {
    if calls == [] then []
    else
      var rest, last := calls[..|calls| - 1], calls[|calls| - 1];
      match last
      case Store(url, words) => if url == u then Indexed(words) else Stored(rest, u)
      case Delete(url) => if url == u then [] else Stored(rest, u)
      case Convert(_) => Stored(rest, u)
      case Truncate => []
  }

  /** What a search has to show: the stored version, unless the last conversion since it was stored did not list it. */
  function Shown(calls: seq<Call>, u: nat): seq<Hit> {
    if calls == [] then []
    else
      var rest, last := calls[..|calls| - 1], calls[|calls| - 1];
      match last
      case Convert(listed) => if u in listed then Stored(rest, u) else []
      case Store(url, _) => if url == u then Stored(calls, u) else Shown(rest, u)
      case Delete(url) => if url == u then Stored(calls, u) else Shown(rest, u)
      case Truncate => []
  }

  /** If every conversion lists all documents, what is shown is what is stored. */
  lemma {:induction false} CompleteListsShowAll(calls: seq<Call>, u: nat)
    requires forall i :: 0 <= i < |calls| && calls[i].Convert? ==> u in calls[i].listed
    ensures Shown(calls, u) == Stored(calls, u)
  {
    if calls == [] {
    } else {
      CompleteListsShowAll(calls[..|calls| - 1], u);
    }
  }

  /** Over every run the tables hold what was stored last, and show it as far as conversions listed it. */
  method Run(calls: seq<Call>) returns (tables: Tables)
    ensures tables.Valid() && forall u: nat :: tables.Latest(u) == Shown(calls, u)
  {
    hide Good, Indexed;
    tables := new Tables();
    var i: nat := 0;
    assert calls[..0] == [];
    while i < |calls|
      invariant i <= |calls| && fresh(tables) && tables.Valid()
      invariant forall u: nat :: HitsOf(tables.latest, u) == Stored(calls[..i], u)
      invariant forall u: nat :: tables.Latest(u) == Shown(calls[..i], u)
    {
      assert calls[..i + 1][..i] == calls[..i];
      match calls[i] {
        case Store(url, words) => tables.Store(url, words);
        case Delete(url) => tables.DeleteWords(url);
        case Convert(listed) => tables.Convert(listed);
        case Truncate => tables.Truncate();
      }
      i := i + 1;
    }
    assert calls[..i] == calls;
  }
}

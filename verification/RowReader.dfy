/** UdmSectionListBlobCoordsUnpack: a packed row, read back under a url limit. */
module RowReader {
  import opened Bytes
  import opened Seqs
  import opened Coord
  import opened Rows
  import opened Sections
  import opened RowHeader
  import opened UrlScan
  import opened RowState
  import opened Order
  import opened Unpacker

  /** UDM_SECTIONLIST: both arrays are allocated once, from the length of the row. */
  class SectionList {
    const coords: array<Coord2>
    const sections: array<Section>
    var ncoords: nat
    var nsections: nat

    constructor (mcoords: nat, msections: nat)
      ensures fresh(coords) && fresh(sections)
      ensures coords.Length == mcoords && sections.Length == msections && ncoords == 0 && nsections == 0
    {
      coords := new Coord2[mcoords];
      sections := new Section[msections];
      ncoords, nsections := 0, 0;
    }
  }

  ghost predicate SortedUrls(urls: seq<nat>) { Sorted<nat>(Le, urls) }

  /** bsearch over the url limit. */
  method BSearch(urls: seq<nat>, url: nat) returns (found: bool)
    requires SortedUrls(urls)
    ensures found <==> url in urls
  {
    var lo, hi := 0, |urls|;
    while lo < hi
      invariant lo <= hi <= |urls|
      invariant forall i :: 0 <= i < lo ==> urls[i] != url
      invariant forall i :: hi <= i < |urls| ==> urls[i] != url
    {
      var mid := (lo + hi) / 2;
      if urls[mid] == url { return true; }
      if urls[mid] < url { lo := mid + 1; } else { hi := mid; }
    }
    found := false;
  }

  method IsActive(url: nat, limit: Limit) returns (active: bool)
    requires SortedUrls(limit.urls)
    ensures active == Active(url, limit)
  {
    active := true;
    if limit.urls != [] {
      var found := BSearch(limit.urls, url);
      if found && limit.exclude { active := false; }
      if !found && !limit.exclude { active := false; }
    }
  }

  // ---------- The sections filled so far ----------

  /**
   * secs and cs are the sections and coordinates of the postings ks; without coordinates only their number is known.
   */
  ghost predicate Filled(secs: seq<Section>, cs: seq<Coord2>, ks: seq<Posting>,
                         save: bool, t: Template, s: seq<byte>, needCoords: bool)
  {
    && |secs| == |ks|
    && (forall j :: 0 <= j < |ks| ==> SectionIs(secs[j], ks, j, save, t, s))
    && |cs| == |AllCoords(ks, save, t.order)|
    && (needCoords ==> cs == AllCoords(ks, save, t.order))
  }

  lemma AllCoordsAppend(ks: seq<Posting>, p: Posting, save: bool, order: byte)
    ensures AllCoords(ks + [p], save, order) == AllCoords(ks, save, order) + Coords(p, save, order)
  {
    assert (ks + [p])[..|ks|] == ks;
  }

  lemma FilledStep(secs: seq<Section>, cs: seq<Coord2>, ks: seq<Posting>, save: bool, t: Template, s: seq<byte>,
                   needCoords: bool, p: Posting, sec: Section, cs': seq<Coord2>)
    requires Filled(secs, cs, ks, save, t, s, needCoords)
    requires p.gaps != [] && sec == SectionFor(p, save, t, |cs|, sec.packed)
    requires sec.packed <= |s| && Codes(p.gaps) <= s[sec.packed..]
    requires |cs'| == |cs| + Shown(p, save) && (needCoords ==> cs' == cs + Coords(p, save, t.order))
    ensures Filled(secs + [sec], cs', ks + [p], save, t, s, needCoords)
  {
    hide AllCoords, SectionFor, Codes, Coords;
    AllCoordsAppend(ks, p, save, t.order);
    var ks' := ks + [p];
    forall j | 0 <= j < |ks'| ensures SectionIs((secs + [sec])[j], ks', j, save, t, s) {
      assert ks'[..j] == ks[..j];
      if j == |ks| { assert ks[..j] == ks; }
    }
  }

  lemma KeptStep(ps: seq<Posting>, k: nat, limit: Limit)
    requires k < |ps|
    ensures Kept(ps[..k + 1], limit) == Kept(ps[..k], limit) + if Active(ps[k].urlId, limit) then [ps[k]] else []
  {
    assert ps[..k + 1][..k] == ps[..k];
  }

  // ---------- The main loop ----------

  lemma RangeTable(m: seq<byte>, n: seq<byte>, r: seq<byte>, b: seq<byte>)
    requires |m| == 6 && |n| == 4
    ensures r <= (m + (n + r) + b)[10..]
  {
    assert (m + (n + r) + b)[10..] == r + b;
  }

  lemma StartOfRow(s: seq<byte>, f: Format, ws: seq<CacheWord>, ps: seq<Posting>)
    requires Packable(f, ws, ps) && HeaderReadable(f, ws) && s == Row(f, ws) && (f.Simple? || |s| > 10)
    ensures var st := ReadHeader(s);
            st.Stat? && st.kind == TypeCode(f) && st.body == |Header(f, ws)| && At(s, f, ws, ps, 0, 0, st, st.body)
  {
    hide Marker, RangeBytes, Ranges, ReadHeader, Body, Int4, Int2, Increasing, UrlsFit, CarriesAll;
    HeaderReadBack(f, ws, ps);
    var st := ReadHeader(s);
    assert ws[0..] == ws && ws[0 + 0..] == ws;
    assert s[|Header(f, ws)|..] == Body(f, Base(f, ws[0].urlId), ws);
    if f.RangeMulti? {
      RangeTable(Marker(f), Int4(|Ranges(ws)|), RangeBytes(Ranges(ws)), Body(f, 0, ws));
    }
  }

  /** What one pass of the loop may rely on, and where it gets to. */
  lemma LoopStep(s: seq<byte>, f: Format, ws: seq<CacheWord>, ps: seq<Posting>, k: nat, m: nat, st: Stat, pos: nat)
    returns (m': nat)
    requires At(s, f, ws, ps, k, m, st, pos) && k < |ws| && pos < Guard(s, st)
    ensures Readable(s, pos, st) && Carries(ws[k], ps[k])
    ensures var r := NextUrl(s, pos, st);
            var codes := Codes([|ps[k].gaps|] + ps[k].gaps);
            && r.ok && r.url == ps[k].urlId && pos <= r.next <= |s| && codes <= s[r.next..]
            && pos + MinRecord(f) <= r.next + |codes| <= |s|
            && r.st.Stat? && r.st.kind == TypeCode(f)
            && At(s, f, ws, ps, k + 1, m', r.st, r.next + |codes|)
  {
    hide Body, Record, Codes, UrlBytes, NextUrl, Carries, Increasing, UrlsFit, UrlState;
    RecordAt(s, f, ws, ps, k, m, st, pos);
    KindOf(s, f, ws, k, m, st);
    m' := UrlStepCorrect(s, f, ws, k, m, st, pos);
    KindOf(s, f, ws, k + 1, m', NextUrl(s, pos, st).st);
    assert ws[k].urlId == ps[k].urlId by { SameUrl(ws[k], ps[k]); }
  }

  lemma SameUrl(w: CacheWord, p: Posting)
    requires Carries(w, p)
    ensures w.urlId == p.urlId
  {
  }

  lemma KindOf(s: seq<byte>, f: Format, ws: seq<CacheWord>, k: nat, m: nat, st: Stat)
    requires ws != [] && k <= |ws| && UrlState(s, f, ws, k, m, st)
    ensures st.Stat? && st.kind == TypeCode(f)
  {
  }

  lemma CodesTail(n: value, gaps: seq<value>)
    ensures ([n] + gaps)[0] == n && ([n] + gaps)[1..] == gaps && |Codes(gaps)| >= |gaps|
  {
  }

  /** Unpack one document and add its section to the list. */
  method StoreSection(s: seq<byte>, pos: nat, nrecs: nat, url: nat, save: bool, needCoords: bool, t: Template,
                      list: SectionList, top: nat, nsec: nat, ghost p: Posting, ghost ks: seq<Posting>)
    returns (ok: bool, next: nat, newTop: nat)
    requires Valid(p) && p.urlId == url && nrecs == |p.gaps| && pos <= |s| && Codes(p.gaps) <= s[pos..]
    requires top + nrecs <= list.coords.Length && nsec < list.sections.Length
    requires Filled(list.sections[..nsec], list.coords[..top], ks, save, t, s, needCoords)
    modifies list.coords, list.sections
    ensures ok && next == pos + |Codes(p.gaps)| && newTop == top + Shown(p, save)
    ensures Filled(list.sections[..nsec + 1], list.coords[..newTop], ks + [p], save, t, s, needCoords)
  {
    hide Filled, Codes, SectionFor, Coords;
    ghost var secs, cs := list.sections[..nsec], list.coords[..top];
    var sec;
    ok, next, sec, newTop := UnpackSection(s, pos, nrecs, url, save, needCoords, t, list.coords, top, p);
    if !ok { return; }
    FilledStep(secs, cs, ks, save, t, s, needCoords, p, sec, list.coords[..newTop]);
    list.sections[nsec] := sec;
    assert list.sections[..nsec + 1] == secs + [sec];
  }

  /** One document behind its count: stored, or passed over if it is not wanted. */
  method StoreOrSkip(s: seq<byte>, pos: nat, nrecs: nat, url: nat, active: bool, save: bool, needCoords: bool,
                     wide: bool, t: Template, list: SectionList, top: nat, nsec: nat, ncoords: nat, ghost p: Posting,
                     ghost ks: seq<Posting>)
    returns (ok: bool, next: nat, newTop: nat, newSec: nat, newCoords: nat)
    requires Valid(p) && p.urlId == url && nrecs == |p.gaps| && pos <= |s| && Codes(p.gaps) <= s[pos..]
    requires top == ncoords && top + nrecs <= list.coords.Length && nsec < list.sections.Length
    requires Filled(list.sections[..nsec], list.coords[..top], ks, save, t, s, needCoords)
    modifies list.coords, list.sections
    ensures ok && next == pos + |Codes(p.gaps)|
    ensures newTop == newCoords <= top + nrecs && nsec <= newSec <= nsec + 1
    ensures Filled(list.sections[..newSec], list.coords[..newTop], ks + if active then [p] else [], save, t, s,
                   needCoords)
  {
    hide Filled, Codes, SectionFor, Coords;
    ok, newTop, newSec, newCoords := true, top, nsec, ncoords;
    if !active {
      assert ks + [] == ks;
      DropIsSlice(s, pos);
      next := CoordSkip(s, pos, |s|, nrecs, wide, p.gaps);
    } else {
      newCoords := ncoords + nrecs;
      if save && nrecs > 1 { newCoords := newCoords - 1; }
      ok, next, newTop := StoreSection(s, pos, nrecs, url, save, needCoords, t, list, top, nsec, p, ks);
      if !ok { return; }
      newSec := nsec + 1;
    }
  }

  /** One pass of the main loop: the document at pos is read, and kept if the limit lets it through. */
  method ReadDocument(s: seq<byte>, limit: Limit, t: Template, save: bool, needCoords: bool, wide: bool,
                      list: SectionList, pos: nat, st: Stat, top: nat, nsec: nat, ncoords: nat, ghost f: Format,
                      ghost ws: seq<CacheWord>, ghost ps: seq<Posting>, ghost k: nat, ghost m: nat)
    returns (ok: bool, next: nat, st': Stat, newTop: nat, newSec: nat, newCoords: nat, ghost m': nat)
    requires |ws| == |ps| && k < |ws| && At(s, f, ws, ps, k, m, st, pos) && st.Stat? && pos < Guard(s, st)
    requires SortedUrls(limit.urls)
    requires top == ncoords <= pos && nsec <= ExpectedSectionCount(TypeCode(f), pos)
    requires list.coords.Length == |s| && list.sections.Length == ExpectedSectionCount(TypeCode(f), |s|)
    requires top <= list.coords.Length && nsec <= list.sections.Length
    requires Filled(list.sections[..nsec], list.coords[..top], Kept(ps[..k], limit), save, t, s, needCoords)
    modifies list.coords, list.sections
    ensures ok && pos < next <= |s| && st'.Stat? && st'.kind == TypeCode(f) && At(s, f, ws, ps, k + 1, m', st', next)
    ensures newTop == newCoords <= next && newSec <= ExpectedSectionCount(TypeCode(f), next)
    ensures newTop <= list.coords.Length && newSec <= list.sections.Length
    ensures Filled(list.sections[..newSec], list.coords[..newTop], Kept(ps[..k + 1], limit), save, t, s, needCoords)
  {
    hide At, Filled, Codes, NextUrl, Coords, Kept, SectionFor, Active, Guard, ExpectedSectionCount, UrlState, Body,
         Record, TypeCode, MinRecord;
    ghost var p := ps[k];
    m' := LoopStep(s, f, ws, ps, k, m, st, pos);
    var step := NextUrl(s, pos, st);
    ok, next, st', newTop, newSec, newCoords := step.ok, step.next, step.st, top, nsec, ncoords;
    if !ok { return; }
    var active := IsActive(step.url, limit);
    CodesTail(|p.gaps|, p.gaps);
    var nrecs;
    ok, nrecs, next := ReadCode(s, next, [|p.gaps|] + p.gaps);
    if !ok || nrecs == 0 { return false, next, st', top, nsec, ncoords, m'; }
    KeptStep(ps, k, limit);
    ExpectedGrows(f, pos, next + |Codes(p.gaps)|);
    ExpectedMonotone(f, next + |Codes(p.gaps)|, |s|);
    ok, next, newTop, newSec, newCoords := StoreOrSkip(s, next, nrecs, step.url, active, save, needCoords, wide, t,
                                                       list, top, nsec, ncoords, p, Kept(ps[..k], limit));
  }

  /**
   * For every packed row: the sections and coordinates of the returned documents that the
   * limit lets through, in order, written inside the two arrays allocated from the row's length.
   */
  method Unpack(s: seq<byte>, limit: Limit, t: Template, save: bool, needCoords: bool, wide: bool,
                ghost f: Format, ghost ws: seq<CacheWord>, ghost ps: seq<Posting>)
    returns (list: SectionList)
    requires Packable(f, ws, ps) && HeaderReadable(f, ws) && s == Row(f, ws) && (f.Simple? || |s| > 10)
    requires SortedUrls(limit.urls)
    ensures ReadHeader(s).Stat?
    ensures list.coords.Length == |s| && list.sections.Length == ExpectedSectionCount(ReadHeader(s).kind, |s|)
    ensures list.nsections <= list.sections.Length && list.ncoords <= list.coords.Length
    ensures Filled(list.sections[..list.nsections], list.coords[..list.ncoords],
                   Kept(ps[..Returned(f, ws)], limit), save, t, s, needCoords)
  {
    hide At, Filled, Row, Packable, HeaderReadable, ReadHeader, Kept, Returned, Guard, ExpectedSectionCount, TypeCode;
    var st := ReadHeader(s);
    StartOfRow(s, f, ws, ps);
    SameLength(f, ws, ps);
    AtStart(s, f, ws, ps, st);
    var pos: nat := st.body;
    list := new SectionList(|s|, ExpectedSectionCount(st.kind, |s|));
    var top: nat, nsec: nat, ncoords: nat := 0, 0, 0;
    ghost var k: nat, m: nat := 0, 0;
    FilledNone(ps, save, t, s, needCoords, limit, list.sections[..0], list.coords[..0]);
    GuardIsReturned(s, f, ws, ps, k, m, st, pos);
    while pos < Guard(s, st)
      invariant st.Stat? && st.kind == TypeCode(f) && |ws| == |ps| && pos <= |s|
      invariant k <= |ws| && At(s, f, ws, ps, k, m, st, pos) && (pos < Guard(s, st) <==> k < Returned(f, ws))
      invariant k <= Returned(f, ws)
      invariant top == ncoords <= pos && nsec <= ExpectedSectionCount(TypeCode(f), pos)
      invariant list.coords.Length == |s| && list.sections.Length == ExpectedSectionCount(TypeCode(f), |s|)
      invariant top <= list.coords.Length && nsec <= list.sections.Length
      invariant Filled(list.sections[..nsec], list.coords[..top], Kept(ps[..k], limit), save, t, s, needCoords)
      decreases |s| - pos
    {
      var ok;
      ok, pos, st, top, nsec, ncoords, m := ReadDocument(s, limit, t, save, needCoords, wide, list, pos, st, top, nsec,
                                                         ncoords, f, ws, ps, k, m);
      if !ok { break; }
      k := k + 1;
      GuardIsReturned(s, f, ws, ps, k, m, st, pos);
    }
    list.ncoords, list.nsections := ncoords, nsec;
  }

  lemma AtStart(s: seq<byte>, f: Format, ws: seq<CacheWord>, ps: seq<Posting>, st: Stat)
    requires st.Stat? && At(s, f, ws, ps, 0, 0, st, st.body)
    ensures st.body <= |s|
  {
  }

  lemma SameLength(f: Format, ws: seq<CacheWord>, ps: seq<Posting>)
    requires Packable(f, ws, ps)
    ensures ws != [] && |ws| == |ps|
  {
  }

  lemma FilledNone(ps: seq<Posting>, save: bool, t: Template, s: seq<byte>, needCoords: bool, limit: Limit,
                   secs: seq<Section>, cs: seq<Coord2>)
    requires secs == [] && cs == []
    ensures Filled(secs, cs, Kept(ps[..0], limit), save, t, s, needCoords)
  {
  }
}

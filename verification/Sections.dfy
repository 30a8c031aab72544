/**
 * What a search must get back for one row: the reference for the unpacker
 * (UDM_SECTION and UDM_COORD2 in udm_common.h:362-381).
 */
module Sections {
  import opened Bytes
  import opened Coord
  import opened Rows

  /** One document's coordinates as differences; with section sizes saved, the last one leads to the section length. */
  datatype Posting = Posting(urlId: nat, gaps: seq<value>)

  const POS_LIMIT := 0x100_0000 // UDM_COORD2.pos has 24 bits

  ghost predicate Valid(p: Posting) {
    1 <= |p.gaps| < LIMIT && Sum(p.gaps) < POS_LIMIT
  }

  /** The cache entry w carries the coordinates of p. */
  ghost predicate Carries(w: CacheWord, p: Posting) {
    Valid(p) && w.urlId == p.urlId && w.nintags == |p.gaps| && w.intags == Codes(p.gaps)
  }

  ghost predicate CarriesAll(ws: seq<CacheWord>, ps: seq<Posting>) {
    |ws| == |ps| && forall i :: 0 <= i < |ws| ==> Carries(ws[i], ps[i])
  }

  lemma {:induction false} SumConcat(a: seq<nat>, b: seq<nat>)
    ensures Sum(a + b) == Sum(a) + Sum(b)
  {
    if a == [] {
      assert a + b == b;
    } else {
      SumConcat(a[1..], b);
      assert (a + b)[1..] == a[1..] + b;
    }
  }

  function RunningSums(base: nat, gaps: seq<nat>): (ps: seq<nat>)
    ensures |ps| == |gaps|
    decreases |gaps|
  {
    if gaps == [] then [] else [base + gaps[0]] + RunningSums(base + gaps[0], gaps[1..])
  }

  lemma {:induction false} RunningSumsAt(base: nat, gaps: seq<nat>, i: nat)
    requires i < |gaps|
    decreases |gaps|
    ensures RunningSums(base, gaps)[i] == base + Sum(gaps[..i + 1])
  {
    if i == 0 {
      assert gaps[..1] == [gaps[0]];
    } else {
      RunningSumsAt(base + gaps[0], gaps[1..], i - 1);
      assert gaps[..i + 1][1..] == gaps[1..][..i];
    }
  }

  /** The coordinates of a posting: each is the one before plus the gap. */
  function Positions(gaps: seq<value>): (ps: seq<nat>)
    ensures |ps| == |gaps|
  {
    RunningSums(0, gaps)
  }

  /** How many coordinates a search sees: not the section length marker. */
  function Shown(p: Posting, save: bool): (n: nat)
    ensures n <= |p.gaps|
  {
    if save && |p.gaps| > 1 then |p.gaps| - 1 else |p.gaps|
  }

  datatype Coord2 = Coord2(pos: nat, order: byte)

  /** UDM_SECTION; coord and packed are the pointers, as indices. */
  datatype Section = Section(coord: nat, packed: nat, urlId: nat, ncoords: nat, seclen: nat,
                             minpos: nat, maxpos: nat, secno: byte, wordnum: byte, order: byte)

  datatype Template = Template(secno: byte, wordnum: byte, order: byte)

  function WithOrder(ps: seq<nat>, order: byte): (cs: seq<Coord2>)
    ensures |cs| == |ps|
  {
    seq(|ps|, i requires 0 <= i < |ps| => Coord2(ps[i], order))
  }

  function Coords(p: Posting, save: bool, order: byte): (cs: seq<Coord2>)
    ensures |cs| == Shown(p, save)
  {
    WithOrder(Positions(p.gaps)[..Shown(p, save)], order)
  }

  function SectionFor(p: Posting, save: bool, t: Template, coord: nat, packed: nat): Section
    requires p.gaps != []
  {
    var ps := Positions(p.gaps);
    var n := Shown(p, save);
    Section(coord, packed, p.urlId, n,
            if |p.gaps| == 1 then ps[0] else if save then ps[|ps| - 1] else 0,
            ps[0], ps[n - 1], t.secno, t.wordnum, t.order)
  }

  // ---------- A whole row under a url limit ----------

  /** UDM_URLID_LIST: an empty list is no limit. */
  datatype Limit = Limit(urls: seq<nat>, exclude: bool)

  predicate Active(url: nat, limit: Limit) {
    limit.urls == [] || ((url in limit.urls) != limit.exclude)
  }

  function Kept(ps: seq<Posting>, limit: Limit): (ks: seq<Posting>)
    ensures |ks| <= |ps|
  {
    if ps == [] then [] else
    var n := |ps| - 1;
    Kept(ps[..n], limit) + if Active(ps[n].urlId, limit) then [ps[n]] else []
  }

  function AllCoords(ps: seq<Posting>, save: bool, order: byte): seq<Coord2> {
    if ps == [] then [] else
    AllCoords(ps[..|ps| - 1], save, order) + Coords(ps[|ps| - 1], save, order)
  }

  /** The section at j is that of posting j, its coordinates follow those of the earlier ones. */
  ghost predicate SectionIs(sec: Section, ps: seq<Posting>, j: nat, save: bool, t: Template, s: seq<byte>)
    requires j < |ps|
  {
    && ps[j].gaps != []
    && sec == SectionFor(ps[j], save, t, |AllCoords(ps[..j], save, t.order)|, sec.packed)
    && sec.packed <= |s| && Codes(ps[j].gaps) <= s[sec.packed..]
  }
}

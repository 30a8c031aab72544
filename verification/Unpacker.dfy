/** Reading a row back into sections (dbmode-blob.c:1625-1729 and 1851-2094). */
module Unpacker {
  import opened Bytes
  import opened Seqs
  import opened Coord
  import opened Rows
  import opened Sections
  import opened RowHeader

  // ---------- The coordinates of one section ----------

  lemma FirstGap(stale: nat, gaps: seq<value>, s: seq<byte>, pos: nat)
    requires gaps != [] && pos <= |s| && Codes(gaps) <= s[pos..]
    ensures var n := |Put(gaps[0])|;
            && pos + n <= |s| && Codes(gaps[1..]) <= s[pos + n..] && |Codes(gaps)| == n + |Codes(gaps[1..])|
            && Get(stale, s, pos, |s|) == Scan(n, gaps[0])
            && (pos + 4 <= |s| ==> GetQuick(stale, s, pos) == Scan(n, gaps[0]))
            && (s[pos] < 128 ==> n == 1 && s[pos] == gaps[0])
  {
    hide Put, Get, Decode, GetQuick, Codes, Sum;
    DropIsSlice(s, pos);
    ScanStep(stale, gaps, s, pos, |s|);
    DropIsSlice(s, pos + |Put(gaps[0])|);
  }

  lemma WithOrderStep(done: seq<Coord2>, base: nat, gaps: seq<value>, order: byte)
    requires gaps != []
    ensures done + WithOrder(RunningSums(base, gaps), order) ==
            done + [Coord2(base + gaps[0], order)] + WithOrder(RunningSums(base + gaps[0], gaps[1..]), order)
  {
    var rest := RunningSums(base + gaps[0], gaps[1..]);
    assert RunningSums(base, gaps) == [base + gaps[0]] + rest;
    assert WithOrder([base + gaps[0]] + rest, order) == [Coord2(base + gaps[0], order)] + WithOrder(rest, order);
    Assoc(done, [Coord2(base + gaps[0], order)], WithOrder(rest, order));
  }

  /** UdmBlobPackedCoordsToUnpackedCoords away from the end of the row: no range check. */
  method UnpackRestQuick(s: seq<byte>, pos: nat, nrecs: nat, base: nat, order: byte,
                         coords: array<Coord2>, top: nat, ghost gaps: seq<value>)
    returns (next: nat, c: nat, newTop: nat)
    requires pos <= |s| && |gaps| == nrecs && Codes(gaps) <= s[pos..] && pos + nrecs * 4 < |s|
    requires base + Sum(gaps) < POS_LIMIT && top + nrecs <= coords.Length
    modifies coords
    ensures next == pos + |Codes(gaps)| && c == base + Sum(gaps) && newTop == top + nrecs
    ensures coords[..newTop] == old(coords[..top]) + WithOrder(RunningSums(base, gaps), order)
  {
    hide Put, Get, Decode, GetQuick, WithOrder;
    var left := nrecs;
    ghost var rest := gaps;
    next, c, newTop := pos, base, top;
    while left > 0
      invariant left == |rest| && next + left * 4 < |s| && Codes(rest) <= s[next..]
      invariant next + |Codes(rest)| == pos + |Codes(gaps)| && c + Sum(rest) == base + Sum(gaps)
      invariant newTop + left == top + nrecs
      invariant coords[..newTop] + WithOrder(RunningSums(c, rest), order) ==
                old(coords[..top]) + WithOrder(RunningSums(base, gaps), order)
    {
      FirstGap(0, rest, s, next);
      WithOrderStep(coords[..newTop], c, rest, order);
      var crd, nbytes: nat := s[next], 1;
      if s[next] >= 128 {
        var got := GetQuick(0, s, next);
        crd, nbytes := got.value, got.nbytes;
        if nbytes == 0 { break; }
      }
      next, c := next + nbytes, (c + crd) % POS_LIMIT;
      coords[newTop] := Coord2(c, order);
      newTop, left, rest := newTop + 1, left - 1, rest[1..];
    }
  }

  /** The same near the end of the row: every code is range-checked. */
  method UnpackRestChecked(s: seq<byte>, pos: nat, nrecs: nat, base: nat, order: byte,
                           coords: array<Coord2>, top: nat, ghost gaps: seq<value>)
    returns (next: nat, c: nat, newTop: nat)
    requires pos <= |s| && |gaps| == nrecs && Codes(gaps) <= s[pos..]
    requires base + Sum(gaps) < POS_LIMIT && top + nrecs <= coords.Length
    modifies coords
    ensures next == pos + |Codes(gaps)| && c == base + Sum(gaps) && newTop == top + nrecs
    ensures coords[..newTop] == old(coords[..top]) + WithOrder(RunningSums(base, gaps), order)
  {
    hide Put, Get, Decode, GetQuick, WithOrder;
    var left := nrecs;
    ghost var rest := gaps;
    next, c, newTop := pos, base, top;
    while left > 0
      invariant left == |rest| && next <= |s| && Codes(rest) <= s[next..]
      invariant next + |Codes(rest)| == pos + |Codes(gaps)| && c + Sum(rest) == base + Sum(gaps)
      invariant newTop + left == top + nrecs
      invariant coords[..newTop] + WithOrder(RunningSums(c, rest), order) ==
                old(coords[..top]) + WithOrder(RunningSums(base, gaps), order)
    {
      FirstGap(0, rest, s, next);
      WithOrderStep(coords[..newTop], c, rest, order);
      var crd, nbytes: nat := 0, 1;
      if next < |s| && s[next] < 128 {
        crd := s[next];
      } else {
        var got := Get(0, s, next, |s|);
        crd, nbytes := got.value, got.nbytes;
        if nbytes == 0 { break; }
      }
      next, c := next + nbytes, (c + crd) % POS_LIMIT;
      coords[newTop] := Coord2(c, order);
      newTop, left, rest := newTop + 1, left - 1, rest[1..];
    }
  }

  /** Coordinates after the first one; COORD_MAX_LEN is 4. */
  method UnpackRest(s: seq<byte>, pos: nat, nrecs: nat, base: nat, order: byte,
                    coords: array<Coord2>, top: nat, ghost gaps: seq<value>)
    returns (next: nat, c: nat, newTop: nat)
    requires pos <= |s| && |gaps| == nrecs && Codes(gaps) <= s[pos..]
    requires base + Sum(gaps) < POS_LIMIT && top + nrecs <= coords.Length
    modifies coords
    ensures next == pos + |Codes(gaps)| && c == base + Sum(gaps) && newTop == top + nrecs
    ensures coords[..newTop] == old(coords[..top]) + WithOrder(RunningSums(base, gaps), order)
  {
    if pos + nrecs * 4 < |s| {
      next, c, newTop := UnpackRestQuick(s, pos, nrecs, base, order, coords, top, gaps);
    } else {
      next, c, newTop := UnpackRestChecked(s, pos, nrecs, base, order, coords, top, gaps);
    }
  }

  lemma SplitLast(gaps: seq<value>, s: seq<byte>, pos: nat)
    requires gaps != [] && pos <= |s| && Codes(gaps) <= s[pos..]
    ensures var init, last := gaps[..|gaps| - 1], gaps[|gaps| - 1];
            && pos + |Codes(init)| <= |s| && Codes(init) <= s[pos..|s|] && Codes([last]) <= s[pos + |Codes(init)|..]
            && |Codes(gaps)| == |Codes(init)| + |Codes([last])| && Sum(gaps) == Sum(init) + last
  {
    hide Codes;
    var init, last := gaps[..|gaps| - 1], gaps[|gaps| - 1];
    assert gaps == init + [last];
    CodesConcat(init, [last]);
    SumConcat(init, [last]);
    DropIsSlice(s, pos);
    PrefixSplit(Codes(init), Codes([last]), s, pos, |s|);
    DropIsSlice(s, pos + |Codes(init)|);
  }

  /** UdmBlobPackedCoordsUnpackMinMaxLen: only the last position, the section length and the count. */
  method UnpackMinMaxLen(s: seq<byte>, pos: nat, nrecs: nat, first: nat, save: bool, ghost gaps: seq<value>)
    returns (next: nat, shown: nat, maxpos: nat, seclen: nat)
    requires pos <= |s| && 1 <= |gaps| == nrecs && Codes(gaps) <= s[pos..]
    requires first + Sum(gaps) < POS_LIMIT
    ensures next == pos + |Codes(gaps)|
    ensures shown == if save then nrecs else nrecs + 1
    ensures maxpos == first + if save then Sum(gaps[..nrecs - 1]) else Sum(gaps)
    ensures seclen == if save then first + Sum(gaps) else 0
  {
    hide Put, Get, Decode;
    seclen, shown := 0, 0;
    if save {
      SplitLast(gaps, s, pos);
      ghost var init, last := gaps[..nrecs - 1], gaps[nrecs - 1];
      next, maxpos := pos, first;
      if nrecs > 1 {
        var sum;
        sum, next := CoordSum(s, pos, |s|, nrecs - 1, init);
        maxpos := (first + sum) % POS_LIMIT;
      }
      FirstGap(0, [last], s, next);
      var got := Get(0, s, next, |s|);
      if got.nbytes != 0 {
        next := next + got.nbytes;
        seclen := (maxpos + got.value) % POS_LIMIT;
        shown := nrecs;
      }
    } else {
      DropIsSlice(s, pos);
      var sum;
      sum, next := CoordSum(s, pos, |s|, nrecs, gaps);
      maxpos := (first + sum) % POS_LIMIT;
      shown := nrecs + 1;
    }
  }

  // ---------- One section ----------

  lemma FirstPosition(gaps: seq<value>)
    requires gaps != []
    ensures Positions(gaps) == [gaps[0]] + RunningSums(gaps[0], gaps[1..])
    ensures Sum(gaps) == gaps[0] + Sum(gaps[1..])
  {
  }

  /** minpos, maxpos and seclen of SectionFor as sums. */
  lemma SectionSums(gaps: seq<value>)
    requires |gaps| > 1
    ensures var ps, rest := Positions(gaps), gaps[1..];
            && ps[0] == gaps[0]
            && ps[|ps| - 1] == gaps[0] + Sum(rest)
            && ps[|ps| - 2] == gaps[0] + Sum(rest[..|rest| - 1])
  {
    var rest := gaps[1..];
    FirstPosition(gaps);
    RunningSumsAt(gaps[0], rest, |rest| - 1);
    assert rest[..|rest|] == rest;
    if |rest| > 1 {
      RunningSumsAt(gaps[0], rest, |rest| - 2);
    } else {
      assert rest[..0] == [];
    }
  }

  lemma CoordsOf(done: seq<Coord2>, p: Posting, save: bool, order: byte)
    requires |p.gaps| > 1
    ensures var cs := done + [Coord2(p.gaps[0], order)] + WithOrder(RunningSums(p.gaps[0], p.gaps[1..]), order);
            && |cs| == |done| + |p.gaps|
            && (forall i :: 0 <= i < |p.gaps| ==> cs[|done| + i] == Coord2(Positions(p.gaps)[i], order))
            && cs[..|done| + Shown(p, save)] == done + Coords(p, save, order)
  {
    FirstPosition(p.gaps);
    var cs := done + [Coord2(p.gaps[0], order)] + WithOrder(RunningSums(p.gaps[0], p.gaps[1..]), order);
    forall i | 0 <= i < |p.gaps| ensures cs[|done| + i] == Coord2(Positions(p.gaps)[i], order) {
      if i > 0 { assert Positions(p.gaps)[i] == RunningSums(p.gaps[0], p.gaps[1..])[i - 1]; }
    }
    assert cs[..|done| + Shown(p, save)] == done + Coords(p, save, order);
  }

  /** The inlined read of one code: a single byte below 128, or udm_coord_get. */
  method ReadCode(s: seq<byte>, pos: nat, ghost gaps: seq<value>) returns (ok: bool, v: nat, next: nat)
    requires gaps != [] && pos <= |s| && Codes(gaps) <= s[pos..]
    ensures ok && v == gaps[0] && next <= |s| && Codes(gaps[1..]) <= s[next..]
    ensures next + |Codes(gaps[1..])| == pos + |Codes(gaps)|
  {
    hide Put, Get, Decode;
    FirstGap(0, gaps, s, pos);
    if s[pos] < 128 {
      ok, v, next := true, s[pos], pos + 1;
    } else {
      var got := Get(0, s, pos, |s|);
      ok, v, next := got.nbytes != 0, got.value, pos + got.nbytes;
    }
  }

  /** The branch that stores every coordinate. */
  method UnpackFull(s: seq<byte>, pos: nat, nrecs: nat, first: nat, save: bool, sec0: Section,
                    coords: array<Coord2>, top: nat, ghost p: Posting)
    returns (next: nat, sec: Section, newTop: nat)
    requires Valid(p) && |p.gaps| > 1 && nrecs == |p.gaps| - 1 && first == p.gaps[0]
    requires pos <= |s| && Codes(p.gaps[1..]) <= s[pos..] && top + |p.gaps| <= coords.Length
    modifies coords
    ensures next == pos + |Codes(p.gaps[1..])| && newTop == top + Shown(p, save)
    ensures var ps := Positions(p.gaps);
            sec == sec0.(seclen := if save then ps[|ps| - 1] else 0, ncoords := Shown(p, save),
                         maxpos := ps[Shown(p, save) - 1])
    ensures coords[..newTop] == old(coords[..top]) + Coords(p, save, sec0.order)
  {
    hide Coords, WithOrder, RunningSums, Codes;
    ghost var before := coords[..top];
    FirstPosition(p.gaps);
    SectionSums(p.gaps);
    CoordsOf(before, p, save, sec0.order);
    coords[top] := Coord2(first, sec0.order);
    assert coords[..top + 1] == before + [Coord2(first, sec0.order)];
    var c;
    next, c, newTop := UnpackRest(s, pos, nrecs, first, sec0.order, coords, top + 1, p.gaps[1..]);
    var n := newTop - top;
    if save {
      newTop := newTop - 1;
      sec := sec0.(seclen := coords[newTop].pos, ncoords := n - 1, maxpos := coords[newTop - 1].pos);
    } else {
      sec := sec0.(seclen := 0, ncoords := n, maxpos := c);
    }
  }

  /** One pass of the main loop after the count was read, for a document the limit lets through. */
  method UnpackSection(s: seq<byte>, pos: nat, nrecs: nat, url: nat, save: bool, needCoords: bool, t: Template,
                       coords: array<Coord2>, top: nat, ghost p: Posting)
    returns (ok: bool, next: nat, sec: Section, newTop: nat)
    requires Valid(p) && p.urlId == url && nrecs == |p.gaps| && pos <= |s| && Codes(p.gaps) <= s[pos..]
    requires top + nrecs <= coords.Length
    modifies coords
    ensures ok && next == pos + |Codes(p.gaps)|
    ensures sec == SectionFor(p, save, t, top, pos) && sec.packed == pos && newTop == top + Shown(p, save)
    ensures needCoords ==> coords[..newTop] == old(coords[..top]) + Coords(p, save, t.order)
  {
    hide Coords, WithOrder, RunningSums, Codes;
    sec := Section(top, pos, url, 0, 0, 0, 0, t.secno, t.wordnum, t.order);
    newTop := top;
    var first;
    FirstPosition(p.gaps);
    ok, first, next := ReadCode(s, pos, p.gaps);
    if !ok { return; }
    first := first % POS_LIMIT;
    sec := sec.(minpos := first);
    var left := nrecs - 1;
    if left == 0 {
      sec := sec.(seclen := first, ncoords := 1, maxpos := first);
      SingleCoord(p, save, t.order);
      if needCoords { coords[top] := Coord2(first, t.order); }
      newTop := top + 1;
    } else if !needCoords {
      SectionSums(p.gaps);
      var shown, maxpos, seclen;
      next, shown, maxpos, seclen := UnpackMinMaxLen(s, next, left, first, save, p.gaps[1..]);
      sec := sec.(seclen := seclen, ncoords := shown, maxpos := maxpos);
      newTop := top + shown;
    } else {
      next, sec, newTop := UnpackFull(s, next, left, first, save, sec, coords, top, p);
    }
  }

  lemma SingleCoord(p: Posting, save: bool, order: byte)
    requires |p.gaps| == 1
    ensures Positions(p.gaps) == [p.gaps[0]] && Sum(p.gaps) == p.gaps[0]
    ensures Coords(p, save, order) == [Coord2(p.gaps[0], order)]
    ensures Codes(p.gaps[1..]) == []
  {
    FirstPosition(p.gaps);
  }
}

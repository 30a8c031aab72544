/** Packing a word's positions and reading them back (dbmode-multi.c:351-384, 459-500). */
module MultiPack {
  import opened Bytes
  import opened Seqs
  import opened Coord
  import opened Sections

  /** A C string or no string. */
  datatype CBytes = Null | Bytes(bytes: seq<byte>)

  /** Every position is at least the one before, and the difference has a code. */
  predicate Ascends(last: nat, xs: seq<nat>)
    decreases |xs|
  {
    xs == [] || (last <= xs[0] && xs[0] - last < LIMIT && Ascends(xs[0], xs[1..]))
  }

  /** No position is repeated, and none is the start value. */
  predicate Strict(last: nat, xs: seq<nat>)
    decreases |xs|
  {
    xs == [] || (last < xs[0] && Strict(xs[0], xs[1..]))
  }

  function Differences(last: nat, xs: seq<nat>): (gaps: seq<value>)
    requires Ascends(last, xs)
    ensures |gaps| == |xs|
    decreases |xs|
  {
    if xs == [] then [] else [xs[0] - last] + Differences(xs[0], xs[1..])
  }

  /** UdmMultiCachePutIntagUsingRaw: no string for an empty, a falling or a too widely spaced list. */
  method PutIntag(intags: seq<nat>) returns (r: CBytes)
    ensures r == if intags == [] || !Ascends(0, intags) then Null else Bytes(Codes(Differences(0, intags)))
  {
    hide Put, TryPut;
    if intags == [] { return Null; }
    var last: nat, out: seq<byte> := 0, [];
    ghost var rest := intags;
    for c := 0 to |intags|
      invariant rest == intags[c..] && (Ascends(last, rest) <==> Ascends(0, intags))
      invariant Ascends(0, intags) ==> out + Codes(Differences(last, rest)) == Codes(Differences(0, intags))
    {
      assert rest[0] == intags[c] && rest[1..] == intags[c + 1..];
      if intags[c] < last { return Null; }
      var code := TryPut(intags[c] - last, 4);
      if code == [] {
        NoCode(intags[c] - last);
        return Null;
      }
      NoCode(intags[c] - last);
      if Ascends(last, rest) {
        CodesCons(Differences(last, rest));
        Assoc(out, code, Codes(Differences(intags[c], rest[1..])));
      }
      out := out + code;
      last := intags[c];
      rest := rest[1..];
    }
    r := Bytes(out);
  }

  lemma NoCode(v: nat)
    ensures TryPut(v, 4) == [] <==> v >= LIMIT
    ensures v < LIMIT ==> TryPut(v, 4) == Put(v)
  {
  }

  lemma CodesCons(gaps: seq<value>)
    requires gaps != []
    ensures Codes(gaps) == Put(gaps[0]) + Codes(gaps[1..])
  {
  }

  // ---------- Reading back ----------

  datatype Position = Position(pos: nat, seclen: nat)

  /**
   * The coordinates that a search sees of a list of differences; with section sizes saved the last one is the length.
   */
  function Seen(gaps: seq<value>, save: bool): seq<Position> {
    var ps := RunningSums(0, gaps);
    if save && ps != [] then seq(|ps| - 1, i requires 0 <= i < |ps| - 1 => Position(ps[i], ps[|ps| - 1]))
    else seq(|ps|, i requires 0 <= i < |ps| => Position(ps[i], 0))
  }

  /**
   * What is seen are the positions that a row shows of the same codes; with lengths saved the last one is not shown but
   * stands as length beside every other one.
   */
  lemma SeenIsShown(gaps: seq<value>, save: bool)
    requires gaps != []
    ensures var seen, n := Seen(gaps, save), |gaps| - if save then 1 else 0;
            && |seen| == n && (|gaps| > 1 ==> n == Shown(Posting(0, gaps), save))
            && (forall i :: 0 <= i < n ==> seen[i].pos == Sum(gaps[..i + 1]))
            && (forall i :: 0 <= i < n ==> seen[i].seclen == if save then Sum(gaps) else 0)
  {
    hide RunningSums;
    forall i | 0 <= i < |gaps| ensures RunningSums(0, gaps)[i] == Sum(gaps[..i + 1]) { RunningSumsAt(0, gaps, i); }
    assert gaps[..|gaps|] == gaps;
  }

  /** UdmCoordListMultiUnpack on a new list. */
  method Unpack(intag: seq<byte>, save: bool, ghost gaps: seq<value>) returns (coords: seq<Position>)
    requires intag == Codes(gaps) && (save ==> intag != [])
    ensures coords == Seen(gaps, save)
  {
    coords := UnpackAll(intag, gaps);
    if save {
      ghost var all := coords;
      var seclen := coords[|coords| - 1].pos;
      coords := coords[..|coords| - 1];
      for i := 0 to |coords|
        invariant |coords| == |all| - 1
        invariant forall k :: 0 <= k < |coords| ==> coords[k] == Position(all[k].pos, if k < i then seclen else 0)
      {
        coords := coords[i := coords[i].(seclen := seclen)];
      }
    }
  }

  method UnpackAll(intag: seq<byte>, ghost gaps: seq<value>) returns (coords: seq<Position>)
    requires intag == Codes(gaps)
    ensures coords == Seen(gaps, false)
  {
    hide Put, Get, Decode, Codes, RunningSums;
    coords := [];
    var s: nat, e: nat, last: nat, crd: nat := 0, |intag|, 0, 0;
    ghost var rest, done := gaps, [];
    assert intag[0..e] == intag && [] + RunningSums(0, gaps) == RunningSums(0, gaps);
    while e > s
      invariant s <= e && Codes(rest) <= intag[s..e] && s + |Codes(rest)| == e
      invariant done + RunningSums(last, rest) == RunningSums(0, gaps) && |coords| == |done|
      invariant forall k :: 0 <= k < |done| ==> coords[k] == Position(done[k], 0)
      decreases e - s
    {
      CodesNone(rest);
      ScanStep(crd, rest, intag, s, e);
      SumsStep(last, rest, done);
      var got := Get(crd, intag, s, e);
      if got.nbytes == 0 { break; }
      crd := got.value;
      last := last + crd;
      coords := coords + [Position(last, 0)];
      done, rest := done + [last], rest[1..];
      s := s + got.nbytes;
    }
    CodesNone(rest);
    assert done + [] == done;
  }

  lemma CodesNone(gaps: seq<value>)
    ensures gaps == [] <==> Codes(gaps) == []
    ensures gaps == [] ==> forall last: nat :: RunningSums(last, gaps) == []
  {
  }

  lemma SumsStep(last: nat, gaps: seq<value>, done: seq<nat>)
    requires gaps != []
    ensures done + RunningSums(last, gaps) == done + [last + gaps[0]] + RunningSums(last + gaps[0], gaps[1..])
  {
    Assoc(done, [last + gaps[0]], RunningSums(last + gaps[0], gaps[1..]));
  }

  /** What strlen leaves of a buffer that is followed by a zero byte. */
  function CString(b: seq<byte>): seq<byte> { if b == [] || b[0] == 0 then [] else [b[0]] + CString(b[1..]) }

  function BeforeZero(gaps: seq<value>): seq<value> {
    if gaps == [] || gaps[0] == 0 then [] else [gaps[0]] + BeforeZero(gaps[1..])
  }

  lemma {:induction false} CStringPrefix(a: seq<byte>, b: seq<byte>)
    requires 0 !in a
    ensures CString(a + b) == a + CString(b)
  {
    if a == [] {
      assert a + b == b;
    } else {
      CStringPrefix(a[1..], b);
      assert (a + b)[1..] == a[1..] + b;
      assert [a[0]] + (a[1..] + CString(b)) == a + CString(b);
    }
  }

  /** A zero difference is coded as a zero byte, and only it is. */
  lemma {:induction false} CStringOfCodes(gaps: seq<value>)
    ensures CString(Codes(gaps)) == Codes(BeforeZero(gaps))
  {
    if gaps == [] {
    } else {
      if gaps[0] == 0 {
        assert Codes(gaps)[0] == 0;
      } else {
        PutIsRfc3629(gaps[0]);
        hide Put;
        CStringOfCodes(gaps[1..]);
        CStringPrefix(Put(gaps[0]), Codes(gaps[1..]));
        CodesCons(BeforeZero(gaps));
      }
    }
  }

  lemma {:induction false} DifferencesSumUp(last: nat, xs: seq<nat>)
    requires Ascends(last, xs)
    ensures RunningSums(last, Differences(last, xs)) == xs
    decreases |xs|
  {
    if xs == [] {
    } else {
      DifferencesSumUp(xs[0], xs[1..]);
      assert xs == [xs[0]] + xs[1..];
    }
  }

  /** Up to the first repeated position the list is read back. */
  lemma {:induction false} ReadBackIff(last: nat, xs: seq<nat>)
    requires Ascends(last, xs)
    ensures RunningSums(last, BeforeZero(Differences(last, xs))) == xs <==> Strict(last, xs)
    ensures RunningSums(last, BeforeZero(Differences(last, xs))) <= xs
    decreases |xs|
  {
    if xs != [] && xs[0] > last {
      ReadBackIff(xs[0], xs[1..]);
      var r := RunningSums(xs[0], BeforeZero(Differences(xs[0], xs[1..])));
      assert RunningSums(last, BeforeZero(Differences(last, xs))) == [xs[0]] + r by {
        assert BeforeZero(Differences(last, xs)) == [xs[0] - last] + BeforeZero(Differences(xs[0], xs[1..]));
      }
      assert ([xs[0]] + r)[1..] == r;
      assert xs == [xs[0]] + xs[1..];
    }
  }

  /** A packed list that is cut at its first zero byte is read back if and only if no position is zero or repeated. */
  lemma PackedIsReadBackIff(xs: seq<nat>) returns (gaps: seq<value>)
    requires Ascends(0, xs)
    ensures CString(Codes(Differences(0, xs))) == Codes(gaps)
    ensures RunningSums(0, gaps) == xs <==> Strict(0, xs)
    ensures RunningSums(0, gaps) <= xs
  {
    gaps := BeforeZero(Differences(0, xs));
    CStringOfCodes(Differences(0, xs));
    ReadBackIff(0, xs);
  }
}

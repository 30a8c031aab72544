/**
 * The last position stored for a section is its length: markers are squeezed out in place (dbmode-single.c:380-411).
 */
module SectionLength {
  import opened Seqs
  import opened Phrase

  function WithLength(run: seq<Crd>, len: nat): (r: seq<Crd>)
    ensures |r| == |run| && forall i :: 0 <= i < |r| ==> r[i] == run[i].(seclen := len)
  {
    seq(|run|, i requires 0 <= i < |run| => run[i].(seclen := len))
  }

  /**
   * From entry i on: of every run of a url and section all entries but the last, with the last one's position as
   * length.
   */
  function Compact(s: seq<Crd>, i: nat): seq<Crd>
    requires i <= |s|
    decreases |s| - i
  {
    if i == |s| then []
    else
      var e := RunEnd(s, i, i + 1);
      WithLength(s[i..e - 1], s[e - 1].pos) + Compact(s, e)
  }

  /** The loop of UdmFindWordSingle that turns end markers into section lengths. */
  method CompactLengths(a: array<Crd>, ncoords: nat) returns (n: nat)
    requires 0 < ncoords <= a.Length
    modifies a
    ensures n <= ncoords && a[..n] == Compact(old(a[..ncoords]), 0)
  {
    ghost var s := a[..ncoords];
    ghost var done;
    n, done := CompactLoop(a, ncoords, s);
    CompactNone(s);
    AllDone(a, done, s, n);
  }

  /** What is done and what the rest of the list gives are the result together. */
  ghost predicate Completes(done: seq<Crd>, s: seq<Crd>, i: nat) { i <= |s| && done + Compact(s, i) == Compact(s, 0) }

  lemma Starts(s: seq<Crd>)
    ensures Completes([], s, 0)
  {
  }

  method CompactLoop(a: array<Crd>, ncoords: nat, ghost s: seq<Crd>) returns (n: nat, ghost done: seq<Crd>)
    requires 0 < ncoords == |s| <= a.Length && forall j :: 0 <= j < ncoords ==> a[j] == s[j]
    modifies a
    ensures n == |done| <= ncoords && Completes(done, s, |s|) && Holds(a, done, s, |s|, |s|)
  {
    hide Completes, Holds;
    ghost var i := 0;
    done := [];
    var crd, to, prev := 0, 0, 0;
    var prevUrl, prevSecno := a[0].url, a[0].secno;
    Starts(s);
    NothingYet(a, s);
    while crd < ncoords
      invariant i <= crd <= ncoords && prev <= to <= crd && |done| == prev && to - prev == crd - i
      invariant Holds(a, done, s, i, crd)
      invariant forall j :: to <= j < ncoords ==> a[j] == s[j]
      invariant crd < ncoords ==> prevUrl == s[i].url && prevSecno == s[i].secno && SameSection(s[crd], s[i])
      invariant forall j :: i <= j < crd ==> SameSection(s[j], s[i])
      invariant Completes(done, s, i) && (crd == ncoords ==> i == ncoords)
    {
      var next := crd + 1;
      if next == ncoords || a[next].url != prevUrl || a[next].secno != prevSecno {
        done := CloseRun(a, prev, to, crd, s, i, done);
        prev := to;
        i := next;
        if next < ncoords { prevUrl, prevSecno := a[next].url, a[next].secno; }
      } else {
        Keep(a, to, crd, s, i, done);
        to := to + 1;
      }
      crd := next;
    }
    n := to;
  }

  /** The list holds what is done, and behind it the entries i up to crd. */
  ghost predicate Holds(a: array<Crd>, done: seq<Crd>, s: seq<Crd>, i: nat, crd: nat)
    reads a
  {
    && i <= crd <= |s| && |done| + (crd - i) <= a.Length
    && (forall j :: 0 <= j < |done| ==> a[j] == done[j])
    && (forall j :: |done| <= j < |done| + (crd - i) ==> a[j] == s[i + (j - |done|)])
  }

  lemma NothingYet(a: array<Crd>, s: seq<Crd>)
    ensures Holds(a, [], s, 0, 0)
  {
  }

  lemma AllDone(a: array<Crd>, done: seq<Crd>, s: seq<Crd>, n: nat)
    requires Holds(a, done, s, |s|, |s|) && n == |done|
    ensures n <= a.Length && a[..n] == done
  {
  }

  /** The entries of a finished run get their length. */
  method CloseRun(a: array<Crd>, prev: nat, to: nat, crd: nat, ghost s: seq<Crd>, ghost i: nat, ghost done: seq<Crd>)
    returns (ghost done': seq<Crd>)
    requires i <= crd < |s| <= a.Length && |done| == prev && to - prev == crd - i && prev <= to <= crd
    requires Holds(a, done, s, i, crd) && a[crd] == s[crd] && Completes(done, s, i)
    requires forall j :: i <= j <= crd ==> SameSection(s[j], s[i])
    requires crd + 1 < |s| ==> !SameSection(s[crd + 1], s[i])
    modifies a
    ensures |done'| == to && Holds(a, done', s, crd + 1, crd + 1) && Completes(done', s, crd + 1)
    ensures forall j :: to <= j < a.Length ==> a[j] == old(a[j])
  {
    hide RunEnd, Compact;
    SetLengths(a, prev, to, a[crd].pos);
    ghost var run := WithLength(s[i..crd], s[crd].pos);
    done' := done + run;
    forall j | prev <= j < to ensures a[j] == run[j - prev] {
      assert s[i..crd][j - prev] == s[i + (j - prev)];
    }
    RunEndIs(s, i, i + 1, crd + 1);
    RunStep(s, i, crd + 1, done);
  }

  /** An entry that is not the last of its run is kept. */
  method Keep(a: array<Crd>, to: nat, crd: nat, ghost s: seq<Crd>, ghost i: nat, ghost done: seq<Crd>)
    requires i <= crd < |s| <= a.Length && to == |done| + (crd - i) <= crd && Holds(a, done, s, i, crd)
        && a[crd] == s[crd]
    modifies a
    ensures Holds(a, done, s, i, crd + 1) && forall j :: to < j < a.Length ==> a[j] == old(a[j])
  {
    a[to] := a[crd];
  }

  method SetLengths(a: array<Crd>, from: nat, to: nat, len: nat)
    requires from <= to <= a.Length
    modifies a
    ensures forall j :: from <= j < to ==> a[j] == old(a[j]).(seclen := len)
    ensures forall j :: 0 <= j < a.Length && !(from <= j < to) ==> a[j] == old(a[j])
  {
    var prev := from;
    while prev < to
      invariant from <= prev <= to
      invariant forall j :: from <= j < prev ==> a[j] == old(a[j]).(seclen := len)
      invariant forall j :: 0 <= j < a.Length && !(from <= j < prev) ==> a[j] == old(a[j])
    {
      a[prev] := a[prev].(seclen := len);
      prev := prev + 1;
    }
  }

  lemma RunStep(s: seq<Crd>, i: nat, e: nat, done: seq<Crd>)
    requires i < e <= |s| && RunEnd(s, i, i + 1) == e
    ensures done + WithLength(s[i..e - 1], s[e - 1].pos) + Compact(s, e) == done + Compact(s, i)
  {
    hide WithLength;
    Assoc(done, WithLength(s[i..e - 1], s[e - 1].pos), Compact(s, e));
  }

  lemma CompactNone(s: seq<Crd>)
    ensures Compact(s, |s|) == []
  {
  }

  // ---------- What the result is ----------

  /** Sorted by url and section: entries of one section are neighbours. */
  ghost predicate Grouped(s: seq<Crd>) {
    forall i, j, k :: 0 <= i < j < k < |s| && SameSection(s[i], s[k]) ==> SameSection(s[i], s[j])
  }

  /** l is the last entry of the section of entry j. */
  ghost predicate LastOf(s: seq<Crd>, j: nat, l: nat) {
    j <= l < |s| && SameSection(s[j], s[l]) && forall k :: l < k < |s| ==> !SameSection(s[j], s[k])
  }

  ghost predicate Remaining(s: seq<Crd>, i: nat, c: Crd, j: nat, l: nat) {
    i <= j < l && LastOf(s, j, l) && c == s[j].(seclen := s[l].pos)
  }

  /**
   * Exactly the last entry of every section goes, and every other entry gets its position as length.
   */
  lemma {:induction false} CompactedAre(s: seq<Crd>, i: nat, c: Crd)
    requires Grouped(s) && i <= |s| && (0 < i < |s| ==> !SameSection(s[i - 1], s[i]))
    ensures c in Compact(s, i) <==> exists j: nat, l: nat :: Remaining(s, i, c, j, l)
    decreases |s| - i
  {
    hide Grouped, WithLength, RunEnd;
    if i < |s| {
      var e := RunEnd(s, i, i + 1);
      assert SameSection(s[e - 1], s[i]);
      CompactedAre(s, e, c);
      RunRemains(s, i, e, c);
      if j: nat, l: nat :| Remaining(s, i, c, j, l) && j >= e { assert Remaining(s, e, c, j, l); }
      if j: nat, l: nat :| Remaining(s, e, c, j, l) { assert Remaining(s, i, c, j, l); }
    }
  }

  /** Of the run from i to e exactly the entries before the last one remain. */
  lemma RunRemains(s: seq<Crd>, i: nat, e: nat, c: Crd)
    requires Grouped(s) && i < e <= |s| && e == RunEnd(s, i, i + 1)
    ensures c in WithLength(s[i..e - 1], s[e - 1].pos) <==> exists j: nat, l: nat :: Remaining(s, i, c, j, l) && j < e
  {
    hide Grouped;
    var run := WithLength(s[i..e - 1], s[e - 1].pos);
    if c in run {
      var k: nat :| k < |run| && run[k] == c;
      RunIsSection(s, i, e, i + k, e - 1);
      assert Remaining(s, i, c, i + k, e - 1);
    }
    if j: nat, l: nat :| Remaining(s, i, c, j, l) && j < e {
      RunIsSection(s, i, e, j, l);
      assert run[j - i] == c;
    }
  }

  /** Where entries of one section are neighbours, a run is a whole section. */
  lemma RunIsSection(s: seq<Crd>, i: nat, e: nat, j: nat, l: nat)
    requires Grouped(s) && i <= j < e <= |s| && e == RunEnd(s, i, i + 1)
    ensures LastOf(s, j, l) <==> l == e - 1
  {
    forall k | e <= k < |s| ensures !SameSection(s[j], s[k]) {
      if k > e { assert !SameSection(s[i], s[e]); }
    }
    assert SameSection(s[e - 1], s[i]);
    assert e - 1 > l >= 0 ==> !LastOf(s, j, l);
  }

  /** A document section as it is stored: positions, then the section length as one more position. */
  datatype Stored = Stored(url: nat, secno: nat, num: nat, positions: seq<nat>, length: nat)
  {
    function Entries(len: nat): (r: seq<Crd>)
      ensures |r| == |positions| && forall i :: 0 <= i < |r| ==> r[i] == Crd(url, len, positions[i], num, secno)
    {
      seq(|positions|, i requires 0 <= i < |positions| => Crd(url, len, positions[i], num, secno))
    }

    function Marked(): (r: seq<Crd>)
      ensures |r| == |positions| + 1
      ensures forall i :: 0 <= i < |r| ==> r[i].url == url && r[i].secno == secno
    {
      Entries(0) + [Crd(url, 0, length, num, secno)]
    }
  }

  function AllMarked(xs: seq<Stored>): seq<Crd> { if xs == [] then [] else xs[0].Marked() + AllMarked(xs[1..]) }

  function AllEntries(xs: seq<Stored>): seq<Crd> {
    if xs == [] then [] else xs[0].Entries(xs[0].length) + AllEntries(xs[1..])
  }

  /** Neighbouring stored sections are different ones. */
  ghost predicate OnePerSection(xs: seq<Stored>) {
    forall i :: 0 < i < |xs| ==> xs[i - 1].url != xs[i].url || xs[i - 1].secno != xs[i].secno
  }

  /** Reading back what was stored: the positions, each with the length of its section. */
  lemma {:induction false} CompactInvertsMarking(xs: seq<Stored>, s: seq<Crd>, i: nat)
    requires OnePerSection(xs) && i <= |s| && s[i..] == AllMarked(xs)
    ensures Compact(s, i) == AllEntries(xs)
    decreases |xs|
  {
    hide AllMarked, AllEntries, Compact, WithLength, RunEnd;
    MarkedStep(xs);
    if xs == [] {
      CompactNone(s);
    } else {
      var x, rest := xs[0], xs[1..];
      Suffix(x.Marked(), AllMarked(rest), s, i);
      assert forall k :: 0 < k < |rest| ==> rest[k] == xs[k + 1] && rest[k - 1] == xs[k];
      CompactInvertsMarking(rest, s, i + |x.Marked()|);
      StoredRun(x, rest, s, i);
      RunStep(s, i, i + |x.Marked()|, []);
      assert [] + Compact(s, i) == Compact(s, i);
      assert [] + x.Entries(x.length) == x.Entries(x.length);
    }
  }

  lemma MarkedStep(xs: seq<Stored>)
    ensures AllMarked(xs) == if xs == [] then [] else xs[0].Marked() + AllMarked(xs[1..])
    ensures AllEntries(xs) == if xs == [] then [] else xs[0].Entries(xs[0].length) + AllEntries(xs[1..])
  {
  }

  lemma StoredRun(x: Stored, rest: seq<Stored>, s: seq<Crd>, i: nat)
    requires i + |x.Marked()| <= |s| && x.Marked() <= s[i..] && s[i + |x.Marked()|..] == AllMarked(rest)
    requires rest != [] ==> x.url != rest[0].url || x.secno != rest[0].secno
    ensures var e := i + |x.Marked()|;
            RunEnd(s, i, i + 1) == e && WithLength(s[i..e - 1], s[e - 1].pos) == x.Entries(x.length)
  {
    var m := x.Marked();
    var e := i + |m|;
    forall k | 0 <= k < |m| ensures s[i + k] == m[k] { assert s[i..][k] == m[k]; }
    if e < |s| {
      assert s[e] == AllMarked(rest)[0];
      assert rest != [] && s[e] == rest[0].Marked()[0];
    }
    forall k | i <= k < e ensures SameSection(s[k], s[i]) { assert s[k] == m[k - i]; }
    RunEndIs(s, i, i + 1, e);
    forall k | 0 <= k < |x.positions| ensures s[i..e - 1][k].(seclen := x.length) == x.Entries(x.length)[k] {
      assert s[i + k] == m[k];
    }
    assert s[e - 1] == m[|m| - 1];
  }
}

/** Coordinates of multi-word phrases, merged in place (coords.c:28-245). */
module Phrase {
  import opened Seqs

  /** UDM_URL_CRD. */
  datatype Crd = Crd(url: nat, seclen: nat, pos: nat, num: nat, secno: nat)

  /** A coordinate without its section length, which the merge leaves as it finds it. */
  datatype Place = Place(url: nat, secno: nat, pos: nat, num: nat)

  function Strip(c: Crd): Place { Place(c.url, c.secno, c.pos, c.num) }

  function StripAll(s: seq<Crd>): (r: seq<Place>)
    ensures |r| == |s| && forall i :: 0 <= i < |s| ==> r[i] == Strip(s[i])
  {
    seq(|s|, i requires 0 <= i < |s| => Strip(s[i]))
  }

  /** cmpurlid < 0. */
  predicate Before(a: Place, b: Place) {
    a.url < b.url || (a.url == b.url && (a.secno < b.secno || (a.secno == b.secno && a.pos < b.pos)))
  }

  predicate SameSpot(a: Place, b: Place) { a.url == b.url && a.secno == b.secno && a.pos == b.pos }

  ghost predicate Sorted(s: seq<Place>) {
    forall i, j :: 0 <= i < j < |s| ==> Before(s[i], s[j]) || SameSpot(s[i], s[j])
  }

  ghost predicate StrictlySorted(s: seq<Place>) { forall i, j :: 0 <= i < j < |s| ==> Before(s[i], s[j]) }

  // ---------- The merge ----------

  /** The entry i places before f is the part i places before f's part. */
  predicate PartAt(s: seq<Place>, f: nat, i: nat)
    requires i <= f < |s|
  {
    s[f - i].url == s[f].url && s[f - i].secno == s[f].secno && s[f - i].pos == s[f].pos - i
      && s[f - i].num == s[f].num - i
  }

  /** The n entries up to f are the parts of one occurrence of the phrase. */
  predicate MatchAt(s: seq<Place>, f: nat, n: nat)
    requires 1 <= n <= f + 1 && f < |s|
  {
    forall i: nat :: 1 <= i < n ==> PartAt(s, f, i)
  }

  function Start(p: Place, wordnum: nat): Place { p.(num := wordnum) }

  /** The starts of the occurrences that end before entry f. */
  function Starts(s: seq<Place>, n: nat, wordnum: nat, f: nat): (r: seq<Place>)
    requires n >= 2 && f <= |s|
    ensures |r| <= if f < n then 0 else f - n + 1
  {
    if f < n then []
    else
      var rest := Starts(s, n, wordnum, f - 1);
      if MatchAt(s, f - 1, n) then rest + [Start(s[f - n], wordnum)] else rest
  }

  lemma NoStarts(s: seq<Place>, n: nat, wordnum: nat)
    requires 2 <= n <= |s|
    ensures Starts(s, n, wordnum, n - 1) == []
  {
  }

  lemma NextStart(s: seq<Place>, n: nat, wordnum: nat, f: nat)
    requires n >= 2 && n - 1 <= f < |s|
    ensures Starts(s, n, wordnum, f + 1) ==
              Starts(s, n, wordnum, f) + if MatchAt(s, f, n) then [Start(s[f + 1 - n], wordnum)] else []
  {
  }

  /** UdmURLCRDListMergeMultiWord. */
  method MergeMultiWord(a: array<Crd>, ncoords: nat, wordnum: nat, nparts: nat) returns (n: nat)
    requires ncoords <= a.Length
    modifies a
    ensures nparts < 2 ==> n == ncoords && a[..] == old(a[..])
    ensures nparts >= 2 ==>
        n <= ncoords && StripAll(a[..n]) == Starts(StripAll(old(a[..ncoords])), nparts, wordnum, ncoords)
    ensures a[n..] == old(a[n..])
  {
    if nparts < 2 { return ncoords; }
    if ncoords < nparts { return 0; }
    ghost var s := StripAll(a[..ncoords]);
    ghost var out;
    n, out := MergeLoop(a, ncoords, wordnum, nparts, s);
    assert StripAll(a[..n]) == out;
  }

  method MergeLoop(a: array<Crd>, ncoords: nat, wordnum: nat, nparts: nat, ghost s: seq<Place>)
    returns (n: nat, ghost out: seq<Place>)
    requires 2 <= nparts <= ncoords == |s| <= a.Length && forall j :: 0 <= j < ncoords ==> Strip(a[j]) == s[j]
    modifies a
    ensures n == |out| <= ncoords && out == Starts(s, nparts, wordnum, ncoords)
    ensures forall j :: 0 <= j < n ==> Strip(a[j]) == out[j]
    ensures forall j :: n <= j < a.Length ==> a[j] == old(a[j])
  {
    hide MatchAt, Starts;
    n, out := 0, [];
    NoStarts(s, nparts, wordnum);
    var from := nparts - 1;
    while from < ncoords
      invariant nparts - 1 <= from <= ncoords && n == |out| <= from - (nparts - 1)
      invariant forall j :: n <= j < a.Length ==> a[j] == old(a[j])
      invariant forall j :: 0 <= j < n ==> Strip(a[j]) == out[j]
      invariant out == Starts(s, nparts, wordnum, from)
    {
      var found := Matches(a, from, nparts, s);
      NextStart(s, nparts, wordnum, from);
      if found {
        WriteStart(a, n, from, nparts, wordnum, s);
        out := out + [Start(s[from + 1 - nparts], wordnum)];
        n := n + 1;
      }
      from := from + 1;
    }
  }

  /** Entry n becomes the start of the match that ends at entry from; its section length stays. */
  method WriteStart(a: array<Crd>, n: nat, from: nat, nparts: nat, wordnum: nat, ghost s: seq<Place>)
    requires nparts >= 2 && nparts - 1 <= from < |s| <= a.Length && n <= from - (nparts - 1)
    requires Strip(a[from]) == s[from] && MatchAt(s, from, nparts)
    modifies a
    ensures forall j :: 0 <= j < a.Length && j != n ==> a[j] == old(a[j])
    ensures Strip(a[n]) == Start(s[from + 1 - nparts], wordnum)
  {
    assert PartAt(s, from, nparts - 1);
    a[n] := a[n].(url := a[from].url, pos := a[from].pos - nparts + 1, secno := a[from].secno, num := wordnum);
  }

  /** The tests of one step; none of the entries it reads has been overwritten. */
  method Matches(a: array<Crd>, from: nat, nparts: nat, ghost s: seq<Place>) returns (m: bool)
    requires nparts >= 2 && nparts - 1 <= from < |s| <= a.Length
    requires forall j :: from - (nparts - 1) <= j <= from ==> Strip(a[j]) == s[j]
    ensures m == MatchAt(s, from, nparts)
  {
    m := false;
    if a[from - 1].url == a[from].url {
      if a[from].pos == a[from - 1].pos + 1 && a[from].secno == a[from - 1].secno
          && a[from].num == a[from - 1].num + 1 {
        assert PartAt(s, from, 1);
        var i := 2;
        while i < nparts
          invariant 2 <= i <= nparts && forall k: nat :: 1 <= k < i ==> PartAt(s, from, k)
        {
          if a[from - i].url != a[from].url || a[from - i].secno != a[from].secno
              || a[from - i].pos != a[from].pos - i ||
             a[from - i].num != a[from].num - i
          {
            assert !PartAt(s, from, i);
            return;
          }
          i := i + 1;
        }
        m := true;
      } else {
        assert !PartAt(s, from, 1);
      }
    } else {
      assert !PartAt(s, from, 1);
    }
  }

  // ---------- What the starts are ----------

  /** Every start comes from one match, and they come in the order of the matches. */
  lemma {:induction false} StartComes(s: seq<Place>, n: nat, wordnum: nat, f: nat, k: nat) returns (g: nat)
    requires n >= 2 && f <= |s| && k < |Starts(s, n, wordnum, f)|
    ensures n <= g <= f && MatchAt(s, g - 1, n) && Starts(s, n, wordnum, f)[k] == Start(s[g - n], wordnum)
    ensures k == |Starts(s, n, wordnum, g)| - 1
  {
    hide MatchAt;
    var rest := Starts(s, n, wordnum, f - 1);
    if k < |rest| {
      g := StartComes(s, n, wordnum, f - 1, k);
    } else {
      g := f;
    }
  }

  lemma {:induction false} StartsGrow(s: seq<Place>, n: nat, wordnum: nat, g: nat, f: nat)
    requires n >= 2 && g <= f <= |s|
    ensures Starts(s, n, wordnum, g) <= Starts(s, n, wordnum, f)
  {
    if g < f { StartsGrow(s, n, wordnum, g, f - 1); }
  }

  lemma MatchHasStart(s: seq<Place>, n: nat, wordnum: nat, g: nat)
    requires n >= 2 && n <= g <= |s| && MatchAt(s, g - 1, n)
    ensures Start(s[g - n], wordnum) in Starts(s, n, wordnum, |s|)
  {
    StartsGrow(s, n, wordnum, g, |s|);
    var r := Starts(s, n, wordnum, g);
    assert r[|r| - 1] == Starts(s, n, wordnum, |s|)[|r| - 1];
  }

  /** The result is sorted as the list was. */
  lemma StartsSorted(s: seq<Place>, n: nat, wordnum: nat)
    requires n >= 2 && Sorted(s)
    ensures Sorted(Starts(s, n, wordnum, |s|))
    ensures StrictlySorted(s) ==> StrictlySorted(Starts(s, n, wordnum, |s|))
  {
    var r := Starts(s, n, wordnum, |s|);
    forall i, j | 0 <= i < j < |r|
      ensures Before(r[i], r[j]) || SameSpot(r[i], r[j])
      ensures StrictlySorted(s) ==> Before(r[i], r[j])
    {
      var g := StartComes(s, n, wordnum, |s|, i);
      var h := StartComes(s, n, wordnum, |s|, j);
      if h <= g { StartsGrow(s, n, wordnum, h, g); }
      assert s[g - n] in s && s[h - n] in s;
    }
  }

  /** Part first + i of the phrase stands at position p + i. */
  predicate Stands(s: seq<Place>, first: nat, u: nat, sec: nat, p: nat, i: nat) { Place(u, sec, p + i, first + i) in s }

  ghost predicate Occurs(s: seq<Place>, n: nat, first: nat, u: nat, sec: nat, p: nat) {
    forall i: nat :: i < n ==> Stands(s, first, u, sec, p, i)
  }

  // ---------- Which occurrences are reported ----------

  predicate PartIs(s: seq<Place>, first: nat, u: nat, sec: nat, p: nat, j: nat, i: nat)
    requires j + i < |s|
  {
    s[j + i] == Place(u, sec, p + i, first + i)
  }

  /** From entry j on the parts follow one another, with nothing between them. */
  ghost predicate Together(s: seq<Place>, n: nat, first: nat, u: nat, sec: nat, p: nat, j: nat) {
    j + n <= |s| && forall i: nat :: i < n ==> PartIs(s, first, u, sec, p, j, i)
  }

  /** What is reported of any list, sorted or not: the runs of neighbouring entries that are the parts in order. */
  lemma ReportedIff(s: seq<Place>, n: nat, wordnum: nat, first: nat, u: nat, sec: nat, p: nat)
    requires n >= 2 && forall i :: 0 <= i < |s| ==> first <= s[i].num < first + n
    ensures Place(u, sec, p, wordnum) in Starts(s, n, wordnum, |s|) <==>
              exists j: nat :: Together(s, n, first, u, sec, p, j)
  {
    hide Starts;
    if Place(u, sec, p, wordnum) in Starts(s, n, wordnum, |s|) {
      var k: nat :| k < |Starts(s, n, wordnum, |s|)| && Starts(s, n, wordnum, |s|)[k] == Place(u, sec, p, wordnum);
      var g := StartComes(s, n, wordnum, |s|, k);
      var j: nat := g - n;
      assert PartAt(s, g - 1, n - 1);
      assert s[j].num == first;
      forall i: nat | i < n ensures PartIs(s, first, u, sec, p, j, i) {
        if i < n - 1 { assert PartAt(s, g - 1, n - 1 - i); }
      }
      assert Together(s, n, first, u, sec, p, j);
    }
    if exists j: nat :: Together(s, n, first, u, sec, p, j) {
      var j: nat :| Together(s, n, first, u, sec, p, j);
      TogetherMatches(s, n, first, u, sec, p, j);
      MatchHasStart(s, n, wordnum, j + n);
    }
  }

  lemma TogetherMatches(s: seq<Place>, n: nat, first: nat, u: nat, sec: nat, p: nat, j: nat)
    requires n >= 2 && Together(s, n, first, u, sec, p, j)
    ensures MatchAt(s, j + n - 1, n) && s[j] == Place(u, sec, p, first)
  {
    var f := j + n - 1;
    assert PartIs(s, first, u, sec, p, j, 0) && PartIs(s, first, u, sec, p, j, n - 1);
    forall i: nat | 1 <= i < n ensures PartAt(s, f, i) { assert PartIs(s, first, u, sec, p, j, n - 1 - i); }
  }

  /** Between the first and the last part, which begin at entry j, there is room for the parts between them only. */
  predicate FirstAndLast(s: seq<Place>, n: nat, first: nat, u: nat, sec: nat, p: nat, j: nat)
    requires n >= 2
  {
    j + n <= |s| && s[j] == Place(u, sec, p, first) && s[j + n - 1] == Place(u, sec, p + n - 1, first + n - 1)
  }

  /** No other entry stands between the parts of the occurrence. */
  ghost predicate Undisturbed(s: seq<Place>, n: nat, first: nat, u: nat, sec: nat, p: nat)
    requires n >= 2
  {
    exists j: nat :: FirstAndLast(s, n, first, u, sec, p, j)
  }

  /** On a sorted list exactly the occurrences are reported between whose parts no other entry stands. */
  lemma SortedReportedIff(s: seq<Place>, n: nat, wordnum: nat, first: nat, u: nat, sec: nat, p: nat)
    requires n >= 2 && Sorted(s) && forall i :: 0 <= i < |s| ==> first <= s[i].num < first + n
    ensures Place(u, sec, p, wordnum) in Starts(s, n, wordnum, |s|) <==>
              Occurs(s, n, first, u, sec, p) && Undisturbed(s, n, first, u, sec, p)
  {
    hide Starts, Sorted;
    ReportedIff(s, n, wordnum, first, u, sec, p);
    if exists j: nat :: Together(s, n, first, u, sec, p, j) {
      var j: nat :| Together(s, n, first, u, sec, p, j);
      assert PartIs(s, first, u, sec, p, j, 0) && PartIs(s, first, u, sec, p, j, n - 1);
      assert FirstAndLast(s, n, first, u, sec, p, j);
      forall i: nat | i < n ensures Stands(s, first, u, sec, p, i) { assert PartIs(s, first, u, sec, p, j, i); }
    }
    if Occurs(s, n, first, u, sec, p) && Undisturbed(s, n, first, u, sec, p) {
      var j: nat :| FirstAndLast(s, n, first, u, sec, p, j);
      forall i: nat | i < n ensures PartIs(s, first, u, sec, p, j, i) {
        PartsFillTheRoom(s, n, first, u, sec, p, j, i);
      }
      assert Together(s, n, first, u, sec, p, j);
    }
  }

  /** All occurrences are reported if and only if no other entry stands between the parts of any. */
  lemma AllReportedIff(s: seq<Place>, n: nat, wordnum: nat, first: nat)
    requires n >= 2 && Sorted(s) && forall i :: 0 <= i < |s| ==> first <= s[i].num < first + n
    ensures (forall u: nat, sec: nat, p: nat :: Occurs(s, n, first, u, sec, p) ==>
               Place(u, sec, p, wordnum) in Starts(s, n, wordnum, |s|)) <==>
            (forall u: nat, sec: nat, p: nat :: Occurs(s, n, first, u, sec, p) ==> Undisturbed(s, n, first, u, sec, p))
  {
    hide Starts, Sorted, Occurs, Undisturbed;
    forall u: nat, sec: nat, p: nat
      ensures Place(u, sec, p, wordnum) in Starts(s, n, wordnum, |s|) <==>
                Occurs(s, n, first, u, sec, p) && Undisturbed(s, n, first, u, sec, p)
    {
      SortedReportedIff(s, n, wordnum, first, u, sec, p);
    }
  }

  lemma PartsFillTheRoom(s: seq<Place>, n: nat, first: nat, u: nat, sec: nat, p: nat, j: nat, i: nat)
    requires n >= 2 && Sorted(s) && Occurs(s, n, first, u, sec, p) && FirstAndLast(s, n, first, u, sec, p, j) && i < n
    ensures PartIs(s, first, u, sec, p, j, i)
  {
    if 0 < i < n - 1 {
      assert Stands(s, first, u, sec, p, i);
      var k: nat :| k < |s| && s[k] == Place(u, sec, p + i, first + i);
      NotBefore(s, n, first, u, sec, p, j, i, k);
      NotBehind(s, n, first, u, sec, p, j, i, k);
    }
  }

  lemma {:induction false} NotBefore(s: seq<Place>, n: nat, first: nat, u: nat, sec: nat, p: nat, j: nat, i: nat,
                                     k: nat)
    requires n >= 2 && Sorted(s) && Occurs(s, n, first, u, sec, p) && FirstAndLast(s, n, first, u, sec, p, j)
    requires 0 < i < n - 1 && k < |s| && s[k] == Place(u, sec, p + i, first + i)
    ensures j + i <= k
  {
    if i == 1 {
      Later(s, j, k);
    } else {
      assert Stands(s, first, u, sec, p, i - 1);
      var h: nat :| h < |s| && s[h] == Place(u, sec, p + (i - 1), first + (i - 1));
      Later(s, h, k);
      NotBefore(s, n, first, u, sec, p, j, i - 1, h);
    }
  }

  lemma {:induction false} NotBehind(s: seq<Place>, n: nat, first: nat, u: nat, sec: nat, p: nat, j: nat, i: nat,
                                     k: nat)
    requires n >= 2 && Sorted(s) && Occurs(s, n, first, u, sec, p) && FirstAndLast(s, n, first, u, sec, p, j)
    requires 0 < i < n - 1 && k < |s| && s[k] == Place(u, sec, p + i, first + i)
    ensures k <= j + i
    decreases n - i
  {
    if i == n - 2 {
      Later(s, k, j + n - 1);
    } else {
      assert Stands(s, first, u, sec, p, i + 1);
      var h: nat :| h < |s| && s[h] == Place(u, sec, p + (i + 1), first + (i + 1));
      Later(s, k, h);
      NotBehind(s, n, first, u, sec, p, j, i + 1, h);
    }
  }

  /** In a sorted list a larger position of the same section stands later. */
  lemma Later(s: seq<Place>, h: nat, k: nat)
    requires Sorted(s) && h < |s| && k < |s| && s[h].url == s[k].url && s[h].secno == s[k].secno && s[h].pos < s[k].pos
    ensures h < k
  {
  }

  /**
   * With parts numbered from first on and one entry per position, the result is exactly the set of
   * occurrences of the phrase.
   */
  lemma ResultIsOccurrences(s: seq<Place>, n: nat, wordnum: nat, first: nat, u: nat, sec: nat, p: nat)
    requires n >= 2 && StrictlySorted(s) && forall i :: 0 <= i < |s| ==> first <= s[i].num < first + n
    ensures Place(u, sec, p, wordnum) in Starts(s, n, wordnum, |s|) <==> Occurs(s, n, first, u, sec, p)
  {
    hide Starts, StrictlySorted, Sorted;
    assert Sorted(s) by { StrictIsSorted(s); }
    SortedReportedIff(s, n, wordnum, first, u, sec, p);
    if Occurs(s, n, first, u, sec, p) {
      assert Stands(s, first, u, sec, p, 0);
      var j: nat :| j < |s| && s[j] == Place(u, sec, p, first);
      OccurrenceIsAdjacent(s, n, first, u, sec, p, j, n - 1);
      assert FirstAndLast(s, n, first, u, sec, p, j);
    }
  }

  lemma StrictIsSorted(s: seq<Place>)
    requires StrictlySorted(s)
    ensures Sorted(s)
  {
  }

  /** Entries at consecutive positions are neighbours in a strictly sorted list. */
  lemma {:induction false} OccurrenceIsAdjacent(s: seq<Place>, n: nat, first: nat, u: nat, sec: nat, p: nat, j: nat,
                                                i: nat)
    requires StrictlySorted(s) && Occurs(s, n, first, u, sec, p) && j < |s| && s[j] == Place(u, sec, p, first) && i < n
    ensures j + i < |s| && s[j + i] == Place(u, sec, p + i, first + i)
  {
    if i == 0 {
    } else {
      OccurrenceIsAdjacent(s, n, first, u, sec, p, j, i - 1);
      assert Stands(s, first, u, sec, p, i);
      var k: nat :| k < |s| && s[k] == Place(u, sec, p + i, first + i);
      NothingBetween(s, j + i - 1, k);
    }
  }

  lemma NothingBetween(s: seq<Place>, j: nat, k: nat)
    requires StrictlySorted(s) && j < |s| && k < |s| && s[k].url == s[j].url && s[k].secno == s[j].secno
    requires s[k].pos == s[j].pos + 1
    ensures k == j + 1
  {
    assert j < k;
    if j + 1 < |s| { assert Before(s[j], s[j + 1]); }
  }

  /** With two parts at one position an occurrence can be missed: a phrase of a word and itself. */
  lemma RepeatedWordIsMissed() returns (s: seq<Place>)
    ensures Sorted(s) && Occurs(s, 2, 0, 1, 1, 1) && Starts(s, 2, 9, |s|) == []
  {
    s := [Place(1, 1, 1, 0), Place(1, 1, 1, 1), Place(1, 1, 2, 0), Place(1, 1, 2, 1)];
    assert s[0] == Place(1, 1, 1 + 0, 0 + 0) && s[3] == Place(1, 1, 1 + 1, 0 + 1);
    assert Stands(s, 0, 1, 1, 1, 0) && Stands(s, 0, 1, 1, 1, 1);
    assert !PartAt(s, 1, 1) && !PartAt(s, 2, 1) && !PartAt(s, 3, 1);
    assert Starts(s, 2, 9, 1) == [] && Starts(s, 2, 9, 2) == [] && Starts(s, 2, 9, 3) == [];
  }

  // ---------- Section lists ----------

  /** UDM_SECTION with its coordinates. */
  datatype Section = Section(url: nat, secno: nat, wordnum: nat, order: nat, seclen: nat, minpos: nat, maxpos: nat,
                             positions: seq<nat>)

  predicate SameSection(a: Crd, b: Crd) { a.url == b.url && a.secno == b.secno }

  /** The end of the run of entries of one url and section that starts at i. */
  function RunEnd(s: seq<Crd>, i: nat, j: nat): (e: nat)
    requires i < j <= |s|
    ensures j <= e <= |s| && (e < |s| ==> !SameSection(s[e], s[i]))
    ensures forall k :: j <= k < e ==> SameSection(s[k], s[i])
    decreases |s| - j
  {
    if j < |s| && SameSection(s[j], s[i]) then RunEnd(s, i, j + 1) else j
  }

  function Positions(s: seq<Crd>): (r: seq<nat>)
    ensures |r| == |s| && forall i :: 0 <= i < |s| ==> r[i] == s[i].pos
  {
    seq(|s|, i requires 0 <= i < |s| => s[i].pos)
  }

  function SectionOf(run: seq<Crd>, order: nat): Section
    requires run != []
  {
    Section(run[0].url, run[0].secno, run[0].num, order, run[0].seclen, run[0].pos, run[|run| - 1].pos, Positions(run))
  }

  function SectionsFrom(s: seq<Crd>, order: nat, i: nat): seq<Section>
    requires i <= |s|
    decreases |s| - i
  {
    if i == |s| then [] else [SectionOf(s[i..RunEnd(s, i, i + 1)], order)] + SectionsFrom(s, order, RunEnd(s, i, i + 1))
  }

  /** UdmURLCRDListToSectionList: one section for every run of a url and section. */
  method ToSectionList(a: array<Crd>, ncoords: nat, wordnum: nat, order: nat) returns (sections: seq<Section>)
    requires ncoords <= a.Length && forall i :: 0 <= i < ncoords ==> a[i].num == wordnum
    ensures sections == SectionsFrom(a[..ncoords], order, 0)
  {
    sections := [];
    var from := 0;
    ghost var s := a[..ncoords];
    while from < ncoords
      invariant from <= ncoords && sections + SectionsFrom(s, order, from) == SectionsFrom(s, order, 0)
    {
      var section, curr := NextSection(a, ncoords, from, order);
      assert sections + ([section] + SectionsFrom(s, order, curr)) ==
          sections + [section] + SectionsFrom(s, order, curr);
      sections := sections + [section];
      from := curr;
    }
    assert sections + [] == sections;
  }

  /** The section that starts at entry from, and where the next one starts. */
  method NextSection(a: array<Crd>, ncoords: nat, from: nat, order: nat) returns (section: Section, curr: nat)
    requires from < ncoords <= a.Length
    ensures curr == RunEnd(a[..ncoords], from, from + 1) && section == SectionOf(a[..ncoords][from..curr], order)
  {
    ghost var s := a[..ncoords];
    var positions, maxpos := [], a[from].pos;
    curr := from;
    while curr < ncoords && a[curr].url == a[from].url && a[curr].secno == a[from].secno
      invariant from <= curr <= ncoords && forall k :: from <= k < curr ==> SameSection(s[k], s[from])
      invariant |positions| == curr - from && (curr > from ==> maxpos == a[curr - 1].pos)
      invariant forall k :: 0 <= k < |positions| ==> positions[k] == s[from + k].pos
    {
      positions, maxpos := positions + [a[curr].pos], a[curr].pos;
      curr := curr + 1;
    }
    RunEndIs(s, from, from + 1, curr);
    assert positions == Positions(s[from..curr]);
    section := Section(a[from].url, a[from].secno, a[from].num, order, a[from].seclen, positions[0], maxpos, positions);
  }

  lemma {:induction false} RunEndIs(s: seq<Crd>, i: nat, j: nat, e: nat)
    requires i < j <= e <= |s| && (e < |s| ==> !SameSection(s[e], s[i])) && forall k :: i <= k < e ==>
        SameSection(s[k], s[i])
    ensures RunEnd(s, i, j) == e
    decreases e - j
  {
    if j < e { RunEndIs(s, i, j + 1, e); }
  }

  /** The coordinates that a section stands for. */
  function Coordinates(x: Section): (r: seq<Crd>)
    ensures |r| == |x.positions| && forall i :: 0 <= i < |r| ==>
        r[i] == Crd(x.url, x.seclen, x.positions[i], x.wordnum, x.secno)
  {
    seq(|x.positions|, i requires 0 <= i < |x.positions| => Crd(x.url, x.seclen, x.positions[i], x.wordnum, x.secno))
  }

  function AllCoordinates(xs: seq<Section>): seq<Crd> {
    if xs == [] then [] else AllCoordinates(xs[..|xs| - 1]) + Coordinates(xs[|xs| - 1])
  }

  /** UdmSectionListListToURLCRDList, for the sections of all lists one after another. */
  method ToCoords(sections: seq<Section>) returns (coords: seq<Crd>)
    ensures coords == AllCoordinates(sections)
  {
    coords := [];
    assert sections[..0] == [];
    for i := 0 to |sections|
      invariant coords == AllCoordinates(sections[..i])
    {
      var x := sections[i];
      ghost var before := coords;
      for k := 0 to |x.positions|
        invariant coords == before + Coordinates(x)[..k]
      {
        coords := coords + [Crd(x.url, x.seclen, x.positions[k], x.wordnum, x.secno)];
      }
      assert Coordinates(x)[..|x.positions|] == Coordinates(x);
      assert sections[..i + 1][..i] == sections[..i];
    }
    assert sections[..|sections|] == sections;
  }

  lemma {:induction false} AllCoordinatesCons(x: Section, xs: seq<Section>)
    ensures AllCoordinates([x] + xs) == Coordinates(x) + AllCoordinates(xs)
  {
    hide Coordinates, AllCoordinates;
    if xs == [] {
      assert [x] + xs == [] + [x];
      AllCoordinatesSnoc([], x);
      AllCoordinatesNone();
    } else {
      var init, last := xs[..|xs| - 1], xs[|xs| - 1];
      AllCoordinatesCons(x, init);
      assert xs == init + [last] && [x] + xs == [x] + init + [last];
      AllCoordinatesSnoc(init, last);
      AllCoordinatesSnoc([x] + init, last);
      Assoc(Coordinates(x), AllCoordinates(init), Coordinates(last));
    }
  }

  lemma AllCoordinatesSnoc(xs: seq<Section>, x: Section)
    ensures AllCoordinates(xs + [x]) == AllCoordinates(xs) + Coordinates(x)
  {
    hide Coordinates;
    assert (xs + [x])[..|xs|] == xs;
  }

  lemma AllCoordinatesNone()
    ensures AllCoordinates([]) == []
  {
  }

  /** All entries of a word, and of one section the same length. */
  ghost predicate Uniform(s: seq<Crd>, wordnum: nat) {
    && (forall i :: 0 <= i < |s| ==> s[i].num == wordnum)
    && (forall i, j :: 0 <= i < |s| && 0 <= j < |s| && SameSection(s[i], s[j]) ==> s[i].seclen == s[j].seclen)
  }

  lemma RunGivesBack(s: seq<Crd>, wordnum: nat, order: nat, i: nat, e: nat)
    requires Uniform(s, wordnum) && i < e <= |s| && forall k :: i < k < e ==> SameSection(s[k], s[i])
    ensures Coordinates(SectionOf(s[i..e], order)) == s[i..e]
  {
    var run := s[i..e];
    forall k | 0 <= k < |run|
      ensures run[k] == s[i + k] && SameSection(run[k], run[0]) && run[k].seclen == run[0].seclen
    {
    }
  }

  /** Grouping coordinates into sections and listing the coordinates of the sections gives them back. */
  lemma {:induction false} SectionsGiveBack(s: seq<Crd>, wordnum: nat, order: nat, i: nat)
    requires Uniform(s, wordnum) && i <= |s|
    ensures AllCoordinates(SectionsFrom(s, order, i)) == s[i..]
    decreases |s| - i
  {
    hide Uniform, Coordinates, SectionOf, AllCoordinates, RunEnd;
    if i < |s| {
      var e := RunEnd(s, i, i + 1);
      SectionsGiveBack(s, wordnum, order, e);
      AllCoordinatesCons(SectionOf(s[i..e], order), SectionsFrom(s, order, e));
      RunGivesBack(s, wordnum, order, i, e);
      SplitAt(s, i, e);
    } else {
      AllCoordinatesNone();
    }
  }

  lemma SplitAt(s: seq<Crd>, i: nat, e: nat)
    requires i <= e <= |s|
    ensures s[i..] == s[i..e] + s[e..]
  {
  }

  /** The section is that of the entries from a to e, which are all of its url and section around there. */
  ghost predicate TellsRun(x: Section, s: seq<Crd>, order: nat, a: nat, e: nat) {
    && a < e <= |s| && |x.positions| == e - a && x.order == order && x.seclen == s[a].seclen && x.wordnum == s[a].num
    && (forall k :: a <= k < e ==> s[k].url == x.url && s[k].secno == x.secno && s[k].pos == x.positions[k - a])
    && (e < |s| ==> s[e].url != x.url || s[e].secno != x.secno)
    && x.minpos in x.positions && x.maxpos in x.positions
    && ((forall k :: a < k < e ==> s[k - 1].pos <= s[k].pos) ==>
          forall k :: 0 <= k < |x.positions| ==> x.minpos <= x.positions[k] <= x.maxpos)
  }

  ghost predicate TellsSomeRun(x: Section, s: seq<Crd>, order: nat) { exists a, e :: TellsRun(x, s, order, a, e) }

  /**
   * Every section tells a run: its positions are those of the run's entries, and if these do not fall, the first and
   * last position it names are the smallest and the largest.
   */
  lemma {:induction false} SectionsTellRuns(s: seq<Crd>, order: nat, i: nat)
    requires i <= |s|
    ensures forall x :: x in SectionsFrom(s, order, i) ==> TellsSomeRun(x, s, order)
    decreases |s| - i
  {
    hide SectionOf, TellsRun, RunEnd;
    if i == |s| {
    } else {
      var e := RunEnd(s, i, i + 1);
      SectionsTellRuns(s, order, e);
      RunTells(s, order, i, e);
      assert TellsSomeRun(SectionOf(s[i..e], order), s, order);
    }
  }

  lemma RunTells(s: seq<Crd>, order: nat, a: nat, e: nat)
    requires a < e <= |s| && (e < |s| ==> !SameSection(s[e], s[a])) && forall k :: a < k < e ==> SameSection(s[k], s[a])
    ensures TellsRun(SectionOf(s[a..e], order), s, order, a, e)
  {
    var x := SectionOf(s[a..e], order);
    assert forall k :: a <= k < e ==> s[a..e][k - a] == s[k];
    assert x.positions[0] == x.minpos && x.positions[e - a - 1] == x.maxpos;
    if forall k :: a < k < e ==> s[k - 1].pos <= s[k].pos { NoFall(s, a, e); }
  }

  lemma {:induction false} NoFall(s: seq<Crd>, a: nat, e: nat)
    requires a < e <= |s| && forall k :: a < k < e ==> s[k - 1].pos <= s[k].pos
    ensures forall k :: a <= k < e ==> s[a].pos <= s[k].pos <= s[e - 1].pos
    decreases e
  {
    if e == a + 1 {
    } else {
      NoFall(s, a, e - 1);
      assert s[e - 2].pos <= s[e - 1].pos;
    }
  }
}

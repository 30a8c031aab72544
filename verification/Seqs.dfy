/** Facts about sequences that several proofs share. */
module Seqs {
  lemma PrefixSplit<T>(a: seq<T>, b: seq<T>, s: seq<T>, i: nat, e: nat)
    requires i <= e <= |s| && a + b <= s[i..e]
    ensures i + |a| <= e && a <= s[i..e] && a <= s[i..] && b <= s[i + |a|..e]
  {
    var t := s[i..e];
    assert |a| <= |t|;
    forall k | 0 <= k < |a| ensures a[k] == s[i + k] {
      assert (a + b)[k] == t[k];
    }
    forall k | 0 <= k < |b| ensures b[k] == s[i + |a| + k] {
      assert (a + b)[|a| + k] == t[|a| + k];
    }
  }

  lemma Assoc<T>(a: seq<T>, b: seq<T>, c: seq<T>)
    ensures a + b + c == a + (b + c)
  {
  }

  lemma Assoc4<T>(a: seq<T>, b: seq<T>, c: seq<T>, d: seq<T>)
    ensures a + b + c + d == a + (b + c + d)
  {
  }

  lemma DropIsSlice<T>(s: seq<T>, i: nat)
    requires i <= |s|
    ensures s[i..|s|] == s[i..]
  {
  }

  lemma Suffix<T>(a: seq<T>, b: seq<T>, s: seq<T>, i: nat)
    requires i <= |s| && s[i..] == a + b
    ensures i + |a| <= |s| && a <= s[i..] && s[i + |a|..] == b && (b == [] ==> |s| == i + |a|)
  {
    assert |s[i..]| == |a| + |b|;
    assert s[i..][|a|..] == s[i + |a|..];
  }

  /** r holds what s has at the places at, in order, and these are all places whose element is to be kept. */
  ghost predicate Picked<T>(r: seq<T>, s: seq<T>, keep: T -> bool, at: seq<nat>) {
    && |at| == |r| && (forall i, j :: 0 <= i < j < |at| ==> at[i] < at[j])
    && (forall i :: 0 <= i < |at| ==> at[i] < |s| && r[i] == s[at[i]])
    && forall k: nat :: k < |s| ==> (k in at <==> keep(s[k]))
  }

  lemma PickedSnoc<T>(r: seq<T>, s: seq<T>, keep: T -> bool, at: seq<nat>, x: T)
    requires Picked(r, s, keep, at)
    ensures if keep(x) then Picked(r + [x], s + [x], keep, at + [|s|]) else Picked(r, s + [x], keep, at)
  {
  }

  /** What is kept of what was kept. */
  lemma PickedTwice<T>(a: seq<T>, b: seq<T>, c: seq<T>, keep1: T -> bool, keep2: T -> bool, both: T -> bool,
                       at1: seq<nat>, at2: seq<nat>) returns (at: seq<nat>)
    requires Picked(b, a, keep1, at1) && Picked(c, b, keep2, at2) && forall x :: both(x) <==> keep1(x) && keep2(x)
    ensures Picked(c, a, both, at)
  {
    at := seq(|at2|, i requires 0 <= i < |at2| => at1[at2[i]]);
    forall k: nat | k < |a| ensures k in at <==> both(a[k]) {
      if both(a[k]) {
        var i :| 0 <= i < |at1| && at1[i] == k;
        assert b[i] == a[k] && i in at2;
        var j :| 0 <= j < |at2| && at2[j] == i;
        assert at[j] == k;
      }
      if k in at {
        var j :| 0 <= j < |at| && at[j] == k;
        assert at2[j] in at2 && at1[at2[j]] in at1;
      }
    }
  }
}

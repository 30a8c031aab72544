/** Lists of url ids that include or exclude documents, and how two of them are merged (urlidlist.c:50-132). */
module UrlList {
  import opened Order

  /** UDM_URLID_LIST: which urls a search may return. */
  datatype Urls = Urls(urls: seq<nat>, exclude: bool, empty: bool)
  {
    /** What the readers of an index do with the list: without urls there is no limit. */
    predicate Allows(u: nat) { !empty && (urls == [] || (u in urls) != exclude) }

    /** What a list says when it is merged into another: here no urls means that nothing is included. */
    predicate Selects(u: nat) { (u in urls) != exclude }
  }

  /** The elements of s that are in t, or those that are not. */
  function Restrict(s: seq<nat>, t: seq<nat>, inside: bool): seq<nat> {
    if s == [] then []
    else
      var rest, last := Restrict(s[..|s| - 1], t, inside), s[|s| - 1];
      if (last in t) == inside then rest + [last] else rest
  }

  lemma {:induction false} RestrictHas(s: seq<nat>, t: seq<nat>, inside: bool)
    ensures forall u :: u in Restrict(s, t, inside) <==> u in s && (u in t) == inside
  {
    if s == [] {
    } else {
      RestrictHas(s[..|s| - 1], t, inside);
      assert s == s[..|s| - 1] + [s[|s| - 1]];
    }
  }

  lemma RestrictNext(s: seq<nat>, t: seq<nat>, inside: bool, n: nat)
    requires n < |s|
    ensures Restrict(s[..n + 1], t, inside) ==
              if (s[n] in t) == inside then Restrict(s[..n], t, inside) + [s[n]] else Restrict(s[..n], t, inside)
  {
    assert s[..n + 1][..n] == s[..n];
  }

  lemma {:induction false} RestrictKeepsOrder(s: seq<nat>, t: seq<nat>, inside: bool)
    requires Sorted<nat>(Le, s)
    ensures Sorted<nat>(Le, Restrict(s, t, inside))
  {
    if s == [] {
    } else {
      var init, last := s[..|s| - 1], s[|s| - 1];
      var rest := Restrict(init, t, inside);
      RestrictKeepsOrder(init, t, inside);
      RestrictHas(init, t, inside);
      forall i | 0 <= i < |rest| ensures Le(rest[i], last) { assert rest[i] in init; }
    }
  }

  lemma NoneToRestrict(t: seq<nat>, inside: bool)
    ensures Restrict([], t, inside) == []
  {
  }

  class List {
    var list: Urls

    constructor (list: Urls)
      ensures this.list == list
    {
      this.list := list;
    }

    /** UdmURLIdListJoin: the urls that the other list does not allow are squeezed out. */
    method Join(other: Urls)
      modifies this
      ensures list == Joined(old(list), other)
      ensures Sorted<nat>(Le, old(list.urls)) ==> Sorted<nat>(Le, list.urls)
    {
      hide Restrict;
      var src: nat, dst, urls := 0, [], list.urls;
      NoneToRestrict(other.urls, !other.exclude);
      assert urls[..0] == [];
      while src < |urls|
        invariant src <= |urls| && list == old(list) && dst == Restrict(urls[..src], other.urls, !other.exclude)
      {
        RestrictNext(urls, other.urls, !other.exclude, src);
        var allow := if urls[src] in other.urls then !other.exclude else other.exclude;
        if allow { dst := dst + [urls[src]]; }
        src := src + 1;
      }
      assert urls[..src] == urls;
      if Sorted<nat>(Le, urls) { RestrictKeepsOrder(urls, other.urls, !other.exclude); }
      list := list.(urls := dst);
      if list.urls == [] { list := list.(empty := true); }
    }

    /** UdmURLIdListUnion. */
    method Union(other: Urls)
      modifies this
      ensures list == old(list).(urls := Unioned(old(list.urls), other.urls))
      ensures Sorted<nat>(Le, old(list.urls)) ==> Sorted<nat>(Le, list.urls)
    {
      UnionIsSorted(list.urls, other.urls);
      if other.urls != [] {
        list := list.(urls := Sort(Le, list.urls + other.urls));
      }
    }

    /** UdmURLIdListMerge: the list is narrowed by another one. */
    method Merge(other: Urls)
      modifies this
      ensures list == Merged(old(list), other)
      ensures Sorted<nat>(Le, old(list.urls)) && Sorted<nat>(Le, other.urls) ==> Sorted<nat>(Le, list.urls)
    {
      if list.exclude && other.exclude { Union(other); }
      if list.urls != [] && other.urls != [] {
        Join(other);
      } else if list.urls == [] && other.urls != [] {
        list := list.(urls := other.urls, exclude := other.exclude);
      } else if other.urls == [] {
        if !other.exclude { list := list.(empty := true); }
      }
    }
  }

  function Unioned(a: seq<nat>, b: seq<nat>): seq<nat> { if b == [] then a else Sort(Le, a + b) }

  /** A union is sorted, unless there was nothing to unite. */
  lemma UnionIsSorted(a: seq<nat>, b: seq<nat>)
    ensures b != [] || Sorted<nat>(Le, a) ==> Sorted<nat>(Le, Unioned(a, b))
  {
    SortProperties<nat>(Le, a + b);
  }

  function Joined(a: Urls, b: Urls): Urls {
    var r := Restrict(a.urls, b.urls, !b.exclude);
    Urls(r, a.exclude, a.empty || r == [])
  }

  function Merged(a: Urls, b: Urls): Urls {
    var a1 := if a.exclude && b.exclude then a.(urls := Unioned(a.urls, b.urls)) else a;
    if b.urls == [] then (if b.exclude then a1 else a1.(empty := true))
    else if a1.urls == [] then a1.(urls := b.urls, exclude := b.exclude)
    else Joined(a1, b)
  }

  lemma UnionHas(a: seq<nat>, b: seq<nat>)
    ensures forall u :: u in Unioned(a, b) <==> u in a || u in b
  {
    if b != [] {
      SortProperties(Le, a + b);
      forall u ensures u in Sort(Le, a + b) <==> u in a + b {
        assert multiset(Sort(Le, a + b))[u] == multiset(a + b)[u];
      }
    }
  }

  function Above(s: seq<nat>): (m: nat)
    ensures forall u :: u in s ==> u < m
  {
    if s == [] then 0
    else
      var rest := Above(s[1..]);
      assert s == [s[0]] + s[1..];
      if rest <= s[0] then s[0] + 1 else rest
  }

  /** A merge of an excluding list, or of one with a list that is not empty, is not an intersection. */
  predicate Unsafe(a: Urls, b: Urls) { !a.empty && a.exclude && b.urls != [] && (b.exclude || a.urls != []) }

  /** Merging is intersecting, except when the list that is narrowed excludes. */
  lemma MergeIsIntersectionIff(a: Urls, b: Urls)
    ensures (forall u: nat :: Merged(a, b).Allows(u) <==> a.Allows(u) && b.Selects(u)) <==> !Unsafe(a, b)
  {
    hide Restrict, Sort;
    UnionHas(a.urls, b.urls);
    RestrictHas(a.urls, b.urls, !b.exclude);
    RestrictHas(Unioned(a.urls, b.urls), b.urls, !b.exclude);
    var far: nat := Above(a.urls + b.urls);
    assert far !in a.urls && far !in b.urls by {
      assert forall u :: u in a.urls || u in b.urls ==> u in a.urls + b.urls;
    }
    var m := Merged(a, b);
    if Unsafe(a, b) && m.urls == [] {
      var lost: nat := if b.exclude then far else b.urls[0];
      assert a.Allows(lost) && b.Selects(lost) && !m.Allows(lost);
    } else if Unsafe(a, b) {
      var wrong: nat := if b.exclude then b.urls[0] else far;
      assert m.Allows(wrong) && !b.Selects(wrong);
    }
  }

  /** What an excluding list lets through after another excluding list was merged into it: the wrong urls, or none. */
  lemma ExcludingMerged(a: Urls, b: Urls)
    requires Unsafe(a, b) && b.exclude
    ensures var m := Merged(a, b);
            && (m.empty <==> forall u :: u in a.urls ==> u in b.urls)
            && (!m.empty ==> forall u: nat :: m.Allows(u) <==> u !in a.urls || u in b.urls)
  {
    hide Restrict, Sort;
    UnionHas(a.urls, b.urls);
    RestrictHas(Unioned(a.urls, b.urls), b.urls, false);
    var r := Restrict(Unioned(a.urls, b.urls), b.urls, false);
    assert Merged(a, b) == Urls(r, true, r == []);
    if r != [] { assert r[0] in r; }
  }
}

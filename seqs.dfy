/** The two array operations the store is built on: `filter` and `find`. */
module Seqs {
  import opened Wrappers

  /** `s.filter(p)`: the elements of `s` that satisfy `p`, in their order in `s`. */
  function Filter<T(!new)>(s: seq<T>, p: T -> bool): (r: seq<T>)
    ensures |r| <= |s|
    ensures forall x :: x in r <==> x in s && p(x)
  {
    if s == [] then []
    else (if p(s[0]) then [s[0]] else []) + Filter(s[1..], p)
  }

  /** Filtering distributes over concatenation, so filtering keeps the input order. */
  lemma {:induction false} FilterConcat<T(!new)>(s: seq<T>, t: seq<T>, p: T -> bool)
    ensures Filter(s + t, p) == Filter(s, p) + Filter(t, p)
  {
    if s == [] {
      assert s + t == t;
    } else {
      assert (s + t)[1..] == s[1..] + t;
      FilterConcat(s[1..], t, p);
    }
  }

  /** Filtering a sequence with one more element at the front. */
  lemma FilterCons<T(!new)>(x: T, s: seq<T>, p: T -> bool)
    ensures Filter([x] + s, p) == (if p(x) then [x] else []) + Filter(s, p)
  {
    assert ([x] + s)[0] == x && ([x] + s)[1..] == s;
  }

  /** Filtering a sequence with one more element at the end. */
  lemma FilterSnoc<T(!new)>(s: seq<T>, x: T, p: T -> bool)
    ensures Filter(s + [x], p) == Filter(s, p) + (if p(x) then [x] else [])
  {
    FilterConcat(s, [x], p);
    assert [x][1..] == [];
  }

  /** Replacing an element by another, when neither is kept, leaves the filter unchanged. */
  lemma {:induction false} FilterUpdateOutside<T(!new)>(s: seq<T>, j: nat, x: T, p: T -> bool)
    requires j < |s| && !p(s[j]) && !p(x)
    ensures Filter(s[j := x], p) == Filter(s, p)
  {
    if j > 0 {
      assert s[j := x][1..] == s[1..][j - 1 := x];
      FilterUpdateOutside(s[1..], j - 1, x, p);
    } else {
      assert s[j := x][1..] == s[1..];
    }
  }

  /** Replacing a kept element by one that is not kept shortens the filter by one. */
  lemma {:induction false} FilterUpdateDrops<T(!new)>(s: seq<T>, j: nat, x: T, p: T -> bool)
    requires j < |s| && p(s[j]) && !p(x)
    ensures |Filter(s[j := x], p)| == |Filter(s, p)| - 1
  {
    if j > 0 {
      assert s[j := x][1..] == s[1..][j - 1 := x];
      FilterUpdateDrops(s[1..], j - 1, x, p);
    } else {
      assert s[j := x][1..] == s[1..];
    }
  }

  /** Replacing an element that is not kept by one that is lengthens the filter by one. */
  lemma {:induction false} FilterUpdateAdds<T(!new)>(s: seq<T>, j: nat, x: T, p: T -> bool)
    requires j < |s| && !p(s[j]) && p(x)
    ensures |Filter(s[j := x], p)| == |Filter(s, p)| + 1
  {
    if j > 0 {
      assert s[j := x][1..] == s[1..][j - 1 := x];
      FilterUpdateAdds(s[1..], j - 1, x, p);
    } else {
      assert s[j := x][1..] == s[1..];
    }
  }

  /** Filtering with a predicate every element satisfies keeps everything. */
  lemma {:induction false} FilterAllKept<T(!new)>(s: seq<T>, p: T -> bool)
    requires forall x :: x in s ==> p(x)
    ensures Filter(s, p) == s
  {
    if s != [] {
      FilterAllKept(s[1..], p);
    }
  }

  /** Filtering with a predicate no element satisfies keeps nothing. */
  lemma FilterNoneKept<T(!new)>(s: seq<T>, p: T -> bool)
    requires forall x :: x in s ==> !p(x)
    ensures Filter(s, p) == []
  {
  }

  /** Two filters with predicates that never hold together fit, side by side, in the input. */
  lemma {:induction false} FilterExclusiveLengths<T(!new)>(s: seq<T>, p: T -> bool, q: T -> bool)
    requires forall x :: x in s ==> !(p(x) && q(x))
    ensures |Filter(s, p)| + |Filter(s, q)| <= |s|
  {
    if s != [] {
      FilterExclusiveLengths(s[1..], p, q);
    }
  }

  /** `s.findIndex(p)`: the position of the FIRST element satisfying `p`, if any. */
  function FirstIndex<T>(s: seq<T>, p: T -> bool): (r: Option<nat>)
    ensures r.Some? ==> r.value < |s| && p(s[r.value])
    ensures r.Some? ==> forall j :: 0 <= j < r.value ==> !p(s[j])
    ensures r.None? <==> forall j :: 0 <= j < |s| ==> !p(s[j])
  {
    if s == [] then None
    else if p(s[0]) then Some(0)
    else match FirstIndex(s[1..], p)
      case None => None
      case Some(k) => Some(k + 1)
  }

  /** The first match is the one at `k` when `k` matches and nothing before it does. */
  lemma FirstIndexAt<T>(s: seq<T>, p: T -> bool, k: nat)
    requires k < |s| && p(s[k]) && forall j :: 0 <= j < k ==> !p(s[j])
    ensures FirstIndex(s, p) == Some(k)
  {
  }
}

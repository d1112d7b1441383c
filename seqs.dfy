/**
 * The two array methods the handlers lean on: `find`/`findIndex`, which
 * return the FIRST element satisfying a test, and `filter`, which keeps the
 * elements satisfying it in their original order. The store's own `findOne`
 * queries behave like `find` over the collection in natural order.
 */
module Seqs {
  import opened Wrappers

  /** The index of the first element satisfying `p`, if any. */
  function FindFirst<T>(s: seq<T>, p: T -> bool): (r: Option<nat>)
    ensures r.None? <==> forall i :: 0 <= i < |s| ==> !p(s[i])
    ensures r.Some? ==> r.value < |s| && p(s[r.value])
    ensures r.Some? ==> forall j :: 0 <= j < r.value ==> !p(s[j])
  {
    if s == [] then None
    else if p(s[0]) then Some(0)
    else match FindFirst(s[1..], p)
      case None => None
      case Some(k) => Some(k + 1)
  }

  /** The elements satisfying `p`, in their original order. */
  function Filter<T(!new)>(s: seq<T>, p: T -> bool): (r: seq<T>)
    ensures |r| <= |s|
    ensures forall i :: 0 <= i < |r| ==> p(r[i])
  {
    if s == [] then []
    else (if p(s[0]) then [s[0]] else []) + Filter(s[1..], p)
  }

  /** Filtering keeps every passing element as often as it occurs, and drops every other. */
  lemma {:induction false} FilterCounts<T(!new)>(s: seq<T>, p: T -> bool)
    ensures forall x :: multiset(Filter(s, p))[x] == if p(x) then multiset(s)[x] else 0
  {
    if s != [] {
      FilterCounts(s[1..], p);
      assert s == [s[0]] + s[1..];
    }
  }

  /** Filtering a concatenation filters each part: the kept elements stay in order. */
  lemma {:induction false} FilterAppend<T(!new)>(a: seq<T>, b: seq<T>, p: T -> bool)
    ensures Filter(a + b, p) == Filter(a, p) + Filter(b, p)
  {
    if a == [] {
      assert a + b == b;
    } else {
      assert (a + b)[0] == a[0];
      assert (a + b)[1..] == a[1..] + b;
      FilterAppend(a[1..], b, p);
    }
  }

  /** Filtering keeps a sequence whose every element passes unchanged. */
  lemma {:induction false} FilterKeepsPassing<T(!new)>(s: seq<T>, p: T -> bool)
    requires forall i :: 0 <= i < |s| ==> p(s[i])
    ensures Filter(s, p) == s
  {
    if s != [] {
      FilterKeepsPassing(s[1..], p);
    }
  }

  /** Filtering out one failing element between passing ones leaves the others, in order. */
  lemma FilterDropsOne<T(!new)>(a: seq<T>, x: T, b: seq<T>, p: T -> bool)
    requires forall i :: 0 <= i < |a| ==> p(a[i])
    requires forall i :: 0 <= i < |b| ==> p(b[i])
    requires !p(x)
    ensures Filter(a + [x] + b, p) == a + b
  {
    FilterKeepsPassing(a, p);
    FilterFailing(x, p);
    FilterAppend(a, [x], p);
    assert Filter(a + [x], p) == a by {
      assert a + [] == a;
    }
    FilterKeepsPassing(b, p);
    FilterAppend(a + [x], b, p);
  }

  lemma FilterFailing<T(!new)>(x: T, p: T -> bool)
    requires !p(x)
    ensures Filter([x], p) == []
  {
    assert [x][1..] == [];
  }
}

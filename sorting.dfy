/**
 * `Array.prototype.sort(cmp)` as an in-place insertion sort. The engine's own algorithm
 * is not known; what the model keeps is the sort's contract: the array ends up a
 * permutation of what it held, in `cmp` order whenever `cmp` is consistent on its
 * elements.
 */
module Sorting {

  /** `cmp` orders the values in `s` consistently: every pair is comparable, and `<= 0` chains. */
  ghost predicate ConsistentOn<T>(cmp: (T, T) -> int, s: seq<T>) {
    && (forall x, y :: x in s && y in s ==> cmp(x, y) <= 0 || cmp(y, x) <= 0)
    && (forall x, y, z :: x in s && y in s && z in s && cmp(x, y) <= 0 && cmp(y, z) <= 0 ==> cmp(x, z) <= 0)
  }

  /** No element of `s` is put after one `cmp` says should follow it. */
  ghost predicate SortedBy<T>(cmp: (T, T) -> int, s: seq<T>) {
    forall i, j :: 0 <= i < j < |s| ==> cmp(s[i], s[j]) <= 0
  }

  ghost predicate SortedRange<T>(cmp: (T, T) -> int, s: seq<T>, lo: int, hi: int) {
    forall k, l :: 0 <= lo <= k < l < hi <= |s| ==> cmp(s[k], s[l]) <= 0
  }

  /** The state of `Insert` while `s[i]`, now at `s[j]`, moves down. */
  ghost predicate Inserting<T>(cmp: (T, T) -> int, s: seq<T>, j: int, i: int) {
    && 0 <= j <= i < |s|
    && SortedRange(cmp, s, 0, j)
    && SortedRange(cmp, s, j, i + 1)
    && (forall k, l :: 0 <= k < j < l <= i ==> cmp(s[k], s[l]) <= 0)
  }

  lemma InElems<T>(s: seq<T>, elems: seq<T>, k: int)
    requires multiset(s) == multiset(elems) && 0 <= k < |s|
    ensures s[k] in elems
  {
    assert s[k] in multiset(s);
  }

  lemma SwapDown<T>(cmp: (T, T) -> int, s: seq<T>, j: int, i: int, elems: seq<T>)
    requires ConsistentOn(cmp, elems) && multiset(s) == multiset(elems)
    requires Inserting(cmp, s, j, i) && j > 0 && cmp(s[j - 1], s[j]) > 0
    ensures Inserting(cmp, s[j - 1 := s[j]][j := s[j - 1]], j - 1, i)
  {
    InElems(s, elems, j - 1);
    InElems(s, elems, j);
  }

  lemma StopDown<T>(cmp: (T, T) -> int, s: seq<T>, j: int, i: int, elems: seq<T>)
    requires ConsistentOn(cmp, elems) && multiset(s) == multiset(elems)
    requires Inserting(cmp, s, j, i) && (j == 0 || cmp(s[j - 1], s[j]) <= 0)
    ensures SortedRange(cmp, s, 0, i + 1)
  {
    forall k, l | 0 <= k < l <= i
      ensures cmp(s[k], s[l]) <= 0
    {
      if k < j - 1 && l == j {
        InElems(s, elems, k);
        InElems(s, elems, j - 1);
        InElems(s, elems, j);
        assert cmp(s[k], s[j - 1]) <= 0;
      }
    }
  }

  /** Swapping two neighbours keeps the elements. */
  lemma SwapKeepsElements<T>(s: seq<T>, j: int)
    requires 0 < j < |s|
    ensures multiset(s[j - 1 := s[j]][j := s[j - 1]]) == multiset(s)
  {
    var t := s[j - 1 := s[j]][j := s[j - 1]];
    assert s == s[..j - 1] + [s[j - 1], s[j]] + s[j + 1..];
    assert t == s[..j - 1] + [s[j], s[j - 1]] + s[j + 1..];
  }

  method Sort<T>(a: array<T>, cmp: (T, T) -> int)
    modifies a
    ensures multiset(a[..]) == old(multiset(a[..]))
    ensures ConsistentOn(cmp, old(a[..])) ==> SortedBy(cmp, a[..])
  {
    ghost var elems := a[..];
    var i := 1;
    while i < a.Length
      invariant a.Length == 0 || i <= a.Length
      invariant multiset(a[..]) == multiset(elems)
      invariant ConsistentOn(cmp, elems) ==> SortedRange(cmp, a[..], 0, i)
    {
      Insert(a, i, cmp, elems);
      i := i + 1;
    }
    assert a.Length != 0 ==> i == a.Length;
  }

  /** One step of the insertion sort: moves `a[i]` down into the sorted prefix `a[..i]`. */
  method Insert<T>(a: array<T>, i: nat, cmp: (T, T) -> int, ghost elems: seq<T>)
    requires i < a.Length
    requires multiset(a[..]) == multiset(elems)
    requires ConsistentOn(cmp, elems) ==> SortedRange(cmp, a[..], 0, i)
    modifies a
    ensures multiset(a[..]) == multiset(elems)
    ensures ConsistentOn(cmp, elems) ==> SortedRange(cmp, a[..], 0, i + 1)
  {
    var j := i;
    while j > 0 && cmp(a[j - 1], a[j]) > 0
      invariant 0 <= j <= i
      invariant multiset(a[..]) == multiset(elems)
      invariant ConsistentOn(cmp, elems) ==> Inserting(cmp, a[..], j, i)
    {
      ghost var before := a[..];
      a[j - 1], a[j] := a[j], a[j - 1];
      assert a[..] == before[j - 1 := before[j]][j := before[j - 1]];
      SwapKeepsElements(before, j);
      if ConsistentOn(cmp, elems) {
        SwapDown(cmp, before, j, i, elems);
      }
      j := j - 1;
    }
    if ConsistentOn(cmp, elems) {
      StopDown(cmp, a[..], j, i, elems);
    }
  }
}

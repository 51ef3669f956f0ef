/**
 * What the aggregation loop of `uniqueHeadings` computes, stated on the sequence of
 * fingerprints of its input: the distinct fingerprints in first-seen order, where each
 * was first seen, and how often each occurs.
 */
module Tally {

  /** The distinct elements of `s`, in the order of their first occurrence. */
  function Distinct(s: seq<string>): (d: seq<string>)
    ensures forall k :: k in d <==> k in s
    ensures forall i, j :: 0 <= i < j < |d| ==> d[i] != d[j]
  {
    if s == [] then []
    else
      var init := s[..|s| - 1];
      var last := s[|s| - 1];
      assert forall k :: k in s <==> k in init || k == last;
      if last in init then Distinct(init) else Distinct(init) + [last]
  }

  lemma DistinctExtended(s: seq<string>, x: string)
    ensures Distinct(s + [x]) == if x in s then Distinct(s) else Distinct(s) + [x]
  {
    assert (s + [x])[..|s + [x]| - 1] == s;
  }

  /** The index where `k` first occurs in `s`. */
  function FirstIndex(s: seq<string>, k: string): (i: nat)
    requires k in s
    ensures i < |s| && s[i] == k && k !in s[..i]
  {
    if s[0] == k then 0
    else
      assert s[..1 + FirstIndex(s[1..], k)] == [s[0]] + s[1..][..FirstIndex(s[1..], k)];
      1 + FirstIndex(s[1..], k)
  }

  /** An index `j` where `k` occurs and has not occurred before is `FirstIndex(s, k)`. */
  lemma FirstIndexUnique(s: seq<string>, k: string, j: int)
    requires 0 <= j < |s| && s[j] == k && k !in s[..j]
    ensures FirstIndex(s, k) == j
  {
  }

  /** The distinct elements come in the order in which each first occurs. */
  lemma {:induction false} DistinctInFirstSeenOrder(s: seq<string>)
    ensures forall i, j :: 0 <= i < j < |Distinct(s)| ==> FirstIndex(s, Distinct(s)[i]) < FirstIndex(s, Distinct(s)[j])
  {
    if s != [] {
      var init, last := s[..|s| - 1], s[|s| - 1];
      DistinctInFirstSeenOrder(init);
      var di, d := Distinct(init), Distinct(s);
      forall i, j | 0 <= i < j < |d|
        ensures FirstIndex(s, d[i]) < FirstIndex(s, d[j])
      {
        if last in init {
          assert d == di;
          assert FirstIndex(init, di[i]) < FirstIndex(init, di[j]);
          FirstIndexOfPrefix(s, di[i]);
          FirstIndexOfPrefix(s, di[j]);
        } else {
          assert d == di + [last];
          assert d[i] == di[i];
          FirstIndexOfPrefix(s, di[i]);
          if j < |di| {
            assert d[j] == di[j];
            assert FirstIndex(init, di[i]) < FirstIndex(init, di[j]);
            FirstIndexOfPrefix(s, di[j]);
          } else {
            assert d[j] == last;
            FirstIndexUnique(s, last, |init|);
          }
        }
      }
    }
  }

  /** Dropping the last element of `s` does not move the first occurrence of anything before it. */
  lemma FirstIndexOfPrefix(s: seq<string>, k: string)
    requires s != [] && k in s[..|s| - 1]
    ensures FirstIndex(s, k) == FirstIndex(s[..|s| - 1], k)
  {
    var init := s[..|s| - 1];
    var f := FirstIndex(init, k);
    assert s[..f] == init[..f];
    FirstIndexUnique(s, k, f);
  }

  /** The occurrence counts of the keys `ks` in `s`, added up. */
  function SumCounts(ks: seq<string>, s: seq<string>): nat {
    if ks == [] then 0 else SumCounts(ks[..|ks| - 1], s) + multiset(s)[ks[|ks| - 1]]
  }

  lemma {:induction false} SumCountsExtended(ks: seq<string>, s: seq<string>, x: string)
    requires forall i, j :: 0 <= i < j < |ks| ==> ks[i] != ks[j]
    ensures SumCounts(ks, s + [x]) == SumCounts(ks, s) + if x in ks then 1 else 0
  {
    if ks != [] {
      var init := ks[..|ks| - 1];
      SumCountsExtended(init, s, x);
      assert multiset(s + [x]) == multiset(s) + multiset{x};
      assert x in ks <==> x in init || x == ks[|ks| - 1];
      assert x == ks[|ks| - 1] ==> x !in init;
    }
  }

  /** Conservation: the counts of the distinct fingerprints add up to the number of inputs. */
  lemma {:induction false} CountsAddUp(s: seq<string>)
    ensures SumCounts(Distinct(s), s) == |s|
  {
    if s != [] {
      var init := s[..|s| - 1];
      var last := s[|s| - 1];
      assert s == init + [last];
      CountsAddUp(init);
      SumCountsExtended(Distinct(init), init, last);
      if last !in init {
        assert Distinct(s) == Distinct(init) + [last];
        assert Distinct(s)[..|Distinct(s)| - 1] == Distinct(init);
        assert multiset(s)[last] == 1 by {
          assert multiset(init)[last] == 0;
        }
      }
    }
  }

  /** Every distinct fingerprint was seen at least once. */
  lemma CountsPositive(s: seq<string>, k: string)
    requires k in Distinct(s)
    ensures multiset(s)[k] >= 1
  {
    assert k in s;
  }
}

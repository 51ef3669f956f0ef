/**
 * `styleToCanonicalString`: the fingerprint of a style snapshot, its property names in
 * ascending order, each rendered as `name:value`, joined with `;`. Two headings are
 * "the same heading style" exactly when their fingerprints are equal.
 */
module Fingerprint {
  import opened JsStrings
  import StringOrder
  import Sorting

  /** A style snapshot: CSS property name to its computed `cssText`. */
  type Style = map<string, string>

  predicate StrictlyAscending(ks: seq<string>) {
    forall i, j :: 0 <= i < j < |ks| ==> StringOrder.Less(ks[i], ks[j])
  }

  /** The `name:value` rendering of each of `ks`, in the order of `ks`. */
  function Pairs(ks: seq<string>, style: Style): (ps: seq<string>)
    requires forall k :: k in ks ==> k in style
    ensures |ps| == |ks|
    ensures forall i :: 0 <= i < |ks| ==> ps[i] == ks[i] + ":" + style[ks[i]]
  {
    seq(|ks|, i requires 0 <= i < |ks| => ks[i] + ":" + style[ks[i]])
  }

  lemma {:induction false} MinimumExists(keys: set<string>)
    requires keys != {}
    ensures exists m :: m in keys && forall k :: k in keys ==> m == k || StringOrder.Less(m, k)
  {
    var x :| x in keys;
    if keys != {x} {
      var rest := keys - {x};
      MinimumExists(rest);
      var m :| m in rest && forall k :: k in rest ==> m == k || StringOrder.Less(m, k);
      StringOrder.LessTrichotomy(x, m);
      if StringOrder.Less(x, m) {
        forall k | k in keys
          ensures x == k || StringOrder.Less(x, k)
        {
          if k != x && k != m {
            StringOrder.LessTransitive(x, m, k);
          }
        }
      } else {
        assert m in keys && forall k :: k in keys ==> m == k || StringOrder.Less(m, k);
      }
    }
  }

  ghost function Minimum(keys: set<string>): (m: string)
    requires keys != {}
    ensures m in keys && forall k :: k in keys ==> m == k || StringOrder.Less(m, k)
  {
    MinimumExists(keys);
    var m :| m in keys && forall k :: k in keys ==> m == k || StringOrder.Less(m, k);
    m
  }

  /** The property names of a style the way `keys.sort()` leaves them. */
  ghost function SortedKeys(keys: set<string>): (ks: seq<string>)
    ensures StrictlyAscending(ks)
    ensures forall k :: k in ks <==> k in keys
    ensures multiset(ks) == multiset(keys)
    decreases keys
  {
    if keys == {} then []
    else
      var m := Minimum(keys);
      var rest := SortedKeys(keys - {m});
      AscendingCons(m, rest);
      assert keys == (keys - {m}) + {m};
      assert multiset(keys) == multiset(keys - {m}) + multiset{m};
      [m] + rest
  }

  /** A name below every name of an ascending listing can go in front of it. */
  lemma AscendingCons(m: string, rest: seq<string>)
    requires StrictlyAscending(rest) && forall k :: k in rest ==> StringOrder.Less(m, k)
    ensures StrictlyAscending([m] + rest)
  {
    var ks := [m] + rest;
    forall i, j | 0 <= i < j < |ks|
      ensures StringOrder.Less(ks[i], ks[j])
    {
      if i == 0 {
        assert ks[j] == rest[j - 1];
      } else {
        assert ks[i] == rest[i - 1] && ks[j] == rest[j - 1];
      }
    }
  }

  /** The fingerprint of a style, as a function of the style's contents alone. */
  ghost function Canonical(style: Style): string {
    var ks := SortedKeys(style.Keys);
    Join(Pairs(ks, style), ";")
  }

  /** `FBL.keys(style)`: the property names, in whichever order the object enumerates them. */
  method Keys(style: Style) returns (keys: array<string>)
    ensures fresh(keys)
    ensures multiset(keys[..]) == multiset(style.Keys)
  {
    var listed: seq<string> := [];
    var rest := style.Keys;
    while rest != {}
      invariant rest <= style.Keys
      invariant forall k :: k in listed <==> k in style.Keys - rest
      invariant forall i, j :: 0 <= i < j < |listed| ==> listed[i] != listed[j]
      decreases |rest|
    {
      var k :| k in rest;
      assert k !in listed;
      listed := listed + [k];
      rest := rest - {k};
    }
    keys := new string[|listed|](i requires 0 <= i < |listed| => listed[i]);
    assert keys[..] == listed;
    DistinctMultiset(listed, style.Keys);
  }

  /** A listing of a set without repeats has the set's multiset. */
  lemma {:induction false} DistinctMultiset(s: seq<string>, keys: set<string>)
    requires forall k :: k in s <==> k in keys
    requires forall i, j :: 0 <= i < j < |s| ==> s[i] != s[j]
    ensures multiset(s) == multiset(keys)
    decreases |s|
  {
    if s == [] {
      assert keys == {};
    } else {
      var x := s[0];
      forall k ensures k in s[1..] <==> k in keys - {x} {
        if k in s[1..] {
          var j :| 0 <= j < |s[1..]| && s[1..][j] == k;
          assert s[j + 1] == k;
        }
      }
      DistinctMultiset(s[1..], keys - {x});
      assert s == [x] + s[1..];
      assert keys == (keys - {x}) + {x};
    }
  }
  lemma CompareConsistent(s: seq<string>)
    ensures Sorting.ConsistentOn(StringOrder.Compare, s)
  {
    forall x, y, z | StringOrder.Compare(x, y) <= 0 && StringOrder.Compare(y, z) <= 0
      ensures StringOrder.Compare(x, z) <= 0
    {
      StringOrder.CompareTransitive(x, y, z);
    }
  }

  /** A multiset of strings has only one arrangement in ascending order. */
  lemma {:induction false} SortedIsUnique(a: seq<string>, b: seq<string>)
    requires Sorting.SortedBy(StringOrder.Compare, a) && Sorting.SortedBy(StringOrder.Compare, b)
    requires multiset(a) == multiset(b)
    ensures a == b
  {
    if a != [] {
      SortedHeads(a, b);
      SameTails(a, b);
      SortedTail(a);
      SortedTail(b);
      SortedIsUnique(a[1..], b[1..]);
      assert a == [a[0]] + a[1..] && b == [b[0]] + b[1..];
    }
  }

  lemma SameTails(a: seq<string>, b: seq<string>)
    requires multiset(a) == multiset(b) && a != [] && b != [] && a[0] == b[0]
    ensures multiset(a[1..]) == multiset(b[1..])
  {
    assert a == [a[0]] + a[1..] && b == [b[0]] + b[1..];
    assert multiset(a[1..]) == multiset(a) - multiset{a[0]};
    assert multiset(b[1..]) == multiset(b) - multiset{b[0]};
  }

  /** Two ascending arrangements of one multiset start alike. */
  lemma SortedHeads(a: seq<string>, b: seq<string>)
    requires Sorting.SortedBy(StringOrder.Compare, a) && Sorting.SortedBy(StringOrder.Compare, b)
    requires multiset(a) == multiset(b) && a != []
    ensures b != [] && a[0] == b[0]
  {
    assert a[0] in multiset(a);
    assert b != [];
    assert b[0] in multiset(b);
    var i :| 0 <= i < |b| && b[i] == a[0];
    var j :| 0 <= j < |a| && a[j] == b[0];
    assert StringOrder.Compare(b[0], a[0]) <= 0 by {
      if i > 0 { assert StringOrder.Compare(b[0], b[i]) <= 0; }
    }
    assert StringOrder.Compare(a[0], b[0]) <= 0 by {
      if j > 0 { assert StringOrder.Compare(a[0], a[j]) <= 0; }
    }
    StringOrder.LessTrichotomy(a[0], b[0]);
  }

  lemma SortedTail(a: seq<string>)
    requires Sorting.SortedBy(StringOrder.Compare, a) && a != []
    ensures Sorting.SortedBy(StringOrder.Compare, a[1..])
  {
    forall i, j | 0 <= i < j < |a[1..]|
      ensures StringOrder.Compare(a[1..][i], a[1..][j]) <= 0
    {
      assert a[1..][i] == a[i + 1] && a[1..][j] == a[j + 1];
    }
  }

  lemma PairsExtended(ks: seq<string>, i: nat, style: Style)
    requires i < |ks| && forall k :: k in ks ==> k in style
    ensures Pairs(ks[..i + 1], style) == Pairs(ks[..i], style) + [ks[i] + ":" + style[ks[i]]]
  {
  }

  /** Rendering the keys in any ascending arrangement gives the fingerprint. */
  lemma CanonicalOfSortedKeys(ks: seq<string>, style: Style)
    requires Sorting.SortedBy(StringOrder.Compare, ks)
    requires multiset(ks) == multiset(style.Keys)
    ensures forall k :: k in ks ==> k in style
    ensures Join(Pairs(ks, style), ";") == Canonical(style)
  {
    forall k | k in ks
      ensures k in style
    {
      assert k in multiset(ks);
    }
    SortedIsUnique(ks, SortedKeys(style.Keys));
  }

  /** `styleToCanonicalString(style)`; whatever order the keys enumerate in, the result is `Canonical(style)`. */
  method StyleToCanonicalString(style: Style) returns (r: string)
    ensures r == Canonical(style)
  {
    var keys := Keys(style);
    ghost var listed := keys[..];
    Sorting.Sort(keys, StringOrder.Compare);
    CompareConsistent(listed);
    CanonicalOfSortedKeys(keys[..], style);
    ghost var sorted := keys[..];
    var result: seq<string> := [];
    var i := 0;
    while i < keys.Length
      invariant 0 <= i <= keys.Length
      invariant keys[..] == sorted
      invariant result == Pairs(sorted[..i], style)
    {
      var key := keys[i];
      assert key == sorted[i] && key in sorted;
      PairsExtended(sorted, i, style);
      result := result + [key + ":" + style[key]];
      i := i + 1;
    }
    assert sorted[..i] == sorted;
    r := Join(result, ";");
  }

  /** The empty style, and only it, has the empty fingerprint. */
  lemma CanonicalEmptyIff(style: Style)
    ensures Canonical(style) == "" <==> style == map[]
  {
    var ks := SortedKeys(style.Keys);
    if style != map[] {
      var k :| k in style;
      assert ks != [];
      var ps := Pairs(ks, style);
      assert |ps[0]| > 0;
      if |ps| > 1 {
        assert Join(ps, ";") == ps[0] + ";" + Join(ps[1..], ";");
      }
    } else {
      assert style.Keys == {};
      assert ks == [];
    }
  }

  /** A fingerprint of a style with a property holds a `:`, right after the first name. */
  lemma CanonicalHasColon(style: Style)
    requires style != map[]
    ensures ':' in Canonical(style)
  {
    CanonicalEmptyIff(style);
    var ks := SortedKeys(style.Keys);
    var ps := Pairs(ks, style);
    assert ps != [];
    assert ps[0] == ks[0] + ":" + style[ks[0]];
    assert ps[0][|ks[0]|] == ':';
    if |ps| > 1 {
      assert Join(ps, ";") == ps[0] + ";" + Join(ps[1..], ";");
      assert Join(ps, ";")[|ks[0]|] == ':';
    }
  }

  /** How often `x` occurs in the parts, all together. */
  function Occurrences(parts: seq<string>, x: char): nat {
    if parts == [] then 0 else multiset(parts[0])[x] + Occurrences(parts[1..], x)
  }

  lemma {:induction false} JoinOccurrences(parts: seq<string>, sep: char, x: char)
    requires parts != []
    ensures multiset(Join(parts, [sep]))[x] == Occurrences(parts, x) + if x == sep then |parts| - 1 else 0
  {
    if |parts| > 1 {
      JoinOccurrences(parts[1..], sep, x);
      assert Join(parts, [sep]) == parts[0] + [sep] + Join(parts[1..], [sep]);
    }
  }

  /** Neither separator of the fingerprint occurs in `s`. */
  predicate NoSeparator(s: string) {
    ':' !in s && ';' !in s
  }

  /** A style whose names and values never contain `:` or `;` (CSS property names never do). */
  predicate PlainStyle(style: Style) {
    forall k :: k in style ==> NoSeparator(k) && NoSeparator(style[k])
  }

  lemma {:induction false} PairsOccurrences(ks: seq<string>, style: Style)
    requires PlainStyle(style) && forall k :: k in ks ==> k in style
    ensures Occurrences(Pairs(ks, style), ';') == 0
    ensures Occurrences(Pairs(ks, style), ':') == |ks|
  {
    if ks != [] {
      var ps := Pairs(ks, style);
      assert ps[1..] == Pairs(ks[1..], style);
      PairsOccurrences(ks[1..], style);
      assert ps[0] == ks[0] + ":" + style[ks[0]];
      assert multiset(ks[0])[';'] == 0 && multiset(style[ks[0]])[';'] == 0;
      assert multiset(ks[0])[':'] == 0 && multiset(style[ks[0]])[':'] == 0;
    }
  }

  /** A plain style with m >= 1 properties has a fingerprint of m `name:value` pairs and m - 1 `;`. */
  lemma CanonicalSeparators(style: Style)
    requires PlainStyle(style) && style != map[]
    ensures multiset(Canonical(style))[':'] == |style|
    ensures multiset(Canonical(style))[';'] == |style| - 1
  {
    var ks := SortedKeys(style.Keys);
    assert |ks| == |style.Keys| == |style| by {
      assert |multiset(ks)| == |multiset(style.Keys)|;
    }
    PairsOccurrences(ks, style);
    JoinOccurrences(Pairs(ks, style), ';', ':');
    JoinOccurrences(Pairs(ks, style), ';', ';');
  }

  /** When `b` has no `c`, a separator right after the shorter `a` cannot line up with `b`. */
  lemma SeparatorPosition(a: string, ra: string, b: string, rb: string, c: char)
    requires c !in b
    requires ra == [] || ra[0] == c
    ensures |a| < |b| ==> a + ra != b + rb
  {
    if |a| < |b| && ra != [] {
      assert (a + ra)[|a|] == c;
      assert (b + rb)[|a|] == b[|a|];
    }
  }

  /** A string `a` without the character `c` is the part of `a + rest` before its first `c`. */
  lemma PrefixBeforeSeparator(a: string, b: string, ra: string, rb: string, c: char)
    requires c !in a && c !in b
    requires ra == [] || ra[0] == c
    requires rb == [] || rb[0] == c
    requires a + ra == b + rb
    ensures a == b && ra == rb
  {
    SeparatorPosition(a, ra, b, rb, c);
    SeparatorPosition(b, rb, a, ra, c);
    assert a == (a + ra)[..|a|];
    assert b == (b + rb)[..|b|];
    assert ra == (a + ra)[|a|..];
    assert rb == (b + rb)[|b|..];
  }

  lemma {:induction false} JoinInjective(p: seq<string>, q: seq<string>, c: char)
    requires p != [] && q != []
    requires forall i :: 0 <= i < |p| ==> c !in p[i]
    requires forall i :: 0 <= i < |q| ==> c !in q[i]
    requires Join(p, [c]) == Join(q, [c])
    ensures p == q
  {
    var rp := if |p| > 1 then [c] + Join(p[1..], [c]) else [];
    var rq := if |q| > 1 then [c] + Join(q[1..], [c]) else [];
    assert Join(p, [c]) == p[0] + rp;
    assert Join(q, [c]) == q[0] + rq;
    PrefixBeforeSeparator(p[0], q[0], rp, rq, c);
    if |p| > 1 && |q| > 1 {
      assert Join(p[1..], [c]) == rp[1..] == rq[1..] == Join(q[1..], [c]);
      JoinInjective(p[1..], q[1..], c);
      assert p == [p[0]] + p[1..] && q == [q[0]] + q[1..];
    }
  }

  lemma Associative(a: string, b: string, c: string)
    ensures a + b + c == a + (b + c)
  {
  }

  lemma {:induction false} PairsInjective(ks1: seq<string>, s1: Style, ks2: seq<string>, s2: Style)
    requires forall k :: k in ks1 ==> k in s1 && ':' !in k
    requires forall k :: k in ks2 ==> k in s2 && ':' !in k
    requires Pairs(ks1, s1) == Pairs(ks2, s2)
    ensures ks1 == ks2
    ensures forall k :: k in ks1 ==> s1[k] == s2[k]
  {
    if ks1 != [] {
      var k1, k2 := ks1[0], ks2[0];
      var ps1, ps2 := Pairs(ks1, s1), Pairs(ks2, s2);
      assert |ks2| == |ps2| == |ps1| == |ks1|;
      assert ps1[0] == k1 + ":" + s1[k1];
      assert ps2[0] == k2 + ":" + s2[k2];
      assert ps1[0] == ps2[0];
      Associative(k1, ":", s1[k1]);
      Associative(k2, ":", s2[k2]);
      PrefixBeforeSeparator(k1, k2, ":" + s1[k1], ":" + s2[k2], ':');
      assert s1[k1] == (":" + s1[k1])[1..];
      assert Pairs(ks1[1..], s1) == Pairs(ks1, s1)[1..];
      assert Pairs(ks2[1..], s2) == Pairs(ks2, s2)[1..];
      PairsInjective(ks1[1..], s1, ks2[1..], s2);
      assert ks1 == [k1] + ks1[1..] && ks2 == [k2] + ks2[1..];
    }
  }

  /**
   * Between plain styles the fingerprint is a faithful key: two styles get the same
   * fingerprint exactly when they hold the same name/value pairs.
   */
  lemma CanonicalInjective(s1: Style, s2: Style)
    requires PlainStyle(s1) && PlainStyle(s2)
    ensures Canonical(s1) == Canonical(s2) <==> s1 == s2
  {
    if Canonical(s1) == Canonical(s2) {
      SameFingerprintSameStyle(s1, s2);
    }
  }

  lemma SameFingerprintSameStyle(s1: Style, s2: Style)
    requires PlainStyle(s1) && PlainStyle(s2)
    requires Canonical(s1) == Canonical(s2)
    ensures s1 == s2
  {
    CanonicalEmptyIff(s1);
    CanonicalEmptyIff(s2);
    if s1 != map[] {
      SameFingerprintSameKeys(s1, s2);
      SameListingSameStyle(s1, s2, SortedKeys(s1.Keys), SortedKeys(s2.Keys));
    }
  }

  /** Two styles listed by the same names, with the same value under each, are equal. */
  lemma SameListingSameStyle(s1: Style, s2: Style, ks1: seq<string>, ks2: seq<string>)
    requires (forall k :: k in ks1 <==> k in s1) && (forall k :: k in ks2 <==> k in s2)
    requires ks1 == ks2 && forall k :: k in ks1 ==> s1[k] == s2[k]
    ensures s1 == s2
  {
    assert s1.Keys == s2.Keys;
  }

  lemma SameFingerprintSameKeys(s1: Style, s2: Style)
    requires PlainStyle(s1) && PlainStyle(s2)
    requires Canonical(s1) == Canonical(s2) && s1 != map[] && s2 != map[]
    ensures SortedKeys(s1.Keys) == SortedKeys(s2.Keys)
    ensures forall k :: k in SortedKeys(s1.Keys) ==> s1[k] == s2[k]
  {
    var ks1, ks2 := SortedKeys(s1.Keys), SortedKeys(s2.Keys);
    var p1, p2 := Pairs(ks1, s1), Pairs(ks2, s2);
    assert Join(p1, [';']) == Join(p2, [';']);
    NonEmptyPairs(s1);
    NonEmptyPairs(s2);
    JoinInjective(p1, p2, ';');
    PairsInjective(ks1, s1, ks2, s2);
  }

  lemma NonEmptyPairs(style: Style)
    requires PlainStyle(style) && style != map[]
    ensures var ps := Pairs(SortedKeys(style.Keys), style);
      ps != [] && forall i :: 0 <= i < |ps| ==> ';' !in ps[i]
  {
    var ks := SortedKeys(style.Keys);
    var k :| k in style;
    assert k in ks;
    PairsOccurrences(ks, style);
    OccurrencesZero(Pairs(ks, style), ';');
  }

  lemma {:induction false} OccurrencesZero(parts: seq<string>, x: char)
    requires Occurrences(parts, x) == 0
    ensures forall i :: 0 <= i < |parts| ==> x !in parts[i]
  {
    if parts != [] {
      OccurrencesZero(parts[1..], x);
      assert forall i :: 1 <= i < |parts| ==> parts[i] == parts[1..][i - 1];
    }
  }

  /**
   * Without the plainness condition two different styles can share a fingerprint:
   * a value of `a` that ends in `;b:...` reads like the start of the property `b`.
   */
  lemma FingerprintCollision(a: string, b: string, x: string, y: string, z: string)
    requires StringOrder.Less(a, b)
    ensures Canonical(map[a := x + ";" + b + ":" + y, b := z]) == Canonical(map[a := x, b := y + ";" + b + ":" + z])
    ensures map[a := x + ";" + b + ":" + y, b := z] != map[a := x, b := y + ";" + b + ":" + z]
  {
    var m1, m2 := map[a := x + ";" + b + ":" + y, b := z], map[a := x, b := y + ";" + b + ":" + z];
    StringOrder.LessIrreflexive(a);
    CanonicalOfTwo(m1, a, b, x + ";" + b + ":" + y, z);
    CanonicalOfTwo(m2, a, b, x, y + ";" + b + ":" + z);
    Regroup(a, b, x, y, z);
    assert |m1[a]| != |m2[a]|;
  }

  /** Moving `;b:` from the end of the first value to the front of the second keeps the text. */
  lemma Regroup(a: string, b: string, x: string, y: string, z: string)
    ensures (a + ":" + (x + ";" + b + ":" + y)) + ";" + (b + ":" + z)
         == (a + ":" + x) + ";" + (b + ":" + (y + ";" + b + ":" + z))
  {
    var w := a + ":" + x + ";" + b + ":" + y + ";" + b + ":" + z;
    assert (a + ":" + (x + ";" + b + ":" + y)) + ";" + (b + ":" + z) == w;
    assert (a + ":" + x) + ";" + (b + ":" + (y + ";" + b + ":" + z)) == w;
  }

  /** The fingerprint of a style with one property is its `name:value` pair. */
  lemma CanonicalOfOne(style: Style, k: string, v: string)
    requires style == map[k := v]
    ensures Canonical(style) == k + ":" + v
  {
    assert style.Keys == {k};
    assert multiset([k]) == multiset({k});
    CanonicalOfSortedKeys([k], style);
  }

  /** The fingerprint of a style with exactly two properties `a` < `b`. */
  lemma CanonicalOfTwo(style: Style, a: string, b: string, x: string, y: string)
    requires StringOrder.Less(a, b)
    requires style == map[a := x, b := y]
    ensures Canonical(style) == (a + ":" + x) + ";" + (b + ":" + y)
  {
    var ks := [a, b];
    StringOrder.LessIrreflexive(a);
    TwoNames(a, b);
    assert style.Keys == {a, b};
    CanonicalOfSortedKeys(ks, style);
    var ps := Pairs(ks, style);
    assert Join(ps, ";") == ps[0] + ";" + ps[1];
  }

  /** Two names in ascending order are the one ascending listing of their set. */
  lemma TwoNames(a: string, b: string)
    requires StringOrder.Less(a, b) && a != b
    ensures Sorting.SortedBy(StringOrder.Compare, [a, b])
    ensures multiset([a, b]) == multiset({a, b})
  {
    StringOrder.LessIrreflexive(b);
  }
}

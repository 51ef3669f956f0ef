/**
 * The headings of a document: which elements count as headings (`isHeading`) and how
 * the collected headings are folded into unique heading styles with repeat counts
 * (`uniqueHeadings`).
 */
module Headings {
  import opened Wrappers
  import opened JsStrings
  import opened Fingerprint
  import opened Tally

  /** `RE_HEADER`: `h1` to `h6` and `header`. */
  const HeaderTags: set<string> := {"h1", "h2", "h3", "h4", "h5", "h6", "header"}

  /** `RE_SKIP`: elements whose text is never shown. */
  const SkipTags: set<string> := {"script", "style"}

  /** `triggerProperties`: a heading must set one of these differently from a fresh element. */
  const TriggerProperties: seq<string> := ["font-size"]

  /** `collectProperties`: the computed properties stored in a heading's style. */
  const CollectProperties: seq<string> := [
    "font-family", "font-size", "font-weight", "font-variant", "font-style",
    "color", "text-transform", "text-decoration", "letter-spacing", "word-spacing"
  ]

  /**
   * The decision of `isHeading` for an element with tag name `tagName`. `firstChildText`
   * is the value of its first child when that child is a text node; `probeStyle` and
   * `nodeStyle` are the computed styles of the injected probe element and of the node.
   */
  method IsHeading(tagName: string, firstChildText: Option<string>, probeStyle: Style, nodeStyle: Style)
      returns (result: bool)
    requires forall p :: p in TriggerProperties ==> p in probeStyle && p in nodeStyle
    ensures var tag := ToLowerAscii(tagName);
      result <==>
        || tag in HeaderTags
        || (&& tag !in SkipTags
            && firstChildText.Some? && !IsBlank(firstChildText.value)
            && forall p :: p in TriggerProperties ==> probeStyle[p] != nodeStyle[p])
  {
    var tag := ToLowerAscii(tagName);
    result := false;
    if tag in HeaderTags {
      result := true;
    } else if tag in SkipTags {
      result := false;
    } else if firstChildText.Some? && !IsBlank(firstChildText.value) {
      result := true;
      var i := 0;
      while result && i < |TriggerProperties|
        invariant 0 <= i <= |TriggerProperties|
        invariant result <==> forall j :: 0 <= j < i ==> probeStyle[TriggerProperties[j]] != nodeStyle[TriggerProperties[j]]
      {
        var triggerProp := TriggerProperties[i];
        result := probeStyle[triggerProp] != nodeStyle[triggerProp];
        i := i + 1;
      }
      assert result ==> i == |TriggerProperties|;
    }
  }

  /**
   * HTML documents report tag names in upper case: `H1` to `H6` and `HEADER` are headings
   * whatever their content, and `SCRIPT` and `STYLE` are never headings.
   */
  lemma UpperCaseTagsRecognised()
    ensures forall t :: t in {"H1", "H2", "H3", "H4", "H5", "H6", "HEADER"} ==> ToLowerAscii(t) in HeaderTags
    ensures forall t :: t in {"SCRIPT", "STYLE"} ==> ToLowerAscii(t) !in HeaderTags && ToLowerAscii(t) in SkipTags
  {
    assert ToLowerAscii("H1") == "h1" && ToLowerAscii("H2") == "h2" && ToLowerAscii("H3") == "h3";
    assert ToLowerAscii("H4") == "h4" && ToLowerAscii("H5") == "h5" && ToLowerAscii("H6") == "h6";
    assert ToLowerAscii("HEADER") == "header";
    assert ToLowerAscii("SCRIPT") == "script" && ToLowerAscii("STYLE") == "style";
  }

  /** A heading found in the page: its tag, its sample text and its style snapshot. */
  class Heading {
    const tag: string
    const text: string
    const style: Style
    /** How many headings share this one's style; 0 until the aggregation sets it. */
    var count: nat

    constructor (tag: string, text: string, style: Style)
      ensures this.tag == tag && this.text == text && this.style == style && count == 0
    {
      this.tag := tag;
      this.text := text;
      this.style := style;
      count := 0;
    }
  }

  /** The fingerprint of every heading, in input order. */
  ghost function Fingerprints(hs: seq<Heading>): (fps: seq<string>)
    ensures |fps| == |hs| && forall i :: 0 <= i < |hs| ==> fps[i] == Canonical(hs[i].style)
  {
    seq(|hs|, i requires 0 <= i < |hs| => Canonical(hs[i].style))
  }

  /** The counts of the given headings, added up. */
  function TotalCount(hs: seq<Heading>): nat
    reads set h | h in hs
  {
    if hs == [] then 0 else TotalCount(hs[..|hs| - 1]) + hs[|hs| - 1].count
  }

  lemma {:induction false} TotalCountIsSumCounts(hs: seq<Heading>, ks: seq<string>, s: seq<string>)
    requires |hs| == |ks|
    requires forall j :: 0 <= j < |hs| ==> hs[j].count == multiset(s)[ks[j]]
    ensures TotalCount(hs) == SumCounts(ks, s)
  {
    if hs != [] {
      TotalCountIsSumCounts(hs[..|hs| - 1], ks[..|ks| - 1], s);
    }
  }

  /**
   * The names a plain object `{}` inherits from `Object.prototype`, with the `toSource`,
   * `watch` and `unwatch` of the Firefox engine the panel runs in; looking one of them up
   * in the table would find a function even before any heading was stored under it.
   * None of them, nor any other inherited property name, contains `:`.
   */
  const InheritedNames: set<string> := {
    "constructor", "hasOwnProperty", "isPrototypeOf", "propertyIsEnumerable",
    "toLocaleString", "toString", "valueOf", "__proto__",
    "__defineGetter__", "__defineSetter__", "__lookupGetter__", "__lookupSetter__",
    "toSource", "watch", "unwatch"
  }

  /**
   * A fingerprint is empty or contains `:`, so it is never an inherited name and the
   * table, a plain object, holds exactly the headings stored in it: `!unique[key]` is
   * true just when `key` was not stored yet.
   */
  lemma FingerprintNotInherited(style: Style)
    ensures Canonical(style) == "" || ':' in Canonical(style)
    ensures Canonical(style) !in InheritedNames
  {
    CanonicalEmptyIff(style);
    if style != map[] {
      CanonicalHasColon(style);
    }
    NoInheritedNameHasColon(Canonical(style));
  }

  /** The inherited names are all non-empty and free of `:`. */
  lemma NoInheritedNameHasColon(s: string)
    requires s == "" || ':' in s
    ensures s !in InheritedNames
  {
  }

  /** `first[k]` is where fingerprint `k` was first seen, for each `k` among the first `i`. */
  ghost predicate FirstSeen(fps: seq<string>, i: nat, first: map<string, nat>)
    requires i <= |fps|
  {
    && (forall j :: 0 <= j < i ==> fps[j] in first)
    && (forall k :: k in first ==>
          && first[k] < i && fps[first[k]] == k
          && forall j :: 0 <= j < first[k] ==> fps[j] != k)
  }

  /**
   * Where the aggregation stands after the first `i` fingerprints: `order` lists the
   * fingerprints seen so far as first seen, and `first[k]` is where `k` was first seen.
   */
  ghost predicate Indexed(fps: seq<string>, i: nat, order: seq<string>, first: map<string, nat>)
    requires i <= |fps|
  {
    order == Distinct(fps[..i]) && FirstSeen(fps, i, first)
  }

  /** The table maps each fingerprint seen so far to the heading where it was first seen. */
  ghost predicate Placed(headings: seq<Heading>, table: map<string, Heading>, first: map<string, nat>) {
    && table.Keys == first.Keys
    && forall k :: k in table ==> first[k] < |headings| && table[k] == headings[first[k]]
  }

  /** Each representative's count is the number of the first `i` headings with its fingerprint. */
  ghost predicate Counted(table: map<string, Heading>, fps: seq<string>, i: nat)
    requires i <= |fps|
    reads table.Values
  {
    forall k :: k in table ==> table[k].count == multiset(fps[..i])[k]
  }

  /**
   * The table maps each fingerprint seen among the first `i` to the first heading that
   * had it, whose count is the number of headings so far with that fingerprint.
   */
  ghost predicate Represented(headings: seq<Heading>, fps: seq<string>, i: nat,
                              table: map<string, Heading>, first: map<string, nat>)
    requires |fps| == |headings| && i <= |fps|
    reads set h | h in headings
  {
    Placed(headings, table, first) && Counted(table, fps, i)
  }

  lemma IndexedStep(fps: seq<string>, i: nat, order: seq<string>, first: map<string, nat>)
    requires i < |fps| && Indexed(fps, i, order, first)
    ensures var key := fps[i];
      if key in first then Indexed(fps, i + 1, order, first)
      else Indexed(fps, i + 1, order + [key], first[key := i])
  {
    var key := fps[i];
    assert fps[..i + 1] == fps[..i] + [key];
    DistinctExtended(fps[..i], key);
    if key in first {
      assert fps[..i][first[key]] == key;
    } else {
      assert key !in fps[..i];
    }
  }

  /** A fingerprint not yet seen is not among the first `i`, and heading `i` is its first. */
  lemma NewKey(fps: seq<string>, i: nat, first: map<string, nat>)
    requires i < |fps| && FirstSeen(fps, i, first) && fps[i] !in first
    ensures fps[i] !in fps[..i]
    ensures forall j :: 0 <= j < |fps| && (i + 1 <= j || fps[j] in fps[..j]) ==> j != i
  {
  }

  /** A heading whose fingerprint `key` is new becomes the representative of `key`, counted once. */
  method RecordNew(headings: seq<Heading>, ghost fps: seq<string>, ghost counts: seq<nat>, i: nat, key: string,
                   table: map<string, Heading>, ghost first: map<string, nat>)
      returns (table': map<string, Heading>)
    requires |fps| == |headings| && i < |fps| && key == fps[i]
    requires forall j :: 0 <= j < |headings| && j != i ==> headings[j] != headings[i]
    requires Represented(headings, fps, i, table, first) && FirstSeen(fps, i, first)
    requires key !in table
    requires |counts| == |fps| && Untouched(headings, fps, i, counts)
    modifies headings[i]
    ensures table' == table[key := headings[i]] && headings[i].count == 1
    ensures Represented(headings, fps, i + 1, table', first[key := i])
    ensures Untouched(headings, fps, i + 1, counts)
  {
    assert multiset(fps[..i + 1]) == multiset(fps[..i]) + multiset{key} by {
      assert fps[..i + 1] == fps[..i] + [key];
    }
    NewKey(fps, i, first);
    var heading := headings[i];
    forall k | k in table
      ensures table[k] != heading
    {
      assert first[k] < i;
    }
    table' := table[key := heading];
    heading.count := 1;
    forall k | k in table'
      ensures table'[k].count == multiset(fps[..i + 1])[k]
    {
      if k != key {
        assert table'[k] == table[k] != heading;
      }
    }
    forall j | 0 <= j < |headings| && (i + 1 <= j || fps[j] in fps[..j])
      ensures headings[j].count == counts[j]
    {
      assert headings[j] != heading;
    }
  }

  /** Where a fingerprint seen before was first seen: never a heading the aggregation leaves alone. */
  lemma SeenKey(fps: seq<string>, i: nat, first: map<string, nat>)
    requires i < |fps| && FirstSeen(fps, i, first) && fps[i] in first
    ensures var m := first[fps[i]];
      && m < i
      && (forall k :: k in first && k != fps[i] ==> first[k] != m)
      && (forall j :: 0 <= j < |fps| && (i + 1 <= j || fps[j] in fps[..j]) ==> j != m)
  {
    var m := first[fps[i]];
    assert fps[m] !in fps[..m];
  }

  /** A heading whose fingerprint `key` was seen before adds one to the count of its representative. */
  method RecordRepeat(headings: seq<Heading>, ghost fps: seq<string>, ghost counts: seq<nat>, i: nat, key: string,
                      table: map<string, Heading>, ghost first: map<string, nat>)
    requires |fps| == |headings| && i < |fps| && key == fps[i]
    requires Represented(headings, fps, i, table, first) && FirstSeen(fps, i, first)
    requires key in table
    requires forall j :: 0 <= j < |headings| && j != first[key] ==> headings[j] != headings[first[key]]
    requires |counts| == |fps| && Untouched(headings, fps, i, counts)
    modifies headings[first[key]]
    ensures headings[first[key]].count == old(headings[first[key]].count) + 1
    ensures Represented(headings, fps, i + 1, table, first)
    ensures Untouched(headings, fps, i + 1, counts)
  {
    assert multiset(fps[..i + 1]) == multiset(fps[..i]) + multiset{key} by {
      assert fps[..i + 1] == fps[..i] + [key];
    }
    SeenKey(fps, i, first);
    var rep := table[key];
    forall k | k in table && k != key
      ensures table[k] != rep
    {
      assert first[k] != first[key];
    }
    rep.count := rep.count + 1;
    forall j | 0 <= j < |headings| && (i + 1 <= j || fps[j] in fps[..j])
      ensures headings[j].count == counts[j]
    {
      assert headings[j] != rep;
    }
  }

  /** After the last heading: the fingerprints in first-seen order, each first seen where `first` says. */
  lemma FinalIndex(fps: seq<string>, order: seq<string>, first: map<string, nat>)
    requires Indexed(fps, |fps|, order, first)
    ensures order == Distinct(fps)
    ensures forall j :: 0 <= j < |order| ==> order[j] in first && first[order[j]] == FirstIndex(fps, order[j])
    ensures forall i :: 0 <= i < |fps| ==> fps[i] in first && (fps[i] in fps[..i] <==> first[fps[i]] != i)
  {
    assert fps[..|fps|] == fps;
    forall j | 0 <= j < |order|
      ensures order[j] in first && first[order[j]] == FirstIndex(fps, order[j])
    {
      var k := order[j];
      assert k in fps;
      var f := first[k];
      assert k !in fps[..f];
      FirstIndexUnique(fps, k, f);
    }
    forall i | 0 <= i < |fps|
      ensures fps[i] in first && (fps[i] in fps[..i] <==> first[fps[i]] != i)
    {
      var k := fps[i];
      if first[k] != i {
        assert first[k] < i && fps[..i][first[k]] == k;
      }
    }
  }

  /**
   * The headings whose count the aggregation has not touched, before the `i`th: those
   * not yet reached and those whose fingerprint was seen before them. `counts` holds
   * the counts as they were when the aggregation started.
   */
  ghost predicate Untouched(headings: seq<Heading>, fps: seq<string>, i: nat, counts: seq<nat>)
    requires |fps| == |headings| == |counts|
    reads set h | h in headings
  {
    forall j :: 0 <= j < |headings| && (i <= j || fps[j] in fps[..j]) ==> headings[j].count == counts[j]
  }

  /** One turn of the loop in `uniqueHeadings`: count heading `i`. */
  method Step(headings: seq<Heading>, ghost fps: seq<string>, ghost counts: seq<nat>, i: nat,
              table: map<string, Heading>, order: seq<string>, ghost first: map<string, nat>)
      returns (table': map<string, Heading>, order': seq<string>, ghost first': map<string, nat>)
    requires forall a, b :: 0 <= a < b < |headings| ==> headings[a] != headings[b]
    requires fps == Fingerprints(headings) && |counts| == |fps| && i < |fps|
    requires Indexed(fps, i, order, first) && Represented(headings, fps, i, table, first)
    requires Untouched(headings, fps, i, counts)
    modifies if fps[i] in first then headings[first[fps[i]]] else headings[i]
    ensures Indexed(fps, i + 1, order', first') && Represented(headings, fps, i + 1, table', first')
    ensures Untouched(headings, fps, i + 1, counts)
  {
    var key := StyleToCanonicalString(headings[i].style);
    IndexedStep(fps, i, order, first);
    if key !in table {
      table' := RecordNew(headings, fps, counts, i, key, table, first);
      order', first' := order + [key], first[key := i];
    } else {
      RecordRepeat(headings, fps, counts, i, key, table, first);
      table', order', first' := table, order, first;
    }
  }

  /**
   * The loop of `uniqueHeadings`: walks the headings once, keeping the table of
   * representatives and the fingerprints in the order they were first seen.
   */
  method Aggregate(headings: seq<Heading>, ghost fps: seq<string>)
      returns (table: map<string, Heading>, order: seq<string>, ghost first: map<string, nat>)
    requires forall i, j :: 0 <= i < j < |headings| ==> headings[i] != headings[j]
    requires fps == Fingerprints(headings)
    modifies set h | h in headings
    ensures Indexed(fps, |fps|, order, first) && Represented(headings, fps, |fps|, table, first)
    ensures forall j :: 0 <= j < |headings| && fps[j] in fps[..j] ==> headings[j].count == old(headings[j].count)
  {
    ghost var counts: seq<nat> := seq(|headings|, j requires 0 <= j < |headings| reads set h | h in headings => headings[j].count);
    table := map[];
    order := [];
    first := map[];
    var i := 0;
    while i < |headings|
      invariant 0 <= i <= |headings|
      invariant Indexed(fps, i, order, first) && Represented(headings, fps, i, table, first)
      invariant Untouched(headings, fps, i, counts)
    {
      table, order, first := Step(headings, fps, counts, i, table, order, first);
      i := i + 1;
    }
  }

  /** What the finished table says about the representatives listed in first-seen order. */
  lemma Representatives(headings: seq<Heading>, fps: seq<string>, table: map<string, Heading>,
                        order: seq<string>, first: map<string, nat>, unique: seq<Heading>)
    requires |fps| == |headings|
    requires Indexed(fps, |fps|, order, first) && Represented(headings, fps, |fps|, table, first)
    requires |unique| == |order| && forall j :: 0 <= j < |order| ==> order[j] in table && unique[j] == table[order[j]]
    ensures var keys := Distinct(fps);
      && |unique| == |keys|
      && forall j :: 0 <= j < |keys| ==>
           && unique[j] == headings[FirstIndex(fps, keys[j])]
           && unique[j].count == multiset(fps)[keys[j]]
           && unique[j].count >= 1
  {
    FinalIndex(fps, order, first);
    assert fps[..|fps|] == fps;
    forall j | 0 <= j < |order|
      ensures && unique[j] == headings[FirstIndex(fps, order[j])]
              && unique[j].count == multiset(fps)[order[j]]
              && unique[j].count >= 1
    {
      var k := order[j];
      assert k in first && first[k] == FirstIndex(fps, k);
      assert unique[j] == table[k] == headings[first[k]];
      assert unique[j].count == multiset(fps[..|fps|])[k];
      assert k in fps;
    }
  }

  /** The representatives' counts add up to the number of headings. */
  lemma RepresentativesTotal(headings: seq<Heading>, fps: seq<string>, unique: seq<Heading>)
    requires fps == Fingerprints(headings)
    requires var keys := Distinct(fps);
      |unique| == |keys| && forall j :: 0 <= j < |keys| ==> unique[j].count == multiset(fps)[keys[j]]
    ensures TotalCount(unique) == |headings|
  {
    var keys := Distinct(fps);
    CountsAddUp(fps);
    TotalCountIsSumCounts(unique, keys, fps);
  }

  /**
   * `uniqueHeadings`: one representative per fingerprint, the first heading that had it,
   * with `count` set to the number of headings that share the fingerprint, listed in
   * the order the fingerprints were first seen.
   */
  method UniqueHeadings(headings: seq<Heading>) returns (unique: seq<Heading>)
    requires forall i, j :: 0 <= i < j < |headings| ==> headings[i] != headings[j]
    modifies set h | h in headings
    ensures var fps := Fingerprints(headings); var keys := Distinct(fps);
      && |unique| == |keys|
      && forall j :: 0 <= j < |keys| ==>
           && unique[j] == headings[FirstIndex(fps, keys[j])]
           && unique[j].count == multiset(fps)[keys[j]]
           && unique[j].count >= 1
    ensures var fps := Fingerprints(headings);
      forall i :: 0 <= i < |headings| && fps[i] in fps[..i] ==> headings[i].count == old(headings[i].count)
    ensures var fps := Fingerprints(headings); var keys := Distinct(fps);
      forall i, j :: 0 <= i < j < |keys| ==> FirstIndex(fps, keys[i]) < FirstIndex(fps, keys[j])
    ensures TotalCount(unique) == |headings|
  {
    ghost var fps := Fingerprints(headings);
    var table, order, first := Aggregate(headings, fps);
    FinalIndex(fps, order, first);
    // `FBL.values` lists the table in insertion order, which is `order`.
    unique := seq(|order|, j requires 0 <= j < |order| => table[order[j]]);
    Representatives(headings, fps, table, order, first, unique);
    RepresentativesTotal(headings, fps, unique);
    DistinctInFirstSeenOrder(fps);
  }
}

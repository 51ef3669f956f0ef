/**
 * The order in which the unique headings are shown: `headingComparer`, passed to
 * `headings.sort`. Larger font sizes come first; among equal sizes, heavier font
 * weights come first.
 */
module Ordering {
  import opened Wrappers
  import opened JsStrings
  import opened Fingerprint
  import opened Headings
  import opened Sorting

  /** `BOLD_WEIGHT`: the numeric weight the keyword `bold` stands for. */
  const BoldWeight: int := 700

  /** `parseInt(style["font-size"], 10)`; a missing property reads as `undefined`, which parses to `NaN`. */
  function FontSize(style: Style): Option<int> {
    if "font-size" in style then ParseInt(style["font-size"]) else None
  }

  /** The font weight as `headingComparer` reads it: `bold` is `BOLD_WEIGHT`, anything else goes through `parseInt`. */
  function FontWeight(style: Style): Option<int> {
    if "font-weight" !in style then None
    else if style["font-weight"] == "bold" then Some(BoldWeight)
    else ParseInt(style["font-weight"])
  }

  /** `x - y` on numbers that may be `NaN` (`None`). */
  function Minus(x: Option<int>, y: Option<int>): (r: Option<int>)
    ensures r.Some? <==> x.Some? && y.Some?
    ensures r.Some? ==> r.value == x.value - y.value
  {
    if x.Some? && y.Some? then Some(x.value - y.value) else None
  }

  /** `x || y` on numbers: `x` unless it is falsy, that is `0` or `NaN`. */
  function Or(x: Option<int>, y: Option<int>): (r: Option<int>)
    ensures x.Some? && x.value != 0 ==> r == x
    ensures x.None? || x.value == 0 ==> r == y
  {
    if x.Some? && x.value != 0 then x else y
  }

  /**
   * `headingComparer` once the sizes and weights have been read:
   * `bFontSize - aFontSize || bFontWeight - aFontWeight`.
   */
  function CompareRead(aSize: Option<int>, aWeight: Option<int>, bSize: Option<int>, bWeight: Option<int>): Option<int> {
    Or(Minus(bSize, aSize), Minus(bWeight, aWeight))
  }

  /** `headingComparer` on the two headings' styles. */
  function Comparer(a: Style, b: Style): Option<int> {
    CompareRead(FontSize(a), FontWeight(a), FontSize(b), FontWeight(b))
  }

  /** `headingComparer(a, b)`. */
  function HeadingComparer(a: Heading, b: Heading): Option<int> {
    Comparer(a.style, b.style)
  }

  /** How `Array.prototype.sort` reads a comparator result: `NaN` counts as `+0`. */
  function SortValue(r: Option<int>): int {
    if r.Some? then r.value else 0
  }

  /** Both the font size and the font weight of `style` are numbers. */
  predicate Parsed(style: Style) {
    FontSize(style).Some? && FontWeight(style).Some?
  }

  /**
   * The order the comparer is meant to give, stated on its own: `a` may be shown before
   * `b` when its font is larger, or as large and at least as heavy.
   */
  predicate Before(a: Style, b: Style) {
    && Parsed(a) && Parsed(b)
    && (|| FontSize(a).value > FontSize(b).value
        || (FontSize(a).value == FontSize(b).value && FontWeight(a).value >= FontWeight(b).value))
  }

  /** The comparer on known sizes `sa`, `sb` and weights `wa`, `wb`. */
  lemma CompareKnown(sa: int, sb: int, wa: int, wb: int)
    ensures var r := Or(Minus(Some(sb), Some(sa)), Minus(Some(wb), Some(wa)));
      && r.Some?
      && (r.value <= 0 <==> sa > sb || (sa == sb && wa >= wb))
      && (r.value == 0 <==> sa == sb && wa == wb)
      && r.value == -Or(Minus(Some(sa), Some(sb)), Minus(Some(wa), Some(wb))).value
  {
  }

  /** A larger font size puts a heading first, whatever the weights. */
  lemma LargerFontFirst(aSize: Option<int>, aWeight: Option<int>, bSize: Option<int>, bWeight: Option<int>)
    requires aSize.Some? && bSize.Some? && aSize.value > bSize.value
    ensures CompareRead(aSize, aWeight, bSize, bWeight) == Some(bSize.value - aSize.value)
    ensures SortValue(CompareRead(aSize, aWeight, bSize, bWeight)) < 0
    ensures SortValue(CompareRead(bSize, bWeight, aSize, aWeight)) > 0
  {
  }

  /** Between equal font sizes the heavier font comes first. */
  lemma EqualSizeHeavierFirst(size: int, aWeight: Option<int>, bWeight: Option<int>)
    ensures CompareRead(Some(size), aWeight, Some(size), bWeight) == Minus(bWeight, aWeight)
    ensures aWeight.Some? && bWeight.Some? && aWeight.value > bWeight.value ==>
      && SortValue(CompareRead(Some(size), aWeight, Some(size), bWeight)) < 0
      && SortValue(CompareRead(Some(size), bWeight, Some(size), aWeight)) > 0
  {
  }

  /** A font size that does not parse (`NaN`) leaves the decision to the weights. */
  lemma UnknownSizeFallsBack(aSize: Option<int>, aWeight: Option<int>, bSize: Option<int>, bWeight: Option<int>)
    requires aSize.None? || bSize.None?
    ensures CompareRead(aSize, aWeight, bSize, bWeight) == Minus(bWeight, aWeight)
  {
  }

  /** The keyword `bold` weighs the same as `700`. */
  lemma BoldIsSevenHundred(style: Style)
    ensures FontWeight(style["font-weight" := "bold"]) == FontWeight(style["font-weight" := "700"]) == Some(BoldWeight)
  {
    assert NatToDigits(7) == "7";
    assert NatToDigits(70) == "70";
    assert IntToString(700) == NatToDigits(700) == "700";
    ParseIntOfIntToString(700, "");
    assert "700" + "" == "700";
  }

  /**
   * When both styles parse, the comparer agrees with `Before`: it is negative, zero or
   * positive exactly as `a` belongs strictly before `b`, level with it, or after it.
   */
  lemma ComparerMatchesBefore(a: Style, b: Style)
    requires Parsed(a) && Parsed(b)
    ensures Comparer(a, b).Some?
    ensures SortValue(Comparer(a, b)) <= 0 <==> Before(a, b)
    ensures SortValue(Comparer(a, b)) == 0 <==> FontSize(a) == FontSize(b) && FontWeight(a) == FontWeight(b)
    ensures SortValue(Comparer(a, b)) == -SortValue(Comparer(b, a))
  {
    CompareKnown(FontSize(a).value, FontSize(b).value, FontWeight(a).value, FontWeight(b).value);
  }

  /**
   * The comparer is `NaN` exactly when the sizes do not both parse to different numbers
   * and the weights do not both parse; the sort then reads it as `0`.
   */
  lemma CompareReadIsNaN(aSize: Option<int>, aWeight: Option<int>, bSize: Option<int>, bWeight: Option<int>)
    ensures CompareRead(aSize, aWeight, bSize, bWeight).None? <==>
      && !(aSize.Some? && bSize.Some? && aSize.value != bSize.value)
      && !(aWeight.Some? && bWeight.Some?)
    ensures CompareRead(aSize, aWeight, bSize, bWeight).None? ==>
      SortValue(CompareRead(aSize, aWeight, bSize, bWeight)) == 0
  {
  }

  /** Swapping the two headings negates the comparer, `NaN` included; a heading compares level with itself. */
  lemma CompareReadSwapped(aSize: Option<int>, aWeight: Option<int>, bSize: Option<int>, bWeight: Option<int>)
    ensures SortValue(CompareRead(aSize, aWeight, bSize, bWeight)) == -SortValue(CompareRead(bSize, bWeight, aSize, aWeight))
    ensures SortValue(CompareRead(aSize, aWeight, aSize, aWeight)) == 0
  {
  }

  /**
   * `headingComparer` on any two headings, whether or not their values parse: it is `0`
   * for a heading against itself, and swapping the arguments negates it.
   */
  lemma HeadingComparerSwapped(a: Heading, b: Heading)
    ensures SortValue(HeadingComparer(a, a)) == 0
    ensures SortValue(HeadingComparer(a, b)) == -SortValue(HeadingComparer(b, a))
  {
    CompareReadSwapped(FontSize(a.style), FontWeight(a.style), FontSize(b.style), FontWeight(b.style));
  }

  /** A computed font size `"<n>px"` reads as `n`; a missing one reads as `NaN`. */
  lemma FontSizeOfPixels(style: Style, n: int)
    ensures "font-size" !in style ==> FontSize(style).None?
    ensures "font-size" in style && style["font-size"] == IntToString(n) + "px" ==> FontSize(style) == Some(n)
  {
    assert "px"[0] == 'p';
    ParseIntOfIntToString(n, "px");
  }

  /** A numeric font weight reads as its number, `bold` as `BOLD_WEIGHT`, a missing one as `NaN`. */
  lemma FontWeightOfNumber(style: Style, n: int)
    ensures "font-weight" !in style ==> FontWeight(style).None?
    ensures "font-weight" in style && style["font-weight"] == "bold" ==> FontWeight(style) == Some(BoldWeight)
    ensures "font-weight" in style && style["font-weight"] == IntToString(n) ==> FontWeight(style) == Some(n)
  {
    var t := IntToString(n);
    assert t[0] != 'b' by {
      if n < 0 {
        assert t[0] == '-';
      } else {
        assert IsDigit(NatToDigits(n)[0]);
      }
    }
    assert t != "bold";
    ParseIntOfIntToString(n, "");
    assert t + "" == t;
  }

  /** The comparer on two styles as the sort reads it. */
  function StyleOrder(a: Style, b: Style): int {
    SortValue(Comparer(a, b))
  }

  /** The comparer on two headings as the sort reads it. */
  function Order(a: Heading, b: Heading): int {
    StyleOrder(a.style, b.style)
  }

  /**
   * A weight that does not parse makes the comparer inconsistent: with three headings of
   * one font size, `c` lighter than `b` and `a` of unknown weight, `c` may go before `a`
   * and `a` before `b`, yet `b` must go before `c`, so no order satisfies the comparer on
   * all three pairs.
   */
  lemma UnparsedWeightBreaksOrder(a: Style, b: Style, c: Style)
    requires FontSize(a).Some? && FontSize(a) == FontSize(b) == FontSize(c)
    requires FontWeight(a).None? && FontWeight(b).Some? && FontWeight(c).Some?
    requires FontWeight(b).value > FontWeight(c).value
    ensures StyleOrder(c, a) <= 0 && StyleOrder(a, b) <= 0 && StyleOrder(c, b) > 0
    ensures !ConsistentOn(StyleOrder, [a, b, c])
  {
    var size := FontSize(a).value;
    EqualSizeHeavierFirst(size, FontWeight(c), FontWeight(a));
    EqualSizeHeavierFirst(size, FontWeight(a), FontWeight(b));
    EqualSizeHeavierFirst(size, FontWeight(c), FontWeight(b));
    assert c in [a, b, c] && a in [a, b, c] && b in [a, b, c];
  }

  /** A weight given as the keyword `normal` is such a weight: three 16px headings show it. */
  lemma NormalWeightBreaksOrder()
    ensures !ConsistentOn(StyleOrder, [
      map["font-size" := "16px", "font-weight" := "normal"],
      map["font-size" := "16px", "font-weight" := "bold"],
      map["font-size" := "16px", "font-weight" := "400"]])
  {
    var normal := map["font-size" := "16px", "font-weight" := "normal"];
    var bold := map["font-size" := "16px", "font-weight" := "bold"];
    var regular := map["font-size" := "16px", "font-weight" := "400"];
    SampleValues();
    assert FontSize(normal) == FontSize(bold) == FontSize(regular) == Some(16);
    assert FontWeight(normal) == None;
    assert FontWeight(bold) == Some(700) && FontWeight(regular) == Some(400);
    UnparsedWeightBreaksOrder(normal, bold, regular);
  }

  /** What `parseInt` makes of the values in `UnparsedWeightBreaksOrder`. */
  lemma SampleValues()
    ensures ParseInt("16px") == Some(16) && ParseInt("400") == Some(400) && ParseInt("normal") == None
  {
    SixteenPixels();
    FourHundred();
    NormalIsNaN();
  }

  lemma SixteenPixels()
    ensures ParseInt("16px") == Some(16)
  {
    assert NatToDigits(1) == "1";
    assert IntToString(16) == "16";
    ParseIntOfIntToString(16, "px");
    assert "16" + "px" == "16px";
  }

  lemma FourHundred()
    ensures ParseInt("400") == Some(400)
  {
    assert NatToDigits(4) == "4";
    assert NatToDigits(40) == "40";
    assert IntToString(400) == "400";
    ParseIntOfIntToString(400, "");
    assert "400" + "" == "400";
  }

  lemma NormalIsNaN()
    ensures ParseInt("normal") == None
  {
    assert !IsWhiteSpace('n') && !IsDigit('n');
    assert TrimStart("normal") == "normal";
    assert DigitPrefix("normal") == [];
  }

  /** On headings whose sizes and weights all parse, the comparer is a consistent order. */
  lemma OrderConsistent(hs: seq<Heading>)
    requires forall h :: h in hs ==> Parsed(h.style)
    ensures ConsistentOn(Order, hs)
  {
    forall x, y | x in hs && y in hs
      ensures Order(x, y) <= 0 || Order(y, x) <= 0
    {
      ComparerMatchesBefore(x.style, y.style);
    }
    forall x, y, z | x in hs && y in hs && z in hs && Order(x, y) <= 0 && Order(y, z) <= 0
      ensures Order(x, z) <= 0
    {
      OrderTransitive(x.style, y.style, z.style);
    }
  }

  lemma OrderTransitive(a: Style, b: Style, c: Style)
    requires Parsed(a) && Parsed(b) && Parsed(c)
    requires StyleOrder(a, b) <= 0 && StyleOrder(b, c) <= 0
    ensures StyleOrder(a, c) <= 0
  {
    ComparerMatchesBefore(a, b);
    ComparerMatchesBefore(b, c);
    ComparerMatchesBefore(a, c);
    BeforeTransitive(FontSize(a).value, FontWeight(a).value, FontSize(b).value, FontWeight(b).value,
                     FontSize(c).value, FontWeight(c).value);
  }

  /** `Before` on the sizes and weights themselves chains. */
  lemma BeforeTransitive(sa: int, wa: int, sb: int, wb: int, sc: int, wc: int)
    requires sa > sb || (sa == sb && wa >= wb)
    requires sb > sc || (sb == sc && wb >= wc)
    ensures sa > sc || (sa == sc && wa >= wc)
  {
  }

  /**
   * `headings.sort(headingComparer)`: the headings are rearranged, none lost or added;
   * when every size and weight parses they end up largest font first, and heaviest first
   * among equal sizes.
   */
  method SortHeadings(headings: array<Heading>)
    modifies headings
    ensures multiset(headings[..]) == old(multiset(headings[..]))
    ensures (forall h :: h in old(headings[..]) ==> Parsed(h.style)) ==>
      forall i, j :: 0 <= i < j < headings.Length ==> Before(headings[i].style, headings[j].style)
  {
    ghost var before := headings[..];
    if forall h :: h in before ==> Parsed(h.style) {
      OrderConsistent(before);
    }
    Sort(headings, Order);
    if forall h :: h in before ==> Parsed(h.style) {
      forall i, j | 0 <= i < j < headings.Length
        ensures Before(headings[i].style, headings[j].style)
      {
        assert headings[i] in multiset(headings[..]) && headings[j] in multiset(headings[..]);
        ComparerMatchesBefore(headings[i].style, headings[j].style);
      }
    }
  }
}

/**
 * What the panel's table template computes from a heading: its column titles
 * (`getColumns`) and the inline style that renders the sample text (`toStyleString`).
 */
module Report {
  import opened JsStrings
  import opened Fingerprint
  import opened Headings

  /** `getColumns`: the count column, one column per displayed property, the sample text. */
  function GetColumns(properties: seq<string>): (columns: seq<string>)
    ensures |columns| == |properties| + 2
    ensures columns[0] == "count" && columns[|columns| - 1] == "sample-text"
    ensures forall j :: 0 <= j < |properties| ==> columns[j + 1] == properties[j]
  {
    ["count"] + properties + ["sample-text"]
  }

  /** The table of headings has a column for each collected property, between count and sample text. */
  lemma TableColumns()
    ensures |GetColumns(CollectProperties)| == 12
    ensures forall p :: p in CollectProperties ==> p in GetColumns(CollectProperties)[1..11]
    ensures "count" !in CollectProperties && "sample-text" !in CollectProperties
  {
    var columns := GetColumns(CollectProperties);
    assert columns[1..11] == CollectProperties;
  }

  /** The `name:value;` declaration of each of `ks`, in the order of `ks`. */
  function Declarations(ks: seq<string>, style: Style): (ds: seq<string>)
    requires forall k :: k in ks ==> k in style
    ensures |ds| == |ks|
    ensures forall i :: 0 <= i < |ks| ==> ds[i] == ks[i] + ":" + style[ks[i]] + ";"
  {
    seq(|ks|, i requires 0 <= i < |ks| => ks[i] + ":" + style[ks[i]] + ";")
  }

  /**
   * `toStyleString`: the style's own properties as CSS declarations, each closed by `;`,
   * one after the other. `order` is the order in which `for ... in` visits the names,
   * which the model leaves open: each name once.
   */
  method ToStyleString(style: Style) returns (r: string, ghost order: seq<string>)
    ensures |order| == |style| && (forall k :: k in order <==> k in style)
    ensures forall i, j :: 0 <= i < j < |order| ==> order[i] != order[j]
    ensures r == Join(Declarations(order, style), "")
    ensures r == "" <==> style == map[]
    ensures style != map[] ==> r[|r| - 1] == ';'
  {
    var s: seq<string> := [];
    order := [];
    var rest := style.Keys;
    while rest != {}
      invariant rest <= style.Keys
      invariant |order| + |rest| == |style.Keys|
      invariant forall k :: k in order <==> k in style.Keys - rest
      invariant forall i, j :: 0 <= i < j < |order| ==> order[i] != order[j]
      invariant s == Declarations(order, style)
      decreases |rest|
    {
      var name :| name in rest;
      assert name !in order;
      s := s + [name + ":" + style[name] + ";"];
      order := order + [name];
      rest := rest - {name};
    }
    assert |style.Keys| == |style|;
    r := Join(s, "");
    if style != map[] {
      StyleStringOfOrder(style, order, r);
    }
  }

  /** Joining the declarations is joining the `name:value` pairs with `;` and closing the last one. */
  lemma {:induction false} DeclarationsArePairs(ks: seq<string>, style: Style)
    requires ks != [] && forall k :: k in ks ==> k in style
    ensures Join(Declarations(ks, style), "") == Join(Pairs(ks, style), ";") + ";"
  {
    var ds := Declarations(ks, style);
    var ps := Pairs(ks, style);
    if |ks| > 1 {
      DeclarationsArePairs(ks[1..], style);
      assert Declarations(ks[1..], style) == ds[1..];
      assert Pairs(ks[1..], style) == ps[1..];
      assert Join(ds, "") == ds[0] + "" + Join(ds[1..], "");
      assert Join(ps, ";") == ps[0] + ";" + Join(ps[1..], ";");
    }
  }

  /**
   * The inline style of a heading with properties is, whatever order the names come in,
   * the `name:value` pairs in that order joined by `;` and closed by one; visited in
   * ascending order it is the heading's fingerprint followed by `;`.
   */
  lemma StyleStringOfOrder(style: Style, order: seq<string>, r: string)
    requires style != map[] && (forall k :: k in order <==> k in style)
    requires forall i, j :: 0 <= i < j < |order| ==> order[i] != order[j]
    requires r == Join(Declarations(order, style), "")
    ensures r == Join(Pairs(order, style), ";") + ";"
    ensures Sorting.SortedBy(StringOrder.Compare, order) ==> r == Canonical(style) + ";"
  {
    assert order != [] by {
      var k :| k in style;
      assert k in order;
    }
    DeclarationsArePairs(order, style);
    DistinctMultiset(order, style.Keys);
    if Sorting.SortedBy(StringOrder.Compare, order) {
      CanonicalOfSortedKeys(order, style);
    }
  }
}

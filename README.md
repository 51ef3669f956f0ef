# type-o-matic heading report, modelled in Dafny

The type-o-matic Firebug panel (`firefox-plugin/src/content/csslint/firebugPanel.js`)
builds a report of the heading styles used on a page. It works in five steps:

1. It decides which elements are headings (`isHeading`).
2. For each heading it keeps the tag, a sample text cut to 256 characters
   with `...` appended when cut (`truncateString`), and a snapshot of ten computed text
   and font properties.
3. It folds headings whose snapshots are identical into one representative with a
   repeat `count` (`uniqueHeadings`). The key is a canonical fingerprint of the snapshot
   (`styleToCanonicalString`).
4. It sorts the representatives, largest font first and heaviest first among equal
   sizes (`headingComparer`).
5. It renders a table with one column per property (`getColumns`) and the sample text
   in the heading's own style (`toStyleString`).

This project models those steps and proves what each promises.

Module layout (one file each):

- `Wrappers`: `Option`, which stands for `NaN` and `undefined`.
- `JsStrings`: the JavaScript built-ins the panel relies on: `parseInt(s, 10)`,
  `trim() === ""`, `toLowerCase` on tag names, `join`.
- `StringOrder`: the order of `Array.prototype.sort()` without a comparator, as a total
  order on strings.
- `Sorting`: `Array.prototype.sort(cmp)` as an in-place sort on an `array`. Its result is
  a permutation of its input, in `cmp` order whenever `cmp` is a consistent order.
- `SampleText`: `truncateString`.
- `Fingerprint`: `styleToCanonicalString`, as a method with the source's steps (list the
  keys, sort them in place, push the pairs, join). It is proved equal to a function of
  the map's contents alone, whatever order the keys are listed in.
- `Tally`: the distinct fingerprints in first-seen order, where each was first seen, and
  how often each occurs.
- `Headings`: the `isHeading` decision, and the headings as objects whose `count` field
  the aggregation updates in place (`class Heading`). It also holds the aggregation loop
  and its invariants.
- `Ordering`: `headingComparer` on values that may be `NaN`, and the sort at line 331.
- `Report`: `getColumns` and `toStyleString`.

The model uses these conventions:

- A style snapshot is a `map<string, string>`.
- Wherever JavaScript enumerates an object's keys (`FBL.keys`, `for ... in`), the model
  picks the next key nondeterministically. This leaves the engine's order open, so every
  proof holds for any enumeration order.
- `parseInt` yields `Option<int>`, with `None` for `NaN`.
- `||` on numbers treats both `0` and `NaN` as falsy.
- The sort reads a `NaN` comparator result as `+0`.

## Model

| member | source | states |
|---|---|---|
| SampleText.TruncateString | firefox-plugin/src/content/csslint/firebugPanel.js:40-45 | a string of at most `n` characters comes back unchanged; a longer one becomes exactly `n + 3` characters ending in `...`; in both cases the first `min(|s|, n)` characters are kept |
| SampleText.SampleTextBounded | firefox-plugin/src/content/csslint/firebugPanel.js:151 | a heading's sample text, cut at `EXAMPLE_TEXT_MAXCHARS` (256), is never longer than 259 characters |
| SampleText.TruncationCanBeInvisible | firefox-plugin/src/content/csslint/firebugPanel.js:40-45 | a text longer than `n` can come back unchanged (`"abc..."` cut at 3), so "unchanged" does not mean "not cut" |
| JsStrings.TrimStart | firefox-plugin/src/content/csslint/firebugPanel.js:88 | the result is a suffix of the input, everything dropped is white space, and the result does not start with white space |
| JsStrings.IsBlank | firefox-plugin/src/content/csslint/firebugPanel.js:88 | `trim() === ""` holds exactly when every character is white space |
| JsStrings.DigitPrefix | firefox-plugin/src/content/csslint/firebugPanel.js:207-214 | the longest run of decimal digits at the start of a string: a prefix, all digits, and not followed by a digit |
| JsStrings.ParseIntOfIntToString | firefox-plugin/src/content/csslint/firebugPanel.js:207-214 | `parseInt` reads back any printed integer followed by a unit that does not start with a digit (`"16px"` gives 16, `"700"` gives 700) |
| JsStrings.ParseIntSkipsWhiteSpace | firefox-plugin/src/content/csslint/firebugPanel.js:207-214 | `parseInt` (`JsStrings.ParseInt`) reads the same number whatever white space precedes it |
| JsStrings.ParseIntIsNaN | firefox-plugin/src/content/csslint/firebugPanel.js:207-214 | `parseInt` gives `NaN` exactly when no digit follows the leading white space and an optional sign |
| JsStrings.ToLowerAsciiLowers | firefox-plugin/src/content/csslint/firebugPanel.js:73 | the lower-cased tag name (`JsStrings.ToLowerAscii`) holds no letter `A`-`Z`; lower-casing twice changes nothing more; a name without upper-case letters is left as it is |
| StringOrder.Compare | firefox-plugin/src/content/csslint/firebugPanel.js:57 | the default sort comparison is negative, zero or positive exactly when the first string is smaller, equal or larger |
| StringOrder.LessTransitive | firefox-plugin/src/content/csslint/firebugPanel.js:57 | the string order is transitive |
| StringOrder.LessTrichotomy | firefox-plugin/src/content/csslint/firebugPanel.js:57 | of two strings exactly one is smaller, or they are equal |
| StringOrder.CompareTransitive | firefox-plugin/src/content/csslint/firebugPanel.js:57 | `Compare(a, b) <= 0` and `Compare(b, c) <= 0` give `Compare(a, c) <= 0` |
| Sorting.Sort | firefox-plugin/src/content/csslint/firebugPanel.js:331 | the sorted array is a permutation of the input, and whenever the comparator is a consistent order on the input, no element comes after one that the comparator says must follow it |
| Fingerprint.Keys | firefox-plugin/src/content/csslint/firebugPanel.js:54 | `FBL.keys(style)` lists every property name exactly once, in an order the model leaves open |
| Fingerprint.SortedKeys | firefox-plugin/src/content/csslint/firebugPanel.js:57 | the names of a style in strictly ascending order, each once |
| Fingerprint.SortedIsUnique | firefox-plugin/src/content/csslint/firebugPanel.js:57 | two ascending arrangements of the same names are the same sequence, so the order of the keys after `keys.sort()` does not depend on the order `FBL.keys` gave |
| Fingerprint.CanonicalOfSortedKeys | firefox-plugin/src/content/csslint/firebugPanel.js:57-62 | rendering any ascending arrangement of a style's names as `name:value` joined by `;` gives the fingerprint, `Fingerprint.Canonical`: the pairs of the ascending names joined by `;` |
| Fingerprint.StyleToCanonicalString | firefox-plugin/src/content/csslint/firebugPanel.js:52-63 | whatever order the keys are listed in, the result is the fingerprint, a function of the map's contents only |
| Fingerprint.JoinInjective | firefox-plugin/src/content/csslint/firebugPanel.js:62 | `join(";")` (`JsStrings.Join`) over one or more parts that hold no `;` loses nothing: equal joins of two such non-empty part lists come from equal parts (`[]` and `[""]` both join to `""`) |
| Fingerprint.JoinOccurrences | firefox-plugin/src/content/csslint/firebugPanel.js:62 | the joined text holds each character as often as the parts do, and the separator `|parts| - 1` times more |
| Fingerprint.CanonicalEmptyIff | firefox-plugin/src/content/csslint/firebugPanel.js:52-63 | the fingerprint is empty exactly for the empty style |
| Fingerprint.CanonicalHasColon | firefox-plugin/src/content/csslint/firebugPanel.js:60-62 | the fingerprint of a non-empty style contains `:` |
| Fingerprint.CanonicalOfOne | firefox-plugin/src/content/csslint/firebugPanel.js:58-62 | the fingerprint of a style with one property is its `name:value` pair |
| Fingerprint.CanonicalSeparators | firefox-plugin/src/content/csslint/firebugPanel.js:58-62 | for a style of `m >= 1` properties whose names and values hold no `:` or `;`, the fingerprint has exactly `m` colons and `m - 1` semicolons |
| Fingerprint.CanonicalInjective | firefox-plugin/src/content/csslint/firebugPanel.js:173-174 | for such styles, equal fingerprints mean equal styles and the converse, so keying the table by fingerprint merges exactly the identical snapshots |
| Fingerprint.CanonicalOfTwo | firefox-plugin/src/content/csslint/firebugPanel.js:58-62 | the fingerprint of a style with names `a < b` is `a:x;b:y` |
| Fingerprint.FingerprintCollision | firefox-plugin/src/content/csslint/firebugPanel.js:60-62 | without that condition two different styles can share a fingerprint, when a value contains `;b:` |
| Tally.Distinct | firefox-plugin/src/content/csslint/firebugPanel.js:171-181 | the distinct fingerprints hold exactly the fingerprints of the input, each once (their order: `Tally.DistinctInFirstSeenOrder`) |
| Tally.DistinctInFirstSeenOrder | firefox-plugin/src/content/csslint/firebugPanel.js:171-181 | the distinct fingerprints come in the order in which each first occurs |
| Tally.FirstIndex | firefox-plugin/src/content/csslint/firebugPanel.js:174-176 | the position where a fingerprint first occurs |
| Tally.CountsAddUp | firefox-plugin/src/content/csslint/firebugPanel.js:171-181 | the occurrence counts of the distinct fingerprints add up to the number of inputs |
| Tally.CountsPositive | firefox-plugin/src/content/csslint/firebugPanel.js:174-176 | every distinct fingerprint occurs at least once |
| Headings.IsHeading | firefox-plugin/src/content/csslint/firebugPanel.js:81-111 | an element is a heading exactly when its lower-cased tag is `h1`-`h6` or `header`, or when its tag is not `script` or `style`, its first child is non-blank text, and every trigger property differs from the probe element's |
| Headings.UpperCaseTagsRecognised | firefox-plugin/src/content/csslint/firebugPanel.js:73-84 | the upper-case tag names an HTML document reports are recognised: `H1`-`H6` and `HEADER` lower-case to header tags, `SCRIPT` and `STYLE` to skipped tags |
| Headings.Heading.constructor | firefox-plugin/src/content/csslint/firebugPanel.js:149-153 | a collected heading holds its tag, text and style, not yet counted |
| Headings.TotalCountIsSumCounts | firefox-plugin/src/content/csslint/firebugPanel.js:176-178 | when each representative's count is its fingerprint's occurrence count, the counts add up to the sum of those occurrence counts |
| Headings.FingerprintNotInherited | firefox-plugin/src/content/csslint/firebugPanel.js:167-174 | a fingerprint is empty or contains `:`, which no inherited property name does; in particular it is none of the names a Firefox `{}` inherits (`Object.prototype`'s and `toSource`, `watch`, `unwatch`), so `!unique[key]` is true exactly when `key` has not been stored yet |
| Headings.RecordNew | firefox-plugin/src/content/csslint/firebugPanel.js:174-176 | a new fingerprint adds one table entry, the current heading with count 1, and leaves every other count alone |
| Headings.RecordRepeat | firefox-plugin/src/content/csslint/firebugPanel.js:177-178 | a repeated fingerprint adds one to exactly its representative's count and changes nothing else |
| Headings.Step | firefox-plugin/src/content/csslint/firebugPanel.js:172-179 | one turn of the loop keeps the invariant: the table maps each fingerprint seen so far to the first heading that had it, whose count is the number of headings so far with that fingerprint |
| Headings.Aggregate | firefox-plugin/src/content/csslint/firebugPanel.js:171-180 | after the loop the invariant holds for all headings, and headings that repeat an earlier fingerprint keep their count |
| Headings.Representatives | firefox-plugin/src/content/csslint/firebugPanel.js:181 | the values of the finished table, in first-seen order, are one heading per distinct fingerprint: the first heading with it, counted as often as the fingerprint occurs, at least once |
| Headings.RepresentativesTotal | firefox-plugin/src/content/csslint/firebugPanel.js:171-181 | the representatives' counts add up to the number of headings |
| Headings.UniqueHeadings | firefox-plugin/src/content/csslint/firebugPanel.js:164-182 | one representative per distinct fingerprint, the first heading that had it, never replaced; its count is the number of headings with that fingerprint, at least 1; the representatives come in the order their fingerprints were first seen; the counts add up to the number of headings; later duplicates keep their count |
| Ordering.CompareKnown | firefox-plugin/src/content/csslint/firebugPanel.js:218-219 | on numeric sizes and weights the comparer is `<= 0` exactly when `a` is larger, or as large and at least as heavy; it is `0` exactly when both are equal; swapping the arguments negates it |
| Ordering.LargerFontFirst | firefox-plugin/src/content/csslint/firebugPanel.js:218 | a larger font size sorts first, whatever the weights |
| Ordering.EqualSizeHeavierFirst | firefox-plugin/src/content/csslint/firebugPanel.js:218-219 | between equal font sizes the weights decide, and the heavier sorts first |
| Ordering.UnknownSizeFallsBack | firefox-plugin/src/content/csslint/firebugPanel.js:207-219 | a font size that parses to `NaN` leaves the decision to the weights |
| Ordering.CompareReadIsNaN | firefox-plugin/src/content/csslint/firebugPanel.js:218-219 | the size difference, or failing that the weight difference (`Ordering.CompareRead`, with `Ordering.Minus` and `Ordering.Or` for JavaScript's `-` and logical or on `NaN`), is `NaN` exactly when the sizes are not two different numbers and the weights are not both numbers; the sort (`Ordering.SortValue`) then reads it as `0` |
| Ordering.CompareReadSwapped | firefox-plugin/src/content/csslint/firebugPanel.js:218-219 | on any sizes and weights, `NaN` included, swapping the two sides negates the comparer as the sort reads it, and a side compared with itself gives `0` |
| Ordering.HeadingComparerSwapped | firefox-plugin/src/content/csslint/firebugPanel.js:204-221 | `headingComparer` (`Ordering.HeadingComparer`, on styles `Ordering.Comparer`) gives `0` for a heading against itself and is negated by swapping its arguments, for every pair of headings |
| Ordering.FontSizeOfPixels | firefox-plugin/src/content/csslint/firebugPanel.js:207-208 | a computed font size `<n>px` reads as `n` (`Ordering.FontSize`); a missing one reads as `NaN` |
| Ordering.FontWeightOfNumber | firefox-plugin/src/content/csslint/firebugPanel.js:209-214 | a numeric font weight reads as its number (`Ordering.FontWeight`), `bold` as `BOLD_WEIGHT`, a missing one as `NaN` |
| Ordering.BoldIsSevenHundred | firefox-plugin/src/content/csslint/firebugPanel.js:213-214 | the weight `bold` reads exactly like `700` (`BOLD_WEIGHT`, line 10) |
| Ordering.ComparerMatchesBefore | firefox-plugin/src/content/csslint/firebugPanel.js:204-221 | when sizes and weights parse, the comparer is `<= 0` exactly when `a` belongs before `b` by the documented order; it is `0` exactly on equal size and weight, so `compare(a, a) == 0`; and `compare(a, b) == -compare(b, a)` |
| Ordering.UnparsedWeightBreaksOrder | firefox-plugin/src/content/csslint/firebugPanel.js:213-219 | a `NaN` weight can make the comparer inconsistent: next to two headings of its size whose weights parse and differ, no order satisfies it on all pairs |
| Ordering.NormalWeightBreaksOrder | firefox-plugin/src/content/csslint/firebugPanel.js:213-214 | three 16px headings weighted `normal`, `bold` and `400` are such a case |
| Ordering.OrderConsistent | firefox-plugin/src/content/csslint/firebugPanel.js:204-221 | on headings whose sizes and weights all parse, the comparer is a consistent order: total and transitive |
| Ordering.OrderTransitive | firefox-plugin/src/content/csslint/firebugPanel.js:204-221 | on such headings `compare(a, b) <= 0` and `compare(b, c) <= 0` give `compare(a, c) <= 0` |
| Ordering.SortHeadings | firefox-plugin/src/content/csslint/firebugPanel.js:331 | `headings.sort(headingComparer)` keeps the same headings; when every size and weight parses, they end up largest font first, and heaviest first among equal sizes |
| Report.GetColumns | firefox-plugin/src/content/csslint/firebugPanel.js:315-317 | the columns are `count`, then the properties in order, then `sample-text`, `|p| + 2` in all |
| Report.TableColumns | firefox-plugin/src/content/csslint/firebugPanel.js:315-317 | with the ten collected properties (lines 18-29) the table has 12 columns, every property among the middle ten, and no property is named `count` or `sample-text` |
| Report.ToStyleString | firefox-plugin/src/content/csslint/firebugPanel.js:320-328 | the inline style joins one `name:value;` declaration (`Report.Declarations`) per property of the style, each property once, in the order `for ... in` visits them; it is empty exactly for the empty style and otherwise ends in `;` |
| Report.DeclarationsArePairs | firefox-plugin/src/content/csslint/firebugPanel.js:324-327 | for one or more names, the joined declarations are the `name:value` pairs joined by `;`, with a closing `;` (no names give `""`) |
| Report.StyleStringOfOrder | firefox-plugin/src/content/csslint/firebugPanel.js:320-328 | for a non-empty style, the inline style is the pairs in visiting order joined by `;` and closed by one; when the names are visited in ascending order it is the fingerprint followed by `;` |

## Left out

- The DOM is left out: the tree walk and computed-style lookups in `collectHeadings`
  (lines 121-157), the injected probe element in `isHeading` (lines 98-104), and
  `createDummyNode`. Their results are inputs: the list of headings, the first child's
  text, and the probe's and the node's computed styles.
- How `collectHeadings` builds each heading's style (lines 138-146) is left out too. The
  aggregation takes any styles, and each heading is a fresh object. `UniqueHeadings`
  therefore requires its input headings to be distinct objects.
- The Firebug glue is left out: module and panel registration, the panel lifecycle,
  stylesheet injection, and the domplate template with its `setIndex`/`getByIndex`
  helper. This is framework plumbing over a library that is not part of this model.
- `FBL.values` (line 181) is not part of this model. It is taken to list the table in
  insertion order, which is what `UniqueHeadings` returns.
- Strings are sequences of Unicode scalar values, not UTF-16 code units. A character
  above U+FFFF is one element here and two code units in JavaScript, so `length`,
  `substr` and the sort order of strings agree with the source only for strings of BMP
  characters.
- JsStrings.ToLowerAscii: lower-cases only `A`-`Z`, which is all an HTML tag name holds.
  It is weaker than `toLowerCase` on arbitrary text.
- JsStrings.ParseInt: yields mathematical integers. It does not model that a very long
  digit string loses precision as a double. It also reads `"-0"` as `0` rather than
  `-0`, a difference the comparer cannot see.
- Sorting.Sort: an insertion sort stands for the engine's sort, whose algorithm is not
  specified. ES5 does not require the sort to be stable, and stability is not modelled.
  Only permutation and order under a consistent comparator are kept.
- Ordering.SortHeadings: claims the display order only when every font size and weight
  parses. With a `NaN` weight the comparator can be inconsistent
  (`Ordering.UnparsedWeightBreaksOrder`), and the resulting order then depends on the
  engine.
- Report.ToStyleString: the `hasOwnProperty` test always passes on a style snapshot,
  which has no inherited enumerable names. The visiting order of `for ... in` is left
  open.
- Colour conversion to hue, saturation and lightness, the white/gray/black/colour
  buckets, the hue comparator and pseudo-state expansion are left out. None of them
  appears in `firebugPanel.js`.
- Lines 18-29 collect ten properties, and `text-shadow` is not among them.
- The sample text is truncated (line 151) and never trimmed.
- The comment above `headingComparer` (line 202) promises `-1`, `0` or `1`, but the code
  returns the raw differences of sizes or weights. The model follows the code; the sort
  reads only the sign, and the sign is what `Ordering.ComparerMatchesBefore` states.

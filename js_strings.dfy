/**
 * The JavaScript built-ins on strings that the panel relies on: `parseInt(s, 10)`,
 * `String.prototype.trim`, `toLowerCase` on tag names and `Array.prototype.join`.
 * Strings are sequences of Unicode scalar values here, not of UTF-16 code units.
 */
module JsStrings {
  import opened Wrappers

  /** The characters `trim` and `parseInt` skip: ECMAScript WhiteSpace and LineTerminator. */
  predicate IsWhiteSpace(c: char) {
    || c == '\t' || c == '\n' || c == '\U{B}' || c == '\U{C}' || c == '\r' || c == ' '
    || c == '\U{A0}' || c == '\U{1680}' || ('\U{2000}' <= c <= '\U{200A}')
    || c == '\U{2028}' || c == '\U{2029}' || c == '\U{202F}' || c == '\U{205F}'
    || c == '\U{3000}' || c == '\U{FEFF}'
  }

  predicate IsDigit(c: char) {
    '0' <= c <= '9'
  }

  predicate AllDigits(d: string) {
    forall i :: 0 <= i < |d| ==> IsDigit(d[i])
  }

  /** `s` without its leading white space. */
  function TrimStart(s: string): (r: string)
    ensures |r| <= |s| && r == s[|s| - |r|..]
    ensures forall i :: 0 <= i < |s| - |r| ==> IsWhiteSpace(s[i])
    ensures r == [] || !IsWhiteSpace(r[0])
  {
    if s != [] && IsWhiteSpace(s[0]) then TrimStart(s[1..]) else s
  }

  /** `s.trim() === ""`: the string holds nothing but white space. */
  predicate IsBlank(s: string)
    ensures IsBlank(s) <==> forall i :: 0 <= i < |s| ==> IsWhiteSpace(s[i])
  {
    TrimStart(s) == []
  }

  /** The longest prefix of `s` made of decimal digits. */
  function DigitPrefix(s: string): (d: string)
    ensures |d| <= |s| && d == s[..|d|]
    ensures AllDigits(d)
    ensures |d| == |s| || !IsDigit(s[|d|])
  {
    if s != [] && IsDigit(s[0]) then [s[0]] + DigitPrefix(s[1..]) else []
  }

  /** The number a string of decimal digits denotes. */
  function DigitsValue(d: string): (n: nat)
    requires AllDigits(d)
  {
    if d == [] then 0 else DigitsValue(d[..|d| - 1]) * 10 + (d[|d| - 1] as int - '0' as int)
  }

  /**
   * `parseInt(s, 10)`: leading white space is skipped, one `+` or `-` is read, then the
   * longest run of decimal digits; `None` stands for `NaN` (no digit at that point).
   */
  function ParseInt(s: string): Option<int> {
    ParseSigned(TrimStart(s))
  }

  /** `parseInt` from its sign on. */
  function ParseSigned(t: string): Option<int> {
    if t != [] && t[0] == '-' then Negate(ParseDigits(t[1..]))
    else if t != [] && t[0] == '+' then ParseDigits(t[1..])
    else ParseDigits(t)
  }

  /** `parseInt` from its digits on. */
  function ParseDigits(u: string): Option<int> {
    var d := DigitPrefix(u);
    if d == [] then None else Some(DigitsValue(d))
  }

  function Negate(x: Option<int>): Option<int> {
    if x.Some? then Some(-x.value) else None
  }

  /** The decimal digits JavaScript prints for a natural number. */
  function NatToDigits(n: nat): (d: string)
    ensures d != [] && AllDigits(d)
  {
    var last := ['0' + (n % 10) as char];
    if n < 10 then last else NatToDigits(n / 10) + last
  }

  /** `String(n)` for an integer `n`. */
  function IntToString(n: int): string {
    if n < 0 then "-" + NatToDigits(-n) else NatToDigits(n)
  }

  lemma {:induction false} DigitsValueOfNatToDigits(n: nat)
    ensures DigitsValue(NatToDigits(n)) == n
  {
    var d := NatToDigits(n);
    if n >= 10 {
      DigitsValueOfNatToDigits(n / 10);
      assert d[..|d| - 1] == NatToDigits(n / 10);
    }
  }

  lemma {:induction false} DigitPrefixOfDigits(d: string, rest: string)
    requires AllDigits(d)
    requires rest == [] || !IsDigit(rest[0])
    ensures DigitPrefix(d + rest) == d
  {
    if d != [] {
      assert (d + rest)[1..] == d[1..] + rest;
      DigitPrefixOfDigits(d[1..], rest);
    }
  }

  /**
   * Reading back a printed integer followed by a unit (`"16px"`, `"700"`) gives the
   * integer: `parseInt(String(n) + unit, 10) == n` whenever the unit does not start
   * with a digit.
   */
  lemma ParseIntOfIntToString(n: int, unit: string)
    requires unit == [] || !IsDigit(unit[0])
    ensures ParseInt(IntToString(n) + unit) == Some(n)
  {
    var m: nat := if n < 0 then -n else n;
    var d := NatToDigits(m);
    DigitsValueOfNatToDigits(m);
    ParseDigitsUnit(d, unit);
    if n < 0 {
      assert IntToString(n) + unit == "-" + (d + unit);
      ParseMinus(d + unit);
    } else {
      assert IntToString(n) + unit == d + unit;
      ParseDigitFirst(d + unit);
    }
  }

  /** A string that starts with `-` parses as the negated digits after it. */
  lemma ParseMinus(u: string)
    ensures ParseInt("-" + u) == Negate(ParseDigits(u))
  {
    var s := "-" + u;
    assert s[0] == '-' && s[1..] == u;
    assert !IsWhiteSpace(s[0]);
    assert TrimStart(s) == s;
  }

  /** A string that starts with a digit parses as its digits. */
  lemma ParseDigitFirst(s: string)
    requires s != [] && IsDigit(s[0])
    ensures ParseInt(s) == ParseDigits(s)
  {
    assert !IsWhiteSpace(s[0]) && s[0] != '-' && s[0] != '+';
    assert TrimStart(s) == s;
  }

  /** The digits of digits followed by a unit. */
  lemma ParseDigitsUnit(d: string, unit: string)
    requires d != [] && AllDigits(d) && (unit == [] || !IsDigit(unit[0]))
    ensures ParseDigits(d + unit) == Some(DigitsValue(d))
  {
    DigitPrefixOfDigits(d, unit);
  }

  /** `toLowerCase` restricted to the ASCII letters that HTML tag names are made of. */
  function ToLowerAscii(s: string): (r: string)
    ensures |r| == |s|
    ensures forall i :: 0 <= i < |s| ==>
      r[i] == if 'A' <= s[i] <= 'Z' then (s[i] as int + 32) as char else s[i]
  {
    seq(|s|, i requires 0 <= i < |s| => if 'A' <= s[i] <= 'Z' then (s[i] as int + 32) as char else s[i])
  }

  predicate IsUpperAscii(c: char) {
    'A' <= c <= 'Z'
  }

  /**
   * Lower-casing leaves no upper-case ASCII letter, is idempotent, and changes nothing in
   * a name that has none: `"H1"` and `"h1"` are the same tag.
   */
  lemma ToLowerAsciiLowers(s: string)
    ensures forall i :: 0 <= i < |s| ==> !IsUpperAscii(ToLowerAscii(s)[i])
    ensures ToLowerAscii(ToLowerAscii(s)) == ToLowerAscii(s)
    ensures (forall i :: 0 <= i < |s| ==> !IsUpperAscii(s[i])) ==> ToLowerAscii(s) == s
  {
  }

  /** Leading white space does not change what `parseInt` reads. */
  lemma ParseIntSkipsWhiteSpace(w: string, s: string)
    requires forall i :: 0 <= i < |w| ==> IsWhiteSpace(w[i])
    ensures ParseInt(w + s) == ParseInt(s)
  {
    TrimStartSkips(w, s);
  }

  lemma {:induction false} TrimStartSkips(w: string, s: string)
    requires forall i :: 0 <= i < |w| ==> IsWhiteSpace(w[i])
    ensures TrimStart(w + s) == TrimStart(s)
  {
    if w != [] {
      var ws := w + s;
      assert ws[0] == w[0] && IsWhiteSpace(ws[0]);
      assert ws[1..] == w[1..] + s;
      assert TrimStart(ws) == TrimStart(ws[1..]);
      TrimStartSkips(w[1..], s);
    } else {
      assert w + s == s;
    }
  }

  /** `parseInt` gives `NaN` exactly when no digit follows the white space and the optional sign. */
  lemma ParseIntIsNaN(s: string)
    ensures var t := TrimStart(s);
      var u := if t != [] && (t[0] == '-' || t[0] == '+') then t[1..] else t;
      ParseInt(s).None? <==> u == [] || !IsDigit(u[0])
  {
  }

  /** `parts.join(sep)`. */
  function Join(parts: seq<string>, sep: string): string {
    if |parts| == 0 then ""
    else if |parts| == 1 then parts[0]
    else parts[0] + sep + Join(parts[1..], sep)
  }
}

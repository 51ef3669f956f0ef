/** The sample text shown for a heading: its text content cut to a fixed length. */
module SampleText {

  /** `EXAMPLE_TEXT_MAXCHARS`: how many characters of a heading's text the report keeps. */
  const ExampleTextMaxChars: nat := 256

  const Ellipsis: string := "..."

  /** `truncateString(s, n)`: strings longer than `n` are cut to `n` characters and marked with an ellipsis. */
  function TruncateString(s: string, n: nat): (r: string)
    ensures |s| <= n ==> r == s
    ensures |s| > n ==> |r| == n + |Ellipsis| && r[n..] == Ellipsis
    ensures var kept := if |s| <= n then |s| else n; kept <= |r| && r[..kept] == s[..kept]
  {
    if |s| > n then s[..n] + Ellipsis else s
  }

  /** Whatever the text content, the sample text is at most 259 characters long. */
  lemma SampleTextBounded(textContent: string)
    ensures |TruncateString(textContent, ExampleTextMaxChars)| <= ExampleTextMaxChars + |Ellipsis|
  {
  }

  /**
   * Truncating does not always change the string: a text of exactly `n + 3` characters
   * that already ends in "..." comes back as it was, although it is longer than `n`.
   */
  lemma TruncationCanBeInvisible()
    ensures TruncateString("abc...", 3) == "abc..."
  {
  }
}

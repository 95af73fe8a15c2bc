/**
 * Ordinal, case-insensitive string comparison, over the ASCII letters.
 */
module Text {

  function ToLowerAscii(c: char): char {
    if 'A' <= c <= 'Z' then (c as int + 32) as char else c
  }

  function ToLower(s: string): string {
    seq(|s|, i requires 0 <= i < |s| => ToLowerAscii(s[i]))
  }

  /** `StringComparison.OrdinalIgnoreCase` equality. */
  predicate EqualsIgnoreCase(a: string, b: string) {
    ToLower(a) == ToLower(b)
  }

  /** `Contains(s, StringComparer.OrdinalIgnoreCase)` over a list of strings. */
  predicate ContainsIgnoreCase(xs: seq<string>, s: string) {
    exists x :: x in xs && EqualsIgnoreCase(x, s)
  }

  /** Two characters are equal, or are the same ASCII letter in upper and lower case. */
  predicate SameLetterIgnoringCase(c: char, d: char) {
    || c == d
    || ('A' <= c <= 'Z' && d as int == c as int + 32)
    || ('A' <= d <= 'Z' && c as int == d as int + 32)
  }

  /**
   * Case-insensitive equality holds exactly for strings of the same length
   * that agree at every position up to the case of an ASCII letter.
   */
  lemma EqualsIgnoreCaseIff(a: string, b: string)
    ensures EqualsIgnoreCase(a, b) <==>
              |a| == |b| && forall i :: 0 <= i < |a| ==> SameLetterIgnoringCase(a[i], b[i])
  {
    if EqualsIgnoreCase(a, b) {
      forall i | 0 <= i < |a|
        ensures SameLetterIgnoringCase(a[i], b[i])
      {
        assert ToLower(a)[i] == ToLower(b)[i];
      }
    }
    if |a| == |b| && forall i :: 0 <= i < |a| ==> SameLetterIgnoringCase(a[i], b[i]) {
      assert ToLower(a) == ToLower(b);
    }
  }

  /** Example: identifiers that differ only in the case of ASCII letters compare equal. */
  lemma EqualsIgnoreCaseExample()
    ensures EqualsIgnoreCase(".NET Framework", ".net FRAMEWORK")
    ensures !EqualsIgnoreCase(".NET Framework", ".NET Core")
  {
    assert ToLower(".NET Framework") == ToLower(".net FRAMEWORK");
    assert ToLower(".NET Framework")[5] != ToLower(".NET Core")[5];
  }
}

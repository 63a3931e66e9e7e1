/**
 * Kotlin's `String.contains(other, ignoreCase = true)`.
 *
 * Two characters are equal ignoring case when they are equal, when their
 * upper-case forms are equal, or when the lower-case forms of their upper-case
 * forms are equal (Kotlin's `Char.equals(other, ignoreCase = true)`). The
 * needle is found when it matches, character by character, the region of the
 * haystack starting at some index (`indexOf(...) >= 0`).
 *
 * The case mapping covers the Latin letters of ASCII and the basic Cyrillic
 * block (U+0400 to U+045F); every other character maps to itself.
 */
module IgnoreCase {

  /** `Char.uppercaseChar()` on the modelled alphabet. */
  function UpperChar(c: char): (u: char)
    ensures u == c || ('a' <= c <= 'z') || ('\U{0430}' <= c <= '\U{045F}')
  {
    if 'a' <= c <= 'z' then (c as int - 32) as char
    else if '\U{0430}' <= c <= '\U{044F}' then (c as int - 32) as char
    else if '\U{0450}' <= c <= '\U{045F}' then (c as int - 80) as char
    else c
  }

  /** `Char.lowercaseChar()` on the modelled alphabet. */
  function LowerChar(c: char): (l: char)
    ensures l == c || ('A' <= c <= 'Z') || ('\U{0400}' <= c <= '\U{042F}')
    ensures UpperChar(l) == UpperChar(c)
  {
    if 'A' <= c <= 'Z' then (c as int + 32) as char
    else if '\U{0410}' <= c <= '\U{042F}' then (c as int + 32) as char
    else if '\U{0400}' <= c <= '\U{040F}' then (c as int + 80) as char
    else c
  }

  /** `Char.equals(other, ignoreCase = true)`. */
  predicate CharEqualsIgnoreCase(a: char, b: char)
  {
    a == b
    || UpperChar(a) == UpperChar(b)
    || LowerChar(UpperChar(a)) == LowerChar(UpperChar(b))
  }

  /**
   * `s` with each character replaced by its `uppercaseChar()`. This is not
   * `String.uppercase()`, which may change the length (ß becomes SS); it only
   * serves to state that comparisons ignoring case do not see case.
   */
  function UpperEachChar(s: string): string
  {
    seq(|s|, i requires 0 <= i < |s| => UpperChar(s[i]))
  }

  /** The needle matches the haystack's region that starts at index `i`. */
  predicate RegionMatches(hay: string, i: int, needle: string)
  {
    0 <= i && i + |needle| <= |hay|
    && forall j :: 0 <= j < |needle| ==> CharEqualsIgnoreCase(hay[i + j], needle[j])
  }

  /** `hay.contains(needle, ignoreCase = true)`. */
  predicate ContainsIgnoreCase(hay: string, needle: string)
    ensures ContainsIgnoreCase(hay, needle) ==> |needle| <= |hay|
  {
    exists i :: 0 <= i <= |hay| - |needle| && RegionMatches(hay, i, needle)
  }

  /** Upper-casing maps every character to a fixed point of upper-casing. */
  lemma UpperCharIdempotent(c: char)
    ensures UpperChar(UpperChar(c)) == UpperChar(c)
  {
  }

  /** Comparing ignoring case is reflexive and symmetric. */
  lemma CharEqualsIgnoreCaseSymmetric(a: char, b: char)
    ensures CharEqualsIgnoreCase(a, a)
    ensures CharEqualsIgnoreCase(a, b) == CharEqualsIgnoreCase(b, a)
  {
  }

  /** Replacing a character by its upper-case form never changes a comparison ignoring case. */
  lemma CharEqualsUppercase(a: char, b: char)
    ensures CharEqualsIgnoreCase(a, UpperChar(b)) == CharEqualsIgnoreCase(a, b)
  {
    UpperCharIdempotent(b);
  }

  /** Upper-casing each character of the needle never changes whether it is found. */
  lemma ContainsUppercaseNeedle(hay: string, needle: string)
    ensures ContainsIgnoreCase(hay, UpperEachChar(needle)) == ContainsIgnoreCase(hay, needle)
  {
    var up := UpperEachChar(needle);
    forall i: int
      ensures RegionMatches(hay, i, up) == RegionMatches(hay, i, needle)
    {
      if 0 <= i && i + |needle| <= |hay| {
        forall j | 0 <= j < |needle|
          ensures CharEqualsIgnoreCase(hay[i + j], up[j]) == CharEqualsIgnoreCase(hay[i + j], needle[j])
        {
          CharEqualsUppercase(hay[i + j], needle[j]);
        }
      }
    }
  }

  /** Upper-casing each character of the haystack never changes whether the needle is found. */
  lemma ContainsUppercaseHaystack(hay: string, needle: string)
    ensures ContainsIgnoreCase(UpperEachChar(hay), needle) == ContainsIgnoreCase(hay, needle)
  {
    var up := UpperEachChar(hay);
    forall i: int
      ensures RegionMatches(up, i, needle) == RegionMatches(hay, i, needle)
    {
      if 0 <= i && i + |needle| <= |hay| {
        forall j | 0 <= j < |needle|
          ensures CharEqualsIgnoreCase(up[i + j], needle[j]) == CharEqualsIgnoreCase(hay[i + j], needle[j])
        {
          CharEqualsIgnoreCaseSymmetric(up[i + j], needle[j]);
          CharEqualsIgnoreCaseSymmetric(hay[i + j], needle[j]);
          CharEqualsUppercase(needle[j], hay[i + j]);
        }
      }
    }
  }

  /** Every string contains the empty string and itself; no string contains a longer one. */
  lemma ContainsBasics(hay: string, needle: string)
    ensures ContainsIgnoreCase(hay, "")
    ensures ContainsIgnoreCase(hay, hay)
    ensures |needle| > |hay| ==> !ContainsIgnoreCase(hay, needle)
  {
    assert RegionMatches(hay, 0, "");
    forall j | 0 <= j < |hay| ensures CharEqualsIgnoreCase(hay[0 + j], hay[j]) {
      CharEqualsIgnoreCaseSymmetric(hay[j], hay[j]);
    }
    assert RegionMatches(hay, 0, hay);
  }
}

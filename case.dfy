/**
 * `lowercase`: Python's `str.lower`, restricted to the ASCII letters.
 *
 * Each character is mapped on its own; `A`..`Z` become `a`..`z` and every
 * other character, whitespace and Sinhala script included, is unchanged.
 */
module Case {
  import opened Whitespace

  predicate IsUpper(c: char) {
    'A' <= c <= 'Z'
  }

  predicate IsAscii(s: string) {
    forall i :: 0 <= i < |s| ==> s[i] <= '\U{7F}'
  }

  /** No character of `s` is changed by lowercasing. */
  predicate NoUpper(s: string) {
    forall i :: 0 <= i < |s| ==> !IsUpper(s[i])
  }

  function LowerChar(c: char): (d: char)
    ensures !IsUpper(d)
    ensures IsUpper(c) ==> d != c && d as int - c as int == 'a' as int - 'A' as int
    ensures !IsUpper(c) ==> d == c
  {
    if IsUpper(c) then (c as int - 'A' as int + 'a' as int) as char else c
  }

  /** `text.lower()`, character by character. */
  function Lowercase(s: string): (r: string)
    ensures |r| == |s|
    ensures NoUpper(r)
    ensures forall i :: 0 <= i < |s| && !IsUpper(s[i]) ==> r[i] == s[i]
    ensures forall i :: 0 <= i < |s| && IsUpper(s[i]) ==> r[i] as int == s[i] as int + ('a' as int - 'A' as int)
  {
    seq(|s|, i requires 0 <= i < |s| => LowerChar(s[i]))
  }

  /** Lowercasing changes a string exactly when it holds an upper-case letter. */
  lemma LowercaseFixedPoints(s: string)
    ensures Lowercase(s) == s <==> NoUpper(s)
  {
  }

  /** Lowercasing is idempotent. */
  lemma LowercaseIdempotent(s: string)
    ensures Lowercase(Lowercase(s)) == Lowercase(s)
  {
    LowercaseFixedPoints(Lowercase(s));
  }

  /** Lowercasing neither creates nor removes whitespace, and keeps ASCII text ASCII. */
  lemma LowercaseKeepsWhitespaceAndAscii(s: string)
    ensures forall i :: 0 <= i < |s| ==> (IsWhitespace(Lowercase(s)[i]) <==> IsWhitespace(s[i]))
    ensures IsAscii(s) ==> IsAscii(Lowercase(s))
  {
  }
}

/**
 * The cleaner pipelines: fixed left-to-right compositions of the stages,
 * each stage reassigning `text` in turn.
 *
 * `convert_to_ascii` calls the Unidecode library and `expand_numbers` calls
 * `normalize_numbers` from another file; neither is visible here, so both
 * arrive as function values in `Externals` and are not interpreted.
 */
module Cleaners {
  import opened Whitespace
  import opened Case
  import opened Abbreviations

  /** The two stages whose code lies outside this file. */
  datatype Externals = Externals(unidecode: string -> string, normalizeNumbers: string -> string)

  /** `convert_to_ascii`: `unidecode(text)`. */
  function ConvertToAscii(ext: Externals, text: string): string {
    ext.unidecode(text)
  }

  /** `expand_numbers`: `normalize_numbers(text)`. */
  function ExpandNumbers(ext: Externals, text: string): string {
    ext.normalizeNumbers(text)
  }

  /** What `basic_cleaners` returns: lowercase, then collapse whitespace. */
  function BasicCleaned(s: string): string {
    CollapseWhitespace(Lowercase(s))
  }

  /** What `transliteration_cleaners` returns: to ASCII, lowercase, collapse whitespace. */
  function TransliterationCleaned(ext: Externals, s: string): string {
    CollapseWhitespace(Lowercase(ConvertToAscii(ext, s)))
  }

  /**
   * What `english_cleaners` returns: to ASCII, lowercase, expand numbers,
   * expand abbreviations, collapse whitespace.
   */
  function EnglishCleaned(ext: Externals, s: string): string {
    CollapseWhitespace(ApplyRules(Rules, ExpandNumbers(ext, Lowercase(ConvertToAscii(ext, s)))))
  }

  /** Collapsing whitespace adds no upper-case letter and no non-ASCII character. */
  lemma CollapseKeepsCharacters(s: string)
    ensures NoUpper(s) ==> NoUpper(CollapseWhitespace(s))
    ensures IsAscii(s) ==> IsAscii(CollapseWhitespace(s))
  {
    var r := CollapseWhitespace(s);
    CollapseAddsOnlySpaces(s);
    forall i | 0 <= i < |r|
      ensures r[i] == ' ' || exists j :: 0 <= j < |s| && s[j] == r[i]
    {
      assert r[i] in r;
    }
  }

  method BasicCleaners(input: string) returns (text: string)
    ensures text == BasicCleaned(input)
    ensures Collapsed(text) && NoUpper(text)
    ensures NonWhitespace(text) == NonWhitespace(Lowercase(input))
  {
    text := Lowercase(input);
    CollapseIsCollapsed(text);
    CollapseKeepsCharacters(text);
    CollapseKeepsNonWhitespace(text);
    text := CollapseWhitespace(text);
  }

  method TransliterationCleaners(ext: Externals, input: string) returns (text: string)
    ensures text == TransliterationCleaned(ext, input)
    ensures Collapsed(text) && NoUpper(text)
    ensures IsAscii(ConvertToAscii(ext, input)) ==> IsAscii(text)
    ensures NonWhitespace(text) == NonWhitespace(Lowercase(ConvertToAscii(ext, input)))
  {
    text := ConvertToAscii(ext, input);
    LowercaseKeepsWhitespaceAndAscii(text);
    text := Lowercase(text);
    CollapseIsCollapsed(text);
    CollapseKeepsCharacters(text);
    CollapseKeepsNonWhitespace(text);
    text := CollapseWhitespace(text);
  }

  method EnglishCleaners(ext: Externals, input: string) returns (text: string)
    ensures text == EnglishCleaned(ext, input)
    ensures Collapsed(text)
    ensures NonWhitespace(text) == NonWhitespace(ApplyRules(Rules, ExpandNumbers(ext, Lowercase(ConvertToAscii(ext, input)))))
  {
    text := ConvertToAscii(ext, input);
    text := Lowercase(text);
    text := ExpandNumbers(ext, text);
    text := ExpandAbbreviations(text);
    CollapseIsCollapsed(text);
    CollapseKeepsNonWhitespace(text);
    text := CollapseWhitespace(text);
  }

  /** `return_text`: the identity cleaner. */
  function ReturnText(text: string): (r: string)
    ensures r == text
  {
    text
  }

  /**
   * `basic_cleaners` leaves a string unchanged exactly when it has no
   * upper-case letter and its only whitespace is isolated single spaces.
   */
  lemma BasicFixedPoints(s: string)
    ensures BasicCleaned(s) == s <==> Collapsed(s) && NoUpper(s)
  {
    CollapseIsCollapsed(Lowercase(s));
    CollapseKeepsCharacters(Lowercase(s));
    if Collapsed(s) && NoUpper(s) {
      LowercaseFixedPoints(s);
      CollapseFixesCollapsed(s);
    }
  }

  /** `basic_cleaners` is idempotent. */
  lemma BasicIdempotent(s: string)
    ensures BasicCleaned(BasicCleaned(s)) == BasicCleaned(s)
  {
    CollapseIsCollapsed(Lowercase(s));
    CollapseKeepsCharacters(Lowercase(s));
    BasicFixedPoints(BasicCleaned(s));
  }

  /**
   * Unidecode leaves ASCII text alone. No pipeline method relies on this;
   * only the lemma `TransliterationIdempotent` requires it.
   */
  ghost predicate KeepsAscii(ext: Externals) {
    forall t :: IsAscii(t) ==> ext.unidecode(t) == t
  }

  /**
   * Once transliteration has produced ASCII, `transliteration_cleaners` is
   * idempotent on its own output.
   */
  lemma TransliterationIdempotent(ext: Externals, s: string)
    requires KeepsAscii(ext)
    requires IsAscii(ConvertToAscii(ext, s))
    ensures TransliterationCleaned(ext, TransliterationCleaned(ext, s)) == TransliterationCleaned(ext, s)
  {
    var lowered := Lowercase(ConvertToAscii(ext, s));
    var out := CollapseWhitespace(lowered);
    LowercaseKeepsWhitespaceAndAscii(ConvertToAscii(ext, s));
    CollapseIsCollapsed(lowered);
    CollapseKeepsCharacters(lowered);
    assert ConvertToAscii(ext, out) == out;
    BasicFixedPoints(out);
  }

  /**
   * When transliteration, lowercasing and number expansion leave only ASCII
   * text, the abbreviation stage of `english_cleaners` changes nothing: every
   * abbreviation pattern opens with a Sinhala letter.
   */
  lemma EnglishSkipsAbbreviationsOnAscii(ext: Externals, s: string)
    requires IsAscii(ExpandNumbers(ext, Lowercase(ConvertToAscii(ext, s))))
    ensures EnglishCleaned(ext, s) == CollapseWhitespace(ExpandNumbers(ext, Lowercase(ConvertToAscii(ext, s))))
  {
    AsciiUnchanged(ExpandNumbers(ext, Lowercase(ConvertToAscii(ext, s))));
  }
}

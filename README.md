# Text cleaners of a Sinhala Tacotron front end

This project models `text/cleaners.py`. It is a Sinhala fork of the text
cleaners of keithito's Tacotron: small string-to-string normalisers, chained
into fixed pipelines that run over the input text before speech synthesis.
The model covers the following pieces.

- `collapse_whitespace` (module `Whitespace`): `re.sub(r'\s+', ' ', text)`.
  - `IsWhitespace` is the exact character class that Python 3's `\s`
    matches in a `str` pattern.
  - `CollapseWhitespace` is the greedy left-to-right scan.
  - `RunStarts` is an independent, position-by-position reference definition
    of the same rewrite.
- `lowercase` (module `Case`): `str.lower`, restricted to the ASCII letters.
- `expand_abbreviations` with its `_abbreviations` table (module
  `Abbreviations`).
  - Each pattern is built as `'\%s.' % abbr`. So the first character is a
    literal, every later `.` of the abbreviation is the regex wildcard (any
    character except a line feed), and one more wildcard is appended.
  - A pattern is modelled as a sequence of `Lit(c) | Any` atoms.
  - `Compile` builds the pattern from an abbreviation, and `Rules` is the
    compiled table.
  - `Sub` is `re.sub` for such a fixed-length pattern: a scan that replaces
    leftmost, non-overlapping matches.
  - `ExpandAbbreviations` is the source's loop over the table, proved
    against the fold `ApplyRules`.
- The pipelines `basic_cleaners`, `transliteration_cleaners`,
  `english_cleaners` and the identity `return_text` (module `Cleaners`).
  - The three staged pipelines are methods that reassign `text` stage by
    stage, as the source does.
  - Each of these methods is proved equal to a composition function.
  - Each of these methods is proved to leave whitespace collapsed.
  - `return_text` is a function, proved to be the identity.
  - `convert_to_ascii` (the Unidecode library) and `expand_numbers`
    (`normalize_numbers` from `text/numbers.py`) are not visible. They are
    parameters of the model: the function-valued fields of `Externals`.

Because of the wildcards, the abbreviation table does more than its entries
suggest. Modules `AbbreviationExamples` and `CleanerExamples` prove concrete
cases.

- `pe.va.` followed by a space becomes `peravaru`. The space is consumed as
  part of the match.
- `pe.va.` at the very end of the text is too short for its six-position
  pattern and is left alone.
- The ordinary word `pivisuma` has the shape `pa.va.` and is rewritten.
- The `pe.va.` and `pa.va.` patterns overlap: some six-character texts match
  both at the same position. So the table order decides the result
  (`TableOrderDecides`).
- No later pattern matches inside an expansion, and no later match starts
  inside one, whatever text follows (`ReplacementsNotReexpanded`). A later
  match that starts in the text before an expansion can still take its first
  characters: in `pa`, `a`, `va` followed by `pe.va.` and a space, the
  `pe.va.` expansion `peravaru` has its first two characters swallowed by the
  `pa.va.` pattern (`MatchAcrossExpansion`).
- In `english_cleaners`, `convert_to_ascii` runs first. Every pattern opens
  with a Sinhala letter, so once the text is ASCII after number expansion,
  the abbreviation stage changes nothing (`EnglishSkipsAbbreviationsOnAscii`).
  ASCII after transliteration alone is not enough, since number expansion
  runs in between and its output is not constrained by this model.

## Model

| member | source | states |
|---|---|---|
| Whitespace.IsWhitespace | text/cleaners.py:21 | the `\s` class of a `str` pattern, character by character; a predicate with no contract, its role is fixed by `LeadingRun`, `CollapseRun` and `CollapseMatchesRunStarts` |
| Whitespace.LeadingRun | text/cleaners.py:21 | the greedy `\s+` run at the start of a string: every character in it is whitespace, and the character after it (if any) is not |
| Whitespace.CollapseWhitespace | text/cleaners.py:62-63 | the output is never longer than the input, is empty exactly when the input is, and starts with whitespace exactly when the input does |
| Whitespace.CollapseIsCollapsed | text/cleaners.py:62-63 | the output's only whitespace is single spaces, and no two whitespace characters are adjacent |
| Whitespace.CollapseAddsOnlySpaces | text/cleaners.py:62-63 | every output character is a space or a character of the input |
| Whitespace.CollapseRun | text/cleaners.py:21 | a maximal whitespace run (any length, any whitespace characters) becomes exactly one space |
| Whitespace.CollapseAfterWord | text/cleaners.py:62-63 | a prefix without whitespace is copied to the output unchanged |
| Whitespace.CollapseFixesCollapsed | text/cleaners.py:62-63 | a string whose only whitespace is isolated single spaces is returned unchanged |
| Whitespace.CollapseFixedPoints | text/cleaners.py:62-63 | the output equals the input if and only if the input is already collapsed |
| Whitespace.CollapseIdempotent | text/cleaners.py:62-63 | collapsing twice gives the same result as collapsing once |
| Whitespace.CollapseKeepsNonWhitespace | text/cleaners.py:63 | the non-whitespace characters of the output are exactly those of the input, in the same order |
| Whitespace.CollapseSnoc | text/cleaners.py:62-63 | appending a character to the input changes the output only at its end, by the reference's piece for that character |
| Whitespace.CollapseMatchesRunStarts | text/cleaners.py:21 | the scan agrees with the reference for every input: each non-whitespace character is kept, each whitespace character that starts a run becomes one space, and each one that continues a run is dropped |
| Case.Lowercase | text/cleaners.py:58-59 | length is kept, the result has no upper-case letter, each of `A`..`Z` becomes the matching letter of `a`..`z`, and every other character is kept |
| Case.LowercaseFixedPoints | text/cleaners.py:58-59 | lowercasing leaves a string unchanged if and only if it has no upper-case letter |
| Case.LowercaseIdempotent | text/cleaners.py:58-59 | lowercasing twice gives the same result as lowercasing once |
| Case.LowercaseKeepsWhitespaceAndAscii | text/cleaners.py:58-59 | lowercasing neither creates nor removes whitespace at any position, and keeps ASCII text ASCII |
| Abbreviations.MatchesAt | text/cleaners.py:50 | a pattern matches the characters at a position; a predicate with no contract, characterised for compiled abbreviations by `CompiledPatternMatches` |
| Abbreviations.Sub | text/cleaners.py:50 | `re.sub` with a fixed-length pattern; no contract of its own, its meaning is stated by `SubCopiesPrefix`, `SubReplacesLeftmost` and `SubUnchangedWithoutMatch` |
| Abbreviations.ApplyRules | text/cleaners.py:48-51 | the rules applied in list order, each over the previous output; no contract of its own, characterised by `ExpandsInTableOrder` and `ApplyRulesWithoutMatch`, and the specification `ExpandAbbreviations` is proved against |
| Abbreviations.Compile | text/cleaners.py:24 | the pattern has one more position than the abbreviation; it opens with the abbreviation's first character as a literal and ends with a wildcard; each later `.` becomes a wildcard and each other character a literal |
| Abbreviations.CompiledPatternMatches | text/cleaners.py:24 | a compiled pattern matches at a position if and only if `len(abbr)+1` characters remain and they agree position by position: the first literally, each `.` and the appended position as anything but a line feed, the rest literally |
| Abbreviations.RulesCompileTable | text/cleaners.py:24-29 | the table has four entries; each abbreviation is of the literal-and-wildcard kind, and each rule is that abbreviation compiled, paired with its expansion, in table order |
| Abbreviations.EntryCompiles | text/cleaners.py:24-29 | each single table entry compiles to the rule written out for it |
| Abbreviations.SubUnchangedWithoutMatch | text/cleaners.py:50 | text in which the pattern matches at no position is returned unchanged |
| Abbreviations.SubCopiesPrefix | text/cleaners.py:50 | the text before the first match is copied unchanged |
| Abbreviations.SubReplacesLeftmost | text/cleaners.py:50 | the leftmost match is replaced by the expansion, the text before it is kept, and the scan resumes after the match (no overlaps) |
| Abbreviations.ApplyRulesWithoutMatch | text/cleaners.py:48-51 | text in which no rule matches anywhere is returned unchanged |
| Abbreviations.ExpandAbbreviations | text/cleaners.py:48-51 | the loop's result is the fold of the rules over the input, in table order |
| Abbreviations.ExpandsInTableOrder | text/cleaners.py:48-51 | the four substitutions run in table order, each over the output of the one before |
| Abbreviations.NoMatchWithoutFirst | text/cleaners.py:24 | a pattern whose leading literal does not occur in the text matches nowhere in it |
| Abbreviations.AsciiUnchanged | text/cleaners.py:24-29 | ASCII-only text passes through the abbreviation stage unchanged, because every pattern opens with a Sinhala letter |
| Abbreviations.ReplacementsNotReexpanded | text/cleaners.py:24-29 | no match of a pattern later in the table starts inside the expansion of an earlier entry, whatever text follows it; in particular no later pattern matches inside an expansion |
| AbbreviationExamples.FinalAbbreviationKept | text/cleaners.py:24-25 | `pe.va.` at the very end of the text is not expanded |
| AbbreviationExamples.FollowingCharacterSwallowed | text/cleaners.py:24-25 | `pe.va.` followed by a space becomes `peravaru`, and the space is consumed |
| AbbreviationExamples.WildcardRewritesWord | text/cleaners.py:24-26 | the word `pivisuma` is rewritten to `pasvaru` followed by its last two characters |
| AbbreviationExamples.TableOrderDecides | text/cleaners.py:48-51 | a six-character text matched at the same position by both the `pe.va.` and the `pa.va.` pattern becomes `peravaru` in table order, while the `pa.va.` substitution alone would give `pasvaru` and a dot |
| AbbreviationExamples.MatchAcrossExpansion | text/cleaners.py:48-51 | a later pattern that starts before an expansion can take its first characters: `pa`, `a`, `va`, `pe.va.` and a space become `pasvaru` followed by the last four characters of `peravaru` |
| Cleaners.ConvertToAscii | text/cleaners.py:66-67 | `unidecode(text)`, uninterpreted: the `unidecode` field of `Externals`; no contract, only `TransliterationIdempotent` and `EnglishSkipsAbbreviationsOnAscii` take hypotheses about it |
| Cleaners.ExpandNumbers | text/cleaners.py:54-55 | `normalize_numbers(text)`, uninterpreted: the `normalizeNumbers` field of `Externals`; no contract, only `EnglishSkipsAbbreviationsOnAscii` takes a hypothesis about its output |
| Cleaners.CollapseKeepsCharacters | text/cleaners.py:63 | collapsing adds no upper-case letter and no non-ASCII character |
| Cleaners.BasicCleaners | text/cleaners.py:70-74 | the result is lowercasing followed by collapsing; it is collapsed, has no upper-case letter, and keeps the lowered input's non-whitespace characters in order |
| Cleaners.TransliterationCleaners | text/cleaners.py:77-82 | the result is transliteration, then lowercasing, then collapsing; it is collapsed and has no upper-case letter; it is ASCII when the transliteration is; it keeps the non-whitespace characters of the lowered transliteration |
| Cleaners.EnglishCleaners | text/cleaners.py:85-92 | the result is transliteration, lowercasing, number expansion, abbreviation expansion and collapsing, in that order; it is collapsed and keeps the non-whitespace characters of the text before collapsing |
| Cleaners.ReturnText | text/cleaners.py:94-95 | the identity |
| Cleaners.BasicFixedPoints | text/cleaners.py:70-74 | `basic_cleaners` leaves a string unchanged if and only if it is collapsed and has no upper-case letter |
| Cleaners.BasicIdempotent | text/cleaners.py:70-74 | `basic_cleaners` is idempotent |
| Cleaners.TransliterationIdempotent | text/cleaners.py:77-82 | when transliteration leaves ASCII text alone and yields ASCII, `transliteration_cleaners` is idempotent |
| Cleaners.EnglishSkipsAbbreviationsOnAscii | text/cleaners.py:85-92 | when the text is ASCII after number expansion, `english_cleaners` is just collapsing after the first three stages |
| CleanerExamples.CollapseTabsAndSpaces | text/cleaners.py:62-63 | `"a\t\tb  c"` collapses to `"a b c"` |
| CleanerExamples.BasicHelloWorld | text/cleaners.py:70-74 | `basic_cleaners("HELLO   WORLD")` is `"hello world"` |

## Left out

- `convert_to_ascii` (text/cleaners.py:16, 66-67) wraps the Unidecode library, whose mapping table is not part of this model. It is the uninterpreted `unidecode` field of `Externals`. No pipeline method assumes anything about it. Two lemmas take hypotheses about its output: `TransliterationIdempotent` assumes that it leaves ASCII text alone and that its output is ASCII, and `EnglishSkipsAbbreviationsOnAscii` assumes that the text is ASCII after it and number expansion.
- `expand_numbers` (text/cleaners.py:17, 54-55) delegates to `normalize_numbers` in `text/numbers.py`, which is not part of this model. It is the uninterpreted `normalizeNumbers` field of `Externals`.
- Case.Lowercase: folds only `A`..`Z`. Python's `str.lower` also lowercases non-ASCII letters, and can change the length of a string for a few code points. Neither is modelled. Sinhala script has no case, so the table's characters are unaffected either way.
- `_rupees_re` and `_expand_rupees` (text/cleaners.py:31-46) are never called in this file. They cannot run to completion on most inputs: line 46 gives four placeholders five arguments, and the unit names are unbound unless both amounts are non-zero. They are not modelled.
- Choosing cleaners from a comma-delimited list of names (text/cleaners.py:6-12) happens outside this file and is not modelled.
- Abbreviations.Compile: requires the abbreviation to be made of literals and `.` only (`Plain`). This holds for all four table entries. Other regular-expression syntax is not modelled.

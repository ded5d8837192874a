/**
 * `expand_abbreviations`: four Sinhala abbreviations and the table of
 * regular expressions built from them.
 *
 * Each pattern is the string `'\%s.' % abbr`: the escaped first character
 * is a literal, every later `.` of the abbreviation is the regex wildcard
 * (any character except a line feed), and one more wildcard is appended.
 * So a pattern is a fixed sequence of literal-or-wildcard atoms, and
 * `re.sub` with it is a left-to-right scan that replaces leftmost,
 * non-overlapping matches.
 */
module Abbreviations {
  import opened Case

  datatype Atom = Lit(c: char) | Any

  /** A compiled pattern; `re.sub` never sees an empty one here. */
  type Pattern = p: seq<Atom> | |p| > 0 witness [Any]

  /** A compiled table entry: pattern and the text that replaces each match. */
  datatype Rule = Rule(pattern: Pattern, replacement: string)

  /** `.` outside a character class does not match a line feed. */
  predicate AtomMatches(a: Atom, c: char) {
    match a
    case Lit(d) => c == d
    case Any => c != '\n'
  }

  /** `p` matches the `|p|` characters of `s` that start at position `i`. */
  predicate MatchesAt(p: Pattern, s: string, i: nat) {
    i + |p| <= |s| && forall k :: 0 <= k < |p| ==> AtomMatches(p[k], s[i + k])
  }

  /** Characters with a special meaning in a regular expression, apart from `.`. */
  predicate IsMetacharacter(c: char) {
    c == '\\' || c == '^' || c == '$' || c == '*' || c == '+' || c == '?'
    || c == '{' || c == '}' || c == '[' || c == ']' || c == '|' || c == '(' || c == ')'
  }

  predicate NoMetacharacters(s: string) {
    forall i :: 0 <= i < |s| ==> !IsMetacharacter(s[i])
  }

  predicate IsAsciiAlphanumeric(c: char) {
    'a' <= c <= 'z' || 'A' <= c <= 'Z' || '0' <= c <= '9'
  }

  /**
   * An abbreviation for which `'\%s.' % abbr` reads as literals and
   * wildcards only: it is not empty, its escaped first character is not an
   * ASCII letter or digit (which would make `\d`, `\s`, a back-reference or
   * an error), and no later character is a metacharacter other than `.`.
   */
  predicate Plain(abbr: string) {
    |abbr| > 0 && !IsAsciiAlphanumeric(abbr[0]) && NoMetacharacters(abbr[1..])
  }

  /** The atoms for the characters after the escaped first one. */
  function CompileTail(rest: string): (p: seq<Atom>)
    ensures |p| == |rest|
    ensures forall k :: 0 <= k < |rest| ==> p[k] == if rest[k] == '.' then Any else Lit(rest[k])
  {
    if rest == [] then [] else [if rest[0] == '.' then Any else Lit(rest[0])] + CompileTail(rest[1..])
  }

  /** `re.compile('\%s.' % abbr)`. */
  function Compile(abbr: string): (p: Pattern)
    requires Plain(abbr)
    ensures |p| == |abbr| + 1
    ensures p[0] == Lit(abbr[0]) && p[|abbr|] == Any
    ensures forall k :: 1 <= k < |abbr| ==> p[k] == if abbr[k] == '.' then Any else Lit(abbr[k])
  {
    [Lit(abbr[0])] + CompileTail(abbr[1..]) + [Any]
  }

  /**
   * The text a compiled abbreviation matches: `|abbr| + 1` characters, the
   * first equal to the abbreviation's first, each later `.` of the
   * abbreviation and the appended last position any character but a line
   * feed, and every other position the abbreviation's own character.
   */
  lemma CompiledPatternMatches(abbr: string, s: string, i: nat)
    requires Plain(abbr)
    ensures MatchesAt(Compile(abbr), s, i) <==>
      && i + |abbr| + 1 <= |s|
      && s[i] == abbr[0]
      && (forall k :: 1 <= k < |abbr| ==> if abbr[k] == '.' then s[i + k] != '\n' else s[i + k] == abbr[k])
      && s[i + |abbr|] != '\n'
  {
    var p := Compile(abbr);
    if MatchesAt(p, s, i) {
      assert AtomMatches(p[0], s[i]) && AtomMatches(p[|abbr|], s[i + |abbr|]);
      forall k | 1 <= k < |abbr|
        ensures if abbr[k] == '.' then s[i + k] != '\n' else s[i + k] == abbr[k]
      {
        assert AtomMatches(p[k], s[i + k]);
      }
    }
  }

  /** `re.sub(pattern, replacement, s)` for a fixed-length, non-empty pattern. */
  function Sub(p: Pattern, replacement: string, s: string): string
    decreases |s|
  {
    if s == [] then []
    else if MatchesAt(p, s, 0) then replacement + Sub(p, replacement, s[|p|..])
    else [s[0]] + Sub(p, replacement, s[1..])
  }

  /** Matching one position further in `s` is matching in `s` without its first character. */
  lemma MatchShift(p: Pattern, s: string, i: nat)
    requires s != []
    ensures MatchesAt(p, s[1..], i) <==> MatchesAt(p, s, i + 1)
  {
    if MatchesAt(p, s, i + 1) {
      assert forall k :: 0 <= k < |p| ==> AtomMatches(p[k], s[1..][i + k]);
    }
  }

  /** Text in which the pattern matches nowhere comes back unchanged. */
  lemma {:induction false} SubUnchangedWithoutMatch(p: Pattern, replacement: string, s: string)
    requires forall i :: 0 <= i < |s| ==> !MatchesAt(p, s, i)
    ensures Sub(p, replacement, s) == s
    decreases |s|
  {
    if s != [] {
      forall i | 0 <= i < |s[1..]|
        ensures !MatchesAt(p, s[1..], i)
      {
        MatchShift(p, s, i);
      }
      SubUnchangedWithoutMatch(p, replacement, s[1..]);
      assert s == [s[0]] + s[1..];
    }
  }

  /**
   * The leftmost match is replaced, the text before it is kept, and the
   * scan resumes right after the match, so matches never overlap.
   */
  lemma SubReplacesLeftmost(p: Pattern, replacement: string, s: string, i: nat)
    requires MatchesAt(p, s, i)
    requires forall j :: 0 <= j < i ==> !MatchesAt(p, s, j)
    ensures Sub(p, replacement, s) == s[..i] + replacement + Sub(p, replacement, s[i + |p|..])
  {
    SubCopiesPrefix(p, replacement, s, i);
    var u := s[i..];
    assert MatchesAt(p, u, 0) by {
      assert forall k :: 0 <= k < |p| ==> u[k] == s[i + k];
    }
    assert u[|p|..] == s[i + |p|..];
  }

  /** Characters before the first position where the pattern matches are copied unchanged. */
  lemma {:induction false} SubCopiesPrefix(p: Pattern, replacement: string, s: string, i: nat)
    requires i <= |s|
    requires forall j :: 0 <= j < i ==> !MatchesAt(p, s, j)
    ensures Sub(p, replacement, s) == s[..i] + Sub(p, replacement, s[i..])
    decreases i
  {
    if i > 0 {
      var t := s[1..];
      assert Sub(p, replacement, s) == [s[0]] + Sub(p, replacement, t) by {
        assert !MatchesAt(p, s, 0);
      }
      assert Sub(p, replacement, t) == t[..i - 1] + Sub(p, replacement, s[i..]) by {
        forall j | 0 <= j < i - 1
          ensures !MatchesAt(p, t, j)
        {
          MatchShift(p, s, j);
        }
        SubCopiesPrefix(p, replacement, t, i - 1);
        assert t[i - 1..] == s[i..];
      }
      assert [s[0]] + t[..i - 1] == s[..i];
    } else {
      assert s[..0] == [] && s[0..] == s;
    }
  }

  /** The rules applied in list order, each over the text the previous ones produced. */
  function ApplyRules(rules: seq<Rule>, s: string): string
    decreases |rules|
  {
    if rules == [] then s
    else ApplyRules(rules[1..], Sub(rules[0].pattern, rules[0].replacement, s))
  }

  /** Text in which no rule's pattern matches anywhere is returned unchanged. */
  lemma {:induction false} ApplyRulesWithoutMatch(rules: seq<Rule>, s: string)
    requires forall k, i :: 0 <= k < |rules| && 0 <= i < |s| ==> !MatchesAt(rules[k].pattern, s, i)
    ensures ApplyRules(rules, s) == s
    decreases |rules|
  {
    if rules != [] {
      SubUnchangedWithoutMatch(rules[0].pattern, rules[0].replacement, s);
      assert forall k :: 0 <= k < |rules[1..]| ==> rules[1..][k] == rules[k + 1];
      ApplyRulesWithoutMatch(rules[1..], s);
    }
  }

  // The four abbreviations, in table order, written with code points.
  // pe.va. (ante meridiem) -> peravaru
  const AnteMeridiem: string := "\U{0DB4}\U{0DD9}.\U{0DC0}."
  const AnteMeridiemWord: string := "\U{0DB4}\U{0DD9}\U{0DBB}\U{0DC0}\U{0DBB}\U{0DD4}"
  // pa.va. (post meridiem) -> pasvaru
  const PostMeridiem: string := "\U{0DB4}.\U{0DC0}."
  const PostMeridiemWord: string := "\U{0DB4}\U{0DC3}\U{0DCA}\U{0DC0}\U{0DBB}\U{0DD4}"
  // bu.va (Buddhist era) -> buddha varsha
  const BuddhistEra: string := "\U{0DB6}\U{0DD4}.\U{0DC0}"
  const BuddhistEraWords: string :=
    "\U{0DB6}\U{0DD4}\U{0DAF}\U{0DCA}\U{0DB0} \U{0DC0}\U{0DBB}\U{0DCA}\U{0DC2}"
  // kri.va (Christian era; the second character pair is joined by U+200D) -> kristu varsha
  const ChristianEra: string := "\U{0D9A}\U{0DCA}\U{200D}\U{0DBB}\U{0DD2}.\U{0DC0}"
  const ChristianEraWords: string :=
    "\U{0D9A}\U{0DCA}\U{200D}\U{0DBB}\U{0DD2}\U{0DC3}\U{0DCA}\U{0DAD}\U{0DD4} \U{0DC0}\U{0DBB}\U{0DCA}\U{0DC2}"

  /** The source's (abbreviation, expansion) pairs, in table order. */
  const Table: seq<(string, string)> := [
    (AnteMeridiem, AnteMeridiemWord),
    (PostMeridiem, PostMeridiemWord),
    (BuddhistEra, BuddhistEraWords),
    (ChristianEra, ChristianEraWords)
  ]

  /**
   * `_abbreviations`, with each pattern written out atom by atom; lemma
   * `RulesCompileTable` shows it is exactly `Table` with every
   * abbreviation compiled.
   */
  const Rules: seq<Rule> := [
    Rule([Lit('\U{0DB4}'), Lit('\U{0DD9}'), Any, Lit('\U{0DC0}'), Any, Any], AnteMeridiemWord),
    Rule([Lit('\U{0DB4}'), Any, Lit('\U{0DC0}'), Any, Any], PostMeridiemWord),
    Rule([Lit('\U{0DB6}'), Lit('\U{0DD4}'), Any, Lit('\U{0DC0}'), Any], BuddhistEraWords),
    Rule([Lit('\U{0D9A}'), Lit('\U{0DCA}'), Lit('\U{200D}'), Lit('\U{0DBB}'), Lit('\U{0DD2}'), Any, Lit('\U{0DC0}'), Any],
         ChristianEraWords)
  ]

  /**
   * The list comprehension of the source: every abbreviation is plain, and
   * each rule is its abbreviation compiled, paired with its expansion.
   */
  lemma RulesCompileTable()
    ensures |Rules| == |Table|
    ensures forall k :: 0 <= k < |Table| ==>
      Plain(Table[k].0) && Rules[k] == Rule(Compile(Table[k].0), Table[k].1)
  {
    forall k | 0 <= k < |Table|
      ensures Plain(Table[k].0) && Rules[k] == Rule(Compile(Table[k].0), Table[k].1)
    {
      EntryCompiles(k);
    }
  }

  /** One entry: the abbreviation is plain and compiles to the atoms written out in `Rules`. */
  lemma EntryCompiles(n: nat)
    requires n < |Table|
    ensures Plain(Table[n].0) && Compile(Table[n].0) == Rules[n].pattern
  {
    CompilesTo(Table[n].0, Rules[n].pattern);
  }

  /** An abbreviation compiles to the atoms that agree with it position by position. */
  lemma CompilesTo(abbr: string, p: Pattern)
    requires Plain(abbr) && |p| == |abbr| + 1
    requires p[0] == Lit(abbr[0]) && p[|abbr|] == Any
    requires forall k :: 1 <= k < |abbr| ==> p[k] == if abbr[k] == '.' then Any else Lit(abbr[k])
    ensures Compile(abbr) == p
  {
  }

  /** `expand_abbreviations`: the loop over the table, rewriting `text` entry by entry. */
  method ExpandAbbreviations(input: string) returns (text: string)
    ensures text == ApplyRules(Rules, input)
  {
    text := input;
    for i := 0 to |Rules|
      invariant ApplyRules(Rules[i..], text) == ApplyRules(Rules, input)
    {
      assert Rules[i..][1..] == Rules[i + 1..];
      text := Sub(Rules[i].pattern, Rules[i].replacement, text);
    }
    assert Rules[|Rules|..] == [];
  }

  /**
   * The four entries are applied in table order, each over the output of
   * the one before.
   */
  lemma ExpandsInTableOrder(s: string)
    ensures ApplyRules(Rules, s) ==
      var after0 := Sub(Rules[0].pattern, Rules[0].replacement, s);
      var after1 := Sub(Rules[1].pattern, Rules[1].replacement, after0);
      var after2 := Sub(Rules[2].pattern, Rules[2].replacement, after1);
      Sub(Rules[3].pattern, Rules[3].replacement, after2)
  {
    var r1 := Rules[1..];
    var r2 := r1[1..];
    var r3 := r2[1..];
    assert r1[0] == Rules[1] && r2[0] == Rules[2] && r3[0] == Rules[3] && r3[1..] == [];
    var after0 := Sub(Rules[0].pattern, Rules[0].replacement, s);
    var after1 := Sub(Rules[1].pattern, Rules[1].replacement, after0);
    var after2 := Sub(Rules[2].pattern, Rules[2].replacement, after1);
    assert ApplyRules(Rules, s) == ApplyRules(r1, after0);
    assert ApplyRules(r1, after0) == ApplyRules(r2, after1);
    assert ApplyRules(r2, after1) == ApplyRules(r3, after2);
  }

  /** A pattern that opens with a literal absent from `s` matches nowhere in it. */
  lemma NoMatchWithoutFirst(p: Pattern, s: string)
    requires p[0].Lit? && p[0].c !in s
    ensures forall i :: 0 <= i < |s| ==> !MatchesAt(p, s, i)
  {
    forall i | 0 <= i < |s|
      ensures !MatchesAt(p, s, i)
    {
    }
  }

  /**
   * Every pattern in the table opens with a Sinhala letter, so text made
   * only of ASCII characters passes through `expand_abbreviations` unchanged.
   */
  lemma AsciiUnchanged(s: string)
    requires IsAscii(s)
    ensures ApplyRules(Rules, s) == s
  {
    forall k, i | 0 <= k < |Rules| && 0 <= i < |s|
      ensures !MatchesAt(Rules[k].pattern, s, i)
    {
      assert Rules[k].pattern[0].c > '\U{7F}';
    }
    ApplyRulesWithoutMatch(Rules, s);
  }

  /**
   * No match of a pattern later in the table starts inside the expansion of
   * an earlier entry, whatever text follows the expansion; in particular no
   * later pattern matches inside an expansion. A later match that starts in
   * the text before an expansion can still take its first characters
   * (`AbbreviationExamples.MatchAcrossExpansion`).
   */
  lemma ReplacementsNotReexpanded()
    ensures forall k, j, u, i :: 0 <= k < j < |Rules| && 0 <= i < |Rules[k].replacement| ==>
      !MatchesAt(Rules[j].pattern, Rules[k].replacement + u, i)
    ensures forall k, j, i :: 0 <= k < j < |Rules| && 0 <= i < |Rules[k].replacement| ==>
      !MatchesAt(Rules[j].pattern, Rules[k].replacement, i)
  {
    forall k, j, u | 0 <= k < j < |Rules|
      ensures forall i :: 0 <= i < |Rules[k].replacement| ==> !MatchesAt(Rules[j].pattern, Rules[k].replacement + u, i)
    {
      ReplacementNotMatchedLater(k, j, Rules[k].replacement, u);
    }
    forall k, j | 0 <= k < j < |Rules|
      ensures forall i :: 0 <= i < |Rules[k].replacement| ==> !MatchesAt(Rules[j].pattern, Rules[k].replacement, i)
    {
      ReplacementNotMatchedLater(k, j, Rules[k].replacement, []);
      assert Rules[k].replacement + [] == Rules[k].replacement;
    }
  }

  /** One pair of entries for `ReplacementsNotReexpanded`, with the text `u` after the expansion. */
  lemma ReplacementNotMatchedLater(k: nat, j: nat, w: string, u: string)
    requires k < j < |Rules| && w == Rules[k].replacement
    ensures forall i :: 0 <= i < |w| ==> !MatchesAt(Rules[j].pattern, w + u, i)
  {
    var s := w + u;
    forall i | 0 <= i < |w|
      ensures !MatchesAt(Rules[j].pattern, s, i)
    {
      assert s[i] == w[i];
      if j == 1 && i == 0 {
        assert s[2] == w[2];
        assert !AtomMatches(Rules[1].pattern[2], s[2]);
      } else if j == 1 {
        assert w[i] != '\U{0DB4}';
        assert !AtomMatches(Rules[1].pattern[0], s[i]);
      } else {
        assert Rules[j].pattern[0].c !in w;
        assert !AtomMatches(Rules[j].pattern[0], s[i]);
      }
    }
  }
}

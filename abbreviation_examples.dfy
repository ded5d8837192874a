/**
 * Concrete consequences of the table as compiled: the dots of an
 * abbreviation and the appended position are wildcards, so an abbreviation
 * that already ends in `.` also consumes the character after it, is left
 * alone at the very end of the text, and an ordinary word of the right
 * shape is rewritten as well.
 */
module AbbreviationExamples {
  import opened Abbreviations

  /** `pe.va.` closing the text is too short for its six-position pattern and stays. */
  lemma FinalAbbreviationKept()
    ensures ApplyRules(Rules, AnteMeridiem) == AnteMeridiem
  {
    ExpandsInTableOrder(AnteMeridiem);
    FinalKeptByRule(0, AnteMeridiem);
    FinalKeptByRule(1, AnteMeridiem);
    FinalKeptByRule(2, AnteMeridiem);
    FinalKeptByRule(3, AnteMeridiem);
  }

  /** No rule finds a match in `pe.va.` alone. */
  lemma FinalKeptByRule(n: nat, s: string)
    requires n < |Rules| && s == AnteMeridiem
    ensures Sub(Rules[n].pattern, Rules[n].replacement, s) == s
  {
    if n == 0 {
      assert forall i :: 0 <= i < |s| ==> !MatchesAt(Rules[0].pattern, s, i);
    } else if n == 1 {
      forall i | 0 <= i < |s|
        ensures !MatchesAt(Rules[1].pattern, s, i)
      {
        if i == 0 {
          assert !AtomMatches(Rules[1].pattern[2], s[2]);
        }
      }
    } else {
      NoMatchWithoutFirst(Rules[n].pattern, s);
    }
    SubUnchangedWithoutMatch(Rules[n].pattern, Rules[n].replacement, s);
  }

  /** `pe.va.` followed by a space is expanded, and the space is consumed with it. */
  lemma FollowingCharacterSwallowed()
    ensures ApplyRules(Rules, AnteMeridiem + " ") == AnteMeridiemWord
  {
    var s := AnteMeridiem + " ";
    ExpandsInTableOrder(s);
    AnteMeridiemExpanded();
    ExpansionStaysAfterFirstRule(AnteMeridiemWord);
  }

  lemma AnteMeridiemExpanded()
    ensures Sub(Rules[0].pattern, Rules[0].replacement, AnteMeridiem + " ") == AnteMeridiemWord
  {
    var s := AnteMeridiem + " ";
    assert MatchesAt(Rules[0].pattern, s, 0);
    SubReplacesLeftmost(Rules[0].pattern, Rules[0].replacement, s, 0);
    assert s[6..] == [] && s[..0] == [];
  }

  /** Text the first rule produced here is left alone by the other three. */
  lemma ExpansionStaysAfterFirstRule(w: string)
    requires w == AnteMeridiemWord
    ensures
      var after1 := Sub(Rules[1].pattern, Rules[1].replacement, w);
      var after2 := Sub(Rules[2].pattern, Rules[2].replacement, after1);
      Sub(Rules[3].pattern, Rules[3].replacement, after2) == w
  {
    KeptByRule(1, w);
    KeptByRule(2, w);
    KeptByRule(3, w);
  }

  /** Rules 1 to 3 find no match in the expansion of `pe.va.`. */
  lemma KeptByRule(k: nat, w: string)
    requires 1 <= k < |Rules| && w == AnteMeridiemWord
    ensures Sub(Rules[k].pattern, Rules[k].replacement, w) == w
  {
    ReplacementNotMatchedLater(0, k, w, []);
    assert w + [] == w;
    SubUnchangedWithoutMatch(Rules[k].pattern, Rules[k].replacement, w);
  }

  /** `pa`, a Latin letter and `va`, followed by `pe.va.` and a space. */
  const PaAVa: string := "\U{0DB4}a\U{0DC0}"

  /**
   * A later pattern can start before an expansion and take its first
   * characters: `pe.va.` becomes `peravaru`, and then the `pa.va.` pattern
   * matches `pa`, `a`, `va` and the first two characters of `peravaru`.
   */
  lemma MatchAcrossExpansion()
    ensures ApplyRules(Rules, PaAVa + AnteMeridiem + " ") ==
      PostMeridiemWord + "\U{0DBB}\U{0DC0}\U{0DBB}\U{0DD4}"
  {
    var s := PaAVa + AnteMeridiem + " ";
    var x := PaAVa + AnteMeridiemWord;
    var r := PostMeridiemWord + "\U{0DBB}\U{0DC0}\U{0DBB}\U{0DD4}";
    ExpandsInTableOrder(s);
    AcrossFirstRule(s);
    AcrossSecondRule(x, r);
    KeptAfterAcross(2, r);
    KeptAfterAcross(3, r);
  }

  /** Rule 0 finds `pe.va.` and the space after the first three characters. */
  lemma AcrossFirstRule(s: string)
    requires s == PaAVa + AnteMeridiem + " "
    ensures Sub(Rules[0].pattern, Rules[0].replacement, s) == PaAVa + AnteMeridiemWord
  {
    var p := Rules[0].pattern;
    assert MatchesAt(p, s, 3);
    forall j | 0 <= j < 3
      ensures !MatchesAt(p, s, j)
    {
      if j == 0 {
        assert !AtomMatches(p[1], s[1]);
      } else {
        assert !AtomMatches(p[0], s[j]);
      }
    }
    SubReplacesLeftmost(p, Rules[0].replacement, s, 3);
    assert s[..3] == PaAVa && s[9..] == [];
  }

  /** Rule 1 then matches from the start, across the expansion's first two characters. */
  lemma AcrossSecondRule(x: string, r: string)
    requires x == PaAVa + AnteMeridiemWord
    requires r == PostMeridiemWord + "\U{0DBB}\U{0DC0}\U{0DBB}\U{0DD4}"
    ensures Sub(Rules[1].pattern, Rules[1].replacement, x) == r
  {
    var p := Rules[1].pattern;
    var tail := x[5..];
    assert MatchesAt(p, x, 0);
    SubReplacesLeftmost(p, Rules[1].replacement, x, 0);
    assert x[..0] == [];
    assert tail == "\U{0DBB}\U{0DC0}\U{0DBB}\U{0DD4}";
    assert forall i :: 0 <= i < |tail| ==> !MatchesAt(p, tail, i);
    SubUnchangedWithoutMatch(p, Rules[1].replacement, tail);
  }

  /** Rules 2 and 3 open with letters the result does not contain. */
  lemma KeptAfterAcross(k: nat, r: string)
    requires 2 <= k < |Rules| && r == PostMeridiemWord + "\U{0DBB}\U{0DC0}\U{0DBB}\U{0DD4}"
    ensures Sub(Rules[k].pattern, Rules[k].replacement, r) == r
  {
    NoMatchWithoutFirst(Rules[k].pattern, r);
    SubUnchangedWithoutMatch(Rules[k].pattern, Rules[k].replacement, r);
  }

  /** Six characters that both the `pe.va.` and the `pa.va.` pattern match in full. */
  const PeVaVa: string := "\U{0DB4}\U{0DD9}\U{0DC0}\U{0DC0}.."

  /**
   * The patterns overlap, so table order decides the result: `pe.va.` comes
   * first and turns the text into `peravaru`, while `pa.va.` on its own
   * would have produced `pasvaru` and a trailing dot.
   */
  lemma TableOrderDecides()
    ensures MatchesAt(Rules[0].pattern, PeVaVa, 0) && MatchesAt(Rules[1].pattern, PeVaVa, 0)
    ensures ApplyRules(Rules, PeVaVa) == AnteMeridiemWord
    ensures Sub(Rules[1].pattern, Rules[1].replacement, PeVaVa) == PostMeridiemWord + "."
  {
    ExpandsInTableOrder(PeVaVa);
    FirstPatternExpands(PeVaVa);
    ExpansionStaysAfterFirstRule(AnteMeridiemWord);
    SecondPatternAlone(PeVaVa);
  }

  /** `pe.va.` takes all six characters of `PeVaVa`. */
  lemma FirstPatternExpands(s: string)
    requires s == PeVaVa
    ensures MatchesAt(Rules[0].pattern, s, 0)
    ensures Sub(Rules[0].pattern, Rules[0].replacement, s) == AnteMeridiemWord
  {
    assert MatchesAt(Rules[0].pattern, s, 0);
    SubReplacesLeftmost(Rules[0].pattern, Rules[0].replacement, s, 0);
    assert s[6..] == [] && s[..0] == [];
  }

  /** `pa.va.` applied to `PeVaVa` by itself. */
  lemma SecondPatternAlone(s: string)
    requires s == PeVaVa
    ensures MatchesAt(Rules[1].pattern, s, 0)
    ensures Sub(Rules[1].pattern, Rules[1].replacement, s) == PostMeridiemWord + "."
  {
    var tail := s[5..];
    assert tail == ".";
    SubReplacesLeftmost(Rules[1].pattern, Rules[1].replacement, s, 0);
    assert s[..0] == [];
    assert !MatchesAt(Rules[1].pattern, tail, 0);
    assert Sub(Rules[1].pattern, Rules[1].replacement, tail[1..]) == [];
  }

  /** The word `pivisuma` (entrance) has the shape `pa.va.` and is rewritten. */
  lemma WildcardRewritesWord()
    ensures ApplyRules(Rules, Pivisuma) == PostMeridiemWord + "\U{0DD4}\U{0DB8}"
  {
    var w := PostMeridiemWord + "\U{0DD4}\U{0DB8}";
    ExpandsInTableOrder(Pivisuma);
    PivisumaKeptByRule0();
    PivisumaRewrittenByRule1(w);
    KeptAfterRewrite(2, w);
    KeptAfterRewrite(3, w);
  }

  /** The word `pivisuma`: pa, i, va, i, sa, u, ma. */
  const Pivisuma: string := "\U{0DB4}\U{0DD2}\U{0DC0}\U{0DD2}\U{0DC3}\U{0DD4}\U{0DB8}"

  /** Rule 0 needs `pe` at the start of six characters and finds none. */
  lemma PivisumaKeptByRule0()
    ensures Sub(Rules[0].pattern, Rules[0].replacement, Pivisuma) == Pivisuma
  {
    forall i | 0 <= i < |Pivisuma|
      ensures !MatchesAt(Rules[0].pattern, Pivisuma, i)
    {
      if i == 0 {
        assert !AtomMatches(Rules[0].pattern[1], Pivisuma[1]);
      } else if i == 1 {
        assert !AtomMatches(Rules[0].pattern[0], Pivisuma[1]);
      }
    }
    SubUnchangedWithoutMatch(Rules[0].pattern, Rules[0].replacement, Pivisuma);
  }

  /** Rule 1 matches the word's first five characters and keeps the last two. */
  lemma PivisumaRewrittenByRule1(w: string)
    requires w == PostMeridiemWord + "\U{0DD4}\U{0DB8}"
    ensures Sub(Rules[1].pattern, Rules[1].replacement, Pivisuma) == w
  {
    var s, tail := Pivisuma, "\U{0DD4}\U{0DB8}";
    assert MatchesAt(Rules[1].pattern, s, 0);
    SubReplacesLeftmost(Rules[1].pattern, Rules[1].replacement, s, 0);
    assert s[5..] == tail && s[..0] == [];
    NoMatchWithoutFirst(Rules[1].pattern, tail);
    SubUnchangedWithoutMatch(Rules[1].pattern, Rules[1].replacement, tail);
  }

  /** Rules 2 and 3 open with letters the rewritten word does not contain. */
  lemma KeptAfterRewrite(k: nat, w: string)
    requires 2 <= k < |Rules| && w == PostMeridiemWord + "\U{0DD4}\U{0DB8}"
    ensures Sub(Rules[k].pattern, Rules[k].replacement, w) == w
  {
    NoMatchWithoutFirst(Rules[k].pattern, w);
    SubUnchangedWithoutMatch(Rules[k].pattern, Rules[k].replacement, w);
  }
}

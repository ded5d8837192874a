/**
 * `collapse_whitespace`: every maximal run of whitespace becomes one space.
 *
 * The source substitutes the regular expression `\s+` with `' '`. For a
 * `str` pattern Python's `\s` is the Unicode whitespace class, spelled out
 * here character by character; the `+` is greedy, so each match is a whole
 * maximal run.
 */
module Whitespace {

  /** The characters Python 3 matches with `\s` in a `str` pattern. */
  predicate IsWhitespace(c: char) {
    || ('\t' <= c <= '\r')                  // tab, line feed, vertical tab, form feed, carriage return
    || ('\U{1C}' <= c <= '\U{1F}')          // file, group, record and unit separators
    || c == ' '
    || c == '\U{85}'                        // next line
    || c == '\U{A0}'                        // no-break space
    || c == '\U{1680}'                      // ogham space mark
    || ('\U{2000}' <= c <= '\U{200A}')      // en quad .. hair space
    || c == '\U{2028}' || c == '\U{2029}'   // line and paragraph separators
    || c == '\U{202F}' || c == '\U{205F}' || c == '\U{3000}'
  }

  /**
   * A string in the form `collapse_whitespace` produces: its only whitespace
   * characters are single spaces, and no two whitespace characters touch.
   */
  predicate Collapsed(s: string) {
    && (forall i :: 0 <= i < |s| && IsWhitespace(s[i]) ==> s[i] == ' ')
    && (forall i :: 0 < i < |s| && IsWhitespace(s[i]) ==> !IsWhitespace(s[i - 1]))
  }

  /** The length of the whitespace run at the start of `s`, taken greedily as `\s+` does. */
  function LeadingRun(s: string): (n: nat)
    ensures n <= |s|
    ensures forall i :: 0 <= i < n ==> IsWhitespace(s[i])
    ensures n < |s| ==> !IsWhitespace(s[n])
  {
    if s != [] && IsWhitespace(s[0]) then 1 + LeadingRun(s[1..]) else 0
  }

  /**
   * `re.sub(r'\s+', ' ', text)`: scanning left to right, a whitespace
   * character starts a match that swallows the whole run and emits one
   * space; any other character is copied.
   */
  function CollapseWhitespace(s: string): (r: string)
    ensures |r| <= |s|
    ensures r == [] <==> s == []
    ensures s != [] ==> (IsWhitespace(r[0]) <==> IsWhitespace(s[0]))
    decreases |s|
  {
    if s == [] then []
    else if IsWhitespace(s[0]) then
      " " + CollapseWhitespace(s[LeadingRun(s)..])
    else
      [s[0]] + CollapseWhitespace(s[1..])
  }

  /** The output's only whitespace is single spaces, never two side by side. */
  lemma {:induction false} CollapseIsCollapsed(s: string)
    ensures Collapsed(CollapseWhitespace(s))
    decreases |s|
  {
    if s != [] {
      var rest := if IsWhitespace(s[0]) then s[LeadingRun(s)..] else s[1..];
      CollapseIsCollapsed(rest);
      var r, tail := CollapseWhitespace(s), CollapseWhitespace(rest);
      assert r == [r[0]] + tail;
      assert IsWhitespace(r[0]) ==> r[0] == ' ' && (tail != [] ==> !IsWhitespace(tail[0]));
      assert forall i :: 0 < i < |r| ==> r[i] == tail[i - 1];
    }
  }

  /** Every character of the output is a space or a character of the input. */
  lemma {:induction false} CollapseAddsOnlySpaces(s: string)
    ensures forall c :: c in CollapseWhitespace(s) ==> c == ' ' || c in s
    decreases |s|
  {
    if s != [] {
      var rest := if IsWhitespace(s[0]) then s[LeadingRun(s)..] else s[1..];
      CollapseAddsOnlySpaces(rest);
      assert forall c :: c in rest ==> c in s;
    }
  }

  /** The non-whitespace characters of `s`, in order. */
  function NonWhitespace(s: string): string {
    if s == [] then []
    else if IsWhitespace(s[0]) then NonWhitespace(s[1..])
    else [s[0]] + NonWhitespace(s[1..])
  }

  /**
   * An independent reference for the same rewrite, defined position by
   * position from the right: a non-whitespace character is kept, a
   * whitespace character that starts a run becomes one space, and one that
   * continues a run is dropped.
   */
  function RunStarts(s: string): string
    decreases |s|
  {
    if s == [] then [] else RunStarts(s[..|s| - 1]) + Piece(s[..|s| - 1], s[|s| - 1])
  }

  /** What the reference emits for character `c` following the characters `before`. */
  function Piece(before: string, c: char): string {
    if !IsWhitespace(c) then [c]
    else if before != [] && IsWhitespace(before[|before| - 1]) then []
    else [' ']
  }

  /** A string already in collapsed form is returned unchanged. */
  lemma {:induction false} CollapseFixesCollapsed(s: string)
    requires Collapsed(s)
    ensures CollapseWhitespace(s) == s
    decreases |s|
  {
    if s != [] {
      assert Collapsed(s[1..]);
      if IsWhitespace(s[0]) {
        assert s[0] == ' ';
        assert LeadingRun(s) == 1 by {
          assert |s| > 1 ==> !IsWhitespace(s[1]);
        }
        CollapseFixesCollapsed(s[1..]);
        assert s == " " + s[1..];
      } else {
        CollapseFixesCollapsed(s[1..]);
        assert s == [s[0]] + s[1..];
      }
    }
  }

  /** The fixed points of `collapse_whitespace` are exactly the collapsed strings. */
  lemma CollapseFixedPoints(s: string)
    ensures CollapseWhitespace(s) == s <==> Collapsed(s)
  {
    CollapseIsCollapsed(s);
    if Collapsed(s) {
      CollapseFixesCollapsed(s);
    }
  }

  /** `collapse_whitespace` is idempotent. */
  lemma CollapseIdempotent(s: string)
    ensures CollapseWhitespace(CollapseWhitespace(s)) == CollapseWhitespace(s)
  {
    CollapseIsCollapsed(s);
    CollapseFixesCollapsed(CollapseWhitespace(s));
  }

  /** Dropping a prefix made only of whitespace keeps the non-whitespace characters. */
  lemma {:induction false} NonWhitespaceSkipsRun(s: string, n: nat)
    requires n <= |s|
    requires forall i :: 0 <= i < n ==> IsWhitespace(s[i])
    ensures NonWhitespace(s[n..]) == NonWhitespace(s)
    decreases n
  {
    if n > 0 {
      NonWhitespaceSkipsRun(s[1..], n - 1);
      assert s[1..][n - 1..] == s[n..];
    }
  }

  /**
   * `collapse_whitespace` keeps every non-whitespace character, in its
   * original order, and adds none.
   */
  lemma {:induction false} CollapseKeepsNonWhitespace(s: string)
    ensures NonWhitespace(CollapseWhitespace(s)) == NonWhitespace(s)
    decreases |s|
  {
    if s != [] {
      if IsWhitespace(s[0]) {
        var n := LeadingRun(s);
        var rest := s[n..];
        CollapseKeepsNonWhitespace(rest);
        NonWhitespaceSkipsRun(s, n);
        assert (" " + CollapseWhitespace(rest))[1..] == CollapseWhitespace(rest);
      } else {
        CollapseKeepsNonWhitespace(s[1..]);
        assert ([s[0]] + CollapseWhitespace(s[1..]))[1..] == CollapseWhitespace(s[1..]);
      }
    }
  }

  /** Text without whitespace in front of the input is copied through unchanged. */
  lemma {:induction false} CollapseAfterWord(w: string, t: string)
    requires forall i :: 0 <= i < |w| ==> !IsWhitespace(w[i])
    ensures CollapseWhitespace(w + t) == w + CollapseWhitespace(t)
    decreases |w|
  {
    if w != [] {
      assert (w + t)[0] == w[0] && (w + t)[1..] == w[1..] + t;
      assert CollapseWhitespace(w + t) == [w[0]] + CollapseWhitespace(w[1..] + t);
      CollapseAfterWord(w[1..], t);
      assert [w[0]] + (w[1..] + CollapseWhitespace(t)) == w + CollapseWhitespace(t);
    } else {
      assert w + t == t;
    }
  }

  /** A maximal whitespace run in front of the input becomes exactly one space. */
  lemma CollapseRun(run: string, t: string)
    requires run != [] && forall i :: 0 <= i < |run| ==> IsWhitespace(run[i])
    requires t != [] ==> !IsWhitespace(t[0])
    ensures CollapseWhitespace(run + t) == " " + CollapseWhitespace(t)
  {
    var s := run + t;
    var n := LeadingRun(s);
    assert s[0] == run[0];
    assert n == |run| by {
      assert forall i :: 0 <= i < |run| ==> s[i] == run[i];
      if t != [] {
        assert !IsWhitespace(s[|run|]);
      }
    }
    assert s[n..] == t;
  }

  /** A whitespace run stops where the string it starts does not continue it. */
  lemma {:induction false} LeadingRunOfExtension(s: string, c: char)
    ensures LeadingRun(s + [c]) == LeadingRun(s) + (if LeadingRun(s) == |s| && IsWhitespace(c) then 1 else 0)
    decreases |s|
  {
    if s == [] {
      assert s + [c] == [c] && [c][1..] == [];
    } else if IsWhitespace(s[0]) {
      assert (s + [c])[0] == s[0] && (s + [c])[1..] == s[1..] + [c];
      LeadingRunOfExtension(s[1..], c);
    } else {
      assert (s + [c])[0] == s[0];
    }
  }

  /** Appending one character to the input changes the output only at its end. */
  lemma {:induction false} CollapseSnoc(s: string, c: char)
    ensures CollapseWhitespace(s + [c]) == CollapseWhitespace(s) + Piece(s, c)
    decreases |s|
  {
    var t := s + [c];
    if s == [] {
      assert t == [c] && t[1..] == [];
      if IsWhitespace(c) {
        assert LeadingRun(t) == 1;
      }
    } else if IsWhitespace(s[0]) {
      var n := LeadingRun(s);
      LeadingRunOfExtension(s, c);
      if n < |s| {
        CollapseSnocAfterRun(s, c, n);
      } else {
        assert s[n..] == [];
        if IsWhitespace(c) {
          assert t[n + 1..] == [];
        } else {
          assert t[n..] == [c] && [c][1..] == [];
        }
      }
    } else {
      CollapseSnocAfterWord(s, c);
    }
  }

  /** The step of `CollapseSnoc` for an input that opens with a non-whitespace character. */
  lemma {:induction false} CollapseSnocAfterWord(s: string, c: char)
    requires s != [] && !IsWhitespace(s[0])
    ensures CollapseWhitespace(s + [c]) == CollapseWhitespace(s) + Piece(s, c)
    decreases |s|, 0
  {
    var rest := CollapseWhitespace(s[1..]);
    assert CollapseWhitespace(s + [c]) == [s[0]] + CollapseWhitespace(s[1..] + [c]) by {
      assert (s + [c])[0] == s[0] && (s + [c])[1..] == s[1..] + [c];
    }
    assert CollapseWhitespace(s[1..] + [c]) == rest + Piece(s, c) by {
      CollapseSnoc(s[1..], c);
      if |s| > 1 {
        assert s[1..][|s[1..]| - 1] == s[|s| - 1];
      }
    }
    assert [s[0]] + (rest + Piece(s, c)) == ([s[0]] + rest) + Piece(s, c);
  }

  /** The step of `CollapseSnoc` for an input that opens with a run followed by more text. */
  lemma {:induction false} CollapseSnocAfterRun(s: string, c: char, n: nat)
    requires 0 < n < |s| && n == LeadingRun(s) && n == LeadingRun(s + [c])
    ensures CollapseWhitespace(s + [c]) == CollapseWhitespace(s) + Piece(s, c)
    decreases |s|, 0
  {
    var rest := CollapseWhitespace(s[n..]);
    assert CollapseWhitespace(s + [c]) == " " + CollapseWhitespace(s[n..] + [c]) by {
      assert (s + [c])[0] == s[0] && (s + [c])[n..] == s[n..] + [c];
    }
    assert CollapseWhitespace(s[n..] + [c]) == rest + Piece(s, c) by {
      CollapseSnoc(s[n..], c);
      assert s[n..][|s[n..]| - 1] == s[|s| - 1];
    }
    assert " " + (rest + Piece(s, c)) == (" " + rest) + Piece(s, c);
  }

  /**
   * `collapse_whitespace` agrees with the position-by-position reference:
   * each maximal run of whitespace is replaced by exactly one space.
   */
  lemma {:induction false} CollapseMatchesRunStarts(s: string)
    ensures CollapseWhitespace(s) == RunStarts(s)
    decreases |s|
  {
    if s != [] {
      var init, last := s[..|s| - 1], s[|s| - 1];
      assert s == init + [last];
      CollapseMatchesRunStarts(init);
      CollapseSnoc(init, last);
    }
  }
}

/** Worked examples of `collapse_whitespace` and `basic_cleaners` on concrete text. */
module CleanerExamples {
  import opened Whitespace
  import opened Case
  import opened Cleaners

  /** A tab run and a space run each become one space. */
  lemma CollapseTabsAndSpaces()
    ensures CollapseWhitespace("a\t\tb  c") == "a b c"
  {
    TabsAndSpacesSplit();
    WordsBetweenRuns("a", "\t\t", "b", "  ", "c");
  }

  /**
   * The example's input and expected output, cut into words and runs. This
   * only joins string literals; it stands apart because the solver handles
   * such literal equalities cheaply only in a small context.
   */
  lemma TabsAndSpacesSplit()
    ensures "a" + "\t\t" + ("b" + "  " + "c") == "a\t\tb  c"
    ensures "a" + " " + ("b" + " " + "c") == "a b c"
  {
  }

  /** Three words separated by two runs come out separated by single spaces. */
  lemma WordsBetweenRuns(a: string, r1: string, b: string, r2: string, c: string)
    requires forall i :: 0 <= i < |a| ==> !IsWhitespace(a[i])
    requires b != [] && forall i :: 0 <= i < |b| ==> !IsWhitespace(b[i])
    requires r1 != [] && forall i :: 0 <= i < |r1| ==> IsWhitespace(r1[i])
    requires r2 != [] && forall i :: 0 <= i < |r2| ==> IsWhitespace(r2[i])
    requires Collapsed(c) && (c != [] ==> !IsWhitespace(c[0]))
    ensures CollapseWhitespace(a + r1 + (b + r2 + c)) == a + " " + (b + " " + c)
  {
    WordRunWord(a, r1, b + r2 + c);
    WordRunWord(b, r2, c);
    CollapseFixesCollapsed(c);
  }

  /** Upper case is lowered and the run of three spaces becomes one. */
  lemma BasicHelloWorld()
    ensures BasicCleaned("HELLO   WORLD") == "hello world"
  {
    LowerHelloWorld("HELLO   WORLD");
    TwoWords("HELLO   WORLD", "hello", "   ", "world");
    HelloWorldJoined();
  }

  /**
   * The expected output, joined from its word pieces. Like
   * `TabsAndSpacesSplit`, a literal equality kept in a small context of its own.
   */
  lemma HelloWorldJoined()
    ensures "hello" + " " + "world" == "hello world"
  {
    var j := "hello" + " " + "world";
    assert |j| == 11;
    forall i | 0 <= i < 11
      ensures j[i] == "hello world"[i]
    {
    }
  }

  /** Cleaning text that lowercases to a word, a run and a collapsed remainder. */
  lemma TwoWords(s: string, w: string, run: string, t: string)
    requires Lowercase(s) == w + run + t
    requires forall i :: 0 <= i < |w| ==> !IsWhitespace(w[i])
    requires run != [] && forall i :: 0 <= i < |run| ==> IsWhitespace(run[i])
    requires t != [] ==> !IsWhitespace(t[0])
    requires Collapsed(t)
    ensures BasicCleaned(s) == w + " " + t
  {
    WordRunWord(w, run, t);
    CollapseFixesCollapsed(t);
  }

  /** A word without whitespace, a whitespace run, then text that does not start with whitespace. */
  lemma WordRunWord(w: string, run: string, t: string)
    requires forall i :: 0 <= i < |w| ==> !IsWhitespace(w[i])
    requires run != [] && forall i :: 0 <= i < |run| ==> IsWhitespace(run[i])
    requires t != [] ==> !IsWhitespace(t[0])
    ensures CollapseWhitespace(w + run + t) == w + " " + CollapseWhitespace(t)
  {
    assert w + run + t == w + (run + t);
    CollapseAfterWord(w, run + t);
    CollapseRun(run, t);
  }

  /** The lowercasing step of `BasicHelloWorld`. */
  lemma LowerHelloWorld(s: string)
    requires s == "HELLO   WORLD"
    ensures Lowercase(s) == "hello" + "   " + "world"
  {
  }
}

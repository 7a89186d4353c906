/**
 * The counting loop of the editor's word count (main.c): a word begins
 * wherever a non-blank character follows a blank or starts the text.
 */
module WordCount {

  /**
   * `g_ascii_isspace`: space, tab, line feed, form feed, carriage return.
   * GLib's character table leaves the vertical tab (0x0B) out of this class.
   */
  predicate IsSpace(c: char)
    ensures IsSpace(c) <==> c == ' ' || (9 <= c as int <= 13 && c as int != 11)
  {
    c == ' ' || c == '\t' || c == '\n' || c == '\U{000C}' || c == '\r'
  }

  /** A word begins at `i`: `s[i]` is not blank and is first or follows a blank. */
  predicate StartsWord(s: string, i: nat)
    requires i < |s|
  {
    !IsSpace(s[i]) && (i == 0 || IsSpace(s[i - 1]))
  }

  /** The number of positions of `s` where a word begins. */
  function Words(s: string): nat
  {
    if s == [] then 0
    else Words(s[..|s| - 1]) + (if StartsWord(s, |s| - 1) then 1 else 0)
  }

  /** The number of non-blank characters of `s`. */
  function NonBlank(s: string): nat
  {
    if s == [] then 0
    else NonBlank(s[..|s| - 1]) + (if IsSpace(s[|s| - 1]) then 0 else 1)
  }

  /** The length of the C string held in `s`: the index of its first NUL, or all of it. */
  function TextEnd(s: string): (n: nat)
    ensures n <= |s|
    ensures n < |s| ==> s[n] == '\0'
    ensures forall k :: 0 <= k < n ==> s[k] != '\0'
  {
    if s == [] || s[0] == '\0' then 0 else 1 + TextEnd(s[1..])
  }

  /**
   * `update_word_count`'s loop: walk the text up to its terminating NUL,
   * clearing `inWord` on a blank and counting each step from a blank into a word.
   */
  method CountWords(text: string) returns (count: nat)
    ensures count == Words(text[..TextEnd(text)])
  {
    count := 0;
    var inWord := false;
    var i := 0;
    while i < |text| && text[i] != '\0'
      invariant 0 <= i <= TextEnd(text)
      invariant count == Words(text[..i])
      invariant inWord <==> i > 0 && !IsSpace(text[i - 1])
    {
      assert text[..i + 1][..i] == text[..i];
      if IsSpace(text[i]) {
        inWord := false;
      } else if !inWord {
        inWord := true;
        count := count + 1;
      }
      i := i + 1;
    }
  }

  /** Every word holds at least one non-blank character, so there are no more words than those. */
  lemma {:induction false} WordsAtMostNonBlank(s: string)
    ensures Words(s) <= NonBlank(s)
  {
    if s != [] {
      WordsAtMostNonBlank(s[..|s| - 1]);
    }
  }

  /** The count is zero exactly for empty or all-blank text. */
  lemma {:induction false} WordsZeroIffBlank(s: string)
    ensures Words(s) == 0 <==> forall k :: 0 <= k < |s| ==> IsSpace(s[k])
  {
    if s != [] {
      var init := s[..|s| - 1];
      WordsZeroIffBlank(init);
      assert forall k :: 0 <= k < |init| ==> init[k] == s[k];
    }
  }

  /** Splitting the text at a blank splits the count. */
  lemma {:induction false} WordsConcat(a: string, b: string)
    requires a == [] || b == [] || IsSpace(a[|a| - 1]) || IsSpace(b[0])
    ensures Words(a + b) == Words(a) + Words(b)
  {
    if b == [] {
      assert a + b == a;
    } else {
      var b' := b[..|b| - 1];
      assert (a + b)[..|a + b| - 1] == a + b';
      if b' != [] || a == [] || IsSpace(a[|a| - 1]) {
        WordsConcat(a, b');
      } else {
        assert a + b' == a;
      }
    }
  }

  /** A non-empty run of non-blank characters is one word. */
  lemma {:induction false} WordsOfRun(w: string)
    requires |w| > 0 && forall k :: 0 <= k < |w| ==> !IsSpace(w[k])
    ensures Words(w) == 1
  {
    if |w| > 1 {
      WordsOfRun(w[..|w| - 1]);
    } else {
      assert w[..0] == [];
    }
  }

  /** What follows the non-blank run at the front of `s`. */
  function SkipWord(s: string): (r: string)
    ensures |r| <= |s| && r == s[|s| - |r|..]
    ensures r == [] || IsSpace(r[0])
    ensures forall k :: 0 <= k < |s| - |r| ==> !IsSpace(s[k])
  {
    if s == [] || IsSpace(s[0]) then s else SkipWord(s[1..])
  }

  /** The number of maximal runs of non-blank characters, counted from the front. */
  function Runs(s: string): nat
    decreases |s|
  {
    if s == [] then 0
    else if IsSpace(s[0]) then Runs(s[1..])
    else 1 + Runs(SkipWord(s[1..]))
  }

  /** The loop's count is the number of maximal runs of non-blank characters. */
  lemma {:induction false} WordsCountRuns(s: string)
    ensures Words(s) == Runs(s)
    decreases |s|
  {
    if s != [] {
      if IsSpace(s[0]) {
        assert s == [s[0]] + s[1..];
        WordsConcat([s[0]], s[1..]);
        WordsZeroIffBlank([s[0]]);
        WordsCountRuns(s[1..]);
      } else {
        var r := SkipWord(s[1..]);
        var w := s[..|s| - |r|];
        assert s == w + r;
        WordsOfRun(w);
        WordsConcat(w, r);
        WordsCountRuns(r);
      }
    }
  }
}

/** First cleaning pass, `re.sub(r'\n+', ' ', text)`: every maximal run of newlines
    becomes one space. */
module NewlinePass {
  import opened CharClasses
  import opened Sequences

  /** `s` contains no newline character. */
  predicate NoNewline(s: string) {
    forall i :: 0 <= i < |s| ==> s[i] != '\n'
  }

  /** Left-to-right scan: at each position either a newline run matches (and is replaced
      by one space, scanning resumes after it) or the character is copied. */
  function CollapseNewlines(s: string): (r: string)
    ensures NoNewline(r)
    ensures |r| <= |s|
    decreases |s|
  {
    if |s| == 0 then ""
    else
      var n := RunEnd(IsNewline, s, 0);
      if n > 0 then " " + CollapseNewlines(s[n..])
      else [s[0]] + CollapseNewlines(s[1..])
  }

  /** A string without newlines is left alone, and only such strings are. */
  lemma {:induction false} CollapseFixpoint(s: string)
    ensures CollapseNewlines(s) == s <==> '\n' !in s
    decreases |s|
  {
    if '\n' !in s && |s| > 0 {
      assert RunEnd(IsNewline, s, 0) == 0;
      assert '\n' !in s[1..];
      CollapseFixpoint(s[1..]);
    }
    if CollapseNewlines(s) == s {
      assert forall i :: 0 <= i < |s| ==> s[i] != '\n';
    }
  }

  /** A run of one or more newlines alone becomes exactly one space. */
  lemma NewlineRunIsOneSpace(s: string)
    requires |s| > 0 && forall i :: 0 <= i < |s| ==> s[i] == '\n'
    ensures CollapseNewlines(s) == " "
  {
    RunEndUnique(IsNewline, s, 0, |s|);
    assert s[|s|..] == "";
  }

  /** The greedy newline run of `x + y` when `x` does not end a run that `y` continues. */
  lemma PrefixRunAppend(x: string, y: string)
    requires |x| > 0 && (x[|x| - 1] != '\n' || |y| == 0 || y[0] != '\n')
    ensures RunEnd(IsNewline, x + y, 0) == RunEnd(IsNewline, x, 0)
  {
    var n := RunEnd(IsNewline, x, 0);
    assert (x + y)[..n] == x[..n];
    RunEndUnique(IsNewline, x + y, 0, n);
  }

  /** The pass works piecewise: where the cut does not split a newline run, cleaning the
      whole is cleaning the pieces. Together with the two lemmas above this pins the pass
      down completely. */
  lemma {:induction false} CollapseAppend(x: string, y: string)
    requires |x| == 0 || |y| == 0 || x[|x| - 1] != '\n' || y[0] != '\n'
    ensures CollapseNewlines(x + y) == CollapseNewlines(x) + CollapseNewlines(y)
    decreases |x|, 1
  {
    if |x| == 0 {
      assert x + y == y;
    } else {
      var n := RunEnd(IsNewline, x, 0);
      var k := if n > 0 then n else 1;
      CollapseStepAppend(x, y, k);
    }
  }

  /** One scanning step of `x + y` is the step of `x`, followed by the rest of the scan. */
  lemma {:induction false} CollapseStepAppend(x: string, y: string, k: nat)
    requires |x| > 0 && (|y| == 0 || x[|x| - 1] != '\n' || y[0] != '\n')
    requires k == if RunEnd(IsNewline, x, 0) > 0 then RunEnd(IsNewline, x, 0) else 1
    ensures CollapseNewlines(x + y) == CollapseNewlines(x) + CollapseNewlines(y)
    decreases |x|, 0
  {
    var rest := x[k..];
    var head := if x[0] == '\n' then " " else [x[0]];
    assert CollapseNewlines(x + y) == head + CollapseNewlines(rest + y) by {
      PrefixRunAppend(x, y);
      assert (x + y)[k..] == rest + y;
      assert (x + y)[0] == x[0];
    }
    assert CollapseNewlines(x) == head + CollapseNewlines(rest) by {
      assert x[0] == '\n' <==> RunEnd(IsNewline, x, 0) > 0;
    }
    assert CollapseNewlines(rest + y) == CollapseNewlines(rest) + CollapseNewlines(y) by {
      assert |rest| > 0 ==> rest[|rest| - 1] == x[|x| - 1];
      CollapseAppend(rest, y);
    }
    ConcatAssoc(head, CollapseNewlines(rest), CollapseNewlines(y));
  }

  /** The pass turns newlines into spaces and touches nothing else: the non-whitespace
      characters survive, in order. */
  lemma {:induction false} CollapseKeepsNonSpace(s: string)
    ensures Filter(NotSpace, CollapseNewlines(s)) == Filter(NotSpace, s)
    decreases |s|
  {
    if |s| > 0 {
      var n := RunEnd(IsNewline, s, 0);
      var k := if n > 0 then n else 1;
      assert s == s[..k] + s[k..];
      FilterAppend(NotSpace, s[..k], s[k..]);
      CollapseKeepsNonSpace(s[k..]);
      if n > 0 {
        assert forall i :: 0 <= i < n ==> s[..n][i] == '\n';
        FilterNone(NotSpace, s[..n]);
        FilterAppend(NotSpace, " ", CollapseNewlines(s[n..]));
      } else {
        FilterAppend(NotSpace, [s[0]], CollapseNewlines(s[1..]));
      }
    }
  }

  /** The pass introduces no character other than the space. */
  lemma {:induction false} CollapseMembers(s: string)
    ensures forall c :: c in CollapseNewlines(s) ==> c == ' ' || c in s
    decreases |s|
  {
    if |s| > 0 {
      var n := RunEnd(IsNewline, s, 0);
      var k := if n > 0 then n else 1;
      CollapseMembers(s[k..]);
      assert forall c :: c in s[k..] ==> c in s;
    }
  }
}

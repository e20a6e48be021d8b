/** Third cleaning pass, `re.sub(r'\s*\d+\s*', ' ', text)`: every run of digits, together
    with the whitespace around it, becomes one space. This removes every digit, including
    digits inside words, not only standalone numbers. */
module NumberPass {
  import opened Wrappers
  import opened CharClasses
  import opened Sequences

  /** Where a match starting at position 0 ends its parts: leading whitespace
      `s[..digits]`, the digits `s[digits..spaces]`, trailing whitespace `s[spaces..end]`. */
  datatype NumberRun = NumberRun(digits: nat, spaces: nat, end: nat)

  /** The pattern `\s*\d+\s*` matches `s[..c]` with this split. */
  predicate IsNumberRun(s: string, a: int, b: int, c: int) {
    0 <= a < b <= c <= |s|
    && (forall i :: 0 <= i < a ==> IsSpace(s[i]))
    && (forall i :: a <= i < b ==> IsDigit(s[i]))
    && (forall i :: b <= i < c ==> IsSpace(s[i]))
  }

  /** The match a backtracking engine returns at position 0: all three quantifiers are
      greedy, so of the splits the pattern allows it takes the one with the longest digit
      run and, for that run, the longest trailing whitespace. */
  function MatchNumberRun(s: string): (m: Option<NumberRun>)
    ensures m.Some? ==> IsNumberRun(s, m.value.digits, m.value.spaces, m.value.end)
    ensures m.Some? ==> forall a, b, c :: IsNumberRun(s, a, b, c) ==>
      a == m.value.digits && b <= m.value.spaces && (b == m.value.spaces ==> c <= m.value.end)
    ensures m.None? ==> forall a, b, c :: !IsNumberRun(s, a, b, c)
  {
    NumberRunIsGreedy(s);
    var a := RunEnd(IsSpace, s, 0);
    if a == |s| || !IsDigit(s[a]) then None
    else
      var b := RunEnd(IsDigit, s, a);
      Some(NumberRun(a, b, RunEnd(IsSpace, s, b)))
  }

  /** Every split the pattern allows lies within the greedy runs. */
  lemma NumberRunIsGreedy(s: string)
    ensures forall a, b, c :: IsNumberRun(s, a, b, c) ==>
      && a == RunEnd(IsSpace, s, 0)
      && b <= RunEnd(IsDigit, s, a)
      && c <= RunEnd(IsSpace, s, b)
  {
    forall a, b, c | IsNumberRun(s, a, b, c)
      ensures a == RunEnd(IsSpace, s, 0)
      ensures b <= RunEnd(IsDigit, s, a)
      ensures c <= RunEnd(IsSpace, s, b)
    {
      RunEndUnique(IsSpace, s, 0, a);
      RunEndMaximal(IsDigit, s, a, b);
      RunEndMaximal(IsSpace, s, b, c);
    }
  }

  /** Left-to-right scan: where a match starts it is replaced by one space and the scan
      resumes after it; elsewhere one character is copied. */
  function ReplaceNumbers(s: string): (r: string)
    ensures forall i :: 0 <= i < |r| ==> !IsDigit(r[i])
    ensures forall c :: c in r ==> c == ' ' || c in s
    ensures |r| <= |s|
    decreases |s|
  {
    if |s| == 0 then ""
    else
      match MatchNumberRun(s)
      case Some(m) =>
        var rest := ReplaceNumbers(s[m.end..]);
        assert forall c :: c in s[m.end..] ==> c in s;
        " " + rest
      case None =>
        assert !IsNumberRun(s, 0, 1, 1);
        [s[0]] + ReplaceNumbers(s[1..])
  }

  /** The pass only turns digits and whitespace into spaces: every other character
      survives, in order. */
  lemma {:induction false} ReplaceKeepsNonDigitSpace(s: string)
    ensures Filter(NotDigitOrSpace, ReplaceNumbers(s)) == Filter(NotDigitOrSpace, s)
    decreases |s|
  {
    var F := NotDigitOrSpace;
    if |s| > 0 {
      match MatchNumberRun(s)
      case Some(m) =>
        var rest := ReplaceNumbers(s[m.end..]);
        ReplaceKeepsNonDigitSpace(s[m.end..]);
        FilterAppend(F, " ", rest);
        assert s == s[..m.end] + s[m.end..];
        FilterAppend(F, s[..m.end], s[m.end..]);
        FilterNone(F, s[..m.end]);
      case None =>
        ReplaceKeepsNonDigitSpace(s[1..]);
        FilterAppend(F, [s[0]], ReplaceNumbers(s[1..]));
        assert s == [s[0]] + s[1..];
        FilterAppend(F, [s[0]], s[1..]);
    }
  }

  /** The pass leaves a text unchanged exactly when it contains no digit. */
  lemma {:induction false} ReplaceFixpoint(s: string)
    ensures ReplaceNumbers(s) == s <==> forall i :: 0 <= i < |s| ==> !IsDigit(s[i])
    decreases |s|
  {
    if |s| > 0 && forall i :: 0 <= i < |s| ==> !IsDigit(s[i]) {
      assert MatchNumberRun(s).None?;
      ReplaceFixpoint(s[1..]);
    }
  }

  /** The match at the start of `x + y` is the match at the start of `x` when `x` ends in
      a character that is neither a digit nor whitespace, and it ends before that
      character. */
  lemma MatchBeforeStop(x: string, y: string)
    requires |x| > 0 && NotDigitOrSpace(x[|x| - 1])
    ensures MatchNumberRun(x + y) == MatchNumberRun(x)
    ensures MatchNumberRun(x).Some? ==> MatchNumberRun(x).value.end < |x|
  {
    RunEndAppend(IsSpace, x, y, 0);
    var a := RunEnd(IsSpace, x, 0);
    assert (x + y)[a] == x[a];
    if IsDigit(x[a]) {
      RunEndAppend(IsDigit, x, y, a);
      RunEndAppend(IsSpace, x, y, RunEnd(IsDigit, x, a));
    }
  }

  /** The pass works piecewise on any cut right after a character that is neither a digit
      nor whitespace: no match runs across such a character, so whitespace away from
      digits, and everything else outside a match, is copied where it stands. */
  lemma {:induction false} ReplaceAppend(x: string, y: string)
    requires |x| > 0 ==> NotDigitOrSpace(x[|x| - 1])
    ensures ReplaceNumbers(x + y) == ReplaceNumbers(x) + ReplaceNumbers(y)
    decreases |x|, 1
  {
    if |x| == 0 {
      assert x + y == y;
    } else {
      ReplaceStepAppend(x, y);
    }
  }

  /** One scanning step of `x + y` is the step of `x`, followed by the rest of the scan. */
  lemma {:induction false} ReplaceStepAppend(x: string, y: string)
    requires |x| > 0 && NotDigitOrSpace(x[|x| - 1])
    ensures ReplaceNumbers(x + y) == ReplaceNumbers(x) + ReplaceNumbers(y)
    decreases |x|, 0
  {
    MatchBeforeStop(x, y);
    match MatchNumberRun(x)
    case Some(m) =>
      var rest := ReplaceNumbers(x[m.end..]);
      assert ReplaceNumbers(x + y) == " " + ReplaceNumbers(x[m.end..] + y) by {
        assert (x + y)[m.end..] == x[m.end..] + y;
      }
      assert ReplaceNumbers(x[m.end..] + y) == rest + ReplaceNumbers(y) by {
        ReplaceAppend(x[m.end..], y);
      }
      ConcatAssoc(" ", rest, ReplaceNumbers(y));
    case None =>
      var rest := ReplaceNumbers(x[1..]);
      assert ReplaceNumbers(x + y) == [x[0]] + ReplaceNumbers(x[1..] + y) by {
        assert (x + y)[0] == x[0] && (x + y)[1..] == x[1..] + y;
      }
      assert ReplaceNumbers(x[1..] + y) == rest + ReplaceNumbers(y) by {
        ReplaceAppend(x[1..], y);
      }
      ConcatAssoc([x[0]], rest, ReplaceNumbers(y));
  }

  /** One match: whitespace, a run of digits and whitespace become a single space, and the
      scan goes on with what follows. The match stops where the text ends or at a character
      that neither extends the trailing whitespace nor, when there is none, the digits. */
  lemma {:induction false} DigitRunIsOneSpace(w1: string, d: string, w2: string, y: string)
    requires forall i :: 0 <= i < |w1| ==> IsSpace(w1[i])
    requires |d| > 0 && forall i :: 0 <= i < |d| ==> IsDigit(d[i])
    requires forall i :: 0 <= i < |w2| ==> IsSpace(w2[i])
    requires |y| > 0 ==> !IsSpace(y[0]) && (|w2| == 0 ==> !IsDigit(y[0]))
    ensures ReplaceNumbers(w1 + d + w2 + y) == " " + ReplaceNumbers(y)
  {
    var s := w1 + d + w2 + y;
    var a, b := |w1|, |w1| + |d|;
    var c := b + |w2|;
    assert s[a] == d[0];
    RunEndUnique(IsSpace, s, 0, a);
    RunEndUnique(IsDigit, s, a, b);
    RunEndUnique(IsSpace, s, b, c);
    assert s[c..] == y;
  }

  /** Digits inside a word are removed too, and the word is split by one space: with
      `x = "abc"`, `d = "123"`, `y = "def"` the text "abc123def" becomes "abc def". */
  lemma {:induction false} EmbeddedDigits(x: string, d: string, y: string)
    requires forall i :: 0 <= i < |x| ==> NotDigitOrSpace(x[i])
    requires |d| > 0 && forall i :: 0 <= i < |d| ==> IsDigit(d[i])
    requires forall i :: 0 <= i < |y| ==> NotDigitOrSpace(y[i])
    ensures ReplaceNumbers(x + d + y) == x + " " + y
    decreases |x|
  {
    var s := x + d + y;
    if |x| == 0 {
      assert s == d + y;
      RunEndUnique(IsSpace, s, 0, 0);
      RunEndUnique(IsDigit, s, 0, |d|);
      RunEndUnique(IsSpace, s, |d|, |d|);
      assert s[|d|..] == y;
      ReplaceFixpoint(y);
    } else {
      assert s[0] == x[0] && s[1..] == x[1..] + d + y;
      assert !IsNumberRun(s, 0, 1, 1);
      EmbeddedDigits(x[1..], d, y);
      ConcatAssoc([x[0]], x[1..], " " + y);
    }
  }
}

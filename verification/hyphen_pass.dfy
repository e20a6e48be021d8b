/** Second cleaning pass, `re.sub(r'(\w+)-\s+(\w+)', r'\1\2', text)`: a word, a hyphen,
    whitespace and a word become the two words run together. */
module HyphenPass {
  import opened Wrappers
  import opened CharClasses
  import opened Sequences

  /** Where a match starting at position 0 ends its parts: the first word is
      `s[..hyphen]`, `s[hyphen]` is the hyphen, the whitespace is `s[hyphen + 1..second]`
      and the second word is `s[second..end]`. */
  datatype HyphenBreak = HyphenBreak(hyphen: nat, second: nat, end: nat)

  /** The pattern `(\w+)-\s+(\w+)` matches `s[..end]` with this split: the meaning of the
      regex, independent of how the engine searches. */
  predicate IsHyphenBreak(s: string, hyphen: int, second: int, end: int) {
    0 < hyphen && hyphen + 1 < second < end <= |s|
    && (forall i :: 0 <= i < hyphen ==> IsWord(s[i]))
    && s[hyphen] == '-'
    && (forall i :: hyphen < i < second ==> IsSpace(s[i]))
    && (forall i :: second <= i < end ==> IsWord(s[i]))
  }

  /** The match a backtracking engine returns at position 0. Every quantifier is greedy,
      so of all the splits the pattern allows it picks the longest first word, then the
      longest whitespace, then the longest second word. Only the second word has any real
      choice: a shorter first word would be followed by a word character instead of the
      hyphen, a shorter whitespace run by whitespace instead of a word character. */
  function MatchHyphenBreak(s: string): (m: Option<HyphenBreak>)
    ensures m.Some? ==> IsHyphenBreak(s, m.value.hyphen, m.value.second, m.value.end)
    ensures m.Some? ==> forall h, k, e :: IsHyphenBreak(s, h, k, e) ==>
      h == m.value.hyphen && k == m.value.second && e <= m.value.end
    ensures m.None? ==> forall h, k, e :: !IsHyphenBreak(s, h, k, e)
  {
    HyphenBreakIsGreedy(s);
    var j := RunEnd(IsWord, s, 0);
    if j == 0 || j == |s| || s[j] != '-' then None
    else
      var k := RunEnd(IsSpace, s, j + 1);
      if k == j + 1 || k == |s| then None
      else
        var e := RunEnd(IsWord, s, k);
        if e == k then None else Some(HyphenBreak(j, k, e))
  }

  /** Every split the pattern allows is built from the greedy runs. */
  lemma HyphenBreakIsGreedy(s: string)
    ensures forall h, k, e :: IsHyphenBreak(s, h, k, e) ==>
      && h == RunEnd(IsWord, s, 0)
      && k == RunEnd(IsSpace, s, h + 1)
      && e <= RunEnd(IsWord, s, k)
  {
    forall h, k, e | IsHyphenBreak(s, h, k, e)
      ensures h == RunEnd(IsWord, s, 0)
      ensures k == RunEnd(IsSpace, s, h + 1)
      ensures e <= RunEnd(IsWord, s, k)
    {
      RunEndUnique(IsWord, s, 0, h);
      RunEndUnique(IsSpace, s, h + 1, k);
      RunEndMaximal(IsWord, s, k, e);
    }
  }

  /** Left-to-right scan: where a match starts, the two words are emitted and the scan
      resumes after the match (so matches never overlap); elsewhere one character is
      copied. */
  function JoinHyphenatedWords(s: string): (r: string)
    ensures |r| <= |s|
    ensures IsSubsequence(r, s)
    decreases |s|
  {
    if |s| == 0 then ""
    else
      match MatchHyphenBreak(s)
      case Some(b) =>
        var rest := JoinHyphenatedWords(s[b.end..]);
        DropIsSubsequence(s, b.hyphen, b.second, b.end, rest);
        s[..b.hyphen] + (s[b.second..b.end] + rest)
      case None =>
        var rest := JoinHyphenatedWords(s[1..]);
        DropIsSubsequence(s, 0, 0, 1, rest);
        assert s[..0] + (s[0..1] + rest) == [s[0]] + rest;
        [s[0]] + rest
  }

  /** Keeping `s[..i]` and `s[j..k]`, dropping `s[i..j]`, and replacing the tail after `k`
      by a subsequence of it gives a subsequence of `s`. */
  lemma DropIsSubsequence(s: string, i: nat, j: nat, k: nat, rest: string)
    requires i <= j <= k <= |s| && IsSubsequence(rest, s[k..])
    ensures IsSubsequence(s[..i] + (s[j..k] + rest), s)
  {
    SubsequenceKeep(s[j..k], rest, s[k..]);
    assert s[j..k] + s[k..] == s[j..];
    SubsequenceSkip(s[j..k] + rest, s[i..j], s[j..]);
    assert s[i..j] + s[j..] == s[i..];
    SubsequenceKeep(s[..i], s[j..k] + rest, s[i..]);
    assert s[..i] + s[i..] == s;
  }

  /** The pass only deletes hyphens and whitespace: every other character survives, in
      order. With `IsSubsequence` from the scan's contract this says the pass is a pure
      deletion of hyphens and whitespace. */
  lemma {:induction false} JoinKeepsNonHyphenSpace(s: string)
    ensures Filter(NotHyphenOrSpace, JoinHyphenatedWords(s)) == Filter(NotHyphenOrSpace, s)
    decreases |s|
  {
    if |s| > 0 {
      match MatchHyphenBreak(s)
      case Some(b) =>
        JoinKeepsNonHyphenSpace(s[b.end..]);
        DropKeepsNonHyphenSpace(s, b.hyphen, b.second, b.end, JoinHyphenatedWords(s[b.end..]));
      case None =>
        JoinKeepsNonHyphenSpace(s[1..]);
        DropKeepsNonHyphenSpace(s, 0, 0, 1, JoinHyphenatedWords(s[1..]));
        assert s[..0] + (s[0..1] + JoinHyphenatedWords(s[1..])) == [s[0]] + JoinHyphenatedWords(s[1..]);
    }
  }

  /** Dropping `s[i..j]`, made of hyphens and whitespace, and replacing the tail after `k`
      by text with the same kept characters, keeps the characters `NotHyphenOrSpace` keeps. */
  lemma DropKeepsNonHyphenSpace(s: string, i: nat, j: nat, k: nat, rest: string)
    requires i <= j <= k <= |s|
    requires forall n :: i <= n < j ==> !NotHyphenOrSpace(s[n])
    requires Filter(NotHyphenOrSpace, rest) == Filter(NotHyphenOrSpace, s[k..])
    ensures Filter(NotHyphenOrSpace, s[..i] + (s[j..k] + rest)) == Filter(NotHyphenOrSpace, s)
  {
    var F := NotHyphenOrSpace;
    assert Filter(F, s) == Filter(F, s[..i]) + (Filter(F, s[j..k]) + Filter(F, s[k..])) by {
      assert s[j..k] + s[k..] == s[j..];
      assert s[i..j] + s[j..] == s[i..];
      assert s[..i] + s[i..] == s;
      FilterAppend(F, s[..i], s[i..]);
      FilterAppend(F, s[i..j], s[j..]);
      FilterAppend(F, s[j..k], s[k..]);
      FilterNone(F, s[i..j]);
    }
    assert Filter(F, s[..i] + (s[j..k] + rest)) == Filter(F, s[..i]) + (Filter(F, s[j..k]) + Filter(F, rest)) by {
      FilterAppend(F, s[..i], s[j..k] + rest);
      FilterAppend(F, s[j..k], rest);
    }
  }

  /** A character no part of the pattern can consume: neither a word character, nor the
      hyphen, nor whitespace. No match can run across it. */
  predicate IsBarrier(c: char) {
    !IsWord(c) && c != '-' && !IsSpace(c)
  }

  /** The match at the start of `x + y` is the match at the start of `x` when `x` ends in
      a barrier, and it ends before that barrier. */
  lemma MatchBeforeBarrier(x: string, y: string)
    requires |x| > 0 && IsBarrier(x[|x| - 1])
    ensures MatchHyphenBreak(x + y) == MatchHyphenBreak(x)
    ensures MatchHyphenBreak(x).Some? ==> MatchHyphenBreak(x).value.end < |x|
  {
    RunEndAppend(IsWord, x, y, 0);
    var j := RunEnd(IsWord, x, 0);
    assert (x + y)[j] == x[j];
    if j > 0 && x[j] == '-' {
      RunEndAppend(IsSpace, x, y, j + 1);
      var k := RunEnd(IsSpace, x, j + 1);
      assert (x + y)[k] == x[k];
      if k > j + 1 {
        RunEndAppend(IsWord, x, y, k);
      }
    }
  }

  /** The pass works piecewise on any cut right after a barrier: no match runs across a
      barrier, so the two sides are cleaned independently. */
  lemma {:induction false} JoinAppend(x: string, y: string)
    requires |x| > 0 ==> IsBarrier(x[|x| - 1])
    ensures JoinHyphenatedWords(x + y) == JoinHyphenatedWords(x) + JoinHyphenatedWords(y)
    decreases |x|, 1
  {
    if |x| == 0 {
      assert x + y == y;
    } else if MatchHyphenBreak(x).Some? {
      JoinBreakAppend(x, y);
    } else {
      JoinCopyAppend(x, y);
    }
  }

  /** A scanning step of `x + y` that joins a match of `x`. */
  lemma {:induction false} JoinBreakAppend(x: string, y: string)
    requires |x| > 0 && IsBarrier(x[|x| - 1]) && MatchHyphenBreak(x).Some?
    ensures JoinHyphenatedWords(x + y) == JoinHyphenatedWords(x) + JoinHyphenatedWords(y)
    decreases |x|, 0
  {
    MatchBeforeBarrier(x, y);
    var b := MatchHyphenBreak(x).value;
    var h, k, e := b.hyphen, b.second, b.end;
    var rest := JoinHyphenatedWords(x[e..]);
    assert JoinHyphenatedWords(x + y) == x[..h] + (x[k..e] + JoinHyphenatedWords(x[e..] + y)) by {
      assert (x + y)[..h] == x[..h] && (x + y)[k..e] == x[k..e] && (x + y)[e..] == x[e..] + y;
    }
    assert JoinHyphenatedWords(x[e..] + y) == rest + JoinHyphenatedWords(y) by {
      JoinAppend(x[e..], y);
    }
    ConcatAssoc(x[k..e], rest, JoinHyphenatedWords(y));
    ConcatAssoc(x[..h], x[k..e] + rest, JoinHyphenatedWords(y));
  }

  /** A scanning step of `x + y` that copies the first character of `x`. */
  lemma {:induction false} JoinCopyAppend(x: string, y: string)
    requires |x| > 0 && IsBarrier(x[|x| - 1]) && MatchHyphenBreak(x).None?
    ensures JoinHyphenatedWords(x + y) == JoinHyphenatedWords(x) + JoinHyphenatedWords(y)
    decreases |x|, 0
  {
    MatchBeforeBarrier(x, y);
    var rest := JoinHyphenatedWords(x[1..]);
    assert JoinHyphenatedWords(x + y) == [x[0]] + JoinHyphenatedWords(x[1..] + y) by {
      assert (x + y)[0] == x[0] && (x + y)[1..] == x[1..] + y;
    }
    assert JoinHyphenatedWords(x[1..] + y) == rest + JoinHyphenatedWords(y) by {
      JoinAppend(x[1..], y);
    }
    ConcatAssoc([x[0]], rest, JoinHyphenatedWords(y));
  }

  /** Some position of `s` starts a match. */
  predicate HasHyphenBreak(s: string) {
    exists i :: 0 <= i < |s| && MatchHyphenBreak(s[i..]).Some?
  }

  /** Whenever there is a match, the pass makes the text strictly shorter. */
  lemma {:induction false} JoinShortens(s: string)
    requires HasHyphenBreak(s)
    ensures |JoinHyphenatedWords(s)| < |s|
    decreases |s|
  {
    if MatchHyphenBreak(s).None? {
      var i :| 0 <= i < |s| && MatchHyphenBreak(s[i..]).Some?;
      assert i > 0 && s[1..][i - 1..] == s[i..];
      JoinShortens(s[1..]);
    }
  }

  /** The pass leaves a text unchanged exactly when no position of it starts a match. */
  lemma {:induction false} JoinFixpoint(s: string)
    ensures JoinHyphenatedWords(s) == s <==> !HasHyphenBreak(s)
    decreases |s|
  {
    if HasHyphenBreak(s) {
      JoinShortens(s);
    } else if |s| > 0 {
      assert MatchHyphenBreak(s[0..]).None?;
      assert s[0..] == s;
      forall i | 0 <= i < |s| - 1
        ensures MatchHyphenBreak(s[1..][i..]).None?
      {
        assert s[1..][i..] == s[i + 1..];
      }
      JoinFixpoint(s[1..]);
    }
  }

  /** A split the pattern allows whose second word cannot be extended is the match. */
  lemma MatchIsMaximalBreak(s: string, h: nat, k: nat, e: nat)
    requires IsHyphenBreak(s, h, k, e) && (e < |s| ==> !IsWord(s[e]))
    ensures MatchHyphenBreak(s) == Some(HyphenBreak(h, k, e))
  {
    RunEndUnique(IsWord, s, 0, h);
    RunEndUnique(IsSpace, s, h + 1, k);
    RunEndUnique(IsWord, s, k, e);
  }

  /** Matches do not overlap and the scan never revisits its output: the first match
      consumes the second word, so the second hyphen is left in place and the result
      still contains a match. With one-letter words and one-space gaps: "a- b- c" becomes
      "ab- c", not "abc". */
  lemma {:induction false} NonOverlapping(w1: string, g1: string, w2: string, g2: string, w3: string)
    requires |w1| > 0 && forall i :: 0 <= i < |w1| ==> IsWord(w1[i])
    requires |w2| > 0 && forall i :: 0 <= i < |w2| ==> IsWord(w2[i])
    requires |w3| > 0 && forall i :: 0 <= i < |w3| ==> IsWord(w3[i])
    requires |g1| > 0 && forall i :: 0 <= i < |g1| ==> IsSpace(g1[i])
    requires |g2| > 0 && forall i :: 0 <= i < |g2| ==> IsSpace(g2[i])
    ensures JoinHyphenatedWords(w1 + "-" + g1 + w2 + "-" + g2 + w3) == w1 + w2 + "-" + g2 + w3
    ensures HasHyphenBreak(w1 + w2 + "-" + g2 + w3)
  {
    var tail := "-" + g2 + w3;
    var x := w1 + "-" + g1 + w2;
    assert JoinHyphenatedWords(x + tail) == w1 + (w2 + tail) by {
      FirstBreakJoined(w1, g1, w2, tail);
      TailHasNoBreak(g2, w3);
      JoinFixpoint(tail);
    }
    assert x + tail == x + "-" + g2 + w3 by {
      ConcatAssoc(x, "-" + g2, w3);
      ConcatAssoc(x, "-", g2);
    }
    assert w1 + (w2 + tail) == w1 + w2 + "-" + g2 + w3 by {
      ConcatAssoc(w1, w2, tail);
      ConcatAssoc(w1 + w2, "-" + g2, w3);
      ConcatAssoc(w1 + w2, "-", g2);
    }
    StartsWithBreak(w1 + w2, g2, w3);
  }

  /** A word, a hyphen, whitespace and a word, followed by the end of the text or by a
      character that cannot extend the second word: the scan emits the two words run
      together, drops the hyphen and the whitespace, and carries on right after the second
      word. */
  lemma {:induction false} FirstBreakJoined(w1: string, g1: string, w2: string, tail: string)
    requires |w1| > 0 && forall i :: 0 <= i < |w1| ==> IsWord(w1[i])
    requires |w2| > 0 && forall i :: 0 <= i < |w2| ==> IsWord(w2[i])
    requires |g1| > 0 && forall i :: 0 <= i < |g1| ==> IsSpace(g1[i])
    requires |tail| > 0 ==> !IsWord(tail[0])
    ensures JoinHyphenatedWords(w1 + "-" + g1 + w2 + tail) == w1 + (w2 + JoinHyphenatedWords(tail))
  {
    var s := w1 + "-" + g1 + w2 + tail;
    var h, k := |w1|, |w1| + 1 + |g1|;
    var e := k + |w2|;
    assert s[..h] == w1 && s[k..e] == w2 && s[e..] == tail;
    MatchIsMaximalBreak(s, h, k, e);
  }

  /** A character that cannot start a word is copied as it is, and the scan goes on
      right after it: whitespace and hyphens not inside a match stay where they stand. */
  lemma JoinCopyNonWord(c: char, y: string)
    requires !IsWord(c)
    ensures JoinHyphenatedWords([c] + y) == [c] + JoinHyphenatedWords(y)
  {
    RunEndUnique(IsWord, [c] + y, 0, 0);
    assert ([c] + y)[1..] == y;
  }

  /** Dropping a leading word character keeps a text free of a match at its start: any
      split of the shorter text extends to one of the longer text. */
  lemma NoBreakAfterWordChar(s: string)
    requires |s| > 0 && IsWord(s[0]) && MatchHyphenBreak(s).None?
    ensures MatchHyphenBreak(s[1..]).None?
  {
    forall h, k, e | IsHyphenBreak(s[1..], h, k, e)
      ensures IsHyphenBreak(s, h + 1, k + 1, e + 1)
    {
      assert forall i :: 0 < i < |s| ==> s[i] == s[1..][i - 1];
    }
  }

  /** A word that does not start a match is copied as it is, and the scan goes on right
      after it. With `JoinCopyNonWord` and `FirstBreakJoined` this fixes the output of
      the pass on every text: at each point the text starts with a non-word character,
      with a maximal word that starts no match, or with a match. */
  lemma {:induction false} JoinCopyWord(w: string, y: string)
    requires |w| > 0 && forall i :: 0 <= i < |w| ==> IsWord(w[i])
    requires MatchHyphenBreak(w + y).None?
    ensures JoinHyphenatedWords(w + y) == w + JoinHyphenatedWords(y)
    decreases |w|
  {
    var s := w + y;
    assert s[0] == w[0] && s[1..] == w[1..] + y;
    NoBreakAfterWordChar(s);
    if |w| == 1 {
      assert w[1..] + y == y && w == [w[0]];
    } else {
      JoinCopyWord(w[1..], y);
      assert w == [w[0]] + w[1..];
      ConcatAssoc([w[0]], w[1..], JoinHyphenatedWords(y));
    }
  }

  /** A word, a hyphen, whitespace and a word is itself a match. */
  lemma StartsWithBreak(w1: string, g: string, w2: string)
    requires |w1| > 0 && forall i :: 0 <= i < |w1| ==> IsWord(w1[i])
    requires |w2| > 0 && forall i :: 0 <= i < |w2| ==> IsWord(w2[i])
    requires |g| > 0 && forall i :: 0 <= i < |g| ==> IsSpace(g[i])
    ensures HasHyphenBreak(w1 + "-" + g + w2)
  {
    var r := w1 + "-" + g + w2;
    MatchIsMaximalBreak(r, |w1|, |w1| + 1 + |g|, |r|);
    assert r[0..] == r;
  }

  /** A hyphen, whitespace and one word hold no match. */
  lemma TailHasNoBreak(g: string, w: string)
    requires forall i :: 0 <= i < |g| ==> IsSpace(g[i])
    requires forall i :: 0 <= i < |w| ==> IsWord(w[i])
    ensures !HasHyphenBreak("-" + g + w)
  {
    var t := "-" + g + w;
    forall i | 0 <= i < |t| ensures MatchHyphenBreak(t[i..]).None? {
      if i <= |g| {
        assert !IsWord(t[i..][0]);
      } else {
        assert forall n :: 0 <= n < |t[i..]| ==> t[i..][n] == w[i - 1 - |g| + n];
        RunEndUnique(IsWord, t[i..], 0, |t[i..]|);
      }
    }
  }
}

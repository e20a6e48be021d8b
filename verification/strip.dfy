/** Python's `str.strip()` with no argument: drop leading and trailing whitespace. */
module Stripping {
  import opened CharClasses
  import opened Sequences

  /** `s` neither starts nor ends with whitespace. */
  predicate IsStripped(s: string) {
    |s| > 0 ==> !IsSpace(s[0]) && !IsSpace(s[|s| - 1])
  }

  /** `r` is `s[a..a + |r|]` and everything of `s` around it is whitespace. */
  predicate Sandwiched(s: string, a: int, r: string) {
    0 <= a <= |s| - |r| && r == s[a..a + |r|]
    && (forall i :: 0 <= i < a ==> IsSpace(s[i]))
    && (forall i :: a + |r| <= i < |s| ==> IsSpace(s[i]))
  }

  /** The suffix of `s` left after its leading whitespace. */
  function TrimStart(s: string): (r: string)
    ensures |r| <= |s| && r == s[|s| - |r|..]
    ensures forall i :: 0 <= i < |s| - |r| ==> IsSpace(s[i])
    ensures |r| > 0 ==> !IsSpace(r[0])
    decreases |s|
  {
    if |s| > 0 && IsSpace(s[0]) then TrimStart(s[1..]) else s
  }

  /** The prefix of `s` left before its trailing whitespace. */
  function TrimEnd(s: string): (r: string)
    ensures |r| <= |s| && r == s[..|r|]
    ensures forall i :: |r| <= i < |s| ==> IsSpace(s[i])
    ensures |r| > 0 ==> !IsSpace(r[|r| - 1])
    decreases |s|
  {
    if |s| > 0 && IsSpace(s[|s| - 1]) then TrimEnd(s[..|s| - 1]) else s
  }

  /** The result is a slice of `s` with only whitespace cut away on either side, and it
      has no whitespace left at either end. */
  function Strip(s: string): (r: string)
    ensures IsStripped(r)
    ensures exists a :: Sandwiched(s, a, r)
  {
    var t := TrimStart(s);
    var r := TrimEnd(t);
    var a := |s| - |t|;
    assert Sandwiched(s, a, r);
    r
  }

  /** Stripping a text padded with whitespace on both sides gives back the core, so the
      slice described by `Strip`'s contract is the only possible result. */
  lemma {:induction false} StripPadded(p: string, m: string, q: string)
    requires forall i :: 0 <= i < |p| ==> IsSpace(p[i])
    requires forall i :: 0 <= i < |q| ==> IsSpace(q[i])
    requires IsStripped(m)
    ensures Strip(p + m + q) == m
  {
    assert p + m + q == p + (m + q);
    if |m| == 0 {
      assert m + q == q;
      TrimStartPadded(p, q);
      assert TrimEnd("") == "";
    } else {
      assert (m + q)[0] == m[0];
      TrimStartPadded(p, m + q);
      TrimEndPadded(m, q);
    }
  }

  lemma {:induction false} TrimStartPadded(p: string, t: string)
    requires forall i :: 0 <= i < |p| ==> IsSpace(p[i])
    requires |t| > 0 ==> !IsSpace(t[0]) || forall i :: 0 <= i < |t| ==> IsSpace(t[i])
    ensures TrimStart(p + t) == (if |t| > 0 && !IsSpace(t[0]) then t else "")
    decreases |p|
  {
    if |p| == 0 {
      assert p + t == t;
      if |t| > 0 && IsSpace(t[0]) {
        TrimStartAllSpace(t);
      }
    } else {
      assert (p + t)[1..] == p[1..] + t;
      TrimStartPadded(p[1..], t);
    }
  }

  lemma {:induction false} TrimStartAllSpace(t: string)
    requires forall i :: 0 <= i < |t| ==> IsSpace(t[i])
    ensures TrimStart(t) == ""
    decreases |t|
  {
    if |t| > 0 {
      TrimStartAllSpace(t[1..]);
    }
  }

  lemma {:induction false} TrimEndPadded(m: string, q: string)
    requires forall i :: 0 <= i < |q| ==> IsSpace(q[i])
    requires |m| > 0 ==> !IsSpace(m[|m| - 1])
    ensures TrimEnd(m + q) == m
    decreases |q|
  {
    if |q| == 0 {
      assert m + q == m;
      if |m| > 0 {
        assert TrimEnd(m) == m;
      }
    } else {
      assert (m + q)[..|m + q| - 1] == m + q[..|q| - 1];
      TrimEndPadded(m, q[..|q| - 1]);
    }
  }

  /** Stripping removes whitespace only: every other character survives, in order. */
  lemma StripKeepsNonSpace(s: string)
    ensures Filter(NotSpace, Strip(s)) == Filter(NotSpace, s)
  {
    TrimStartKeepsNonSpace(s);
    TrimEndKeepsNonSpace(TrimStart(s));
  }

  lemma TrimEndKeepsNonSpace(t: string)
    ensures Filter(NotSpace, TrimEnd(t)) == Filter(NotSpace, t)
  {
    var r := TrimEnd(t);
    assert t == r + t[|r|..];
    FilterAppend(NotSpace, r, t[|r|..]);
    FilterNone(NotSpace, t[|r|..]);
  }

  lemma {:induction false} TrimStartKeepsNonSpace(s: string)
    ensures Filter(NotSpace, TrimStart(s)) == Filter(NotSpace, s)
    decreases |s|
  {
    if |s| > 0 && IsSpace(s[0]) {
      TrimStartKeepsNonSpace(s[1..]);
    }
  }
}

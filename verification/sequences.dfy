/** Generic facts about strings used by the regex passes. */
module Sequences {

  /** Every character of `s` satisfies `p`. */
  predicate AllIn(p: char -> bool, s: string) {
    forall i :: 0 <= i < |s| ==> p(s[i])
  }

  /** The end of the longest run of characters satisfying `p` that starts at `from`:
      what a greedy `x*` consumes when matching starts there. */
  function RunEnd(p: char -> bool, s: string, from: nat): (e: nat)
    requires from <= |s|
    ensures from <= e <= |s|
    ensures forall i :: from <= i < e ==> p(s[i])
    ensures e < |s| ==> !p(s[e])
    decreases |s| - from
  {
    if from == |s| || !p(s[from]) then from else RunEnd(p, s, from + 1)
  }

  /** Any run starting at `from` ends no later than the greedy one. */
  lemma RunEndMaximal(p: char -> bool, s: string, from: nat, k: int)
    requires from <= k <= |s| && forall i :: from <= i < k ==> p(s[i])
    ensures k <= RunEnd(p, s, from)
  {
  }

  /** The greedy run is the only run that ends in front of a non-matching character. */
  lemma RunEndUnique(p: char -> bool, s: string, from: nat, k: int)
    requires from <= k <= |s| && (forall i :: from <= i < k ==> p(s[i]))
    requires k < |s| ==> !p(s[k])
    ensures k == RunEnd(p, s, from)
  {
  }

  lemma ConcatAssoc(a: string, b: string, c: string)
    ensures a + (b + c) == (a + b) + c
  {
  }

  /** A run that starts inside `x` and meets a character of `x` failing `p` ends inside
      `x`, whatever follows. */
  lemma RunEndAppend(p: char -> bool, x: string, y: string, from: nat)
    requires from < |x| && !p(x[|x| - 1])
    ensures RunEnd(p, x + y, from) == RunEnd(p, x, from) < |x|
  {
    RunEndUnique(p, x + y, from, RunEnd(p, x, from));
  }

  /** The characters of `s` that satisfy `keep`, in order. */
  function Filter(keep: char -> bool, s: string): (r: string)
    decreases |s|
  {
    if |s| == 0 then ""
    else (if keep(s[0]) then [s[0]] else "") + Filter(keep, s[1..])
  }

  lemma {:induction false} FilterAppend(keep: char -> bool, x: string, y: string)
    ensures Filter(keep, x + y) == Filter(keep, x) + Filter(keep, y)
    decreases |x|
  {
    if |x| == 0 {
      assert x + y == y;
    } else {
      assert (x + y)[0] == x[0];
      assert (x + y)[1..] == x[1..] + y;
      FilterAppend(keep, x[1..], y);
      var head := if keep(x[0]) then [x[0]] else "";
      ConcatAssoc(head, Filter(keep, x[1..]), Filter(keep, y));
    }
  }

  lemma {:induction false} FilterNone(keep: char -> bool, s: string)
    requires forall i :: 0 <= i < |s| ==> !keep(s[i])
    ensures Filter(keep, s) == ""
    decreases |s|
  {
    if |s| > 0 {
      FilterNone(keep, s[1..]);
    }
  }

  /** Filtering with a weaker predicate first changes nothing. */
  lemma {:induction false} FilterNarrow(weak: char -> bool, strong: char -> bool, s: string)
    requires forall c :: strong(c) ==> weak(c)
    ensures Filter(strong, Filter(weak, s)) == Filter(strong, s)
    decreases |s|
  {
    if |s| > 0 {
      FilterNarrow(weak, strong, s[1..]);
      var head := if weak(s[0]) then [s[0]] else "";
      FilterAppend(strong, head, Filter(weak, s[1..]));
      if weak(s[0]) {
        assert Filter(strong, head) == Filter(strong, [s[0]]) == if strong(s[0]) then [s[0]] else "";
      }
    }
  }

  /** `a` is obtained from `b` by deleting characters. */
  predicate IsSubsequence(a: string, b: string)
    decreases |b|
  {
    if |a| == 0 then true
    else if |b| == 0 then false
    else (a[0] == b[0] && IsSubsequence(a[1..], b[1..])) || IsSubsequence(a, b[1..])
  }

  lemma {:induction false} SubsequenceSkip(a: string, x: string, b: string)
    requires IsSubsequence(a, b)
    ensures IsSubsequence(a, x + b)
    decreases |x|
  {
    if |x| == 0 {
      assert x + b == b;
    } else {
      assert (x + b)[1..] == x[1..] + b;
      SubsequenceSkip(a, x[1..], b);
    }
  }

  lemma {:induction false} SubsequenceKeep(p: string, a: string, b: string)
    requires IsSubsequence(a, b)
    ensures IsSubsequence(p + a, p + b)
    decreases |p|
  {
    if |p| == 0 {
      assert p + a == a && p + b == b;
    } else {
      assert (p + a)[1..] == p[1..] + a;
      assert (p + b)[1..] == p[1..] + b;
      SubsequenceKeep(p[1..], a, b);
    }
  }

  /** Deleting characters introduces none. */
  lemma {:induction false} SubsequenceMembers(a: string, b: string)
    requires IsSubsequence(a, b)
    ensures forall c :: c in a ==> c in b
    decreases |b|
  {
    if |a| > 0 {
      if a[0] == b[0] && IsSubsequence(a[1..], b[1..]) {
        SubsequenceMembers(a[1..], b[1..]);
        assert a == [a[0]] + a[1..];
      } else {
        SubsequenceMembers(a, b[1..]);
      }
    }
  }
}

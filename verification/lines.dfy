/** `"\n".join(parts)` and its inverse `s.split("\n")`. */
module Lines {
  import opened CharClasses
  import opened Sequences

  /** The total number of characters in `parts`. */
  function TotalLength(parts: seq<string>): (n: nat)
  {
    if |parts| == 0 then 0 else |parts[0]| + TotalLength(parts[1..])
  }

  /** Python's `"\n".join(parts)`: the parts in order, one newline between neighbours. */
  function JoinLines(parts: seq<string>): (s: string)
    ensures |parts| > 0 ==> |s| == TotalLength(parts) + |parts| - 1
    ensures |parts| > 0 ==> s[..|parts[0]|] == parts[0]
  {
    if |parts| == 0 then ""
    else if |parts| == 1 then parts[0]
    else parts[0] + "\n" + JoinLines(parts[1..])
  }

  /** Python's `s.split("\n")`: the pieces between newlines, always at least one. */
  function SplitLines(s: string): (parts: seq<string>)
    ensures |parts| > 0
    ensures forall i :: 0 <= i < |parts| ==> '\n' !in parts[i]
    decreases |s|
  {
    var n := RunEnd(NotNewline, s, 0);
    if n == |s| then [s] else [s[..n]] + SplitLines(s[n + 1..])
  }

  /** The concatenation of `Filter(keep, part)` over all parts. */
  function FilterEach(keep: char -> bool, parts: seq<string>): (r: string)
  {
    if |parts| == 0 then "" else Filter(keep, parts[0]) + FilterEach(keep, parts[1..])
  }

  /** Splitting a join of newline-free parts gives the parts back. */
  lemma {:induction false} SplitJoinLines(parts: seq<string>)
    requires |parts| > 0
    requires forall i :: 0 <= i < |parts| ==> '\n' !in parts[i]
    ensures SplitLines(JoinLines(parts)) == parts
    decreases |parts|
  {
    var s := JoinLines(parts);
    var p0 := parts[0];
    RunEndUnique(NotNewline, s, 0, |p0|);
    if |parts| > 1 {
      assert s[|p0| + 1..] == JoinLines(parts[1..]);
      SplitJoinLines(parts[1..]);
    }
  }

  /** Joining splits at the boundary between any two non-empty lists of parts, whatever
      the parts hold, newlines included: the join is the parts in order with exactly one
      newline between neighbours. */
  lemma {:induction false} JoinLinesAppend(a: seq<string>, b: seq<string>)
    requires |a| > 0 && |b| > 0
    ensures JoinLines(a + b) == JoinLines(a) + "\n" + JoinLines(b)
    decreases |a|
  {
    assert (a + b)[0] == a[0] && (a + b)[1..] == a[1..] + b;
    if |a| > 1 {
      var x, rest := a[0] + "\n", JoinLines(a[1..]);
      assert JoinLines(a[1..] + b) == rest + "\n" + JoinLines(b) by {
        JoinLinesAppend(a[1..], b);
      }
      ConcatAssoc(x, rest + "\n", JoinLines(b));
      ConcatAssoc(x, rest, "\n");
    }
  }

  /** Joining the pieces of a split gives the text back, for every text. */
  lemma {:induction false} JoinSplitLines(s: string)
    ensures JoinLines(SplitLines(s)) == s
    decreases |s|
  {
    var n := RunEnd(NotNewline, s, 0);
    if n < |s| {
      var parts := SplitLines(s);
      assert parts[0] == s[..n] && parts[1..] == SplitLines(s[n + 1..]);
      JoinSplitLines(s[n + 1..]);
      assert s == s[..n] + "\n" + s[n + 1..];
    }
  }

  /** A filter that drops newlines sees through the join: only the parts' own characters remain. */
  lemma {:induction false} FilterJoinLines(keep: char -> bool, parts: seq<string>)
    requires !keep('\n')
    ensures Filter(keep, JoinLines(parts)) == FilterEach(keep, parts)
    decreases |parts|
  {
    if |parts| == 1 {
      assert FilterEach(keep, parts[1..]) == "";
    } else if |parts| > 1 {
      FilterAppend(keep, parts[0] + "\n", JoinLines(parts[1..]));
      FilterAppend(keep, parts[0], "\n");
      FilterJoinLines(keep, parts[1..]);
    }
  }

  /** The join adds no character but the newline. */
  lemma {:induction false} JoinLinesMembers(parts: seq<string>)
    ensures forall c :: c in JoinLines(parts) ==>
      c == '\n' || exists i :: 0 <= i < |parts| && c in parts[i]
    decreases |parts|
  {
    if |parts| > 1 {
      JoinLinesMembers(parts[1..]);
      forall c | c in JoinLines(parts[1..])
        ensures c == '\n' || exists i :: 0 <= i < |parts| && c in parts[i]
      {
        if c != '\n' {
          var i :| 0 <= i < |parts[1..]| && c in parts[1..][i];
          assert c in parts[i + 1];
        }
      }
    }
  }
}

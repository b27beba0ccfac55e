/** Substring occurrence, and Python's `str.count` as the script calls it at
    cluster.py:83. */
module Text {

  /** `g` starts at position `i` of `s`. */
  predicate OccursAt(g: string, s: string, i: int)
  {
    0 <= i && i + |g| <= |s| && s[i..i + |g|] == g
  }

  /** `g` is a substring of `s`: the property the counts are stated against. */
  predicate Occurs(g: string, s: string)
  {
    exists i | 0 <= i <= |s| - |g| :: OccursAt(g, s, i)
  }

  /** Python's `s.count(sub)`. The scan goes left to right; a match is counted
      and the scan resumes just after it, so counted matches never overlap.
      An empty `sub` matches at each of the |s| + 1 positions. */
  function Count(s: string, sub: string): (c: nat)
    ensures |sub| > 0 ==> c * |sub| <= |s|
    decreases |s|
  {
    if |sub| == 0 then |s| + 1
    else if |s| < |sub| then 0
    else if s[..|sub|] == sub then
      var rest := Count(s[|sub|..], sub);
      assert (1 + rest) * |sub| == |sub| + rest * |sub|;
      1 + rest
    else Count(s[1..], sub)
  }

  /** The number of positions at which `sub` starts in `s`, overlapping
      matches included: the reference the non-overlapping count is compared
      with. */
  function OverlappingCount(s: string, sub: string): (c: nat)
    decreases |s|
  {
    if |s| < |sub| then 0
    else
      var here := if s[..|sub|] == sub then 1 else 0;
      if |s| == 0 then here else here + OverlappingCount(s[1..], sub)
  }

  /** A count is positive exactly when the searched string occurs. */
  lemma {:induction false} CountPositiveIffOccurs(s: string, sub: string)
    requires |sub| > 0
    ensures Count(s, sub) > 0 <==> Occurs(sub, s)
    decreases |s|
  {
    if |s| < |sub| {
    } else if s[..|sub|] == sub {
      assert OccursAt(sub, s, 0);
    } else {
      CountPositiveIffOccurs(s[1..], sub);
      if Occurs(sub, s[1..]) {
        var i :| 0 <= i <= |s[1..]| - |sub| && OccursAt(sub, s[1..], i);
        assert s[i + 1..i + 1 + |sub|] == s[1..][i..i + |sub|];
        assert OccursAt(sub, s, i + 1);
      }
      if Occurs(sub, s) {
        var i :| 0 <= i <= |s| - |sub| && OccursAt(sub, s, i);
        assert i != 0;
        assert s[1..][i - 1..i - 1 + |sub|] == s[i..i + |sub|];
        assert OccursAt(sub, s[1..], i - 1);
      }
    }
  }

  /** Dropping a prefix never adds match positions. */
  lemma {:induction false} OverlappingCountOfSuffix(s: string, sub: string, k: nat)
    requires k <= |s|
    ensures OverlappingCount(s[k..], sub) <= OverlappingCount(s, sub)
    decreases k
  {
    if k > 0 {
      OverlappingCountOfSuffix(s[1..], sub, k - 1);
      assert s[1..][k - 1..] == s[k..];
    }
  }

  /** The non-overlapping count never exceeds the number of match positions. */
  lemma {:induction false} CountAtMostOverlapping(s: string, sub: string)
    ensures Count(s, sub) <= OverlappingCount(s, sub)
    decreases |s|
  {
    if |sub| == 0 {
      EmptyOverlappingCount(s, sub);
    } else if |s| < |sub| {
    } else if s[..|sub|] == sub {
      CountAtMostOverlapping(s[|sub|..], sub);
      OverlappingCountOfSuffix(s[1..], sub, |sub| - 1);
      assert s[1..][|sub| - 1..] == s[|sub|..];
    } else {
      CountAtMostOverlapping(s[1..], sub);
    }
  }

  /** The empty string matches at every position, end included. */
  lemma {:induction false} EmptyOverlappingCount(s: string, sub: string)
    requires |sub| == 0
    ensures OverlappingCount(s, sub) == |s| + 1
    decreases |s|
  {
    if |s| > 0 {
      EmptyOverlappingCount(s[1..], sub);
    }
  }

  /** Matches that overlap are counted once: "aaa" holds "aa" at two
      positions, and `"aaa".count("aa")` is 1. */
  lemma OverlapCountedOnce()
    ensures Count("aaa", "aa") == 1
    ensures OverlappingCount("aaa", "aa") == 2
  {
  }
}

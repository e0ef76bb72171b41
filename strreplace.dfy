/** Python's `str.replace(old, new)` and `old in s`, over strings of code points.

    `ReplaceAll(s, p, r)` scans `s` from the left, replaces every occurrence of
    `p` that does not overlap an occurrence already replaced, and resumes the
    scan right after each replaced occurrence, so the inserted text `r` is never
    scanned again. For the empty pattern Python inserts `r` before every
    character and at the end (`"ab".replace("", "x") == "xaxbx"`).
 */
module StrReplace {

  /** `p` occurs in `s` starting at index `i`. */
  predicate OccursAt(s: string, p: string, i: int)
  {
    0 <= i && i + |p| <= |s| && s[i..i + |p|] == p
  }

  /** Python's `p in s`. */
  predicate Contains(s: string, p: string)
  {
    exists i | 0 <= i <= |s| - |p| :: OccursAt(s, p, i)
  }

  /** Python's `s.replace(p, r)` with no count argument. */
  function ReplaceAll(s: string, p: string, r: string): string
    decreases |s|
  {
    if p == [] then
      if s == [] then r else r + [s[0]] + ReplaceAll(s[1..], p, r)
    else if |s| < |p| then s
    else if s[..|p|] == p then r + ReplaceAll(s[|p|..], p, r)
    else [s[0]] + ReplaceAll(s[1..], p, r)
  }

  /** Python's `s.count(p)`: the number of occurrences `ReplaceAll` replaces. */
  function Count(s: string, p: string): nat
    decreases |s|
  {
    if p == [] then |s| + 1
    else if |s| < |p| then 0
    else if s[..|p|] == p then 1 + Count(s[|p|..], p)
    else Count(s[1..], p)
  }

  lemma MulSucc(c: int, d: int)
    ensures (1 + c) * d == d + c * d
  {
  }

  lemma MulNonZero(c: int, d: int)
    requires c != 0 && d != 0
    ensures c * d != 0
  {
  }

  /** Each replaced occurrence changes the length by `|r| - |p|`. */
  lemma {:induction false} ReplaceAllLength(s: string, p: string, r: string)
    ensures |ReplaceAll(s, p, r)| == |s| + Count(s, p) * (|r| - |p|)
    decreases |s|
  {
    if p == [] {
      if s != [] {
        ReplaceAllLength(s[1..], p, r);
        MulSucc(Count(s[1..], p), |r|);
      }
    } else if |s| < |p| {
    } else if s[..|p|] == p {
      ReplaceAllLength(s[|p|..], p, r);
      MulSucc(Count(s[|p|..], p), |r| - |p|);
    } else {
      ReplaceAllLength(s[1..], p, r);
    }
  }

  /** The replaced occurrences do not overlap, so together they fit in `s`. */
  lemma {:induction false} CountBound(s: string, p: string)
    requires p != []
    ensures Count(s, p) * |p| <= |s|
    decreases |s|
  {
    if |s| < |p| {
    } else if s[..|p|] == p {
      CountBound(s[|p|..], p);
      MulSucc(Count(s[|p|..], p), |p|);
    } else {
      CountBound(s[1..], p);
    }
  }

  /** An occurrence in the tail of `s` is an occurrence in `s`, one index further. */
  lemma OccursInTail(s: string, p: string, i: int)
    requires |s| > 0 && OccursAt(s[1..], p, i)
    ensures OccursAt(s, p, i + 1)
  {
  }

  /** The scan replaces something exactly when the pattern occurs. */
  lemma {:induction false} CountPositiveIffContains(s: string, p: string)
    ensures Count(s, p) > 0 <==> Contains(s, p)
    decreases |s|
  {
    if p == [] {
      assert OccursAt(s, p, 0);
    } else if |s| < |p| {
    } else if s[..|p|] == p {
      assert OccursAt(s, p, 0);
    } else {
      CountPositiveIffContains(s[1..], p);
      if Contains(s, p) {
        var i :| 0 <= i <= |s| - |p| && OccursAt(s, p, i);
        assert i != 0;
        assert s[1..][i - 1..i - 1 + |p|] == s[i..i + |p|];
        assert OccursAt(s[1..], p, i - 1);
      }
      if Contains(s[1..], p) {
        var i :| 0 <= i <= |s[1..]| - |p| && OccursAt(s[1..], p, i);
        OccursInTail(s, p, i);
      }
    }
  }

  /** With no occurrence the scan copies `s` unchanged. */
  lemma {:induction false} CountZeroIsIdentity(s: string, p: string, r: string)
    requires Count(s, p) == 0
    ensures ReplaceAll(s, p, r) == s
    decreases |s|
  {
    if |s| >= |p| && s[..|p|] != p {
      CountZeroIsIdentity(s[1..], p, r);
    }
  }

  /** Replacing a pattern by itself changes nothing. */
  lemma {:induction false} ReplaceBySelfIsIdentity(s: string, p: string)
    ensures ReplaceAll(s, p, p) == s
    decreases |s|
  {
    if p == [] {
      if s != [] {
        ReplaceBySelfIsIdentity(s[1..], p);
      }
    } else if |s| < |p| {
    } else if s[..|p|] == p {
      ReplaceBySelfIsIdentity(s[|p|..], p);
      assert s == s[..|p|] + s[|p|..];
    } else {
      ReplaceBySelfIsIdentity(s[1..], p);
    }
  }

  /** An absent pattern makes `replace` a no-op, so `if p in s:` in front of it
      does not change the result. */
  lemma AbsentIsNoOp(s: string, p: string, r: string)
    requires !Contains(s, p)
    ensures ReplaceAll(s, p, r) == s
  {
    CountPositiveIffContains(s, p);
    CountZeroIsIdentity(s, p, r);
  }

  /** A present pattern replaced by a different string always changes the text. */
  lemma {:induction false} PresentChanges(s: string, p: string, r: string)
    requires Count(s, p) > 0 && r != p
    ensures ReplaceAll(s, p, r) != s
    decreases |s|
  {
    if |r| != |p| {
      ReplaceAllLength(s, p, r);
      MulNonZero(Count(s, p), |r| - |p|);
    } else if p == [] {
    } else if s[..|p|] == p {
      assert ReplaceAll(s, p, r)[..|p|] == r;
    } else {
      PresentChanges(s[1..], p, r);
      assert ReplaceAll(s, p, r)[1..] == ReplaceAll(s[1..], p, r);
    }
  }

  /** `s.replace(p, r) == s` exactly when `p` is absent or `r` is `p`. */
  lemma UnchangedIff(s: string, p: string, r: string)
    ensures ReplaceAll(s, p, r) == s <==> !Contains(s, p) || r == p
  {
    CountPositiveIffContains(s, p);
    if !Contains(s, p) {
      CountZeroIsIdentity(s, p, r);
    } else if r == p {
      ReplaceBySelfIsIdentity(s, p);
    } else {
      PresentChanges(s, p, r);
    }
  }

  /** After an occurrence at the front the scan resumes behind it: the inserted
      `r` is emitted as it is and never scanned, even when it holds `p`. */
  lemma ReplacedTextNotRescanned(p: string, r: string, t: string)
    requires p != []
    ensures ReplaceAll(p + t, p, r) == r + ReplaceAll(t, p, r)
  {
  }

  /** `"aaaa".replace("aa", "a") == "aa"`: two non-overlapping occurrences,
      and the output `"aa"` is not replaced again. */
  lemma NotRescannedExample()
    ensures ReplaceAll("aaaa", "aa", "a") == "aa"
    ensures Count("aaaa", "aa") == 2
  {
  }

  /** `"ab".replace("", "x") == "xaxbx"`. */
  lemma EmptyPatternExample()
    ensures ReplaceAll("ab", "", "x") == "xaxbx"
  {
  }
}

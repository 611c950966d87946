/**
 String helpers of the hash-API verifier: the suffix test `hasEnding`, the
 substring search behind `std::string::find`, the position after the last
 scope colon (used by the scoped-suffix filters), and the order in which a
 `std::set<std::string>` keeps its elements.
 */
module Strings {

  /** `e` occurs in `s` starting at index `i`. */
  ghost predicate OccursAt(s: string, e: string, i: int)
  {
    0 <= i && i + |e| <= |s| && s[i..i + |e|] == e
  }

  /** No character of `s` is a colon. */
  predicate ColonFree(s: string)
  {
    forall k :: 0 <= k < |s| ==> s[k] != ':'
  }

  /** The suffix test `hasEnding(fullString, ending)`: the answer is false
      whenever the ending is longer than the string. */
  function HasEnding(s: string, e: string): (r: bool)
    ensures r <==> exists i :: OccursAt(s, e, i) && i + |e| == |s|
    ensures |e| > |s| ==> !r
  {
    if |s| >= |e| then
      assert OccursAt(s, e, |s| - |e|) <==> s[|s| - |e|..] == e;
      s[|s| - |e|..] == e
    else
      false
  }

  /** `HasEnding` holds exactly of the strings that are some prefix followed by the ending. */
  lemma HasEndingIffConcat(s: string, e: string)
    ensures HasEnding(s, e) <==> exists p :: s == p + e
  {
    if HasEnding(s, e) {
      var p := s[..|s| - |e|];
      assert s == p + e;
    }
    if exists p :: s == p + e {
      var p :| s == p + e;
      assert s[|p|..] == e;
      assert OccursAt(s, e, |p|);
    }
  }

  /** `t` is a prefix of `s`. */
  predicate StartsWith(s: string, t: string)
  {
    |t| <= |s| && s[..|t|] == t
  }

  /** Substring search, as `s.find(t) != npos`: true iff `t` occurs somewhere in `s`
      (the empty string occurs in every string). */
  function Contains(s: string, t: string): (r: bool)
    ensures r <==> exists i :: OccursAt(s, t, i)
    decreases |s|
  {
    if StartsWith(s, t) then
      assert OccursAt(s, t, 0);
      true
    else if |s| == 0 then
      false
    else
      ShiftOccurrence(s, t);
      Contains(s[1..], t)
  }

  /** An occurrence in `s` past index 0 is an occurrence in `s[1..]`, shifted by one. */
  lemma ShiftOccurrence(s: string, t: string)
    requires |s| > 0
    requires !StartsWith(s, t)
    ensures (exists i :: OccursAt(s, t, i)) <==> (exists i :: OccursAt(s[1..], t, i))
  {
    if exists i :: OccursAt(s, t, i) {
      var i :| OccursAt(s, t, i);
      assert i != 0;
      assert s[1..][i - 1..i - 1 + |t|] == s[i..i + |t|];
      assert OccursAt(s[1..], t, i - 1);
    }
    if exists i :: OccursAt(s[1..], t, i) {
      var i :| OccursAt(s[1..], t, i);
      assert s[1..][i..i + |t|] == s[i + 1..i + 1 + |t|];
      assert OccursAt(s, t, i + 1);
    }
  }

  /** The index just past the last colon of `s`, or 0 when `s` has no colon:
      everything from there on is free of colons. */
  function AfterLastColon(s: string): (i: nat)
    ensures i <= |s|
    ensures i > 0 ==> s[i - 1] == ':'
    ensures forall k :: i <= k < |s| ==> s[k] != ':'
    decreases |s|
  {
    if |s| == 0 then 0
    else if s[|s| - 1] == ':' then |s|
    else AfterLastColon(s[..|s| - 1])
  }

  /** The index after the last colon is the only index with the two properties
      `AfterLastColon` promises. */
  lemma AfterLastColonUnique(s: string, k: nat)
    requires 0 < k <= |s| && s[k - 1] == ':'
    requires forall m :: k <= m < |s| ==> s[m] != ':'
    ensures AfterLastColon(s) == k
  {
  }

  /** `a` sorts strictly before `b` in the order of `std::string::compare`:
      characters compare by code (unsigned), and a proper prefix sorts first. */
  predicate Less(a: string, b: string)
    decreases |a|
  {
    if |a| == 0 then |b| > 0
    else |b| > 0 && (a[0] < b[0] || (a[0] == b[0] && Less(a[1..], b[1..])))
  }

  /** The first-difference reading of the string order: either `a` is a proper
      prefix of `b`, or at the first index where they differ `a` has the smaller character. */
  ghost predicate LessAtFirstDifference(a: string, b: string)
  {
    (|a| < |b| && a == b[..|a|])
    || exists k :: 0 <= k < |a| && k < |b| && a[..k] == b[..k] && a[k] < b[k]
  }

  lemma {:induction false} LessIffFirstDifference(a: string, b: string)
    ensures Less(a, b) <==> LessAtFirstDifference(a, b)
    decreases |a|
  {
    if |a| == 0 {
    } else if |b| == 0 {
    } else if a[0] < b[0] {
      assert a[..0] == b[..0];
    } else if a[0] > b[0] {
      forall k | 0 < k <= |a| && k <= |b|
        ensures a[..k] != b[..k]
      {
        assert a[..k][0] != b[..k][0];
      }
    } else {
      LessIffFirstDifference(a[1..], b[1..]);
      if LessAtFirstDifference(a[1..], b[1..]) {
        if |a[1..]| < |b[1..]| && a[1..] == b[1..][..|a[1..]|] {
          assert a == [a[0]] + a[1..];
          assert b[..|a|] == [b[0]] + b[1..][..|a[1..]|];
        } else {
          var k :| 0 <= k < |a[1..]| && k < |b[1..]| && a[1..][..k] == b[1..][..k] && a[1..][k] < b[1..][k];
          assert a[..k + 1] == [a[0]] + a[1..][..k];
          assert b[..k + 1] == [b[0]] + b[1..][..k];
        }
      }
      if LessAtFirstDifference(a, b) {
        if |a| < |b| && a == b[..|a|] {
          assert a[1..] == b[1..][..|a[1..]|];
        } else {
          var k :| 0 <= k < |a| && k < |b| && a[..k] == b[..k] && a[k] < b[k];
          assert k > 0;
          assert a[1..][..k - 1] == a[..k][1..];
          assert b[1..][..k - 1] == b[..k][1..];
          assert a[1..][k - 1] == a[k];
        }
      }
    }
  }

  lemma {:induction false} LessIrreflexive(a: string)
    ensures !Less(a, a)
    decreases |a|
  {
    if |a| > 0 {
      LessIrreflexive(a[1..]);
    }
  }

  lemma {:induction false} LessTransitive(a: string, b: string, c: string)
    requires Less(a, b) && Less(b, c)
    ensures Less(a, c)
    decreases |a|
  {
    if |a| > 0 && a[0] == b[0] && b[0] == c[0] {
      LessTransitive(a[1..], b[1..], c[1..]);
    }
  }

  /** Any two distinct strings are ordered one way or the other. */
  lemma {:induction false} LessTotal(a: string, b: string)
    ensures a == b || Less(a, b) || Less(b, a)
    decreases |a|
  {
    if |a| > 0 && |b| > 0 && a[0] == b[0] {
      LessTotal(a[1..], b[1..]);
      if a[1..] == b[1..] {
        assert a == [a[0]] + a[1..];
        assert b == [b[0]] + b[1..];
      }
    }
  }

  lemma LessAsymmetric(a: string, b: string)
    requires Less(a, b)
    ensures !Less(b, a)
  {
    if Less(b, a) {
      LessTransitive(a, b, a);
      LessIrreflexive(a);
    }
  }
}

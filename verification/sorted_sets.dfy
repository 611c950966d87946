/**
 A `std::set<std::string>` as the checker iterates it: a sequence of strings
 in strictly increasing `std::string` order. Insertion keeps the order and
 ignores duplicates; filtering while iterating keeps the order too.
 */
module SortedSets {
  import opened Strings

  /** Every element sorts strictly before every later one (so there are no duplicates). */
  ghost predicate StrictlySorted(s: seq<string>)
  {
    forall i, j :: 0 <= i < j < |s| ==> Less(s[i], s[j])
  }

  /** A strictly sorted sequence holds no string twice. */
  lemma SortedHasNoDuplicates(s: seq<string>)
    requires StrictlySorted(s)
    ensures forall i, j :: 0 <= i < |s| && 0 <= j < |s| && i != j ==> s[i] != s[j]
  {
    forall i, j | 0 <= i < |s| && 0 <= j < |s| && i != j
      ensures s[i] != s[j]
    {
      if i < j {
        LessIrreflexive(s[i]);
      } else {
        LessIrreflexive(s[j]);
      }
    }
  }

  /** Putting a string below every element in front of a sorted sequence keeps it sorted. */
  lemma SortedCons(x: string, s: seq<string>)
    requires StrictlySorted(s)
    requires forall y :: y in s ==> Less(x, y)
    ensures StrictlySorted([x] + s)
  {
    var r := [x] + s;
    forall i, j | 0 <= i < j < |r|
      ensures Less(r[i], r[j])
    {
      if i > 0 {
        assert r[i] == s[i - 1] && r[j] == s[j - 1];
      } else {
        assert r[j] in s;
      }
    }
  }

  /** The head of a sorted sequence sorts before every element of the tail. */
  lemma HeadBelowTail(s: seq<string>)
    requires StrictlySorted(s) && |s| > 0
    ensures forall y :: y in s[1..] ==> Less(s[0], y)
  {
    forall y | y in s[1..]
      ensures Less(s[0], y)
    {
      var j :| 0 <= j < |s[1..]| && s[1..][j] == y;
      assert s[j + 1] == y;
    }
  }

  /** `std::set::insert` on the sorted representation: the result is still sorted
      and holds exactly the old elements and `x`. */
  function Insert(s: seq<string>, x: string): (r: seq<string>)
    requires StrictlySorted(s)
    ensures StrictlySorted(r)
    ensures forall y :: y in r <==> y in s || y == x
    decreases |s|
  {
    if |s| == 0 then
      [x]
    else if x == s[0] then
      s
    else if Less(x, s[0]) then
      HeadBelowTail(s);
      forall y | y in s ensures Less(x, y) {
        if y != s[0] {
          LessTransitive(x, s[0], y);
        }
      }
      SortedCons(x, s);
      [x] + s
    else
      LessTotal(x, s[0]);
      HeadBelowTail(s);
      var rest := Insert(s[1..], x);
      assert s == [s[0]] + s[1..];
      SortedCons(s[0], rest);
      [s[0]] + rest
  }

  /** Inserting every string of `xs` in turn, as a loop of `std::set::insert` calls does. */
  function InsertAll(s: seq<string>, xs: seq<string>): (r: seq<string>)
    requires StrictlySorted(s)
    ensures StrictlySorted(r)
    ensures forall y :: y in r <==> y in s || y in xs
    decreases |xs|
  {
    if |xs| == 0 then
      s
    else
      var r := InsertAll(Insert(s, xs[0]), xs[1..]);
      assert xs == [xs[0]] + xs[1..];
      r
  }

  /** Iterating a sorted set and keeping the strings found in neither `a` nor `b`,
      in iteration order: the kept strings are still sorted. */
  function KeepAbsent(s: seq<string>, a: set<string>, b: set<string>): (r: seq<string>)
    requires StrictlySorted(s)
    ensures StrictlySorted(r)
    ensures forall y :: y in r <==> y in s && y !in a && y !in b
    decreases |s|
  {
    if |s| == 0 then
      []
    else
      HeadBelowTail(s);
      var rest := KeepAbsent(s[1..], a, b);
      assert s == [s[0]] + s[1..];
      if s[0] !in a && s[0] !in b then
        SortedCons(s[0], rest);
        [s[0]] + rest
      else
        assert s[0] !in rest by { LessIrreflexive(s[0]); }
        rest
  }

  /** The first element of a non-empty sequence is one of its elements; called
      where that fact alone closes a branch the contents rule out. */
  lemma HeadIsMember(s: seq<string>)
    requires |s| > 0
    ensures s[0] in s
  {
  }

  /** Two strictly sorted sequences with the same elements are the same sequence:
      the order of a sorted listing is determined by its contents alone. */
  lemma {:induction false} SortedUnique(a: seq<string>, b: seq<string>)
    requires StrictlySorted(a) && StrictlySorted(b)
    requires forall y :: y in a <==> y in b
    ensures a == b
    decreases |a|
  {
    if |a| == 0 {
      if |b| > 0 {
        HeadIsMember(b);
        assert false;
      }
    } else {
      assert a[0] in b;
      assert |b| > 0;
      HeadBelowTail(a);
      HeadBelowTail(b);
      if a[0] != b[0] {
        assert b[0] in a;
        assert a[0] in b[1..] by { assert b == [b[0]] + b[1..]; }
        assert b[0] in a[1..] by { assert a == [a[0]] + a[1..]; }
        LessAsymmetric(a[0], b[0]);
        assert false;
      }
      forall y
        ensures y in a[1..] <==> y in b[1..]
      {
        assert a == [a[0]] + a[1..];
        assert b == [b[0]] + b[1..];
        LessIrreflexive(a[0]);
        if y in a[1..] {
          assert y != a[0] && y in b;
        }
        if y in b[1..] {
          assert y != b[0] && y in a;
        }
      }
      SortedUnique(a[1..], b[1..]);
      assert a == [a[0]] + a[1..];
      assert b == [b[0]] + b[1..];
    }
  }
}

/**
 The method filters. Each filter is a regular expression applied as a
 whole-string match; every one used by the checker has one of four shapes,
 so a filter is a `Pattern` and its regular language is `Denotes`.
 `ShouldCheckMethod` decides whether a method of an API class belongs to
 the catalog of methods that some visitor has to call.
 */
module Filters {
  import opened Strings
  import opened ProgramModel

  /** The four filter shapes, each matched against the whole string:
      - `Exactly(t)`: the string is `t`;
      - `Containing(t)`: anything, then `t`, then anything;
      - `EndingWith(t)`: anything, then `t`;
      - `ScopedSuffix(w)`: anything, then `::`, then `w`, then one or more
        characters none of which is a colon. */
  datatype Pattern =
    | Exactly(text: string)
    | Containing(text: string)
    | EndingWith(text: string)
    | ScopedSuffix(stem: string)

  /** The stem of a scoped-suffix pattern holds no colon (true of every table entry). */
  predicate WellFormed(p: Pattern)
  {
    p.ScopedSuffix? ==> ColonFree(p.stem)
  }

  /** The language of a pattern, written as the regular expression reads:
      the position where the literal part starts, and what may follow it. */
  ghost predicate Denotes(p: Pattern, s: string)
  {
    match p
    case Exactly(t) => s == t
    case Containing(t) => exists i :: OccursAt(s, t, i)
    case EndingWith(t) => exists i :: OccursAt(s, t, i) && i + |t| == |s|
    case ScopedSuffix(w) => EndsInSegment(s, w)
  }

  /** `s` is some prefix, then `::` at index `i`, then `w`, then a non-empty
      colon-free tail. */
  ghost predicate SegmentAt(s: string, w: string, i: int)
  {
    OccursAt(s, "::" + w, i) && i + |w| + 2 < |s| && ColonFree(s[i + |w| + 2..])
  }

  /** `s` ends in `::`, then `w`, then a non-empty colon-free tail. */
  ghost predicate EndsInSegment(s: string, w: string)
  {
    exists i :: SegmentAt(s, w, i)
  }

  /** The scoped-suffix test, done from the last colon: the string matches iff its
      last two colons are adjacent, and what follows them starts with `w` and is
      longer than `w`. */
  function ScopedSuffixMatch(s: string, w: string): (r: bool)
    requires ColonFree(w)
    ensures r <==> Denotes(ScopedSuffix(w), s)
  {
    var j := AfterLastColon(s);
    ScopedSuffixFromLastColon(s, w, j);
    2 <= j && s[j - 2] == ':' && |s| - j > |w| && s[j..j + |w|] == w
  }

  lemma ScopedSuffixFromLastColon(s: string, w: string, j: nat)
    requires ColonFree(w)
    requires j == AfterLastColon(s)
    ensures (2 <= j && s[j - 2] == ':' && |s| - j > |w| && s[j..j + |w|] == w)
            <==> EndsInSegment(s, w)
  {
    if 2 <= j && s[j - 2] == ':' && |s| - j > |w| && s[j..j + |w|] == w {
      LastColonWitness(s, w, j);
      assert EndsInSegment(s, w);
    }
    if EndsInSegment(s, w) {
      var i :| SegmentAt(s, w, i);
      WitnessAtLastColon(s, w, i);
      assert j == i + 2 && s[i] == ':' && i + |w| + 2 < |s|;
    }
  }

  /** The split found from the last colon is a witness of the pattern's language. */
  lemma LastColonWitness(s: string, w: string, j: nat)
    requires j == AfterLastColon(s)
    requires 2 <= j && s[j - 2] == ':' && |s| - j > |w| && s[j..j + |w|] == w
    ensures SegmentAt(s, w, j - 2)
  {
    assert s[j - 2..j + |w|] == s[j - 2..j] + s[j..j + |w|];
    assert s[j - 2..j] == "::";
  }

  /** Any witness of the pattern's language puts its `::` right before the last colon's end. */
  lemma WitnessAtLastColon(s: string, w: string, i: int)
    requires ColonFree(w)
    requires SegmentAt(s, w, i)
    ensures AfterLastColon(s) == i + 2
    ensures s[i] == ':'
    ensures s[i + 2..i + 2 + |w|] == w
  {
    var lit := "::" + w;
    assert s[i..i + |lit|] == lit;
    assert s[i] == lit[0] && s[i + 1] == lit[1];
    assert s[i + 2..i + 2 + |w|] == lit[2..];
    forall m | i + 2 <= m < |s|
      ensures s[m] != ':'
    {
      if m < i + 2 + |w| {
        assert s[m] == s[i + 2..i + 2 + |w|][m - i - 2];
      } else {
        assert s[m] == s[i + |w| + 2..][m - (i + |w| + 2)];
      }
    }
    AfterLastColonUnique(s, i + 2);
  }

  /** `std::regex_match` of a filter against the whole string. */
  function FullMatch(p: Pattern, s: string): (r: bool)
    requires WellFormed(p)
    ensures r <==> Denotes(p, s)
  {
    match p
    case Exactly(t) => s == t
    case Containing(t) => Contains(s, t)
    case EndingWith(t) => HasEnding(s, t)
    case ScopedSuffix(w) => ScopedSuffixMatch(s, w)
  }

  /** True iff some filter of the table matches the whole string; the tables are
      tried in order and the first match answers. */
  function MatchesAnyFilter(s: string, filters: seq<Pattern>): (r: bool)
    requires forall k :: 0 <= k < |filters| ==> WellFormed(filters[k])
    ensures r <==> exists k :: 0 <= k < |filters| && Denotes(filters[k], s)
    decreases |filters|
  {
    if |filters| == 0 then
      false
    else if FullMatch(filters[0], s) then
      true
    else
      var r := MatchesAnyFilter(s, filters[1..]);
      assert forall k :: 1 <= k < |filters| ==> filters[k] == filters[1..][k - 1];
      r
  }

  /** The printed return type of a source location accessor. */
  const SourceLocationType: string := "class clang::SourceLocation"

  /** Return types that exclude a method: the source location type, anything
      mentioning `_begin` or `_end`, and anything ending in a `::begin_X` or
      `::end_X` segment. */
  const ReturnTypeFilters: seq<Pattern> := [
    Exactly(SourceLocationType),
    Containing("_begin"),
    Containing("_end"),
    ScopedSuffix("begin_"),
    ScopedSuffix("end_")
  ]

  /** Qualified names that exclude a method: names ending in `_begin` or `_end`,
      and names ending in a `::begin_X` or `::end_X` segment. */
  const NameFilters: seq<Pattern> := [
    EndingWith("_begin"),
    EndingWith("_end"),
    ScopedSuffix("begin_"),
    ScopedSuffix("end_")
  ]

  /** The return-type exclusion, stated directly. */
  ghost predicate ExcludedReturnType(t: string)
  {
    || t == SourceLocationType
    || (exists i :: OccursAt(t, "_begin", i))
    || (exists i :: OccursAt(t, "_end", i))
    || EndsInSegment(t, "begin_")
    || EndsInSegment(t, "end_")
  }

  /** The name exclusion, stated directly. */
  ghost predicate ExcludedName(n: string)
  {
    || (exists p :: n == p + "_begin")
    || (exists p :: n == p + "_end")
    || EndsInSegment(n, "begin_")
    || EndsInSegment(n, "end_")
  }

  lemma ReturnTypeFiltersMeaning(t: string)
    ensures MatchesAnyFilter(t, ReturnTypeFilters) <==> ExcludedReturnType(t)
  {
    var f := ReturnTypeFilters;
    assert Denotes(f[0], t) <==> t == SourceLocationType;
    assert Denotes(f[1], t) <==> exists i :: OccursAt(t, "_begin", i);
    assert Denotes(f[2], t) <==> exists i :: OccursAt(t, "_end", i);
    assert Denotes(f[3], t) <==> EndsInSegment(t, "begin_");
    assert Denotes(f[4], t) <==> EndsInSegment(t, "end_");
  }

  lemma NameFiltersMeaning(n: string)
    ensures MatchesAnyFilter(n, NameFilters) <==> ExcludedName(n)
  {
    var f := NameFilters;
    HasEndingIffConcat(n, "_begin");
    HasEndingIffConcat(n, "_end");
    assert Denotes(f[0], n) <==> HasEnding(n, "_begin");
    assert Denotes(f[1], n) <==> HasEnding(n, "_end");
    assert Denotes(f[2], n) <==> EndsInSegment(n, "begin_");
    assert Denotes(f[3], n) <==> EndsInSegment(n, "end_");
  }

  /** A method of an API class is checked iff it is a public const instance
      method whose return type and qualified name escape every exclusion. */
  function ShouldCheckMethod(m: MethodDecl): (r: bool)
    ensures r <==>
      && m.isInstance
      && m.access == Public
      && m.isConst
      && !ExcludedReturnType(m.returnType)
      && !ExcludedName(m.name)
  {
    ReturnTypeFiltersMeaning(m.returnType);
    NameFiltersMeaning(m.name);
    && m.isInstance
    && m.access == Public
    && m.isConst
    && !MatchesAnyFilter(m.returnType, ReturnTypeFilters)
    && !MatchesAnyFilter(m.name, NameFilters)
  }

  /** A name that ends in a `::begin_X` segment, X non-empty and colon-free, is
      never checked, whatever the rest of the method looks like. */
  lemma BeginSegmentNeverChecked(m: MethodDecl, p: string, x: string)
    requires m.name == p + "::begin_" + x
    requires |x| > 0 && ColonFree(x)
    ensures !ShouldCheckMethod(m)
  {
    var i := |p|;
    assert m.name[i..i + 8] == "::begin_";
    assert m.name[i + 8..] == x;
    assert OccursAt(m.name, "::" + "begin_", i);
    assert SegmentAt(m.name, "begin_", i);
  }

  /** A method returning a source location is never checked. */
  lemma SourceLocationNeverChecked(m: MethodDecl)
    requires m.returnType == SourceLocationType
    ensures !ShouldCheckMethod(m)
  {
  }

  /** `Foo::begin_bar` in particular is never checked. */
  lemma FooBeginBarNeverChecked(m: MethodDecl)
    requires m.name == "Foo::begin_bar"
    ensures !ShouldCheckMethod(m)
  {
    assert m.name == "Foo" + "::begin_" + "bar";
    BeginSegmentNeverChecked(m, "Foo", "bar");
  }
}

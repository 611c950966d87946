/**
 The whole check over one program: scan the declarations, build the catalog
 of methods that must be called, subtract the recorded calls and the ignore
 list, and report what is left in sorted order together with the exit status.
 */
module Coverage {
  import opened Strings
  import opened SortedSets
  import opened ProgramModel
  import opened IgnoreList
  import opened Filters
  import opened Visitors

  /** `c` is an API class: some visitor of the program targets it. */
  ghost predicate IsApiClass(p: Program, c: ClassId)
  {
    exists f :: f in p.functions && IsVisitor(f) && TargetOf(f) == Some(c)
  }

  /** `n` is the qualified name of a checked method of an API class. */
  ghost predicate InCatalog(p: Program, n: string)
  {
    exists c, m :: c in p.classes && IsApiClass(p, c.id) && m in c.methods && ShouldCheckMethod(m) && m.name == n
  }

  /** Some visitor of the program calls `n` on its own target class. */
  ghost predicate Observed(p: Program, n: string)
  {
    exists f :: f in p.functions && IsVisitor(f) && Records(f, n)
  }

  /** The qualified names of the checked methods among `methods`, in order. */
  function CheckedNames(methods: seq<MethodDecl>): (r: seq<string>)
    ensures forall n :: n in r <==> exists m :: m in methods && ShouldCheckMethod(m) && m.name == n
    decreases |methods|
  {
    if |methods| == 0 then
      []
    else
      var rest := CheckedNames(methods[1..]);
      assert methods == [methods[0]] + methods[1..];
      if ShouldCheckMethod(methods[0]) then [methods[0].name] + rest else rest
  }

  /** The qualified names of the checked methods of every class in `api`. */
  function CatalogNames(classes: seq<ClassDecl>, api: set<ClassId>): (r: seq<string>)
    ensures forall n :: n in r <==>
      exists c, m :: c in classes && c.id in api && m in c.methods && ShouldCheckMethod(m) && m.name == n
    decreases |classes|
  {
    if |classes| == 0 then
      []
    else
      var head := if classes[0].id in api then CheckedNames(classes[0].methods) else [];
      var rest := CatalogNames(classes[1..], api);
      assert classes == [classes[0]] + classes[1..];
      head + rest
  }

  /** The exit status: 0 when nothing is missing, 1 otherwise. */
  function ExitCode(violations: seq<string>): (r: int)
    ensures r == 0 || r == 1
    ensures r == 0 <==> violations == []
    ensures r == 1 <==> exists n :: n in violations
  {
    if |violations| == 0 then
      0
    else
      assert violations[0] in violations;
      1
  }

  /** The outcome of one run: the missing methods in the order they are printed,
      and the process exit status. */
  datatype Report = Report(violations: seq<string>, exitCode: int)

  /** One run of the checker over a program and an ignore-list file (`None`
      when the file cannot be opened). The violations are exactly the catalog
      methods that no visitor calls on its target and that the ignore list does
      not name; they come out strictly sorted, and the exit status is 1 exactly
      when there is one. */
  function Analyze(p: Program, ignoreFile: Option<seq<string>>): (r: Report)
    ensures StrictlySorted(r.violations)
    ensures forall n :: n in r.violations <==>
      InCatalog(p, n) && !Observed(p, n) && n !in ReadLines(ignoreFile)
    ensures r.exitCode == 0 <==> |r.violations| == 0
    ensures r.exitCode == 1 <==> |r.violations| > 0
  {
    var scan := ScanFunctions(p.functions, Scan({}, {}));
    var unused := ReadLines(ignoreFile);
    var allMemberCalls := InsertAll([], CatalogNames(p.classes, scan.apiClasses));
    var notFound := KeepAbsent(allMemberCalls, unused, scan.memberCalls);
    Report(notFound, ExitCode(notFound))
  }

  /** Every method name of the program could be written as an ignore-list line. */
  ghost predicate NamesAreEntries(p: Program)
  {
    forall c, m :: c in p.classes && m in c.methods ==> IsEntry(m.name)
  }

  /** Adding every reported violation to the ignore list and running again
      reports nothing. */
  lemma IgnoringViolationsClears(p: Program, lines: seq<string>)
    requires NamesAreEntries(p)
    ensures var first := Analyze(p, Some(lines));
            var second := Analyze(p, Some(lines + first.violations));
            second.violations == [] && second.exitCode == 0
  {
    var first := Analyze(p, Some(lines));
    var second := Analyze(p, Some(lines + first.violations));
    AppendedLinesExtend(lines, first.violations);
    forall n | n in first.violations
      ensures n in ReadLines(Some(lines + first.violations))
    {
      assert InCatalog(p, n);
      assert IsEntry(n);
      assert n in EntriesOf(first.violations);
    }
    if |second.violations| > 0 {
      HeadIsMember(second.violations);
      assert false;
    }
  }

  /** When no function is a visitor there are no API classes, so the catalog is
      empty and the run passes silently. */
  lemma NoVisitorsPasses(p: Program, ignoreFile: Option<seq<string>>)
    requires forall f :: f in p.functions ==> !IsVisitor(f)
    ensures Analyze(p, ignoreFile).violations == []
    ensures Analyze(p, ignoreFile).exitCode == 0
  {
    var r := Analyze(p, ignoreFile);
    if |r.violations| > 0 {
      HeadIsMember(r.violations);
      assert false;
    }
  }

  /** The report depends only on which declarations the program has, not on
      the order they come in. */
  lemma OrderDoesNotMatter(p: Program, q: Program, ignoreFile: Option<seq<string>>)
    requires forall f :: f in p.functions <==> f in q.functions
    requires forall c :: c in p.classes <==> c in q.classes
    ensures Analyze(p, ignoreFile) == Analyze(q, ignoreFile)
  {
    var a := Analyze(p, ignoreFile);
    var b := Analyze(q, ignoreFile);
    assert forall c :: IsApiClass(p, c) <==> IsApiClass(q, c);
    assert forall n :: InCatalog(p, n) <==> InCatalog(q, n);
    assert forall n :: Observed(p, n) <==> Observed(q, n);
    SortedUnique(a.violations, b.violations);
  }

  /** The program with the `k`-th declaration given one more top-level statement. */
  function AddStatement(p: Program, k: nat, e: Expr): Program
    requires k < |p.functions|
  {
    p.(functions := p.functions[k := WithStatement(p.functions[k], e)])
  }

  /** Extending the functions does not change which classes are API classes,
      and adds to the observed calls exactly what the new statement makes. */
  lemma AddStatementEffect(p: Program, k: nat, e: Expr)
    requires k < |p.functions|
    ensures forall c :: IsApiClass(AddStatement(p, k, e), c) <==> IsApiClass(p, c)
    ensures forall n :: Observed(AddStatement(p, k, e), n) <==>
      Observed(p, n) ||
      (IsVisitor(p.functions[k]) && TargetOf(p.functions[k]).Some? &&
       OccursIn(CallSite(TargetOf(p.functions[k]).value, n), e))
  {
    var q := AddStatement(p, k, e);
    var f := p.functions[k];
    var g := WithStatement(f, e);
    assert q.functions[k] == g;
    assert IsVisitor(g) == IsVisitor(f) && TargetOf(g) == TargetOf(f);
    forall f' | f' in q.functions
      ensures f' == g || f' in p.functions
    {
      var i :| 0 <= i < |q.functions| && q.functions[i] == f';
      if i != k {
        assert p.functions[i] == f';
      }
    }
    forall f' | f' in p.functions
      ensures f' == f || f' in q.functions
    {
      var i :| 0 <= i < |p.functions| && p.functions[i] == f';
      if i != k {
        assert q.functions[i] == f';
      }
    }
    forall n
      ensures Observed(q, n) <==>
        Observed(p, n) || (IsVisitor(f) && TargetOf(f).Some? && OccursIn(CallSite(TargetOf(f).value, n), e))
    {
      AppendedStatementCalls(f, e, n);
    }
  }

  /** Calling a catalog method `m` on the target in one of the visitors takes
      `m` off the report and changes nothing else in it. */
  lemma TargetCallCovers(p: Program, k: nat, m: string, ignoreFile: Option<seq<string>>)
    requires k < |p.functions|
    requires IsVisitor(p.functions[k]) && TargetOf(p.functions[k]).Some?
    ensures var e := MemberCall(TargetOf(p.functions[k]).value, m, []);
            forall n :: n in Analyze(AddStatement(p, k, e), ignoreFile).violations <==>
              n in Analyze(p, ignoreFile).violations && n != m
  {
    var t := TargetOf(p.functions[k]).value;
    var e := MemberCall(t, m, []);
    AddStatementEffect(p, k, e);
    var q := AddStatement(p, k, e);
    assert forall n :: InCatalog(q, n) <==> InCatalog(p, n);
    assert forall n :: OccursIn(CallSite(t, n), e) <==> n == m;
  }

  /** A call on a receiver of any other class than the visitor's target (a
      subclass included) leaves the report exactly as it was. */
  lemma OtherReceiverChangesNothing(p: Program, k: nat, r: ClassId, m: string, ignoreFile: Option<seq<string>>)
    requires k < |p.functions|
    requires TargetOf(p.functions[k]) != Some(r)
    ensures Analyze(AddStatement(p, k, MemberCall(r, m, [])), ignoreFile) == Analyze(p, ignoreFile)
  {
    var e := MemberCall(r, m, []);
    AddStatementEffect(p, k, e);
    var q := AddStatement(p, k, e);
    assert forall n :: InCatalog(q, n) <==> InCatalog(p, n);
    assert forall n :: Observed(q, n) <==> Observed(p, n);
    SortedUnique(Analyze(q, ignoreFile).violations, Analyze(p, ignoreFile).violations);
  }

  /** The class `Widget` (id 1) with `getId`, `begin_children` and `getLocation`
      (which returns a source location), and one visitor that calls only `getId`. */
  function WidgetProgram(): Program
  {
    var widget := ClassDecl(1, [
      MethodDecl("Widget::getId", true, Public, true, "int"),
      MethodDecl("Widget::begin_children", true, Public, true, "child_iterator"),
      MethodDecl("Widget::getLocation", true, Public, true, SourceLocationType)
    ]);
    var visit := FunctionDecl("StructuralHashVisitor::VisitWidget", [Some(1)],
      [MemberCall(1, "Widget::getId", [])]);
    Program([visit], [widget])
  }

  /** The Widget visitor calls `getId` on its target. */
  lemma WidgetVisitorObservesGetId()
    ensures Observed(WidgetProgram(), "Widget::getId")
  {
    var p := WidgetProgram();
    var visit := p.functions[0];
    assert OccursAt(visit.name, VisitorMarker, 0);
    assert OccursIn(CallSite(1, "Widget::getId"), visit.body[0]);
    assert Records(visit, "Widget::getId");
  }

  lemma WidgetBeginChildrenNotChecked()
    ensures !ShouldCheckMethod(WidgetProgram().classes[0].methods[1])
  {
    BeginSegmentNeverChecked(WidgetProgram().classes[0].methods[1], "Widget", "children");
  }

  lemma WidgetGetLocationNotChecked()
    ensures !ShouldCheckMethod(WidgetProgram().classes[0].methods[2])
  {
    SourceLocationNeverChecked(WidgetProgram().classes[0].methods[2]);
  }

  /** Of the Widget methods only `getId` is in the catalog. */
  lemma WidgetCatalogIsGetId(n: string)
    requires InCatalog(WidgetProgram(), n)
    ensures n == "Widget::getId"
  {
    var p := WidgetProgram();
    var c, m :| c in p.classes && IsApiClass(p, c.id) && m in c.methods && ShouldCheckMethod(m) && m.name == n;
    WidgetBeginChildrenNotChecked();
    WidgetGetLocationNotChecked();
    assert c == p.classes[0];
    assert m == c.methods[0] || m == c.methods[1] || m == c.methods[2];
  }

  /** With an empty ignore list the Widget program passes: `getId` is called,
      `begin_children` is excluded by name and `getLocation` by return type. */
  lemma WidgetScenarioPasses()
    ensures Analyze(WidgetProgram(), Some([])).violations == []
    ensures Analyze(WidgetProgram(), Some([])).exitCode == 0
  {
    var r := Analyze(WidgetProgram(), Some([]));
    WidgetVisitorObservesGetId();
    if |r.violations| > 0 {
      HeadIsMember(r.violations);
      WidgetCatalogIsGetId(r.violations[0]);
      assert false;
    }
  }
}

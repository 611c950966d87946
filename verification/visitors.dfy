/**
 The visitor locator and the call collector. Every function whose qualified
 name contains the visitor marker is a visitor; a visitor with exactly one
 parameter that points or refers to a class targets that class (an API
 class). Walking the visitor's body records the name of every member call
 whose receiver class is exactly the target.
 */
module Visitors {
  import opened Strings
  import opened ProgramModel

  const VisitorMarker: string := "StructuralHashVisitor::Visit"

  /** `f` is a visitor: the marker occurs somewhere in its qualified name. */
  function IsVisitor(f: FunctionDecl): (r: bool)
    ensures r <==> exists i :: OccursAt(f.name, VisitorMarker, i)
  {
    Contains(f.name, VisitorMarker)
  }

  /** The class a visitor targets, or `None` (the null target): the target is
      `c` exactly when the parameter list is the single parameter pointing or
      referring to `c`. */
  function TargetOf(f: FunctionDecl): (r: Option<ClassId>)
    ensures forall c :: r == Some(c) <==> f.params == [Some(c)]
    ensures |f.params| != 1 ==> r == None
  {
    if |f.params| == 1 then f.params[0] else None
  }

  /** A member call as the collector sees it: the receiver's class and the
      qualified name of the invoked method. */
  datatype CallSite = CallSite(receiver: ClassId, callee: string)

  /** The call site `c` is a member-call node somewhere in the tree `e`. */
  ghost predicate OccursIn(c: CallSite, e: Expr)
    decreases e
  {
    match e
    case MemberCall(r, m, ops) => c == CallSite(r, m) || exists k :: 0 <= k < |ops| && OccursIn(c, ops[k])
    case Other(cs) => exists k :: 0 <= k < |cs| && OccursIn(c, cs[k])
  }

  /** The call site `c` is a member-call node somewhere in one of the trees `es`. */
  ghost predicate OccursInAny(c: CallSite, es: seq<Expr>)
  {
    exists k :: 0 <= k < |es| && OccursIn(c, es[k])
  }

  /** The member calls of `e` in the depth-first order of a recursive AST walk:
      a call comes before the calls inside its object expression and arguments.
      No call node is skipped, whatever control flow surrounds it. */
  function Sites(e: Expr): (r: seq<CallSite>)
    ensures forall c :: c in r <==> OccursIn(c, e)
    decreases e
  {
    match e
    case MemberCall(rcv, m, ops) => [CallSite(rcv, m)] + SitesOfAll(ops)
    case Other(cs) => SitesOfAll(cs)
  }

  /** The member calls of the trees `es`, one tree after the other. */
  function SitesOfAll(es: seq<Expr>): (r: seq<CallSite>)
    ensures forall c :: c in r <==> OccursInAny(c, es)
    decreases es
  {
    if |es| == 0 then
      []
    else
      var head := Sites(es[0]);
      var rest := SitesOfAll(es[1..]);
      assert forall k :: 1 <= k < |es| ==> es[k] == es[1..][k - 1];
      assert forall c :: OccursInAny(c, es) <==> OccursIn(c, es[0]) || OccursInAny(c, es[1..]) by {
        forall c | OccursInAny(c, es) && !OccursIn(c, es[0])
          ensures OccursInAny(c, es[1..])
        {
          var k :| 0 <= k < |es| && OccursIn(c, es[k]);
          assert OccursIn(c, es[1..][k - 1]);
        }
      }
      head + rest
  }

  /** The member-call callback of the body walk, applied to each call site in
      turn: a call is recorded into `calls` exactly when its receiver class is
      identical to the target. A null target matches no receiver. */
  function RecordCalls(sites: seq<CallSite>, target: Option<ClassId>, calls: set<string>): (r: set<string>)
    ensures forall m :: m in r <==> m in calls || (target.Some? && CallSite(target.value, m) in sites)
    decreases |sites|
  {
    if |sites| == 0 then
      calls
    else
      var c := sites[0];
      var calls' := if Some(c.receiver) == target then calls + {c.callee} else calls;
      assert sites == [c] + sites[1..];
      RecordCalls(sites[1..], target, calls')
  }

  /** The function `f` is a visitor with a target, and its body calls `m` on
      a receiver of exactly that class. */
  ghost predicate Records(f: FunctionDecl, m: string)
  {
    TargetOf(f).Some? && OccursInAny(CallSite(TargetOf(f).value, m), f.body)
  }

  /** What the scan of the declarations has gathered so far: the recorded
      member calls of all visitors, and the API classes. */
  datatype Scan = Scan(memberCalls: set<string>, apiClasses: set<ClassId>)

  /** The per-declaration callback of the scan. A declaration that is not a
      visitor changes nothing; a visitor adds its target (if any) to the API
      classes and the calls its body makes on the target to the member calls. */
  function VisitFunctionDecl(f: FunctionDecl, s: Scan): (r: Scan)
    ensures !IsVisitor(f) ==> r == s
    ensures forall c :: c in r.apiClasses <==> c in s.apiClasses || (IsVisitor(f) && TargetOf(f) == Some(c))
    ensures forall m :: m in r.memberCalls <==> m in s.memberCalls || (IsVisitor(f) && Records(f, m))
  {
    if IsVisitor(f) then
      var target := TargetOf(f);
      var classes := if target.Some? then s.apiClasses + {target.value} else s.apiClasses;
      Scan(RecordCalls(SitesOfAll(f.body), target, s.memberCalls), classes)
    else
      s
  }

  /** The scan over every declaration in order. */
  function ScanFunctions(fs: seq<FunctionDecl>, s: Scan): (r: Scan)
    ensures forall c :: c in r.apiClasses <==>
      c in s.apiClasses || exists f :: f in fs && IsVisitor(f) && TargetOf(f) == Some(c)
    ensures forall m :: m in r.memberCalls <==>
      m in s.memberCalls || exists f :: f in fs && IsVisitor(f) && Records(f, m)
    decreases |fs|
  {
    if |fs| == 0 then
      s
    else
      assert fs == [fs[0]] + fs[1..];
      ScanFunctions(fs[1..], VisitFunctionDecl(fs[0], s))
  }

  /** The declaration `f` with one more top-level statement `e` in its body. */
  function WithStatement(f: FunctionDecl, e: Expr): FunctionDecl
  {
    f.(body := f.body + [e])
  }

  /** Appending a statement to a body adds exactly the calls that statement makes. */
  lemma AppendedStatementCalls(f: FunctionDecl, e: Expr, m: string)
    ensures Records(WithStatement(f, e), m) <==>
      Records(f, m) || (TargetOf(f).Some? && OccursIn(CallSite(TargetOf(f).value, m), e))
  {
    var g := WithStatement(f, e);
    assert TargetOf(g) == TargetOf(f);
    if TargetOf(f).Some? {
      var c := CallSite(TargetOf(f).value, m);
      assert g.body[|f.body|] == e;
      assert forall k :: 0 <= k < |f.body| ==> g.body[k] == f.body[k];
      if OccursInAny(c, g.body) {
        var k :| 0 <= k < |g.body| && OccursIn(c, g.body[k]);
        if k < |f.body| {
          assert OccursIn(c, f.body[k]);
        }
      }
    }
  }

  /** Exact-class matching: a call whose receiver is of any class other than the
      visitor's target (a subclass included) is not recorded. */
  lemma OtherReceiverNotRecorded(f: FunctionDecl, s: Scan, r: ClassId, m: string)
    requires TargetOf(f) != Some(r)
    ensures VisitFunctionDecl(WithStatement(f, MemberCall(r, m, [])), s) == VisitFunctionDecl(f, s)
  {
    var g := WithStatement(f, MemberCall(r, m, []));
    forall n
      ensures Records(g, n) <==> Records(f, n)
    {
      AppendedStatementCalls(f, MemberCall(r, m, []), n);
    }
    var a := VisitFunctionDecl(g, s);
    var b := VisitFunctionDecl(f, s);
    assert a.memberCalls == b.memberCalls;
    assert a.apiClasses == b.apiClasses;
  }

  /** A visitor that calls `m` on its target records `m`. */
  lemma TargetCallRecorded(f: FunctionDecl, s: Scan, m: string)
    requires IsVisitor(f) && TargetOf(f).Some?
    ensures m in VisitFunctionDecl(WithStatement(f, MemberCall(TargetOf(f).value, m, [])), s).memberCalls
  {
    AppendedStatementCalls(f, MemberCall(TargetOf(f).value, m, []), m);
  }

  /** A visitor with the null target (no parameter, several parameters, or a
      parameter that is not a pointer or reference to a class) adds neither an
      API class nor a member call. */
  lemma NullTargetRecordsNothing(f: FunctionDecl, s: Scan)
    requires TargetOf(f).None?
    ensures VisitFunctionDecl(f, s) == s
  {
  }
}

/**
  Branch discovery: the core visitor of the collector, walking the tree in
  pre-order. A branch statement (or call) whose child is a block opens a
  scope on a stack; the block's direct children are its targets; the first
  later node of the current function that lies past the end of the branch
  statement closes the innermost scope, becomes its last target, and moves the
  scope to the list of completed branch points.
 */
module Discovery {
  import opened Wrappers
  import opened Syntax
  import opened Registry

  /**
    `BranchPointInfo`: the line of the branch statement, its target lines (all
    include-adjusted), and the end of the branch statement's extent (raw line;
    the column is never filled in, so it stays 0).
   */
  datatype BranchPointInfo = BranchPointInfo(
    branchPoint: nat,
    targetLineNumbers: seq<nat>,
    compoundEndLineNum: nat,
    compoundEndColumnNum: nat)

  /** The default constructor: everything zero, no targets. */
  const NewBranchPoint: BranchPointInfo := BranchPointInfo(0, [], 0, 0)

  /** `addTarget`: appends, keeping earlier targets in order. */
  function AddTarget(b: BranchPointInfo, target: nat): (r: BranchPointInfo)
    ensures |r.targetLineNumbers| == |b.targetLineNumbers| + 1
    ensures r.targetLineNumbers[..|b.targetLineNumbers|] == b.targetLineNumbers
    ensures r.targetLineNumbers[|b.targetLineNumbers|] == target
    ensures r.branchPoint == b.branchPoint && r.compoundEndLineNum == b.compoundEndLineNum
    ensures r.compoundEndColumnNum == b.compoundEndColumnNum
  {
    b.(targetLineNumbers := b.targetLineNumbers + [target])
  }

  /**
    The collector's discovery state: the registries, the stack of open scopes
    (top is last), the completed branch points in completion order, and the
    branch cursors recorded when a scope opens.
   */
  datatype Collector = Collector(
    reg: Registry,
    stack: seq<BranchPointInfo>,
    branchPoints: seq<BranchPointInfo>,
    cursorObjs: seq<Cursor>)

  const EmptyCollector: Collector := Collector(EmptyRegistry, [], [], [])

  /** `isBranchPointOrCallExpr`. */
  predicate IsBranchPointOrCallExpr(kind: Kind) {
    kind == IfStmt || kind == ForStmt || kind == DoStmt || kind == WhileStmt
    || kind == SwitchStmt || kind == CallExpr
  }

  /** `compoundStmtFoundYet`: some scope is open. */
  predicate CompoundStmtFoundYet(c: Collector) {
    c.stack != []
  }

  /** `getCurrentBranch`: the innermost open scope. */
  function GetCurrentBranch(c: Collector): BranchPointInfo
    requires CompoundStmtFoundYet(c)
  {
    c.stack[|c.stack| - 1]
  }

  function SetCurrentBranch(c: Collector, b: BranchPointInfo): (r: Collector)
    requires CompoundStmtFoundYet(c)
    ensures CompoundStmtFoundYet(r) && GetCurrentBranch(r) == b
    ensures r.stack[..|r.stack| - 1] == c.stack[..|c.stack| - 1]
  {
    c.(stack := c.stack[..|c.stack| - 1] + [b])
  }

  /** `pushNewBranchPoint`. */
  function PushNewBranchPoint(c: Collector): (r: Collector)
    ensures CompoundStmtFoundYet(r) && GetCurrentBranch(r) == NewBranchPoint
    ensures |r.stack| == |c.stack| + 1 && r.stack[..|c.stack|] == c.stack
  {
    c.(stack := c.stack + [NewBranchPoint])
  }

  /** `addCompletedBranch`: the innermost scope is popped onto the completed list. */
  function AddCompletedBranch(c: Collector): (r: Collector)
    requires CompoundStmtFoundYet(c)
    ensures r.branchPoints == c.branchPoints + [GetCurrentBranch(c)]
    ensures r.stack == c.stack[..|c.stack| - 1]
    ensures r.reg == c.reg && r.cursorObjs == c.cursorObjs
  {
    c.(branchPoints := c.branchPoints + [GetCurrentBranch(c)], stack := c.stack[..|c.stack| - 1])
  }

  /**
    Whether a node at raw position (`line`, `col`) closes the innermost scope:
    it lies in the current function (whose range is include-adjusted while
    `line` is not) and strictly after the recorded end of the branch statement.
   */
  predicate ClosesScope(c: Collector, line: nat, col: nat)
    requires Valid(c.reg) && c.reg.currentFunction.Some? && CompoundStmtFoundYet(c)
  {
    var top := GetCurrentBranch(c);
    InCurrentFunction(c.reg, line)
    && (line > top.compoundEndLineNum || (line == top.compoundEndLineNum && col > top.compoundEndColumnNum))
  }

  /**
    `checkChildAgainstStackTop`: when the node closes the innermost scope, its
    line plus `k` becomes that scope's last target and the answer is true;
    otherwise nothing changes.
   */
  function CheckChildAgainstStackTop(c: Collector, child: Cursor, k: nat): (r: (bool, Collector))
    requires Valid(c.reg) && c.reg.currentFunction.Some? && CompoundStmtFoundYet(c)
    ensures r.0 <==> ClosesScope(c, child.line, child.column)
    ensures r.0 ==> r.1 == SetCurrentBranch(c, AddTarget(GetCurrentBranch(c), child.line + k))
    ensures !r.0 ==> r.1 == c
  {
    if ClosesScope(c, child.line, child.column) then
      (true, SetCurrentBranch(c, AddTarget(GetCurrentBranch(c), child.line + k)))
    else
      (false, c)
  }

  /** The visit opens a scope: a block directly under a branch statement or call. */
  predicate OpensScope(v: Visit) {
    IsBranchPointOrCallExpr(v.parent.kind) && v.current.kind == CompoundStmt
  }

  /**
    Opening a scope: the parent cursor is recorded, a scope is pushed whose
    branch point is the parent's line plus `k`, whose targets are the block's
    direct children's lines plus `k`, and whose end line is the raw end line of
    the parent's extent.
   */
  function OpenScope(c: Collector, v: Visit, k: nat): (r: Collector)
    ensures r.cursorObjs == c.cursorObjs + [v.parent]
    ensures r.stack == c.stack + [OpenedBranch(v, k)]
    ensures r.reg == c.reg && r.branchPoints == c.branchPoints
  {
    var c1 := PushNewBranchPoint(c.(cursorObjs := c.cursorObjs + [v.parent]));
    var b := GetCurrentBranch(c1).(branchPoint := v.parent.line + k);
    var b1 := AddTargets(b, v.blockChildLines, k);
    assert GetCurrentBranch(c1).targetLineNumbers + Shift(v.blockChildLines, k) == Shift(v.blockChildLines, k);
    SetCurrentBranch(c1, b1.(compoundEndLineNum := v.parentEndLine))
  }

  /** Every line plus `k`. */
  function Shift(lines: seq<nat>, k: nat): (r: seq<nat>)
    ensures |r| == |lines|
    ensures forall i :: 0 <= i < |lines| ==> r[i] == lines[i] + k
  {
    seq(|lines|, i requires 0 <= i < |lines| => lines[i] + k)
  }

  /** `VisitCompoundStmt` over the block's direct children, in order. */
  function AddTargets(b: BranchPointInfo, lines: seq<nat>, k: nat): (r: BranchPointInfo)
    ensures r == b.(targetLineNumbers := b.targetLineNumbers + Shift(lines, k))
    decreases |lines|
  {
    if lines == [] then
      assert b.targetLineNumbers + Shift(lines, k) == b.targetLineNumbers;
      b
    else
      var r := AddTargets(AddTarget(b, lines[0] + k), lines[1..], k);
      assert b.targetLineNumbers + [lines[0] + k] + Shift(lines[1..], k) == b.targetLineNumbers + Shift(lines, k);
      r
  }

  /**
    What the discovery state keeps true, with `k` the include count:
    - the registries are consistent;
    - a scope is only open inside a known function;
    - open scopes have end column 0;
    - every completed scope has at least one target, and its last target (the
      closing node) is at or after the end line of its branch statement;
    - one cursor was recorded per scope ever opened.
   */
  predicate Inv(c: Collector, k: nat) {
    && Valid(c.reg)
    && (c.stack != [] ==> c.reg.currentFunction.Some?)
    && (forall i :: 0 <= i < |c.stack| ==> c.stack[i].compoundEndColumnNum == 0)
    && (forall i :: 0 <= i < |c.branchPoints| ==> Completed(c.branchPoints[i], k))
    && |c.cursorObjs| == |c.stack| + |c.branchPoints|
  }

  /** A completed scope: closed by a node at or after the end line of its branch statement. */
  predicate Completed(b: BranchPointInfo, k: nat) {
    |b.targetLineNumbers| >= 1 && b.targetLineNumbers[|b.targetLineNumbers| - 1] >= b.compoundEndLineNum + k
  }

  lemma EmptyCollectorInv(k: nat)
    ensures Inv(EmptyCollector, k)
  {
  }

  /** `b` is a later discovery state than `a`. */
  predicate Grows(a: Collector, b: Collector) {
    Extends(a.reg, b.reg) && a.branchPoints <= b.branchPoints && a.cursorObjs <= b.cursorObjs
  }

  /** The close test as the visitor runs it: only when a scope is open and its end line is not 0. */
  predicate ShouldClose(c: Collector, current: Cursor)
    requires Valid(c.reg) && (c.stack != [] ==> c.reg.currentFunction.Some?)
  {
    c.stack != [] && GetCurrentBranch(c).compoundEndLineNum != 0 && ClosesScope(c, current.line, current.column)
  }

  /** The close test applied to one visited node. */
  function CloseCheck(c: Collector, current: Cursor, k: nat): (r: Collector)
    requires Inv(c, k)
    ensures Inv(r, k) && Grows(c, r)
    ensures ShouldClose(c, current) ==> r == AddCompletedBranch(SetCurrentBranch(c, AddTarget(GetCurrentBranch(c), current.line + k)))
    ensures !ShouldClose(c, current) ==> r == c
  {
    if c.stack != [] && GetCurrentBranch(c).compoundEndLineNum != 0 then
      var res := CheckChildAgainstStackTop(c, current, k);
      if res.0 then
        var c1 := res.1;
        var r := AddCompletedBranch(c1);
        assert GetCurrentBranch(c1).targetLineNumbers[|GetCurrentBranch(c1).targetLineNumbers| - 1] == current.line + k;
        assert forall i :: 0 <= i < |c.branchPoints| ==> r.branchPoints[i] == c.branchPoints[i];
        assert forall i :: 0 <= i < |r.stack| ==> r.stack[i] == c.stack[i];
        r
      else c
    else c
  }

  /**
    One call of `VisitorFunctionCore`, with `k` the include count, in the
    source's order: a call scans its parent's subtree for the callee and does
    nothing else; otherwise a scope may open, then the close test runs on the
    same node, then a function declaration is registered, then a variable or
    parameter declaration inspects its parent's first child.
   */
  function Step(c: Collector, v: Visit, k: nat): (r: Collector)
    requires Inv(c, k)
    requires OpensScope(v) ==> c.reg.currentFunction.Some?
    ensures Inv(r, k) && Grows(c, r)
    ensures v.current.kind == CallExpr ==> r == c.(reg := VisitCallExpr(c.reg, v.parentScan, k))
    ensures v.current.kind != CallExpr && !OpensScope(v) ==> |r.stack| <= |c.stack|
    ensures |r.branchPoints| <= |c.branchPoints| + 1
    ensures v.current.kind == FunctionDecl && v.header.Some? ==> r.reg.currentFunction.Some?
  {
    if v.current.kind == CallExpr then
      c.(reg := VisitCallExpr(c.reg, v.parentScan, k))
    else
      var c1 := if OpensScope(v) then OpenScope(c, v, k) else c;
      assert Inv(c1, k) by {
        if OpensScope(v) {
          OpenScopeKeepsInv(c, v, k);
        }
      }
      Register(CloseCheck(c1, v.current, k), v, k)
  }

  /**
    The registrations that follow the close test: a function declaration
    becomes current, and a variable or parameter declaration is recorded.
    They leave the scopes alone.
   */
  function Register(c: Collector, v: Visit, k: nat): (r: Collector)
    requires Inv(c, k)
    ensures Inv(r, k) && Grows(c, r)
    ensures r.stack == c.stack && r.branchPoints == c.branchPoints && r.cursorObjs == c.cursorObjs
    ensures v.current.kind == FunctionDecl && v.header.Some? ==> r.reg.currentFunction.Some?
  {
    var c3 := if v.current.kind == FunctionDecl then c.(reg := VisitFuncDecl(c.reg, v.header, k)) else c;
    if v.current.kind == VarDecl || v.current.kind == ParmDecl then
      var r := c3.(reg := VisitVarOrParamDecl(c3.reg, v.parentFirstChild, k));
      ExtendsTransitive(c.reg, c3.reg, r.reg);
      r
    else
      c3
  }

  /**
    A traversal in which every scope-opening visit comes after a function
    declaration that registered (or a function is already current), so the
    close test always has a current function to consult.
   */
  predicate FunctionBeforeScopes(c: Collector, visits: seq<Visit>) {
    forall i :: 0 <= i < |visits| && OpensScope(visits[i]) ==>
      c.reg.currentFunction.Some? || exists j :: 0 <= j < i && RegistersFunction(visits[j])
  }

  predicate RegistersFunction(v: Visit) {
    v.current.kind == FunctionDecl && v.header.Some?
  }

  /** `collectCursors` up to the dictionary: the core visitor over the whole traversal. */
  function Collect(c: Collector, visits: seq<Visit>, k: nat): (r: Collector)
    requires Inv(c, k)
    requires FunctionBeforeScopes(c, visits)
    ensures Inv(r, k) && Grows(c, r)
    ensures |r.branchPoints| <= |c.branchPoints| + |visits|
    decreases |visits|
  {
    if visits == [] then c
    else
      var c1 := Step(c, visits[0], k);
      assert FunctionBeforeScopes(c1, visits[1..]) by {
        forall i | 0 <= i < |visits[1..]| && OpensScope(visits[1..][i])
          ensures c1.reg.currentFunction.Some? || exists j :: 0 <= j < i && RegistersFunction(visits[1..][j])
        {
          assert visits[1..][i] == visits[i + 1];
          if !c.reg.currentFunction.Some? {
            var j :| 0 <= j < i + 1 && RegistersFunction(visits[j]);
            if j > 0 {
              assert visits[1..][j - 1] == visits[j];
            }
          }
        }
      }
      var r := Collect(c1, visits[1..], k);
      ExtendsTransitive(c.reg, c1.reg, r.reg);
      r
  }

  /**
    A block under a branch statement or call opens a scope for it: the scope
    is pushed with the statement's line, the block's child lines and the
    statement's end line (`StepPushesScope`), unless the block itself already
    lies past that end line (a one-line statement), in which case the scope is
    completed at once with the block's line as its last target
    (`StepCompletesScopeAtOnce`).
   */
  lemma StepPushesScope(c: Collector, v: Visit, k: nat)
    requires Inv(c, k) && OpensScope(v) && c.reg.currentFunction.Some?
    requires !PastEnd(c.reg, OpenedBranch(v, k), v.current)
    ensures Step(c, v, k).stack == c.stack + [OpenedBranch(v, k)]
    ensures Step(c, v, k).branchPoints == c.branchPoints
  {
    StepOfBlock(c, v, k);
    OpenedScopeStays(c, v, k);
  }

  /** The close test on a block that does not lie past its own statement leaves the new scope open. */
  lemma OpenedScopeStays(c: Collector, v: Visit, k: nat)
    requires Inv(c, k) && OpensScope(v) && c.reg.currentFunction.Some?
    requires !PastEnd(c.reg, OpenedBranch(v, k), v.current)
    requires Inv(OpenScope(c, v, k), k)
    ensures CloseCheck(OpenScope(c, v, k), v.current, k) == OpenScope(c, v, k)
  {
    CloseCheckOnTop(OpenScope(c, v, k), c.stack, OpenedBranch(v, k), v.current, k);
  }

  lemma StepCompletesScopeAtOnce(c: Collector, v: Visit, k: nat)
    requires Inv(c, k) && OpensScope(v) && c.reg.currentFunction.Some?
    requires PastEnd(c.reg, OpenedBranch(v, k), v.current)
    ensures Step(c, v, k).stack == c.stack
    ensures Step(c, v, k).branchPoints == c.branchPoints + [AddTarget(OpenedBranch(v, k), v.current.line + k)]
  {
    StepOfBlock(c, v, k);
    OpenedScopeCompletes(c, v, k);
  }

  /** The close test on a block that lies past its own statement completes the scope just opened. */
  lemma OpenedScopeCompletes(c: Collector, v: Visit, k: nat)
    requires Inv(c, k) && OpensScope(v) && c.reg.currentFunction.Some?
    requires PastEnd(c.reg, OpenedBranch(v, k), v.current)
    requires Inv(OpenScope(c, v, k), k)
    ensures CloseCheck(OpenScope(c, v, k), v.current, k).stack == c.stack
    ensures CloseCheck(OpenScope(c, v, k), v.current, k).branchPoints
            == c.branchPoints + [AddTarget(OpenedBranch(v, k), v.current.line + k)]
  {
    CloseCheckOnTop(OpenScope(c, v, k), c.stack, OpenedBranch(v, k), v.current, k);
  }

  /** Opening a scope records the branch statement's cursor and leaves the registry alone. */
  lemma StepOpensScopeRecords(c: Collector, v: Visit, k: nat)
    requires Inv(c, k) && OpensScope(v) && c.reg.currentFunction.Some?
    ensures Step(c, v, k).cursorObjs == c.cursorObjs + [v.parent]
    ensures Step(c, v, k).reg == c.reg
  {
    StepOfBlock(c, v, k);
    OpenedScopeRecords(c, v, k);
  }

  lemma OpenedScopeRecords(c: Collector, v: Visit, k: nat)
    requires Inv(c, k) && c.reg.currentFunction.Some?
    requires Inv(OpenScope(c, v, k), k)
    ensures CloseCheck(OpenScope(c, v, k), v.current, k).cursorObjs == c.cursorObjs + [v.parent]
    ensures CloseCheck(OpenScope(c, v, k), v.current, k).reg == c.reg
  {
    CloseCheckOnTop(OpenScope(c, v, k), c.stack, OpenedBranch(v, k), v.current, k);
  }

  /** The scope a block under a branch statement or call opens. */
  function OpenedBranch(v: Visit, k: nat): BranchPointInfo {
    BranchPointInfo(v.parent.line + k, Shift(v.blockChildLines, k), v.parentEndLine, 0)
  }

  /**
    The node lies in the current function after the end of scope `b`'s
    statement (whose end column is 0 while it is open), and that end line is known.
   */
  predicate PastEnd(reg: Registry, b: BranchPointInfo, current: Cursor)
    requires Valid(reg) && reg.currentFunction.Some?
  {
    && b.compoundEndLineNum != 0 && InCurrentFunction(reg, current.line)
    && (current.line > b.compoundEndLineNum || (current.line == b.compoundEndLineNum && current.column > 0))
  }

  /** The close test against an innermost scope `b` over the scopes `below`, spelled out. */
  lemma CloseCheckOnTop(c: Collector, below: seq<BranchPointInfo>, b: BranchPointInfo, current: Cursor, k: nat)
    requires Inv(c, k) && c.stack == below + [b]
    ensures var r := CloseCheck(c, current, k);
            && r.reg == c.reg && r.cursorObjs == c.cursorObjs
            && (if PastEnd(c.reg, b, current)
                then r.stack == below && r.branchPoints == c.branchPoints + [AddTarget(b, current.line + k)]
                else r == c)
  {
    assert c.stack[..|c.stack| - 1] == below && c.stack[|c.stack| - 1] == b;
    assert b.compoundEndColumnNum == 0;
    if ShouldClose(c, current) {
      var c1 := SetCurrentBranch(c, AddTarget(b, current.line + k));
      assert c1.stack[..|c1.stack| - 1] == below;
    }
  }

  lemma OpenScopeKeepsInv(c: Collector, v: Visit, k: nat)
    requires Inv(c, k) && c.reg.currentFunction.Some?
    ensures Inv(OpenScope(c, v, k), k)
  {
    var c1 := OpenScope(c, v, k);
    assert forall i :: 0 <= i < |c.stack| ==> c1.stack[i] == c.stack[i];
  }

  /** A block visit is an open followed by the close test on the block itself. */
  lemma StepOfBlock(c: Collector, v: Visit, k: nat)
    requires Inv(c, k) && OpensScope(v) && c.reg.currentFunction.Some?
    ensures Inv(OpenScope(c, v, k), k)
    ensures Step(c, v, k) == CloseCheck(OpenScope(c, v, k), v.current, k)
  {
    OpenScopeKeepsInv(c, v, k);
    assert v.current.kind == CompoundStmt;
    RegisterSkips(CloseCheck(OpenScope(c, v, k), v.current, k), v, k);
  }

  /** Nodes other than declarations register nothing. */
  lemma RegisterSkips(c: Collector, v: Visit, k: nat)
    requires Inv(c, k) && v.current.kind !in {FunctionDecl, VarDecl, ParmDecl}
    ensures Register(c, v, k) == c
  {
  }

  /**
    Any other node that is not a call only runs the close test (and the
    registrations, which leave the scopes alone): the innermost scope is
    completed with the node's line as its last target when the node lies in
    the current function past the scope's end line (`StepClosesScope`), and
    the scopes stay as they are otherwise (`StepKeepsScopes`).
   */
  lemma StepClosesScope(c: Collector, v: Visit, k: nat)
    requires Inv(c, k) && !OpensScope(v) && v.current.kind != CallExpr
    requires ShouldClose(c, v.current)
    ensures Step(c, v, k).cursorObjs == c.cursorObjs
    ensures Step(c, v, k).stack == c.stack[..|c.stack| - 1]
    ensures Step(c, v, k).branchPoints == c.branchPoints + [AddTarget(GetCurrentBranch(c), v.current.line + k)]
  {
    StepWithoutOpen(c, v, k);
    CloseCheckPops(c, v.current, k);
  }

  lemma StepKeepsScopes(c: Collector, v: Visit, k: nat)
    requires Inv(c, k) && !OpensScope(v) && v.current.kind != CallExpr
    requires !ShouldClose(c, v.current)
    ensures Step(c, v, k).cursorObjs == c.cursorObjs
    ensures Step(c, v, k).stack == c.stack
    ensures Step(c, v, k).branchPoints == c.branchPoints
  {
    StepWithoutOpen(c, v, k);
    CloseCheckPops(c, v.current, k);
  }

  /** The close test either pops the innermost scope, with the node's line as its last target, or does nothing. */
  lemma CloseCheckPops(c: Collector, current: Cursor, k: nat)
    requires Inv(c, k)
    ensures var r := CloseCheck(c, current, k);
            && r.cursorObjs == c.cursorObjs
            && (if ShouldClose(c, current)
                then r.stack == c.stack[..|c.stack| - 1]
                     && r.branchPoints == c.branchPoints + [AddTarget(GetCurrentBranch(c), current.line + k)]
                else r == c)
  {
    if ShouldClose(c, current) {
      var c1 := SetCurrentBranch(c, AddTarget(GetCurrentBranch(c), current.line + k));
      assert c1.stack[..|c1.stack| - 1] == c.stack[..|c.stack| - 1];
    }
  }

  /** Without a scope to open, a visit keeps exactly the scopes and completed branches the close test leaves. */
  lemma StepWithoutOpen(c: Collector, v: Visit, k: nat)
    requires Inv(c, k) && !OpensScope(v) && v.current.kind != CallExpr
    ensures var r := Step(c, v, k);
            var c2 := CloseCheck(c, v.current, k);
            r.cursorObjs == c2.cursorObjs && r.stack == c2.stack && r.branchPoints == c2.branchPoints
  {
  }
}

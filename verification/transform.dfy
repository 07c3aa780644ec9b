/**
  The line-by-line instrumentation generator (`transformProgram`). It reads
  the program one line at a time with a 1-based line number and writes, before
  each line: the function-pointer declaration and the branch-flag
  declarations when a function starts, the function-pointer declaration after
  a function ends, the flag assignment after a branch line, the logging
  statement before a branch target, and the pointer log before a call line.
  The original line follows, unchanged, with a newline.
 */
module Transform {
  import opened Wrappers
  import opened Text
  import opened Common
  import opened Registry
  import opened Dictionary

  /** What the generator reads: functions by definition line, callees by call line, and the branch dictionary. */
  datatype Inputs = Inputs(
    funcDecls: map<nat, FunctionDeclInfo>,
    funcCalls: map<nat, string>,
    dict: BranchDictionary)

  /** Each function is filed under its own definition line. */
  predicate WellKeyed(inp: Inputs) {
    forall l :: l in inp.funcDecls ==> inp.funcDecls[l].defLoc == l
  }

  /** The generator's inputs as the collector leaves them. */
  function InputsOf(reg: Registry, dict: BranchDictionary): (inp: Inputs)
    requires Valid(reg)
    ensures WellKeyed(inp)
    ensures inp.funcDecls.Keys == reg.funcDecls.Keys
    ensures forall l :: l in reg.funcDecls ==> Some(inp.funcDecls[l]) == GetFunctionAtLine(reg, l)
  {
    Inputs(map l | l in reg.funcDecls :: reg.funcs[reg.funcDecls[l]], reg.functionCalls, dict)
  }

  /** Reference definition: the dictionary origins in [lo, hi), ascending. */
  function OriginsIn(dict: BranchDictionary, lo: nat, hi: nat): seq<nat>
    decreases hi
  {
    if hi <= lo then [] else OriginsIn(dict, lo, hi - 1) + (if hi - 1 in dict then [hi - 1] else [])
  }

  /** The origins in [lo, hi) are exactly the dictionary keys in that range, strictly ascending. */
  lemma {:induction false} OriginsInContents(dict: BranchDictionary, lo: nat, hi: nat)
    ensures forall x :: x in OriginsIn(dict, lo, hi) <==> x in dict && lo <= x < hi
    ensures forall i, j :: 0 <= i < j < |OriginsIn(dict, lo, hi)| ==> OriginsIn(dict, lo, hi)[i] < OriginsIn(dict, lo, hi)[j]
    decreases hi
  {
    if hi > lo {
      OriginsInContents(dict, lo, hi - 1);
      var p := OriginsIn(dict, lo, hi - 1);
      assert forall i :: 0 <= i < |p| ==> p[i] in p;
    }
  }

  /** Peeling the lowest line of the range. */
  lemma {:induction false} OriginsInFront(dict: BranchDictionary, lo: nat, hi: nat)
    requires lo < hi
    ensures OriginsIn(dict, lo, hi) == (if lo in dict then [lo] else []) + OriginsIn(dict, lo + 1, hi)
    decreases hi
  {
    if hi - 1 > lo {
      OriginsInFront(dict, lo, hi - 1);
    }
  }

  /** Widening the range never removes an origin from the count. */
  lemma {:induction false} OriginsInMonotone(dict: BranchDictionary, lo: nat, mid: nat, hi: nat)
    requires mid <= hi
    ensures |OriginsIn(dict, lo, mid)| <= |OriginsIn(dict, lo, hi)|
    ensures lo <= mid < hi && mid in dict ==> |OriginsIn(dict, lo, mid)| < |OriginsIn(dict, lo, hi)|
    decreases hi - mid
  {
    if mid < hi {
      OriginsInMonotone(dict, lo, mid, hi - 1);
      if lo <= mid && mid in dict && mid == hi - 1 {
        assert OriginsIn(dict, lo, hi) == OriginsIn(dict, lo, mid) + [mid];
      }
    }
  }

  /** `DECLARE_BRANCH(a)` .. `DECLARE_BRANCH(b - 1)`, in order. */
  function DeclsRange(a: nat, b: nat): string
    decreases b - a
  {
    if a >= b then "" else DeclareBranch(a) + DeclsRange(a + 1, b)
  }

  /** The declaration loop from `line` up to (not including) `endLoc`, flags numbered from `count`. */
  function DeclareFlagsFrom(dict: BranchDictionary, line: nat, endLoc: nat, count: nat): (r: (string, nat))
    decreases endLoc - line
  {
    if line >= endLoc then ("", count)
    else
      var rest := DeclareFlagsFrom(dict, line + 1, endLoc, if line in dict then count + 1 else count);
      ((if line in dict then DeclareBranch(count) else "") + rest.0, rest.1)
  }

  lemma {:induction false} DeclareFlagsFromCounts(dict: BranchDictionary, line: nat, endLoc: nat, count: nat)
    ensures DeclareFlagsFrom(dict, line, endLoc, count).1 == count + |OriginsIn(dict, line, endLoc)|
    ensures DeclareFlagsFrom(dict, line, endLoc, count).0 == DeclsRange(count, count + |OriginsIn(dict, line, endLoc)|)
    decreases endLoc - line
  {
    if line < endLoc {
      var c1 := if line in dict then count + 1 else count;
      DeclareFlagsFromCounts(dict, line + 1, endLoc, c1);
      OriginsInFront(dict, line, endLoc);
    }
  }

  /**
    `insertFunctionBranchPointDecls`: one flag per dictionary origin in
    [defLoc, endLoc), numbered from 0 in line order, then a newline. The flag
    count is the number of such origins.
   */
  function InsertFunctionBranchPointDecls(dict: BranchDictionary, f: FunctionDeclInfo): (r: (string, nat))
    ensures r.1 == |OriginsIn(dict, f.defLoc, f.endLoc)|
    ensures r.0 == DeclsRange(0, r.1) + "\n"
  {
    DeclareFlagsFromCounts(dict, f.defLoc, f.endLoc, 0);
    var d := DeclareFlagsFrom(dict, f.defLoc, f.endLoc, 0);
    (d.0 + "\n", d.1)
  }

  /** Origin `o` has target line `lineNum` in the dictionary. */
  predicate Hit(dict: BranchDictionary, o: nat, lineNum: nat) {
    o in dict && lineNum in dict[o]
  }

  /**
    The indices below `n` of the branch lines seen so far that have `lineNum`
    as a target, from the latest to the earliest.
   */
  function MatchesBelow(dict: BranchDictionary, found: seq<nat>, lineNum: nat, n: nat): (r: seq<nat>)
    requires n <= |found|
    ensures forall j :: 0 <= j < |r| ==> r[j] < n && Hit(dict, found[r[j]], lineNum)
    ensures forall idx :: 0 <= idx < n && Hit(dict, found[idx], lineNum) ==> idx in r
    ensures forall i, j :: 0 <= i < j < |r| ==> r[i] > r[j]
    decreases n
  {
    if n == 0 then []
    else (if Hit(dict, found[n - 1], lineNum) then [n - 1] else []) + MatchesBelow(dict, found, lineNum, n - 1)
  }

  /** The lines lo..hi-1. */
  function Range(lo: nat, hi: nat): (r: seq<nat>)
    ensures |r| == if lo <= hi then hi - lo else 0
    ensures forall i :: 0 <= i < |r| ==> r[i] == lo + i
    decreases hi - lo
  {
    if lo >= hi then [] else [lo] + Range(lo + 1, hi)
  }

  /**
    The logging statement written before a target line:
    - `Unguarded`: `LOG("id");`
    - `Guarded`: `if (!BRANCH_a && ...) LOG("id");`
    - `IfElse`: `if (BRANCH_f) {LOG("id1")} else {LOG("id2")}`
    - `Chain`: `if (BRANCH_f1) {LOG(..)}`, ` else if (BRANCH_fi) {LOG(..)}` per middle arm, `else {LOG("last")}`.
   */
  datatype LogForm =
    | NoLog
    | Unguarded(id: string)
    | Guarded(negated: seq<nat>, id: string)
    | IfElse(flag: nat, thenId: string, elseId: string)
    | Chain(armFlags: seq<nat>, armIds: seq<string>, lastId: string)

  /** The identifiers a logging statement can print, in arm order. */
  function LogIds(f: LogForm): seq<string> {
    match f
    case NoLog => []
    case Unguarded(id) => [id]
    case Guarded(_, id) => [id]
    case IfElse(_, a, b) => [a, b]
    case Chain(_, ids, last) => ids + [last]
  }

  /**
    The choice of logging statement for the matching branch lines `matches`
    (latest first) with identifiers `ids`, when the current function declared
    `flagCount` flags. One match is guarded by the negation of every later
    flag of the function when there is one; two give an if/else on the
    latest's flag; more give a chain on the flags of all but the earliest.
    Every matching identifier is printed by exactly one arm.
   */
  function ChooseLogForm(matches: seq<nat>, ids: seq<string>, flagCount: nat): (f: LogForm)
    requires |ids| == |matches|
    ensures LogIds(f) == ids
    ensures |matches| == 0 <==> f.NoLog?
    ensures |matches| == 1 ==> (f.Guarded? <==> matches[0] + 1 < flagCount) && (f.Guarded? || f.Unguarded?)
    ensures f.Guarded? ==> f.negated == Range(matches[0] + 1, flagCount)
    ensures |matches| == 2 <==> f.IfElse?
    ensures f.IfElse? ==> f.flag == matches[0]
    ensures |matches| >= 3 <==> f.Chain?
    ensures f.Chain? ==> f.armFlags == matches[..|matches| - 1]
  {
    if |matches| == 0 then NoLog
    else if |matches| == 1 then
      if matches[0] + 1 < flagCount then Guarded(Range(matches[0] + 1, flagCount), ids[0]) else Unguarded(ids[0])
    else if |matches| == 2 then IfElse(matches[0], ids[0], ids[1])
    else
      var n := |matches| - 1;
      assert ids == ids[..n] + [ids[n]];
      Chain(matches[..n], ids[..n], ids[n])
  }

  function LogCall(id: string): string {
    "LOG(\"" + id + "\")"
  }

  /** `!BRANCH_a && !BRANCH_b && ...` */
  function NegatedFlags(flags: seq<nat>): string {
    if flags == [] then ""
    else if |flags| == 1 then "!" + FlagName(flags[0])
    else "!" + FlagName(flags[0]) + " && " + NegatedFlags(flags[1..])
  }

  function ElseIfArms(flags: seq<nat>, ids: seq<string>): string
    requires |flags| == |ids|
  {
    if flags == [] then ""
    else " else if (" + FlagName(flags[0]) + ") {" + LogCall(ids[0]) + "}" + ElseIfArms(flags[1..], ids[1..])
  }

  /** The text of a logging statement. */
  function RenderLog(f: LogForm): string {
    match f
    case NoLog => ""
    case Unguarded(id) => LogCall(id) + ";"
    case Guarded(negated, id) => "if (" + NegatedFlags(negated) + ") " + LogCall(id) + ";"
    case IfElse(flag, a, b) => "if (" + FlagName(flag) + ") {" + LogCall(a) + "} else {" + LogCall(b) + "}"
    case Chain(flags, ids, last) =>
      if |flags| == 0 || |flags| != |ids| then "else {" + LogCall(last) + "}"
      else
        "if (" + FlagName(flags[0]) + ") {" + LogCall(ids[0]) + "}"
        + ElseIfArms(flags[1..], ids[1..]) + "else {" + LogCall(last) + "}"
  }

  /** What is written for one input line, before the line itself. */
  datatype LineOutput = LineOutput(
    ptrAtStart: string,
    flagDecls: string,
    ptrAtEnd: string,
    setFlag: Option<nat>,
    log: LogForm,
    callLog: Option<string>,
    line: string)

  /** `LOG_PTR(<callee>_PTR);` and a newline. */
  function LogPtr(callee: string): string {
    "LOG_PTR(" + PtrSymbol(callee) + ");\n"
  }

  /** The text for one input line: the instrumentation, then the line and a newline. */
  function RenderLine(o: LineOutput): (s: string)
    ensures |s| > |o.line| && s[|s| - |o.line| - 1..] == WriteLine(o.line)
  {
    o.ptrAtStart + o.flagDecls + o.ptrAtEnd
    + (match o.setFlag case Some(k) => SetBranch(k) case None => "")
    + RenderLog(o.log)
    + (match o.callLog case Some(c) => LogPtr(c) case None => "")
    + WriteLine(o.line)
  }

  /**
    The generator's state between lines: the current function, the line its
    flag numbering starts from (its definition line, or 0 before any
    function), the number of flags it declared, and the branch lines met
    since it started, in order. The flag counter is uninitialised in the
    source until a function starts; it is taken to be 0 here.
   */
  datatype GenState = GenState(current: Option<FunctionDeclInfo>, start: nat, flagCount: nat, found: seq<nat>)

  const InitialGenState: GenState := GenState(None, 0, 0, [])

  /** The state once line `lineNum` (1-based) is read: a function starting on the previous line becomes current. */
  function Enter(inp: Inputs, st: GenState, lineNum: nat): GenState
    requires lineNum >= 1
  {
    var l: nat := lineNum - 1;
    if l in inp.funcDecls then
      var f := inp.funcDecls[l];
      GenState(Some(f), l, InsertFunctionBranchPointDecls(inp.dict, f).1, [])
    else st
  }

  /** The state after line `lineNum` is read: a branch line just passed is appended to the seen ones. */
  function NextState(inp: Inputs, st: GenState, lineNum: nat): (r: GenState)
    requires lineNum >= 1
  {
    var st1 := Enter(inp, st, lineNum);
    var l: nat := lineNum - 1;
    st1.(found := if l in inp.dict then st1.found + [l] else st1.found)
  }

  /** The pointer declaration written when a recursive, value-returning function other than `main` starts. */
  function PtrAtStart(inp: Inputs, st: GenState, lineNum: nat): string
    requires lineNum >= 1
  {
    var l: nat := lineNum - 1;
    if l in inp.funcDecls then
      var f := inp.funcDecls[l];
      if f.name != "main" && f.recursive && f.returnType != "void" then DeclareFuncPtr(f.returnType, f.name) else ""
    else ""
  }

  /** The flag declarations written when a function starts. */
  function FlagDecls(inp: Inputs, lineNum: nat): string
    requires lineNum >= 1
  {
    var l: nat := lineNum - 1;
    if l in inp.funcDecls then InsertFunctionBranchPointDecls(inp.dict, inp.funcDecls[l]).0 else ""
  }

  /** The pointer declaration written on the line after the current function's last line, unless it is `main`. */
  function PtrAtEnd(st1: GenState, lineNum: nat): string
    requires lineNum >= 1
  {
    if st1.current.Some? && lineNum - 1 == st1.current.value.endLoc && st1.current.value.name != "main"
    then DeclareFuncPtr(st1.current.value.returnType, st1.current.value.name) else ""
  }

  /** The identifiers the matching branch lines give to `lineNum`, in match order. */
  function MatchIds(dict: BranchDictionary, found: seq<nat>, lineNum: nat, ms: seq<nat>): (ids: seq<string>)
    requires forall j :: 0 <= j < |ms| ==> ms[j] < |found| && found[ms[j]] in dict && lineNum in dict[found[ms[j]]]
    ensures |ids| == |ms|
    ensures forall j :: 0 <= j < |ms| ==> ids[j] == dict[found[ms[j]]][lineNum]
  {
    seq(|ms|, j requires 0 <= j < |ms| => dict[found[ms[j]]][lineNum])
  }

  /** The logging statement for `lineNum` given the branch lines seen so far. */
  function LogFor(dict: BranchDictionary, found: seq<nat>, lineNum: nat, flagCount: nat): LogForm {
    var ms := MatchesBelow(dict, found, lineNum, |found|);
    ChooseLogForm(ms, MatchIds(dict, found, lineNum, ms), flagCount)
  }

  /** What one iteration of the generator's loop writes for line `lineNum` (1-based). */
  function LineOutputFor(inp: Inputs, st: GenState, lineNum: nat, line: string): (o: LineOutput)
    requires lineNum >= 1
    ensures o.line == line
  {
    var st1 := Enter(inp, st, lineNum);
    var l: nat := lineNum - 1;
    LineOutput(
      PtrAtStart(inp, st, lineNum),
      FlagDecls(inp, lineNum),
      PtrAtEnd(st1, lineNum),
      if l in inp.dict then Some(|st1.found|) else None,
      LogFor(inp.dict, NextState(inp, st, lineNum).found, lineNum, st1.flagCount),
      if lineNum in inp.funcCalls then Some(inp.funcCalls[lineNum]) else None,
      line)
  }

  /** The states before each line of the loop from `lineNum` on. */
  function Trace(inp: Inputs, st: GenState, lines: seq<string>, lineNum: nat): (sts: seq<GenState>)
    requires lineNum >= 1
    ensures |sts| == |lines|
    decreases |lines|
  {
    if lines == [] then []
    else [st] + Trace(inp, NextState(inp, st, lineNum), lines[1..], lineNum + 1)
  }

  /** The loop from line `lineNum` on: one output record per input line, in order, each the one-line step from the trace's state. */
  function TransformFrom(inp: Inputs, st: GenState, lines: seq<string>, lineNum: nat): (outs: seq<LineOutput>)
    requires lineNum >= 1
    ensures |outs| == |lines|
    ensures forall i :: 0 <= i < |lines| ==> outs[i].line == lines[i]
  {
    var sts := Trace(inp, st, lines, lineNum);
    seq(|lines|, i requires 0 <= i < |lines| => LineOutputFor(inp, sts[i], lineNum + i, lines[i]))
  }

  /** Consecutive states of the trace are related by one loop iteration. */
  lemma {:induction false} TraceStep(inp: Inputs, st: GenState, lines: seq<string>, lineNum: nat, i: nat)
    requires lineNum >= 1 && i + 1 < |lines|
    ensures Trace(inp, st, lines, lineNum)[i + 1] == NextState(inp, Trace(inp, st, lines, lineNum)[i], lineNum + i)
    decreases i
  {
    var next := NextState(inp, st, lineNum);
    assert Trace(inp, st, lines, lineNum) == [st] + Trace(inp, next, lines[1..], lineNum + 1);
    if i > 0 {
      TraceStep(inp, next, lines[1..], lineNum + 1, i - 1);
    }
  }

  function RenderAll(outs: seq<LineOutput>): string {
    if outs == [] then "" else RenderLine(outs[0]) + RenderAll(outs[1..])
  }

  /** `transformProgram`: the header, then each input line with its instrumentation. */
  function TransformProgram(inp: Inputs, lines: seq<string>): string {
    TransformHeader + RenderAll(TransformFrom(inp, InitialGenState, lines, 1))
  }

  /** Inputs with no functions, calls or branches. */
  predicate NothingToInstrument(inp: Inputs) {
    inp.funcDecls == map[] && inp.funcCalls == map[] && inp.dict == map[]
  }

  /** With nothing to instrument, the generator's state never changes. */
  lemma {:induction false} PlainTraceConstant(inp: Inputs, st: GenState, lines: seq<string>, lineNum: nat, i: nat)
    requires lineNum >= 1 && NothingToInstrument(inp) && i < |lines|
    ensures Trace(inp, st, lines, lineNum)[i] == st
    decreases i
  {
    var next := NextState(inp, st, lineNum);
    assert next == st;
    assert Trace(inp, st, lines, lineNum) == [st] + Trace(inp, next, lines[1..], lineNum + 1);
    if i > 0 {
      PlainTraceConstant(inp, next, lines[1..], lineNum + 1, i - 1);
    }
  }

  /** Records with no instrumentation render as the lines they carry, one per line. */
  lemma {:induction false} RenderBareLines(outs: seq<LineOutput>, lines: seq<string>)
    requires |outs| == |lines|
    requires forall i :: 0 <= i < |outs| ==> outs[i] == LineOutput("", "", "", None, NoLog, None, lines[i])
    ensures RenderAll(outs) == Unlines(lines)
    decreases |outs|
  {
    if outs != [] {
      assert RenderLine(outs[0]) == WriteLine(lines[0]);
      RenderBareLines(outs[1..], lines[1..]);
    }
  }

  /** With nothing to instrument, each line is copied with a newline and nothing else. */
  lemma NothingToInstrumentCopies(inp: Inputs, st: GenState, lines: seq<string>, lineNum: nat)
    requires lineNum >= 1 && NothingToInstrument(inp) && st.current.None? && st.found == []
    ensures RenderAll(TransformFrom(inp, st, lines, lineNum)) == Unlines(lines)
  {
    var outs := TransformFrom(inp, st, lines, lineNum);
    forall i | 0 <= i < |outs|
      ensures outs[i] == LineOutput("", "", "", None, NoLog, None, lines[i])
    {
      PlainTraceConstant(inp, st, lines, lineNum, i);
    }
    RenderBareLines(outs, lines);
  }

  /** A program with nothing to instrument comes out as the header followed by the program. */
  lemma TransformOfPlainProgram(inp: Inputs, lines: seq<string>)
    requires NothingToInstrument(inp)
    ensures TransformProgram(inp, lines) == TransformHeader + Unlines(lines)
  {
    NothingToInstrumentCopies(inp, InitialGenState, lines, 1);
  }

  /**
    What the generator keeps true before line `lineNum`: its numbering start
    is a line already passed; the branch lines it has seen are exactly the
    dictionary origins from the start up to the previous line; and a current
    function starts at the numbering start and declared one flag per origin
    in its range.
   */
  predicate GenInv(inp: Inputs, st: GenState, lineNum: nat) {
    && lineNum >= 1
    && st.start <= lineNum - 1
    && st.found == OriginsIn(inp.dict, st.start, lineNum - 1)
    && (st.current.Some? ==>
          st.current.value.defLoc == st.start
          && st.flagCount == |OriginsIn(inp.dict, st.start, st.current.value.endLoc)|)
  }

  lemma InitialGenInv(inp: Inputs)
    ensures GenInv(inp, InitialGenState, 1)
  {
  }

  lemma NextStateKeepsGenInv(inp: Inputs, st: GenState, lineNum: nat)
    requires WellKeyed(inp) && GenInv(inp, st, lineNum)
    ensures GenInv(inp, NextState(inp, st, lineNum), lineNum + 1)
  {
    var l: nat := lineNum - 1;
    if l in inp.funcDecls {
      assert OriginsIn(inp.dict, l, l) == [];
    }
  }

  /** Every state of the loop satisfies the invariant. */
  lemma {:induction false} TraceKeepsGenInv(inp: Inputs, st: GenState, lines: seq<string>, lineNum: nat, i: nat)
    requires WellKeyed(inp) && GenInv(inp, st, lineNum) && i < |lines|
    ensures GenInv(inp, Trace(inp, st, lines, lineNum)[i], lineNum + i)
    decreases i
  {
    var next := NextState(inp, st, lineNum);
    assert Trace(inp, st, lines, lineNum) == [st] + Trace(inp, next, lines[1..], lineNum + 1);
    if i > 0 {
      NextStateKeepsGenInv(inp, st, lineNum);
      TraceKeepsGenInv(inp, next, lines[1..], lineNum + 1, i - 1);
    }
  }

  /**
    The flag set after a branch line is numbered by the origins of the current
    function before that line, and it is one of the flags the function
    declared when the line lies in [defLoc, endLoc).
   */
  lemma SetFlagIsDeclared(inp: Inputs, st: GenState, lineNum: nat, line: string)
    requires WellKeyed(inp) && GenInv(inp, st, lineNum)
    requires lineNum - 1 in inp.dict
    ensures var st1 := Enter(inp, st, lineNum);
            LineOutputFor(inp, st, lineNum, line).setFlag == Some(|OriginsIn(inp.dict, st1.start, lineNum - 1)|)
    ensures var st1 := Enter(inp, st, lineNum);
            var o := LineOutputFor(inp, st, lineNum, line);
            st1.current.Some? && st1.current.value.defLoc <= lineNum - 1 < st1.current.value.endLoc
            ==> o.setFlag.Some? && o.setFlag.value < st1.flagCount
  {
    var st1 := Enter(inp, st, lineNum);
    if lineNum - 1 in inp.funcDecls {
      assert OriginsIn(inp.dict, lineNum - 1, lineNum - 1) == [];
    }
    if st1.current.Some? && st1.current.value.defLoc <= lineNum - 1 < st1.current.value.endLoc {
      OriginsInMonotone(inp.dict, st1.start, lineNum - 1, st1.current.value.endLoc);
    }
  }

  /**
    Over a whole program: whenever the flag of a branch line inside the current
    function's declaration range is set, that flag was declared for the function.
   */
  lemma EverySetFlagDeclared(inp: Inputs, lines: seq<string>, i: nat)
    requires WellKeyed(inp) && i < |lines| && i in inp.dict
    ensures var st1 := Enter(inp, Trace(inp, InitialGenState, lines, 1)[i], i + 1);
            var o := TransformFrom(inp, InitialGenState, lines, 1)[i];
            st1.current.Some? && st1.current.value.defLoc <= i < st1.current.value.endLoc
            ==> o.setFlag.Some? && o.setFlag.value < st1.flagCount
  {
    var st := Trace(inp, InitialGenState, lines, 1)[i];
    TraceKeepsGenInv(inp, InitialGenState, lines, 1, i);
    SetFlagIsDeclared(inp, st, i + 1, lines[i]);
    assert TransformFrom(inp, InitialGenState, lines, 1)[i] == LineOutputFor(inp, st, i + 1, lines[i]);
  }

  /**
    A function whose definition line is also its last line declares no flag,
    since flags are declared for [defLoc, endLoc) only; when that line is a
    branch line, its record still sets flag 0.
   */
  lemma OneLineFunctionSetsUndeclaredFlag(inp: Inputs, lines: seq<string>, i: nat)
    requires i < |lines| && i in inp.funcDecls && inp.funcDecls[i].defLoc == i == inp.funcDecls[i].endLoc
    requires i in inp.dict
    ensures var o := TransformFrom(inp, InitialGenState, lines, 1)[i];
            o.flagDecls == "\n" && o.setFlag == Some(0)
  {
    var st := Trace(inp, InitialGenState, lines, 1)[i];
    assert TransformFrom(inp, InitialGenState, lines, 1)[i] == LineOutputFor(inp, st, i + 1, lines[i]);
    assert OriginsIn(inp.dict, i, i) == [];
  }

  /**
    The logging statement written before line `lineNum` prints exactly the
    identifiers that the branch lines seen so far (this one included) give to
    `lineNum`.
   */
  lemma LogPrintsMatchingIds(inp: Inputs, st: GenState, lineNum: nat, line: string)
    requires lineNum >= 1
    ensures var found := NextState(inp, st, lineNum).found;
            var ids := LogIds(LineOutputFor(inp, st, lineNum, line).log);
            (forall j :: 0 <= j < |ids| ==>
               (exists idx :: 0 <= idx < |found| && Hit(inp.dict, found[idx], lineNum)
                              && ids[j] == inp.dict[found[idx]][lineNum]))
            && (forall idx :: 0 <= idx < |found| && Hit(inp.dict, found[idx], lineNum)
                 ==> inp.dict[found[idx]][lineNum] in ids)
  {
    var found := NextState(inp, st, lineNum).found;
    var flagCount := Enter(inp, st, lineNum).flagCount;
    assert LineOutputFor(inp, st, lineNum, line).log == LogFor(inp.dict, found, lineNum, flagCount);
    LogForPrintsMatches(inp.dict, found, lineNum, flagCount);
  }

  /** The logging statement for a line prints exactly the identifiers the seen branch lines give it. */
  lemma LogForPrintsMatches(dict: BranchDictionary, found: seq<nat>, lineNum: nat, flagCount: nat)
    ensures var ids := LogIds(LogFor(dict, found, lineNum, flagCount));
            (forall j :: 0 <= j < |ids| ==>
               (exists idx :: 0 <= idx < |found| && Hit(dict, found[idx], lineNum)
                              && ids[j] == dict[found[idx]][lineNum]))
            && (forall idx :: 0 <= idx < |found| && Hit(dict, found[idx], lineNum)
                 ==> dict[found[idx]][lineNum] in ids)
  {
    var ms := MatchesBelow(dict, found, lineNum, |found|);
    var ids := LogIds(LogFor(dict, found, lineNum, flagCount));
    assert ids == MatchIds(dict, found, lineNum, ms);
    forall j | 0 <= j < |ids|
      ensures exists idx :: 0 <= idx < |found| && Hit(dict, found[idx], lineNum) && ids[j] == dict[found[idx]][lineNum]
    {
      assert ids[j] == dict[found[ms[j]]][lineNum];
    }
    forall idx | 0 <= idx < |found| && Hit(dict, found[idx], lineNum)
      ensures dict[found[idx]][lineNum] in ids
    {
      var j :| 0 <= j < |ms| && ms[j] == idx;
      assert ids[j] == dict[found[idx]][lineNum];
    }
  }

  /**
    Reference definition: the latest definition line at or before `l`. Its
    function is the one the generator takes as current while reading line
    `l + 1` (`CurrentFunctionAt`).
   */
  function LatestStart(funcDecls: map<nat, FunctionDeclInfo>, l: nat): (r: Option<nat>)
    ensures r.Some? ==> r.value <= l && r.value in funcDecls
    ensures r.Some? ==> forall k: nat :: r.value < k <= l ==> k !in funcDecls
    ensures r.None? ==> forall k: nat :: k <= l ==> k !in funcDecls
    decreases l
  {
    if l in funcDecls then Some(l) else if l == 0 then None else LatestStart(funcDecls, l - 1)
  }

  /** The function current at a line, as the reference definition names it. */
  function LatestFunction(inp: Inputs, l: nat): Option<FunctionDeclInfo> {
    match LatestStart(inp.funcDecls, l)
    case Some(d) => Some(inp.funcDecls[d])
    case None => None
  }

  /**
    Over a whole program: while record `i` (line `i + 1`) is written, the
    current function is the one registered under the latest definition line
    at or before `i`, and none before the first definition line. A definition
    line met inside a function's body (a local prototype is registered too)
    takes over from the enclosing function.
   */
  lemma {:induction false} CurrentFunctionAt(inp: Inputs, lines: seq<string>, i: nat)
    requires i < |lines|
    ensures Enter(inp, Trace(inp, InitialGenState, lines, 1)[i], i + 1).current == LatestFunction(inp, i)
    decreases i
  {
    var sts := Trace(inp, InitialGenState, lines, 1);
    if i == 0 {
      assert sts[0] == InitialGenState;
    } else {
      CurrentFunctionAt(inp, lines, i - 1);
      TraceStep(inp, InitialGenState, lines, 1, i - 1);
      assert sts[i].current == Enter(inp, sts[i - 1], i).current;
    }
  }

  /** The pointer declaration is never empty. */
  lemma DeclareFuncPtrNonEmpty(returnType: string, name: string)
    ensures DeclareFuncPtr(returnType, name) != ""
  {
    assert |DeclareFuncPtr(returnType, name)| > 0;
  }

  /**
    Over a whole program: the record for the line after a function's
    definition line carries the function's pointer declaration exactly when
    the function is not `main`, is recursive and returns a value; records
    for other lines carry none.
   */
  lemma FuncPtrBeforeBody(inp: Inputs, lines: seq<string>, i: nat)
    requires WellKeyed(inp) && i < |lines|
    ensures var o := TransformFrom(inp, InitialGenState, lines, 1)[i];
            i !in inp.funcDecls ==> o.ptrAtStart == ""
    ensures var o := TransformFrom(inp, InitialGenState, lines, 1)[i];
            i in inp.funcDecls ==>
              var f := inp.funcDecls[i];
              f.defLoc == i
              && (o.ptrAtStart != "" <==> f.name != "main" && f.recursive && f.returnType != "void")
              && (o.ptrAtStart != "" ==> o.ptrAtStart == DeclareFuncPtr(f.returnType, f.name))
  {
    var st := Trace(inp, InitialGenState, lines, 1)[i];
    assert TransformFrom(inp, InitialGenState, lines, 1)[i] == LineOutputFor(inp, st, i + 1, lines[i]);
    if i in inp.funcDecls {
      DeclareFuncPtrNonEmpty(inp.funcDecls[i].returnType, inp.funcDecls[i].name);
    }
  }

  /**
    Over a whole program: a record carries an end-of-function pointer
    declaration exactly when the function current at its line, by the
    latest definition line, ends on that line and is not `main`; the
    declaration is that function's.
   */
  lemma FuncPtrAtEnd(inp: Inputs, lines: seq<string>, i: nat)
    requires i < |lines|
    ensures var o := TransformFrom(inp, InitialGenState, lines, 1)[i];
            var f := LatestFunction(inp, i);
            (o.ptrAtEnd != "" <==> f.Some? && f.value.endLoc == i && f.value.name != "main")
            && (o.ptrAtEnd != "" ==> o.ptrAtEnd == DeclareFuncPtr(f.value.returnType, f.value.name))
  {
    var st := Trace(inp, InitialGenState, lines, 1)[i];
    assert TransformFrom(inp, InitialGenState, lines, 1)[i] == LineOutputFor(inp, st, i + 1, lines[i]);
    CurrentFunctionAt(inp, lines, i);
    var f := LatestFunction(inp, i);
    if f.Some? {
      DeclareFuncPtrNonEmpty(f.value.returnType, f.value.name);
    }
  }

  /**
    A function other than `main` whose range holds no later definition line
    gets its pointer declared in the record for the line after its last line.
   */
  lemma FuncPtrAfterEnd(inp: Inputs, lines: seq<string>, d: nat)
    requires d in inp.funcDecls && d <= inp.funcDecls[d].endLoc < |lines|
    requires inp.funcDecls[d].name != "main"
    requires forall k: nat :: d < k <= inp.funcDecls[d].endLoc ==> k !in inp.funcDecls
    ensures var f := inp.funcDecls[d];
            TransformFrom(inp, InitialGenState, lines, 1)[f.endLoc].ptrAtEnd == DeclareFuncPtr(f.returnType, f.name)
  {
    var e := inp.funcDecls[d].endLoc;
    LatestStartAt(inp.funcDecls, d, e);
    FuncPtrAtEnd(inp, lines, e);
  }

  /** With no definition line in (d, l], the latest one at or before `l` is `d`. */
  lemma {:induction false} LatestStartAt(funcDecls: map<nat, FunctionDeclInfo>, d: nat, l: nat)
    requires d in funcDecls && d <= l
    requires forall k: nat :: d < k <= l ==> k !in funcDecls
    ensures LatestStart(funcDecls, l) == Some(d)
    decreases l
  {
    if l > d {
      LatestStartAt(funcDecls, d, l - 1);
    }
  }
}

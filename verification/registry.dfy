/**
  The function, call, variable and function-pointer registry that the
  collector fills while it walks the tree.

  The source keeps every function record behind a shared pointer reachable
  both from a line-keyed map and from a name-keyed map, and marks recursion
  through the name-keyed one. The model keeps the records in one sequence and
  lets both maps hold indices into it, so a flag set through one map is seen
  through the other, as in the source.
 */
module Registry {
  import opened Wrappers
  import opened Syntax

  /** `FunctionDeclInfo`: body line range (include count already added), name, result type, recursion flag. */
  datatype FunctionDeclInfo = FunctionDeclInfo(defLoc: nat, endLoc: nat, name: string, returnType: string, recursive: bool)

  /**
    The record constructor. It leaves `recursive` uninitialised in the source;
    the model assumes it starts false.
   */
  function NewFunctionDeclInfo(defLoc: nat, endLoc: nat, name: string, returnType: string): (f: FunctionDeclInfo)
    ensures f.defLoc == defLoc && f.endLoc == endLoc && f.name == name && f.returnType == returnType
    ensures !f.recursive
  {
    FunctionDeclInfo(defLoc, endLoc, name, returnType, false)
  }

  /** `isInBody`: both ends of the range are inside. */
  predicate IsInBody(f: FunctionDeclInfo, lineNum: nat) {
    f.defLoc <= lineNum && lineNum <= f.endLoc
  }

  /** `setRecursive`: the flag is set, never cleared. */
  function SetRecursive(f: FunctionDeclInfo): (r: FunctionDeclInfo)
    ensures r.recursive
    ensures SameDecl(f, r)
  {
    f.(recursive := true)
  }

  /** Two records that differ at most in their recursion flag. */
  predicate SameDecl(a: FunctionDeclInfo, b: FunctionDeclInfo) {
    a.defLoc == b.defLoc && a.endLoc == b.endLoc && a.name == b.name && a.returnType == b.returnType
  }

  /**
    The collector's registries:
    - `funcs`: every function record created, in creation order;
    - `funcDecls`: definition line to record index; `funcDeclsString`: name to record index;
    - `currentFunction`: index of the function whose body is being walked;
    - `funcPtrs`: pointer variable to the function it was initialised with;
    - `currFuncPtrId`: the pointer variable waiting for its pointee;
    - `functionCalls`: call line to callee; `varDecls`: variable name to declaration line.
   */
  datatype Registry = Registry(
    funcs: seq<FunctionDeclInfo>,
    funcDecls: map<nat, nat>,
    funcDeclsString: map<string, nat>,
    currentFunction: Option<nat>,
    funcPtrs: map<string, string>,
    currFuncPtrId: string,
    functionCalls: map<nat, string>,
    varDecls: map<string, nat>)

  const EmptyRegistry: Registry := Registry([], map[], map[], None, map[], "", map[], map[])

  /** Indices are in range, each map agrees with the record it points at, and every pointer names a known function. */
  predicate Valid(reg: Registry) {
    && (forall l :: l in reg.funcDecls ==> reg.funcDecls[l] < |reg.funcs| && reg.funcs[reg.funcDecls[l]].defLoc == l)
    && (forall n :: n in reg.funcDeclsString ==>
          reg.funcDeclsString[n] < |reg.funcs| && reg.funcs[reg.funcDeclsString[n]].name == n)
    && (reg.currentFunction.Some? ==> reg.currentFunction.value < |reg.funcs|)
    && (forall p :: p in reg.funcPtrs ==> reg.funcPtrs[p] in reg.funcDeclsString)
  }

  lemma EmptyRegistryValid()
    ensures Valid(EmptyRegistry)
  {
  }

  /**
    `b` is a later state of `a`: records are only added, each keeps its range,
    name and type, a set recursion flag stays set, no function or variable is
    forgotten, and a variable keeps its first declaration line.
   */
  predicate Extends(a: Registry, b: Registry) {
    && |a.funcs| <= |b.funcs|
    && (forall i :: 0 <= i < |a.funcs| ==> SameDecl(a.funcs[i], b.funcs[i]) && (a.funcs[i].recursive ==> b.funcs[i].recursive))
    && a.funcDecls.Keys <= b.funcDecls.Keys
    && a.funcDeclsString.Keys <= b.funcDeclsString.Keys
    && (forall n :: n in a.varDecls ==> n in b.varDecls && b.varDecls[n] == a.varDecls[n])
    && (a.currentFunction.Some? ==> b.currentFunction.Some?)
  }

  lemma ExtendsTransitive(a: Registry, b: Registry, c: Registry)
    requires Extends(a, b) && Extends(b, c)
    ensures Extends(a, c)
  {
  }

  /** `getFunctionByName`: `None` (the null pointer) for a name never registered. */
  function GetFunctionByName(reg: Registry, name: string): (r: Option<FunctionDeclInfo>)
    requires Valid(reg)
    ensures r.None? <==> name !in reg.funcDeclsString
    ensures r.Some? ==> r.value.name == name
  {
    if name in reg.funcDeclsString then Some(reg.funcs[reg.funcDeclsString[name]]) else None
  }

  /** Lookup in `funcDecls`: the function whose definition starts at `line`. */
  function GetFunctionAtLine(reg: Registry, line: nat): (r: Option<FunctionDeclInfo>)
    requires Valid(reg)
    ensures r.None? <==> line !in reg.funcDecls
    ensures r.Some? ==> r.value.defLoc == line
  {
    if line in reg.funcDecls then Some(reg.funcs[reg.funcDecls[line]]) else None
  }

  /** `addFuncDecl`: the record becomes reachable under its definition line and under its name. */
  function AddFuncDecl(reg: Registry, d: FunctionDeclInfo): (r: Registry)
    requires Valid(reg)
    ensures Valid(r)
    ensures GetFunctionByName(r, d.name) == Some(d)
    ensures GetFunctionAtLine(r, d.defLoc) == Some(d)
    ensures forall n :: n != d.name ==> GetFunctionByName(r, n) == GetFunctionByName(reg, n)
    ensures forall l :: l != d.defLoc ==> GetFunctionAtLine(r, l) == GetFunctionAtLine(reg, l)
    ensures Extends(reg, r)
    ensures r.funcPtrs == reg.funcPtrs && r.functionCalls == reg.functionCalls && r.varDecls == reg.varDecls
    ensures r.currentFunction == reg.currentFunction && r.currFuncPtrId == reg.currFuncPtrId
  {
    var i := |reg.funcs|;
    reg.(funcs := reg.funcs + [d],
         funcDecls := reg.funcDecls[d.defLoc := i],
         funcDeclsString := reg.funcDeclsString[d.name := i])
  }

  /** The function whose body is being walked. */
  function CurrentFunction(reg: Registry): (r: Option<FunctionDeclInfo>)
    requires Valid(reg)
    ensures r.Some? <==> reg.currentFunction.Some?
  {
    if reg.currentFunction.Some? then Some(reg.funcs[reg.currentFunction.value]) else None
  }

  /** `inCurrentFunction`: the source dereferences the current function, so one must exist. */
  predicate InCurrentFunction(reg: Registry, lineNum: nat)
    requires Valid(reg) && reg.currentFunction.Some?
  {
    IsInBody(reg.funcs[reg.currentFunction.value], lineNum)
  }

  /** `addCall`: a later call on the same line replaces the earlier callee. */
  function AddCall(reg: Registry, lineNum: nat, calleeName: string): (r: Registry)
    ensures r.functionCalls.Keys == reg.functionCalls.Keys + {lineNum}
    ensures r.functionCalls[lineNum] == calleeName
    ensures forall l :: l in reg.functionCalls && l != lineNum ==> r.functionCalls[l] == reg.functionCalls[l]
  {
    reg.(functionCalls := reg.functionCalls[lineNum := calleeName])
  }

  /** `addVarDeclToMap`: the entry for `name` is replaced; callers only use it for new names. */
  function AddVarDeclToMap(reg: Registry, name: string, lineNum: nat): (r: Registry)
    ensures r.varDecls.Keys == reg.varDecls.Keys + {name}
    ensures r.varDecls[name] == lineNum
    ensures forall n :: n in reg.varDecls && n != name ==> r.varDecls[n] == reg.varDecls[n]
  {
    reg.(varDecls := reg.varDecls[name := lineNum])
  }

  /** `addFuncPtr`: the binding of `id` is replaced. */
  function AddFuncPtr(reg: Registry, id: string, func: string): (r: Registry)
    ensures r.funcPtrs.Keys == reg.funcPtrs.Keys + {id}
    ensures r.funcPtrs[id] == func
    ensures forall p :: p in reg.funcPtrs && p != id ==> r.funcPtrs[p] == reg.funcPtrs[p]
  {
    reg.(funcPtrs := reg.funcPtrs[id := func])
  }

  /** A token a call can be resolved through: a known function or a bound pointer. */
  predicate Resolvable(reg: Registry, token: string) {
    token in reg.funcDeclsString || token in reg.funcPtrs
  }

  /**
    The effect of one node of the callee scan (`VisitCallExpr`), with `k` the
    include count. A known function is recorded as called on the node's line
    plus `k`, and marked recursive when the node's line, taken without `k`, is
    inside its body. A bound pointer is recorded under the function it points
    to. Anything else records nothing.
   */
  function RecordCall(reg: Registry, node: ScanNode, k: nat): (r: Registry)
    requires Valid(reg)
    ensures Valid(r) && Extends(reg, r)
    ensures node.token in reg.funcDeclsString ==>
              var i := reg.funcDeclsString[node.token];
              && r.functionCalls == reg.functionCalls[node.line + k := node.token]
              && |r.funcs| == |reg.funcs|
              && (r.funcs[i].recursive <==> reg.funcs[i].recursive || IsInBody(reg.funcs[i], node.line))
              && (forall j :: 0 <= j < |reg.funcs| && j != i ==> r.funcs[j] == reg.funcs[j])
              && r.funcDeclsString == reg.funcDeclsString && r.funcPtrs == reg.funcPtrs && r.varDecls == reg.varDecls
    ensures node.token !in reg.funcDeclsString && node.token in reg.funcPtrs ==>
              r == reg.(functionCalls := reg.functionCalls[node.line + k := reg.funcPtrs[node.token]])
    ensures !Resolvable(reg, node.token) ==> r == reg
  {
    if node.token in reg.funcDeclsString then
      var i := reg.funcDeclsString[node.token];
      var r1 := AddCall(reg, node.line + k, node.token);
      if IsInBody(reg.funcs[i], node.line) then r1.(funcs := r1.funcs[i := SetRecursive(r1.funcs[i])])
      else r1
    else if node.token in reg.funcPtrs then
      AddCall(reg, node.line + k, reg.funcPtrs[node.token])
    else
      reg
  }

  /** Position of the first node of the scan whose token is resolvable, if any. */
  function FirstResolvable(reg: Registry, scan: seq<ScanNode>): (r: Option<nat>)
    ensures r.None? <==> forall i :: 0 <= i < |scan| ==> !Resolvable(reg, scan[i].token)
    ensures r.Some? ==> r.value < |scan| && Resolvable(reg, scan[r.value].token)
    ensures r.Some? ==> forall j :: 0 <= j < r.value ==> !Resolvable(reg, scan[j].token)
    decreases |scan|
  {
    if scan == [] then None
    else if Resolvable(reg, scan[0].token) then Some(0)
    else
      var rest := FirstResolvable(reg, scan[1..]);
      assert forall i :: 1 <= i < |scan| ==> scan[i] == scan[1..][i - 1];
      match rest
      case None => None
      case Some(i) => Some(i + 1)
  }

  /**
    `VisitCallExpr` run over the parent's subtree in pre-order: the first node
    whose token is resolvable is recorded and the scan stops; when none is, nothing changes.
   */
  function VisitCallExpr(reg: Registry, scan: seq<ScanNode>, k: nat): (r: Registry)
    requires Valid(reg)
    ensures Valid(r) && Extends(reg, r)
    decreases |scan|
  {
    if scan == [] then reg
    else if Resolvable(reg, scan[0].token) then RecordCall(reg, scan[0], k)
    else VisitCallExpr(reg, scan[1..], k)
  }

  /** The call scan records exactly the first resolvable node, and nothing when there is none. */
  lemma {:induction false} VisitCallExprRecordsFirst(reg: Registry, scan: seq<ScanNode>, k: nat)
    requires Valid(reg)
    ensures FirstResolvable(reg, scan).None? ==> VisitCallExpr(reg, scan, k) == reg
    ensures FirstResolvable(reg, scan).Some? ==>
              VisitCallExpr(reg, scan, k) == RecordCall(reg, scan[FirstResolvable(reg, scan).value], k)
    decreases |scan|
  {
    if scan != [] && !Resolvable(reg, scan[0].token) {
      VisitCallExprRecordsFirst(reg, scan[1..], k);
      var f := FirstResolvable(reg, scan[1..]);
      assert FirstResolvable(reg, scan) == if f.None? then None else Some(f.value + 1);
      assert f.Some? ==> scan[f.value + 1] == scan[1..][f.value];
    }
  }

  /** The pending pointer after one node: an unbound parent token is taken when none is pending. */
  function NextPending(pending: string, funcPtrs: map<string, string>, node: PtrNode): string {
    if node.parentToken !in funcPtrs && pending == "" then node.parentToken else pending
  }

  /**
    The pending pointer after a run of nodes: a pending pointer stays pending,
    and a newly taken one is an unbound parent token of one of the nodes.
   */
  function PendingAfter(pending: string, funcPtrs: map<string, string>, nodes: seq<PtrNode>): (id: string)
    ensures pending != "" ==> id == pending
    ensures id != pending ==> id !in funcPtrs && exists j :: 0 <= j < |nodes| && nodes[j].parentToken == id
    decreases |nodes|
  {
    if nodes == [] then pending
    else
      var id := PendingAfter(NextPending(pending, funcPtrs, nodes[0]), funcPtrs, nodes[1..]);
      assert id != NextPending(pending, funcPtrs, nodes[0]) ==>
        exists j :: 0 <= j < |nodes[1..]| && nodes[1..][j].parentToken == id;
      assert forall j :: 0 <= j < |nodes[1..]| ==> nodes[1..][j] == nodes[j + 1];
      id
  }

  /**
    `VisitFuncPtr` run over a pointer declaration's subtree. At each node the
    pending pointer is updated as `NextPending` says; the first token naming a
    known function is bound to the pending pointer, which is then cleared, and
    the scan stops. The pending pointer is state of the whole traversal, not
    of one declaration.
   */
  function VisitFuncPtr(reg: Registry, scan: seq<PtrNode>): (r: Registry)
    requires Valid(reg)
    ensures Valid(r) && Extends(reg, r)
    ensures r.funcs == reg.funcs && r.funcDecls == reg.funcDecls && r.funcDeclsString == reg.funcDeclsString
    ensures r.functionCalls == reg.functionCalls && r.varDecls == reg.varDecls && r.currentFunction == reg.currentFunction
    decreases |scan|
  {
    if scan == [] then reg
    else
      var reg1 := reg.(currFuncPtrId := NextPending(reg.currFuncPtrId, reg.funcPtrs, scan[0]));
      if scan[0].token in reg1.funcDeclsString then
        AddFuncPtr(reg1, reg1.currFuncPtrId, scan[0].token).(currFuncPtrId := "")
      else
        VisitFuncPtr(reg1, scan[1..])
  }

  /**
    A pointer subtree that names no known function binds nothing, but may
    leave a pointer pending for a later declaration.
   */
  lemma {:induction false} VisitFuncPtrWithoutKnownFunction(reg: Registry, scan: seq<PtrNode>)
    requires Valid(reg)
    requires forall i :: 0 <= i < |scan| ==> scan[i].token !in reg.funcDeclsString
    ensures VisitFuncPtr(reg, scan).funcPtrs == reg.funcPtrs
    ensures VisitFuncPtr(reg, scan).currFuncPtrId == PendingAfter(reg.currFuncPtrId, reg.funcPtrs, scan)
    decreases |scan|
  {
    if scan != [] {
      var reg1 := reg.(currFuncPtrId := NextPending(reg.currFuncPtrId, reg.funcPtrs, scan[0]));
      assert forall i :: 0 <= i < |scan[1..]| ==> scan[1..][i] == scan[i + 1];
      VisitFuncPtrWithoutKnownFunction(reg1, scan[1..]);
    }
  }

  /**
    The first node whose token names a known function binds the pointer that
    is pending when it is reached to that function, and clears the pending
    pointer; no other binding changes.
   */
  lemma {:induction false} VisitFuncPtrBindsFirstKnown(reg: Registry, scan: seq<PtrNode>, i: nat)
    requires Valid(reg)
    requires i < |scan| && scan[i].token in reg.funcDeclsString
    requires forall j :: 0 <= j < i ==> scan[j].token !in reg.funcDeclsString
    ensures VisitFuncPtr(reg, scan).funcPtrs
              == reg.funcPtrs[PendingAfter(reg.currFuncPtrId, reg.funcPtrs, scan[..i + 1]) := scan[i].token]
    ensures VisitFuncPtr(reg, scan).currFuncPtrId == ""
    decreases i
  {
    var reg1 := reg.(currFuncPtrId := NextPending(reg.currFuncPtrId, reg.funcPtrs, scan[0]));
    assert scan[..i + 1][0] == scan[0];
    assert scan[..i + 1][1..] == scan[1..][..i];
    if i == 0 {
      assert scan[..1][1..] == [];
    } else {
      assert forall j :: 0 <= j < i - 1 ==> scan[1..][j] == scan[j + 1];
      VisitFuncPtrBindsFirstKnown(reg1, scan[1..], i - 1);
    }
  }

  /**
    `VisitVarOrParamDecl` on the node it inspects, with `k` the include count:
    a pointer-to-function declaration goes to pointer binding and leaves the
    variable table alone; any other declaration is entered with its line plus
    `k` unless its name is already there (the first declaration wins).
   */
  function VisitVarOrParamDecl(reg: Registry, decl: DeclView, k: nat): (r: Registry)
    requires Valid(reg)
    ensures Valid(r) && Extends(reg, r)
    ensures decl.isFunctionPtr ==> r == VisitFuncPtr(reg, decl.pointerScan) && r.varDecls == reg.varDecls
    ensures !decl.isFunctionPtr ==> r.funcPtrs == reg.funcPtrs && r.varDecls.Keys == reg.varDecls.Keys + {decl.token}
    ensures !decl.isFunctionPtr && decl.token !in reg.varDecls ==> r.varDecls[decl.token] == decl.line + k
  {
    if decl.isFunctionPtr then VisitFuncPtr(reg, decl.pointerScan)
    else if decl.token !in reg.varDecls then AddVarDeclToMap(reg, decl.token, decl.line + k)
    else reg
  }

  /**
    `VisitFuncDecl`, run when a function declaration has a first child: the
    function is registered with its extent lines plus `k` and becomes the
    current function. A declaration without children registers nothing.
   */
  function VisitFuncDecl(reg: Registry, header: Option<FuncHeader>, k: nat): (r: Registry)
    requires Valid(reg)
    ensures Valid(r) && Extends(reg, r)
    ensures header.None? ==> r == reg
    ensures header.Some? ==>
              var h := header.value;
              var d := NewFunctionDeclInfo(h.beginLine + k, h.endLine + k, h.name, h.returnType);
              && CurrentFunction(r) == Some(d)
              && GetFunctionByName(r, h.name) == Some(d)
              && GetFunctionAtLine(r, d.defLoc) == Some(d)
              && r.funcPtrs == reg.funcPtrs && r.functionCalls == reg.functionCalls && r.varDecls == reg.varDecls
  {
    match header
    case None => reg
    case Some(h) =>
      var r1 := AddFuncDecl(reg, NewFunctionDeclInfo(h.beginLine + k, h.endLine + k, h.name, h.returnType));
      r1.(currentFunction := Some(r1.funcDeclsString[h.name]))
  }
}

/**
  The seminal-input-feature detector. It takes the branch and call nodes that
  the collector kept, looks into the conditions of the if, for and while nodes
  among them, and records the declared variables those conditions name. The
  subtree walk of each node is given as the pre-order list of nodes visited,
  each with its visitation parent's kind, its token (absent when the tree has
  none at that location) and the spelling of its type.
 */
module Features {
  import opened Wrappers
  import opened Syntax

  /** One node of a condition subtree, as the condition visitors see it. */
  datatype CondNode = CondNode(parentKind: Kind, kind: Kind, token: Option<string>, typeSpelling: string)

  /** A recorded feature: the variable's name, its declaration line, and the type spelling of the node that named it. */
  datatype Feature = Feature(name: string, line: nat, typeSpelling: string)

  /**
    The detector's state: the declaration table it was given (name to line),
    the features recorded so far, in order, and the name held by the shared
    scratch record, which the for-visitor also reads as the last name it
    remembered.
   */
  datatype Detector = Detector(varDecls: map<string, nat>, features: seq<Feature>, remembered: string)

  /** A collected node with the pre-order list of its subtree. */
  datatype ScannedCursor = ScannedCursor(cursor: Cursor, subtree: seq<CondNode>)

  function NewDetector(varDecls: map<string, nat>): (d: Detector)
    ensures d.features == [] && d.varDecls == varDecls
  {
    Detector(varDecls, [], "")
  }

  predicate HasFeature(features: seq<Feature>, name: string) {
    exists i :: 0 <= i < |features| && features[i].name == name
  }

  /**
    `getDeclLocation`: record `name` with its declaration line and `typeSpelling`,
    unless a feature of that name exists or the name was never declared.
   */
  function GetDeclLocation(d: Detector, name: string, typeSpelling: string): (r: Detector)
    ensures r.varDecls == d.varDecls
    ensures HasFeature(d.features, name) || name !in d.varDecls ==> r == d
    ensures !HasFeature(d.features, name) && name in d.varDecls
            ==> r.features == d.features + [Feature(name, d.varDecls[name], typeSpelling)] && r.remembered == name
  {
    if !HasFeature(d.features, name) && name in d.varDecls then
      var temp := Feature(name, d.varDecls[name], typeSpelling);
      d.(features := d.features + [temp], remembered := name)
    else d
  }

  /**
    What the detector keeps true: feature names are pairwise distinct, and
    each feature is a declared variable carrying its declaration line.
   */
  predicate Inv(d: Detector) {
    && (forall i, j :: 0 <= i < j < |d.features| ==> d.features[i].name != d.features[j].name)
    && (forall i :: 0 <= i < |d.features| ==>
          d.features[i].name in d.varDecls && d.features[i].line == d.varDecls[d.features[i].name])
  }

  lemma NewDetectorInv(varDecls: map<string, nat>)
    ensures Inv(NewDetector(varDecls))
  {
  }

  lemma GetDeclLocationKeepsInv(d: Detector, name: string, typeSpelling: string)
    requires Inv(d)
    ensures Inv(GetDeclLocation(d, name, typeSpelling))
    ensures d.features <= GetDeclLocation(d, name, typeSpelling).features
  {
  }

  /** The if-visitor stops at an expression or binary operator directly below an if statement that has a token. */
  predicate IfStops(n: CondNode) {
    n.token.Some? && n.parentKind == IfStmt && (n.kind == UnexposedExpr || n.kind == BinaryOperator)
  }

  /** The while-visitor stops at an expression below a binary operator or call that has a token. */
  predicate WhileStops(n: CondNode) {
    n.token.Some? && (n.parentKind == BinaryOperator || n.parentKind == CallExpr) && n.kind == UnexposedExpr
  }

  /** The for-visitor remembers the token of a variable declared in a declaration statement or of a name reference. */
  predicate ForRemembers(n: CondNode) {
    n.token.Some? && ((n.parentKind == DeclStmt && n.kind == VarDecl) || n.kind == DeclRefExpr)
  }

  /** The for-visitor stops at an expression below a binary operator or call whose token is not the remembered one. */
  predicate ForStops(remembered: string, n: CondNode) {
    n.token.Some? && (n.parentKind == BinaryOperator || n.parentKind == CallExpr) && n.kind == UnexposedExpr
    && n.token.value != remembered
  }

  /** `ifStmtBranch` over a whole subtree. */
  function IfScan(d: Detector, nodes: seq<CondNode>): Detector {
    if nodes == [] then d
    else if IfStops(nodes[0]) then GetDeclLocation(d, nodes[0].token.value, nodes[0].typeSpelling)
    else IfScan(d, nodes[1..])
  }

  /** `whileStmtBranch` over a whole subtree. */
  function WhileScan(d: Detector, nodes: seq<CondNode>): Detector {
    if nodes == [] then d
    else if WhileStops(nodes[0]) then GetDeclLocation(d, nodes[0].token.value, nodes[0].typeSpelling)
    else WhileScan(d, nodes[1..])
  }

  /** The name the for-visitor holds after node `n`, starting from `name`. */
  function Remember(name: string, n: CondNode): string {
    if ForRemembers(n) then n.token.value else name
  }

  /** `forStmtBranch` over a whole subtree: the remembered name is updated before the stop test. */
  function ForScan(d: Detector, nodes: seq<CondNode>): Detector
    decreases |nodes|
  {
    if nodes == [] then d
    else
      var n := nodes[0];
      var d1 := d.(remembered := Remember(d.remembered, n));
      if ForStops(d1.remembered, n) then GetDeclLocation(d1, n.token.value, n.typeSpelling)
      else ForScan(d1, nodes[1..])
  }

  /** The index of the first node satisfying the stop test, if any. */
  predicate FirstStop(nodes: seq<CondNode>, i: nat, stops: CondNode -> bool) {
    i < |nodes| && stops(nodes[i]) && forall j :: 0 <= j < i ==> !stops(nodes[j])
  }

  /** The if-visitor makes one lookup, with the first stopping node, and none when no node stops. */
  lemma {:induction false} IfScanFirstMatch(d: Detector, nodes: seq<CondNode>)
    ensures (forall j :: 0 <= j < |nodes| ==> !IfStops(nodes[j])) ==> IfScan(d, nodes) == d
    ensures forall i: nat :: FirstStop(nodes, i, IfStops) ==>
              IfScan(d, nodes) == GetDeclLocation(d, nodes[i].token.value, nodes[i].typeSpelling)
    decreases |nodes|
  {
    if nodes != [] {
      IfScanFirstMatch(d, nodes[1..]);
      forall i: nat | FirstStop(nodes, i, IfStops)
        ensures IfScan(d, nodes) == GetDeclLocation(d, nodes[i].token.value, nodes[i].typeSpelling)
      {
        if i > 0 {
          assert FirstStop(nodes[1..], i - 1, IfStops);
        }
      }
    }
  }

  /** The while-visitor makes one lookup, with the first stopping node, and none when no node stops. */
  lemma {:induction false} WhileScanFirstMatch(d: Detector, nodes: seq<CondNode>)
    ensures (forall j :: 0 <= j < |nodes| ==> !WhileStops(nodes[j])) ==> WhileScan(d, nodes) == d
    ensures forall i: nat :: FirstStop(nodes, i, WhileStops) ==>
              WhileScan(d, nodes) == GetDeclLocation(d, nodes[i].token.value, nodes[i].typeSpelling)
    decreases |nodes|
  {
    if nodes != [] {
      WhileScanFirstMatch(d, nodes[1..]);
      forall i: nat | FirstStop(nodes, i, WhileStops)
        ensures WhileScan(d, nodes) == GetDeclLocation(d, nodes[i].token.value, nodes[i].typeSpelling)
      {
        if i > 0 {
          assert FirstStop(nodes[1..], i - 1, WhileStops);
        }
      }
    }
  }

  /** The name the for-visitor remembers after the nodes `nodes`, starting from `name`: the last remembered token. */
  function RememberedAfter(name: string, nodes: seq<CondNode>): string {
    if nodes == [] then name
    else
      var n := nodes[|nodes| - 1];
      if ForRemembers(n) then n.token.value else RememberedAfter(name, nodes[..|nodes| - 1])
  }

  lemma {:induction false} RememberedAfterCons(name: string, n: CondNode, rest: seq<CondNode>)
    ensures RememberedAfter(name, [n] + rest) == RememberedAfter(Remember(name, n), rest)
    decreases |rest|
  {
    if rest != [] {
      assert ([n] + rest)[..|rest|] == [n] + rest[..|rest| - 1];
      RememberedAfterCons(name, n, rest[..|rest| - 1]);
    } else {
      assert ([n] + rest)[..0] == [];
    }
  }

  /** Skipping the first node: the remembered names of longer prefixes start from the name it leaves. */
  lemma RememberedAfterShift(name: string, nodes: seq<CondNode>, j: nat)
    requires j < |nodes|
    ensures RememberedAfter(name, nodes[..j + 1]) == RememberedAfter(Remember(name, nodes[0]), nodes[1..][..j])
  {
    assert nodes[..j + 1] == [nodes[0]] + nodes[1..][..j];
    RememberedAfterCons(name, nodes[0], nodes[1..][..j]);
  }

  /** A node fires the for-visitor when it stops it given the name remembered once it is visited. */
  predicate ForFires(name: string, nodes: seq<CondNode>, i: nat)
    requires i < |nodes|
  {
    ForStops(RememberedAfter(name, nodes[..i + 1]), nodes[i])
  }

  lemma ForFiresShift(name: string, nodes: seq<CondNode>, j: nat)
    requires 0 < j < |nodes|
    ensures ForFires(name, nodes, j) == ForFires(Remember(name, nodes[0]), nodes[1..], j - 1)
  {
    RememberedAfterShift(name, nodes, j);
  }

  /** When no node fires, the for-visitor makes no lookup and only updates the remembered name. */
  lemma {:induction false} ForScanNoFire(d: Detector, nodes: seq<CondNode>)
    requires forall j: nat :: j < |nodes| ==> !ForFires(d.remembered, nodes, j)
    ensures ForScan(d, nodes) == d.(remembered := RememberedAfter(d.remembered, nodes))
    decreases |nodes|
  {
    if nodes != [] {
      var d1 := d.(remembered := Remember(d.remembered, nodes[0]));
      RememberedAfterShift(d.remembered, nodes, 0);
      assert nodes[..1] == [nodes[0]];
      assert !ForFires(d.remembered, nodes, 0);
      forall j: nat | j < |nodes[1..]|
        ensures !ForFires(d1.remembered, nodes[1..], j)
      {
        ForFiresShift(d.remembered, nodes, j + 1);
      }
      ForScanNoFire(d1, nodes[1..]);
      RememberedAfterShift(d.remembered, nodes, |nodes| - 1);
      assert nodes[..|nodes|] == nodes;
      assert nodes[1..][..|nodes| - 1] == nodes[1..];
    }
  }

  /**
    The for-visitor makes one lookup, with the first node whose token differs
    from the name remembered by then, and leaves that name in the scratch record.
   */
  lemma {:induction false} ForScanFirstFire(d: Detector, nodes: seq<CondNode>, i: nat)
    requires i < |nodes| && ForFires(d.remembered, nodes, i)
    requires forall j: nat :: j < i ==> !ForFires(d.remembered, nodes, j)
    ensures ForScan(d, nodes)
            == GetDeclLocation(d.(remembered := RememberedAfter(d.remembered, nodes[..i + 1])),
                               nodes[i].token.value, nodes[i].typeSpelling)
    decreases i
  {
    var d1 := d.(remembered := Remember(d.remembered, nodes[0]));
    RememberedAfterShift(d.remembered, nodes, 0);
    assert nodes[..1] == [nodes[0]];
    if i > 0 {
      assert !ForFires(d.remembered, nodes, 0);
      forall j: nat | j < i - 1
        ensures !ForFires(d1.remembered, nodes[1..], j)
      {
        ForFiresShift(d.remembered, nodes, j + 1);
      }
      ForFiresShift(d.remembered, nodes, i);
      ForScanFirstFire(d1, nodes[1..], i - 1);
      RememberedAfterShift(d.remembered, nodes, i);
      assert nodes[1..][..i - 1 + 1] == nodes[1..][..i];
    }
  }

  /** The visitor a collected node is handed to: if, for and while nodes only; any other kind is left alone. */
  function Dispatch(d: Detector, c: ScannedCursor): (r: Detector)
    ensures c.cursor.kind !in {IfStmt, ForStmt, WhileStmt} ==> r == d
  {
    match c.cursor.kind
    case IfStmt => IfScan(d, c.subtree)
    case ForStmt => ForScan(d, c.subtree)
    case WhileStmt => WhileScan(d, c.subtree)
    case _ => d
  }

  /** Every scan, hence every dispatch, keeps the invariant and only appends features. */
  lemma {:induction false} ScanKeepsInv(d: Detector, c: ScannedCursor)
    requires Inv(d)
    ensures Inv(Dispatch(d, c)) && d.features <= Dispatch(d, c).features
            && Dispatch(d, c).varDecls == d.varDecls
  {
    match c.cursor.kind
    case IfStmt => IfScanKeepsInv(d, c.subtree);
    case ForStmt => ForScanKeepsInv(d, c.subtree);
    case WhileStmt => WhileScanKeepsInv(d, c.subtree);
    case _ =>
  }

  lemma {:induction false} IfScanKeepsInv(d: Detector, nodes: seq<CondNode>)
    requires Inv(d)
    ensures Inv(IfScan(d, nodes)) && d.features <= IfScan(d, nodes).features && IfScan(d, nodes).varDecls == d.varDecls
    decreases |nodes|
  {
    if nodes != [] {
      if IfStops(nodes[0]) {
        GetDeclLocationKeepsInv(d, nodes[0].token.value, nodes[0].typeSpelling);
      } else {
        IfScanKeepsInv(d, nodes[1..]);
      }
    }
  }

  lemma {:induction false} WhileScanKeepsInv(d: Detector, nodes: seq<CondNode>)
    requires Inv(d)
    ensures Inv(WhileScan(d, nodes)) && d.features <= WhileScan(d, nodes).features && WhileScan(d, nodes).varDecls == d.varDecls
    decreases |nodes|
  {
    if nodes != [] {
      if WhileStops(nodes[0]) {
        GetDeclLocationKeepsInv(d, nodes[0].token.value, nodes[0].typeSpelling);
      } else {
        WhileScanKeepsInv(d, nodes[1..]);
      }
    }
  }

  lemma {:induction false} ForScanKeepsInv(d: Detector, nodes: seq<CondNode>)
    requires Inv(d)
    ensures Inv(ForScan(d, nodes)) && d.features <= ForScan(d, nodes).features && ForScan(d, nodes).varDecls == d.varDecls
    decreases |nodes|
  {
    if nodes != [] {
      var n := nodes[0];
      var d1 := d.(remembered := Remember(d.remembered, n));
      if ForStops(d1.remembered, n) {
        GetDeclLocationKeepsInv(d1, n.token.value, n.typeSpelling);
      } else {
        ForScanKeepsInv(d1, nodes[1..]);
      }
    }
  }

  /** `cursorFinder`: every collected node in order, each handed to its visitor. */
  function CursorFinder(d: Detector, cursors: seq<ScannedCursor>): Detector
    decreases |cursors|
  {
    if cursors == [] then d else CursorFinder(Dispatch(d, cursors[0]), cursors[1..])
  }

  /** Over all collected nodes, feature names stay distinct and each carries its declaration line. */
  lemma {:induction false} CursorFinderKeepsInv(d: Detector, cursors: seq<ScannedCursor>)
    requires Inv(d)
    ensures Inv(CursorFinder(d, cursors)) && d.features <= CursorFinder(d, cursors).features
            && CursorFinder(d, cursors).varDecls == d.varDecls
    decreases |cursors|
  {
    if cursors != [] {
      ScanKeepsInv(d, cursors[0]);
      CursorFinderKeepsInv(Dispatch(d, cursors[0]), cursors[1..]);
    }
  }

  /** Only if, for and while nodes contribute: dropping every other collected node changes nothing. */
  function Conditions(cursors: seq<ScannedCursor>): (r: seq<ScannedCursor>)
    ensures forall i :: 0 <= i < |r| ==> r[i].cursor.kind in {IfStmt, ForStmt, WhileStmt}
    ensures |r| <= |cursors|
  {
    if cursors == [] then []
    else if cursors[0].cursor.kind in {IfStmt, ForStmt, WhileStmt} then [cursors[0]] + Conditions(cursors[1..])
    else Conditions(cursors[1..])
  }

  lemma {:induction false} OtherKindsYieldNothing(d: Detector, cursors: seq<ScannedCursor>)
    ensures CursorFinder(d, cursors) == CursorFinder(d, Conditions(cursors))
    decreases |cursors|
  {
    if cursors != [] {
      OtherKindsYieldNothing(Dispatch(d, cursors[0]), cursors[1..]);
    }
  }

  /**
    `findCursorAtLine`: with `branchLine` = -1 nothing is scanned; otherwise
    only the first collected node whose line (plus the include count `k`) is
    `branchLine` is handed to its visitor.
   */
  function FindCursorAtLine(d: Detector, cursors: seq<ScannedCursor>, branchLine: int, k: nat): (r: Detector)
    ensures branchLine == -1 ==> r == d
    ensures (forall i :: 0 <= i < |cursors| ==> cursors[i].cursor.line + k != branchLine) ==> r == d
    decreases |cursors|
  {
    if branchLine == -1 || cursors == [] then d
    else if cursors[0].cursor.line + k == branchLine then Dispatch(d, cursors[0])
    else FindCursorAtLine(d, cursors[1..], branchLine, k)
  }

  lemma {:induction false} FindCursorAtLineFirstOnly(d: Detector, cursors: seq<ScannedCursor>, branchLine: int, k: nat, i: nat)
    requires branchLine != -1 && i < |cursors| && cursors[i].cursor.line + k == branchLine
    requires forall j :: 0 <= j < i ==> cursors[j].cursor.line + k != branchLine
    ensures FindCursorAtLine(d, cursors, branchLine, k) == Dispatch(d, cursors[i])
    decreases i
  {
    if i > 0 {
      FindCursorAtLineFirstOnly(d, cursors[1..], branchLine, k, i - 1);
    }
  }

  lemma FindCursorAtLineKeepsInv(d: Detector, cursors: seq<ScannedCursor>, branchLine: int, k: nat)
    requires Inv(d)
    ensures Inv(FindCursorAtLine(d, cursors, branchLine, k))
  {
    if branchLine != -1 && exists i :: 0 <= i < |cursors| && cursors[i].cursor.line + k == branchLine {
      var i := FirstAt(cursors, branchLine, k);
      FindCursorAtLineFirstOnly(d, cursors, branchLine, k, i);
      ScanKeepsInv(d, cursors[i]);
    }
  }

  /** The first index whose line is `branchLine`. */
  function FirstAt(cursors: seq<ScannedCursor>, branchLine: int, k: nat): (i: nat)
    requires exists i :: 0 <= i < |cursors| && cursors[i].cursor.line + k == branchLine
    ensures i < |cursors| && cursors[i].cursor.line + k == branchLine
    ensures forall j :: 0 <= j < i ==> cursors[j].cursor.line + k != branchLine
  {
    if cursors[0].cursor.line + k == branchLine then 0
    else 1 + FirstAt(cursors[1..], branchLine, k)
  }
}

/**
  The abstract view of the syntax tree that the collector consumes. The tree
  provider itself is outside the model: a traversal is given as the sequence of
  nodes the core visitor is called on, each carrying the answers to the queries
  the visitor makes about that node (its position, its parent, the extent of
  the parent, the tokens met by the nested scans it starts).
 */
module Syntax {
  import opened Wrappers

  /** Cursor kinds the core distinguishes; every other kind is `OtherKind`. */
  datatype Kind =
    | IfStmt | ForStmt | DoStmt | WhileStmt | SwitchStmt | CallExpr
    | CompoundStmt | FunctionDecl | VarDecl | ParmDecl | DeclStmt
    | BinaryOperator | UnexposedExpr | DeclRefExpr | OtherKind

  /** A node's kind and the spelling location of its start, as seen in the parsed (include-free) file. */
  datatype Cursor = Cursor(kind: Kind, line: nat, column: nat)

  /** One node met while scanning a subtree for a callee: its token spelling and its line. */
  datatype ScanNode = ScanNode(token: string, line: nat)

  /** One node met below a function-pointer declaration: its parent's token and its own token. */
  datatype PtrNode = PtrNode(parentToken: string, token: string)

  /** The node a declaration visit inspects: its line, token, whether its type is a pointer to a function prototype, and its subtree. */
  datatype DeclView = DeclView(line: nat, token: string, isFunctionPtr: bool, pointerScan: seq<PtrNode>)

  /** What a function declaration reveals once its first child is visited: extent lines, name token, result type spelling. */
  datatype FuncHeader = FuncHeader(beginLine: nat, endLine: nat, name: string, returnType: string)

  /**
    One call of the core visitor on `current` (with visitation parent `parent`).
    - `parentEndLine`: line of the end of the parent's extent.
    - `blockChildLines`: lines of `current`'s direct children (read when `current` is a block).
    - `parentScan`: the parent's subtree in pre-order (read when `current` is a call).
    - `header`: `None` when a function declaration has no child to visit.
    - `parentFirstChild`: the parent's first child (read when `current` is a variable or parameter declaration).
   */
  datatype Visit = Visit(
    current: Cursor,
    parent: Cursor,
    parentEndLine: nat,
    blockChildLines: seq<nat>,
    parentScan: seq<ScanNode>,
    header: Option<FuncHeader>,
    parentFirstChild: DeclView)
}

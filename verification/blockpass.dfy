/**
  The LLVM module pass that tags branch targets. Every defined function's
  blocks are walked in order; each conditional branch names two successor
  blocks, and each successor seen for the first time gets the next block
  identifier and, when its instructions carry source locations, a label of
  the form `<file> {<start>, <end>}: br_<id>` that a `printf` inserted at the
  top of the block prints. The IR itself is outside the model: a block is
  given as its instructions, and a successor as its address and the source
  locations of its instructions.
 */
module BlockPass {
  import opened Wrappers
  import opened Text

  /** A source location as the debug metadata gives it: the line and the file's base name. */
  datatype DebugLoc = DebugLoc(line: nat, file: string)

  /** A successor block: its printed address and, per instruction in order, the location if one is attached. */
  datatype BlockRef = BlockRef(address: string, locs: seq<Option<DebugLoc>>)

  datatype Operand = ValueOperand | BlockOperand(block: BlockRef)

  /** An instruction: a branch with its operands, or anything else. */
  datatype Instruction = Branch(operands: seq<Operand>) | OtherInstruction

  datatype Function = Function(name: string, isUndef: bool, blocks: seq<seq<Instruction>>)

  /** The block-id allocator: address to id, and the next id to hand out. */
  datatype Allocator = Allocator(ids: map<string, nat>, next: nat)

  const EmptyAllocator: Allocator := Allocator(map[], 0)

  /**
    `get_block_id`: a known address gives its id and `true` and changes
    nothing; a new one is given the next id, the counter moves on by one,
    and the answer is that id with `false`.
   */
  function GetBlockId(a: Allocator, address: string): (r: (nat, bool, Allocator))
    ensures address in a.ids ==> r == (a.ids[address], true, a)
    ensures address !in a.ids ==>
              r.0 == a.next && !r.1 && r.2 == Allocator(a.ids[address := a.next], a.next + 1)
  {
    if address in a.ids then (a.ids[address], true, a)
    else
      var ids := a.ids[address := a.next];
      (ids[address], false, Allocator(ids, a.next + 1))
  }

  /** Some address holds id `n`. */
  predicate Held(ids: map<string, nat>, n: nat) {
    exists x :: x in ids && ids[x] == n
  }

  /** The ids handed out are exactly 0 .. next-1, one address each, and the counter is the number of addresses. */
  predicate AllocInv(a: Allocator) {
    && |a.ids.Keys| == a.next
    && (forall x :: x in a.ids ==> a.ids[x] < a.next)
    && (forall n: nat :: n < a.next ==> Held(a.ids, n))
    && (forall x, y :: x in a.ids && y in a.ids && x != y ==> a.ids[x] != a.ids[y])
  }

  lemma EmptyAllocatorInv()
    ensures AllocInv(EmptyAllocator)
  {
  }

  lemma GetBlockIdKeepsInv(a: Allocator, address: string)
    requires AllocInv(a)
    ensures AllocInv(GetBlockId(a, address).2)
    ensures GetBlockId(a, address).0 < GetBlockId(a, address).2.next
  {
    if address !in a.ids {
      var ids := a.ids[address := a.next];
      assert ids.Keys == a.ids.Keys + {address};
      forall n: nat | n < a.next + 1
        ensures Held(ids, n)
      {
        if n < a.next {
          assert Held(a.ids, n);
          var x :| x in a.ids && a.ids[x] == n;
          assert ids[x] == n;
        } else {
          assert ids[address] == n;
        }
      }
    }
  }

  /** The text of a label: `<file> {<start>, <end>}: br_<id>`, or `_` for a missing end line. */
  function LabelText(file: string, start: nat, end: Option<nat>, id: nat): string {
    file + " {" + NatToString(start) + ", "
    + (match end case Some(e) => NatToString(e) case None => "_")
    + "}: br_" + NatToString(id)
  }

  /**
    `prep_block_builder_and_printf_string`: no label for an empty block or
    when the first instruction has no location; otherwise the first
    instruction's file and line, and the last instruction's line when it has one.
   */
  function Label(b: BlockRef, id: nat): (r: Option<string>)
    ensures r.None? <==> b.locs == [] || b.locs[0].None?
    ensures r.Some? ==>
              var first := b.locs[0].value;
              var last := b.locs[|b.locs| - 1];
              r.value == LabelText(first.file, first.line, if last.Some? then Some(last.value.line) else None, id)
  {
    if b.locs == [] then None
    else match b.locs[0]
      case None => None
      case Some(first) =>
        match b.locs[|b.locs| - 1]
        case None => Some(LabelText(first.file, first.line, None, id))
        case Some(last) => Some(LabelText(first.file, first.line, Some(last.line), id))
  }

  /** A `printf` placed at the top of the block at `address`, printing `label` and a newline. */
  datatype Insertion = Insertion(address: string, id: nat, text: string)

  /** The label's tail names the block: `... }: br_<id>`. */
  predicate NamesId(text: string, id: nat) {
    var tail := "}: br_" + NatToString(id);
    |tail| <= |text| && text[|text| - |tail|..] == tail
  }

  /** Every label the pass builds ends in the id it is built for. */
  lemma LabelNamesId(b: BlockRef, id: nat)
    requires Label(b, id).Some?
    ensures NamesId(Label(b, id).value, id)
  {
    var first := b.locs[0].value;
    var last := b.locs[|b.locs| - 1];
    var head := first.file + " {" + NatToString(first.line) + ", "
                + (if last.Some? then NatToString(last.value.line) else "_");
    var tail := "}: br_" + NatToString(id);
    assert Label(b, id).value == head + tail;
  }

  datatype PassState = PassState(alloc: Allocator, inserted: seq<Insertion>)

  const InitialPassState: PassState := PassState(EmptyAllocator, [])

  /** `attempt_to_insert_branch_printf`: a block that already has an id is skipped. */
  function AttemptInsert(st: PassState, b: BlockRef): (r: PassState)
    ensures b.address in st.alloc.ids ==> r == st
  {
    var (id, tagged, alloc) := GetBlockId(st.alloc, b.address);
    if tagged then st
    else match Label(b, id)
      case Some(text) => PassState(alloc, st.inserted + [Insertion(b.address, id, text)])
      case None => PassState(alloc, st.inserted)
  }

  /** Only a branch with exactly three operands is handled: operand 1, then operand 2. */
  predicate HandledBranch(i: Instruction) {
    i.Branch? && |i.operands| == 3 && i.operands[1].BlockOperand? && i.operands[2].BlockOperand?
  }

  /** `insert_printf`: the instructions of one block, in order. */
  function InsertPrintf(st: PassState, block: seq<Instruction>): (r: PassState)
    ensures (forall j :: 0 <= j < |block| ==> !HandledBranch(block[j])) ==> r == st
    decreases |block|
  {
    if block == [] then st
    else
      var i := block[0];
      var st1 := if HandledBranch(i)
                 then AttemptInsert(AttemptInsert(st, i.operands[1].block), i.operands[2].block)
                 else st;
      InsertPrintf(st1, block[1..])
  }

  function InsertBlocks(st: PassState, blocks: seq<seq<Instruction>>): PassState
    decreases |blocks|
  {
    if blocks == [] then st else InsertBlocks(InsertPrintf(st, blocks[0]), blocks[1..])
  }

  /** `run_pass`: every defined function's blocks, in order; declarations without a body are skipped. */
  function RunFunctions(st: PassState, fs: seq<Function>): (r: PassState)
    ensures (forall j :: 0 <= j < |fs| ==> fs[j].isUndef) ==> r == st
    decreases |fs|
  {
    if fs == [] then st
    else RunFunctions(if fs[0].isUndef then st else InsertBlocks(st, fs[0].blocks), fs[1..])
  }

  function RunPass(fs: seq<Function>): PassState {
    RunFunctions(InitialPassState, fs)
  }

  /**
    What the pass keeps true: the allocator invariant; every insertion is for
    an address holding that id, with its label naming that id; and no two
    insertions are for the same address.
   */
  predicate PassInv(st: PassState) {
    && AllocInv(st.alloc)
    && (forall k :: 0 <= k < |st.inserted| ==>
          st.inserted[k].address in st.alloc.ids && st.alloc.ids[st.inserted[k].address] == st.inserted[k].id)
    && (forall k :: 0 <= k < |st.inserted| ==> NamesId(st.inserted[k].text, st.inserted[k].id))
    && (forall k, l :: 0 <= k < l < |st.inserted| ==> st.inserted[k].address != st.inserted[l].address)
  }

  /** One state extends another: ids already handed out stay, and insertions are only appended. */
  predicate PassGrows(a: PassState, b: PassState) {
    && (forall x :: x in a.alloc.ids ==> x in b.alloc.ids && b.alloc.ids[x] == a.alloc.ids[x])
    && a.inserted <= b.inserted
  }

  lemma AttemptInsertKeepsInv(st: PassState, b: BlockRef)
    requires PassInv(st)
    ensures PassInv(AttemptInsert(st, b)) && PassGrows(st, AttemptInsert(st, b))
  {
    if b.address !in st.alloc.ids {
      NewBlockKeepsInv(st, b);
    }
  }

  /** A block met for the first time gets the next id, and at most one insertion, for a fresh address. */
  lemma NewBlockKeepsInv(st: PassState, b: BlockRef)
    requires PassInv(st) && b.address !in st.alloc.ids
    ensures PassInv(AttemptInsert(st, b)) && PassGrows(st, AttemptInsert(st, b))
  {
    GetBlockIdKeepsInv(st.alloc, b.address);
    var id := st.alloc.next;
    var alloc := Allocator(st.alloc.ids[b.address := id], id + 1);
    assert GetBlockId(st.alloc, b.address) == (id, false, alloc);
    forall k | 0 <= k < |st.inserted|
      ensures st.inserted[k].address != b.address
    {
    }
    match Label(b, id)
    case Some(text) =>
      LabelNamesId(b, id);
      assert AttemptInsert(st, b) == PassState(alloc, st.inserted + [Insertion(b.address, id, text)]);
    case None =>
      assert AttemptInsert(st, b) == PassState(alloc, st.inserted);
  }

  /** A first visit to a labelled block inserts one `printf` whose label ends in that block's new id. */
  lemma AttemptInsertLabels(st: PassState, b: BlockRef)
    requires b.address !in st.alloc.ids && Label(b, st.alloc.next).Some?
    ensures AttemptInsert(st, b).inserted
            == st.inserted + [Insertion(b.address, st.alloc.next, Label(b, st.alloc.next).value)]
    ensures AttemptInsert(st, b).alloc.next == st.alloc.next + 1
  {
  }

  /**
    A conditional branch to two new, distinct blocks tags operand 1 (the
    false successor) before operand 2 (the true successor).
   */
  lemma BranchTagsOperandOneFirst(st: PassState, i: Instruction)
    requires HandledBranch(i)
    requires i.operands[1].block.address !in st.alloc.ids && i.operands[2].block.address !in st.alloc.ids
    requires i.operands[1].block.address != i.operands[2].block.address
    ensures var r := InsertPrintf(st, [i]);
            && r.alloc.ids[i.operands[1].block.address] == st.alloc.next
            && r.alloc.ids[i.operands[2].block.address] == st.alloc.next + 1
            && r.alloc.next == st.alloc.next + 2
  {
    assert InsertPrintf(st, [i]) == InsertPrintf(AttemptInsert(AttemptInsert(st, i.operands[1].block), i.operands[2].block), []);
  }

  lemma {:induction false} InsertPrintfKeepsInv(st: PassState, block: seq<Instruction>)
    requires PassInv(st)
    ensures PassInv(InsertPrintf(st, block)) && PassGrows(st, InsertPrintf(st, block))
    decreases |block|
  {
    if block != [] {
      var i := block[0];
      var st1 := st;
      if HandledBranch(i) {
        AttemptInsertKeepsInv(st, i.operands[1].block);
        var st0 := AttemptInsert(st, i.operands[1].block);
        AttemptInsertKeepsInv(st0, i.operands[2].block);
        st1 := AttemptInsert(st0, i.operands[2].block);
      }
      InsertPrintfKeepsInv(st1, block[1..]);
    }
  }

  lemma {:induction false} InsertBlocksKeepsInv(st: PassState, blocks: seq<seq<Instruction>>)
    requires PassInv(st)
    ensures PassInv(InsertBlocks(st, blocks)) && PassGrows(st, InsertBlocks(st, blocks))
    decreases |blocks|
  {
    if blocks != [] {
      InsertPrintfKeepsInv(st, blocks[0]);
      InsertBlocksKeepsInv(InsertPrintf(st, blocks[0]), blocks[1..]);
    }
  }

  lemma {:induction false} RunFunctionsKeepsInv(st: PassState, fs: seq<Function>)
    requires PassInv(st)
    ensures PassInv(RunFunctions(st, fs)) && PassGrows(st, RunFunctions(st, fs))
    decreases |fs|
  {
    if fs != [] {
      var st1 := st;
      if !fs[0].isUndef {
        InsertBlocksKeepsInv(st, fs[0].blocks);
        st1 := InsertBlocks(st, fs[0].blocks);
      }
      RunFunctionsKeepsInv(st1, fs[1..]);
    }
  }

  /**
    Over a whole module: the ids are exactly 0 .. counter-1, one per tagged
    address (the allocator invariant); each block gets at most one `printf`;
    each printed label ends in `br_<id>` for its block's id; and the printed
    ids are pairwise distinct.
   */
  lemma RunPassTagsEachBlockOnce(fs: seq<Function>)
    ensures var r := RunPass(fs);
            && AllocInv(r.alloc)
            && (forall k :: 0 <= k < |r.inserted| ==> NamesId(r.inserted[k].text, r.inserted[k].id))
            && (forall k :: 0 <= k < |r.inserted| ==>
                  r.inserted[k].address in r.alloc.ids && r.alloc.ids[r.inserted[k].address] == r.inserted[k].id)
            && (forall k, l :: 0 <= k < l < |r.inserted| ==> r.inserted[k].address != r.inserted[l].address)
            && (forall k, l :: 0 <= k < l < |r.inserted| ==> r.inserted[k].id != r.inserted[l].id)
  {
    RunFunctionsKeepsInv(InitialPassState, fs);
  }

  /** Functions without a body contribute nothing: the pass over a module equals the pass over its defined functions. */
  function Defined(fs: seq<Function>): (r: seq<Function>)
    ensures forall j :: 0 <= j < |r| ==> !r[j].isUndef
    ensures |r| <= |fs|
  {
    if fs == [] then []
    else if fs[0].isUndef then Defined(fs[1..])
    else [fs[0]] + Defined(fs[1..])
  }

  lemma {:induction false} UndefinedFunctionsSkipped(st: PassState, fs: seq<Function>)
    ensures RunFunctions(st, fs) == RunFunctions(st, Defined(fs))
    decreases |fs|
  {
    if fs != [] {
      if fs[0].isUndef {
        UndefinedFunctionsSkipped(st, fs[1..]);
      } else {
        UndefinedFunctionsSkipped(InsertBlocks(st, fs[0].blocks), fs[1..]);
        assert ([fs[0]] + Defined(fs[1..]))[1..] == Defined(fs[1..]);
      }
    }
  }
}

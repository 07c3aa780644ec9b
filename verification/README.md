# Branch-trace instrumentation, modelled in Dafny

CSC512 instruments a C program so that running it prints a trace of the
branches it took. It has two parts.

The C part is a libclang tool, `KeyPointsCollector`. It runs these stages:

1. It strips every `#include` line from the C file and remembers each one
   under its original line number. It then parses the stripped file.
2. Right after parsing, it puts the `#include` lines back. Every later
   stage works on this restored file, including the rewrite in stage 5.
3. It walks the syntax tree once. During the walk it:
   - registers functions, calls, variable declarations and function pointers;
   - discovers *branch scopes*. A scope is a compound statement under an `if`,
     `for`, `while`, `do`, `switch` or call. Each scope collects *target* lines:
     the lines of the scope's own statements, plus the first statement after
     the scope within the same function.
4. It numbers every target `br_1`, `br_2`, … into a *branch dictionary*:
   branch line → target line → identifier. It also writes that dictionary to
   a `.branch_dict` file.
5. It rewrites the restored program line by line. The rewrite declares one
   `BRANCH_n` flag per branch in each function. It sets the flag on the line
   after the branch. On target lines it emits `LOG("br_n")` calls, guarded
   by those flags. It writes `LOG_PTR(<callee>_PTR);` before each line that
   holds a call. The callee is either a known function called by name, or
   the function a bound function pointer points to.

`FeatureDetector` reuses the collected branch cursors. It scans their
conditions for variables that were declared in the file, and records those
as *seminal input features*.

The Rust part is an LLVM module pass. It gives every basic block that some
conditional branch can jump to an identifier the first time it sees it. It
then labels that block with a `printf` of the form `file {start, end}: br_id`.

The model keeps all of this as pure functions over immutable data. In the
model:

- source files are sequences of lines;
- the syntax tree is given as the sequence of visits that libclang would
  make, in module `Syntax`;
- LLVM functions, blocks and instructions are plain datatypes.

Every stage is modelled and proved in its own module:

| module | file | what it covers |
|---|---|---|
| `Text`, `Wrappers` | text.dfy | number rendering, line joining, `Option` |
| `Common` | common.dfy | the macros that generate text: output paths, header, flags, `LOG` line, function-pointer declaration |
| `Includes` | includes.dfy | removing and reinserting `#include` lines |
| `Syntax` | syntax.dfy | cursor kinds and the per-visit view of the tree |
| `Registry` | registry.dfy | function, call, variable and function-pointer registries, and the visitors that fill them |
| `Discovery` | discovery.dfy | the branch-scope stack and the main visitor |
| `Dictionary` | dictionary.dfy | numbering of targets, and the dictionary file |
| `Transform` | transform.dfy | line-by-line rewriting of the program |
| `Features` | features.dfy | the seminal-input-feature detector |
| `BlockPass` | blockpass.dfy | the LLVM pass |

Some behaviour of the code is worth knowing. The model reproduces it
faithfully:

- **One scope per branch line.** `addBranchesToDictionary` walks the
  completed scopes from last to first and replaces the *whole* target map
  each time it meets a branch line. So the scope that completed first wins.
  For an `if` with an `else`, the `else` scope is completed first. As a
  result, the targets of the `then` scope do not reach the dictionary.
- **Reinsertion feeds the rewrite.** The rewrite reads the file as
  reinsertion left it. So the misplaced include described under
  "## Findings" shifts the lines that the rewrite numbers.
- **Calls are looked up in the parent's subtree.** A call expression scans
  the whole subtree of its parent, siblings included. The first token that
  names a known function or a bound function pointer is recorded.
- **Function-pointer declarations.** `DECLARE_FUNC_PTR` is emitted in two
  places:
  - at the start of a function only when the function is not `main`, is
    recursive and does not return `void`;
  - after the closing line of the *current* function, unless it is `main`.
    The current function is the one registered under the latest definition
    line passed. A function prototype inside a body, such as `int g(int);`,
    is registered too and becomes current. The enclosing function then gets
    no pointer declaration after its end.
- **Flag range.** Flags are declared for branch lines in the half-open range
  from a function's first line up to, but not including, its last line.
  A function written on one line therefore declares no flag. If that line
  is a branch line, `SET_BRANCH(0)` is still emitted for it.

## Model

| member | source | states |
|---|---|---|
| Common.OutputPathsDistinct | src/Common.h:8-11 | the executable, modified-program and original-executable paths never coincide, whatever the file names, and each path determines its file name |
| Common.TransformHeaderFramesProgram | src/Common.h:18-20 | the rewritten program starts with the stdio include its logging macros need, and the header ends with a newline so the first program line stays whole |
| Common.FlagNameInjective | src/Common.h:22-23 | different flag numbers give different `BRANCH_n` names |
| Common.DeclaredFlagIsSetFlag | src/Common.h:22-23 | the flag declared by `DECLARE_BRANCH(j)` is the one assigned by `SET_BRANCH(k)` exactly when j = k |
| Common.WriteLine | src/Common.h:24 | a copied line is reproduced unchanged and followed by exactly one newline |
| Text.NatToStringInjective | src/KeyPointsCollector.cpp:438 | decimal rendering of counters is injective, so distinct counters give distinct identifiers |
| Includes.StripFrom | src/KeyPointsCollector.cpp:57-76 | a line is recorded under its line number exactly when it starts with `#include`, with its text; the lines kept are exactly the other lines, in their original order |
| Includes.StripFromCounts | src/KeyPointsCollector.cpp:65-72 | every line is either kept or recorded, and the number recorded is the number of include lines |
| Includes.NumIncludeDirectivesCountsIncludeLines | src/KeyPointsCollector.h:239-241 | the include count used to shift every line number equals the number of include lines in the original file |
| Includes.Run | src/KeyPointsCollector.cpp:88-90 | the run of directives emitted at a line is empty exactly when no directive was recorded there, and begins with that line's directive |
| Includes.AsWrittenRestoresLeadingBlock | src/KeyPointsCollector.cpp:78-101 | as written, reinsertion restores a file whose includes form one leading block followed by at least one other line |
| Includes.AsWrittenMisplacesLaterInclude | src/KeyPointsCollector.cpp:86-91 | as written, an include after the first ordinary line comes back one line too late (concrete file) |
| Includes.ReinsertInvertsRemove | src/KeyPointsCollector.cpp:57-101 | the corrected reinsertion undoes the removal for every file whose last line is not an include |
| Registry.NewFunctionDeclInfo | src/KeyPointsCollector.h:88-91 | a new function record has the given lines, name and return type, and is not marked recursive |
| Registry.SetRecursive | src/KeyPointsCollector.h:93 | marks the function recursive and keeps its lines, name and type |
| Registry.GetFunctionByName | src/KeyPointsCollector.h:108-113 | absent exactly when no function of that name is registered; otherwise the record with that name |
| Registry.GetFunctionAtLine | src/KeyPointsCollector.h:100-105 | absent exactly when no function starts at that line; otherwise the record starting there |
| Registry.AddFuncDecl | src/KeyPointsCollector.h:100-103 | afterwards the function is found both by name and by first line; every other name and line finds what it found before; nothing else changes |
| Registry.AddCall | src/KeyPointsCollector.h:123-125 | the call line maps to the callee; the map gains exactly that key and other lines keep their callee |
| Registry.AddVarDeclToMap | src/KeyPointsCollector.h:129-131 | the name maps to the line; the map gains exactly that key and other names keep their line |
| Registry.AddFuncPtr | src/KeyPointsCollector.h:77-79 | the pointer maps to the function; the map gains exactly that key and other pointers keep their binding |
| Registry.RecordCall | src/KeyPointsCollector.cpp:242-265 | a token naming a function records a call to it, and marks it recursive when the call lies in its body; a token naming a bound pointer records a call to the pointee; any other token changes nothing |
| Registry.VisitCallExpr | src/KeyPointsCollector.cpp:231-270 | the callee scan keeps the registry consistent and only adds to it |
| Registry.VisitCallExprRecordsFirst | src/KeyPointsCollector.cpp:231-270 | the first resolvable token of the parent's subtree (the first node that names a known function or a bound pointer) is the one recorded; with none, nothing changes |
| Registry.VisitFuncPtrWithoutKnownFunction | src/KeyPointsCollector.cpp:272-310 | when no pointee names a known function, no pointer is bound, and the pending pointer becomes the first unbound pointer token unless one was already pending |
| Registry.VisitFuncPtrBindsFirstKnown | src/KeyPointsCollector.cpp:282-301 | the pending pointer is bound to the first pointee that names a known function, and the pending name is cleared |
| Registry.VisitVarOrParamDecl | src/KeyPointsCollector.cpp:312-344 | a function-pointer declaration goes to the pointer visitor; any other declaration records its name at its shifted line unless the name is already known |
| Registry.VisitFuncDecl | src/KeyPointsCollector.cpp:346-384 | a function with a header is registered with its shifted lines and becomes the current function; a node without one changes nothing |
| Discovery.AddTarget | src/KeyPointsCollector.h:145 | appends exactly one target and keeps the branch line and closing position |
| Discovery.PushNewBranchPoint | src/KeyPointsCollector.h:155 | pushes one zeroed scope on top and leaves the scopes below unchanged |
| Discovery.AddCompletedBranch | src/KeyPointsCollector.cpp:427-430 | moves the top scope onto the end of the completed list and pops it |
| Discovery.CheckChildAgainstStackTop | src/KeyPointsCollector.cpp:126-148 | answers yes exactly when the node is in the current function and after the scope's closing position; then, and only then, the node's shifted line becomes a target of the top scope |
| Discovery.OpenScope | src/KeyPointsCollector.cpp:164-188 | remembers the branch cursor and pushes a scope whose branch line and targets are shifted by the include count and whose closing line is the branch's last line |
| Discovery.AddTargets | src/KeyPointsCollector.cpp:207-229 | every direct child of the block becomes a target, shifted and in order |
| Discovery.CloseCheck | src/KeyPointsCollector.cpp:190-194 | when a node closes the top scope, the node's line is added as its final target and the scope is completed; otherwise nothing changes |
| Discovery.Step | src/KeyPointsCollector.cpp:150-205 | one visit keeps the collector invariant, only grows the registry and completed list, and handles a call only through the call visitor |
| Discovery.StepPushesScope | src/KeyPointsCollector.cpp:164-194 | a block directly under a branch statement or call, lying within its statement, pushes a new open scope holding the statement's line plus the include count, the block's child lines and the statement's end line, and completes nothing |
| Discovery.StepCompletesScopeAtOnce | src/KeyPointsCollector.cpp:164-194 | a block that already lies past its own statement's end (a one-line statement) completes the scope it opens at once, with the block's line as the extra last target, and leaves the open scopes as they were |
| Discovery.StepOpensScopeRecords | src/KeyPointsCollector.cpp:164-171 | opening a scope records the branch statement's cursor and leaves the registry alone |
| Discovery.StepClosesScope | src/KeyPointsCollector.cpp:190-194 | any other non-call node that lies in the current function past the innermost scope's end pops that scope into the completed list with the node's line plus the include count as its last target |
| Discovery.StepKeepsScopes | src/KeyPointsCollector.cpp:190-194 | a non-call node that does not close the innermost scope leaves the open and completed scopes and the recorded cursors unchanged |
| Discovery.Register | src/KeyPointsCollector.cpp:196-202 | the declaration registrations after the close test keep the invariant, only grow the registry, never touch the open or completed scopes, and make a function current once its declaration is registered |
| Discovery.Collect | src/KeyPointsCollector.cpp:386-388 | the whole walk keeps the collector invariant and completes at most one scope per visit |
| Dictionary.BrIdInjective | src/KeyPointsCollector.cpp:438 | two counters give the same `br_` identifier exactly when they are equal |
| Dictionary.NumberTargets | src/KeyPointsCollector.cpp:436-439 | a scope's map has exactly its targets as keys, numbered within the counter range it used |
| Dictionary.NumberTargetsLast | src/KeyPointsCollector.cpp:437-439 | a repeated target keeps the number of its last occurrence |
| Dictionary.AddBranchesToDictionary | src/KeyPointsCollector.cpp:432-442 | the counter ends at the total number of targets and the branch lines are exactly the scopes' origins |
| Dictionary.DictionaryKeepsFirstScope | src/KeyPointsCollector.cpp:433-441 | a branch line's targets are exactly those of the first-completed scope with that origin, numbered after the targets of every scope completed later |
| Dictionary.DictionaryNumbersFirstScope | src/KeyPointsCollector.cpp:432-442 | the map kept for a branch line is the first-completed scope's targets numbered from the count of targets recorded by the scopes completed after it |
| Dictionary.DictionaryTargetId | src/KeyPointsCollector.cpp:436-440 | each kept target gets `br_` and the next counter value: the targets of the later-completed scopes, plus its position in its scope, plus one; a repeated target keeps the identifier of its last occurrence |
| Dictionary.DictionaryIdsUnique | src/KeyPointsCollector.cpp:432-442 | every identifier is `br_n` with 1 ≤ n ≤ count, and no identifier appears twice |
| Dictionary.DictEntries | src/KeyPointsCollector.cpp:413-422 | the entries written are exactly the dictionary's (branch, target, id) triples, ordered by branch then target |
| Dictionary.RuleUnderlinesTitle | src/KeyPointsCollector.cpp:409-411 | the dashed rule is exactly as long as the title line |
| Dictionary.CreateDictionaryFile | src/KeyPointsCollector.cpp:407-425 | the file is the title, the rule, then one line per dictionary entry in map order |
| Transform.InputsOf | src/KeyPointsCollector.cpp:459-466 | the rewriter sees exactly the registered functions, each under its first line |
| Transform.OriginsInContents | src/KeyPointsCollector.cpp:594-598 | the branch lines visited in a range are exactly the dictionary's lines in it, ascending |
| Transform.InsertFunctionBranchPointDecls | src/KeyPointsCollector.cpp:591-600 | a function declares `BRANCH_0 … BRANCH_{n-1}`, one per branch line in its range, then a newline |
| Transform.MatchesBelow | src/KeyPointsCollector.cpp:497-508 | the matches are exactly the earlier branches that target this line, in descending order |
| Transform.ChooseLogForm | src/KeyPointsCollector.cpp:509-570 | no match logs nothing; one match logs guarded by the later flags, or unguarded when there are none; two give if/else; three or more give an else-if chain; identifiers keep the match order |
| Transform.LogPrintsMatchingIds | src/KeyPointsCollector.cpp:497-570 | the identifiers logged on a line are the dictionary identifiers of the matching branches for that line |
| Transform.RenderLine | src/KeyPointsCollector.cpp:578 | every rewritten line ends with the original line and a newline |
| Transform.TransformFrom | src/KeyPointsCollector.cpp:469-580 | the rewrite produces one record per input line, in order, each carrying that line |
| Transform.TransformOfPlainProgram | src/KeyPointsCollector.cpp:444-580 | a program with no functions, branches or pointer calls is rewritten to the header followed by the program unchanged |
| Transform.NothingToInstrumentCopies | src/KeyPointsCollector.cpp:469-580 | with nothing to instrument, the body of the rewrite is the original text |
| Transform.TraceKeepsGenInv | src/KeyPointsCollector.cpp:470-494 | at every line, the branch lines met in the current function are exactly the dictionary's branch lines from its first line up to the previous line, and its flag count is the number of branch lines in its range |
| Transform.SetFlagIsDeclared | src/KeyPointsCollector.cpp:491-494 | the flag a line sets is one the current function declared |
| Transform.EverySetFlagDeclared | src/KeyPointsCollector.cpp:469-494 | over a whole program run, every `SET_BRANCH` for a branch line in the half-open range [first line, last line) of the current function names a flag that function declared |
| Transform.OneLineFunctionSetsUndeclaredFlag | src/KeyPointsCollector.cpp:490-493 | a function whose first line is also its last declares no flag, yet a branch on that line sets flag 0 |
| Transform.CurrentFunctionAt | src/KeyPointsCollector.cpp:469-483 | over a whole program run, the current function at each line is the one registered under the latest definition line at or before it, and none before the first |
| Transform.FuncPtrBeforeBody | src/KeyPointsCollector.cpp:470-477 | over a whole program run, the line after a function's definition line is preceded by its pointer declaration exactly when it is not `main`, is recursive and returns a value; no other line is |
| Transform.FuncPtrAtEnd | src/KeyPointsCollector.cpp:485-489 | over a whole program run, a line gets an end-of-function pointer declaration exactly when the current function ends on the previous line and is not `main`; the declaration is that function's |
| Transform.FuncPtrAfterEnd | src/KeyPointsCollector.cpp:469-489 | a function other than `main` with no other definition line inside it gets its pointer declared right after its last line |
| Features.NewDetector | src/FeatureDetector.cpp:9-17 | a new detector has the collector's declarations and no features |
| Features.GetDeclLocation | src/FeatureDetector.cpp:211-235 | a name already recorded or never declared changes nothing; otherwise exactly one feature with the declaration line and type is appended |
| Features.GetDeclLocationKeepsInv | src/FeatureDetector.cpp:211-235 | features stay one per name, each at its declaration line, and are only appended |
| Features.IfScanFirstMatch | src/FeatureDetector.cpp:27-81 | an `if` condition records the first operand reference that stops the scan, and nothing when none does |
| Features.WhileScanFirstMatch | src/FeatureDetector.cpp:158-207 | a `while` condition records the first operand reference that stops the scan, and nothing when none does |
| Features.ForScanNoFire | src/FeatureDetector.cpp:83-156 | a `for` header whose scan never stops only updates the remembered name |
| Features.ForScanFirstFire | src/FeatureDetector.cpp:107-146 | a `for` header makes one lookup. The remembered name is updated before each node's stop test. The lookup uses the token of the first expression under a binary operator or call whose token differs from the name remembered by then, and that name stays in the scratch record |
| Features.Dispatch | src/FeatureDetector.cpp:269-281 | cursors other than `if`, `for` and `while` leave the detector unchanged |
| Features.CursorFinderKeepsInv | src/FeatureDetector.cpp:249-294 | scanning all branch cursors keeps one feature per name at its declaration line and only appends |
| Features.OtherKindsYieldNothing | src/FeatureDetector.cpp:260-287 | scanning all cursors gives the same result as scanning only the `if`, `for` and `while` cursors |
| Features.FindCursorAtLine | src/FeatureDetector.cpp:296-343 | `-1`, or a line that no cursor has after the include shift, changes nothing |
| Features.FindCursorAtLineFirstOnly | src/FeatureDetector.cpp:304-333 | only the first cursor at the requested line is scanned |
| Features.FindCursorAtLineKeepsInv | src/FeatureDetector.cpp:296-350 | the single-line scan keeps one feature per name at its declaration line |
| BlockPass.GetBlockId | part_1_rust/src/my_pass.rs:127-143 | a known address returns its id, flagged as already tagged, with nothing changed; a new address gets the next index, which then advances by one |
| BlockPass.GetBlockIdKeepsInv | part_1_rust/src/my_pass.rs:127-143 | ids stay a bijection between the addresses seen and 0 … next-1 |
| BlockPass.Label | part_1_rust/src/my_pass.rs:183-241 | no label exactly when the block is empty or its first instruction has no location; otherwise the label uses the first location's file and line, and the last location's line or `_` |
| BlockPass.LabelNamesId | part_1_rust/src/my_pass.rs:228-235 | every label built for a block ends in `}: br_` and that block's id |
| BlockPass.AttemptInsert | part_1_rust/src/my_pass.rs:107-125 | a block already tagged is skipped and nothing changes |
| BlockPass.AttemptInsertLabels | part_1_rust/src/my_pass.rs:107-125 | a new block with a location is tagged with the next id and gets exactly one labelled insertion |
| BlockPass.InsertPrintf | part_1_rust/src/my_pass.rs:65-105 | a block with no three-operand branch changes nothing |
| BlockPass.BranchTagsOperandOneFirst | part_1_rust/src/my_pass.rs:75-98 | for a branch to two new blocks, operand 1 gets the next id and operand 2 the one after |
| BlockPass.UndefinedFunctionsSkipped | part_1_rust/src/my_pass.rs:34-44 | undefined functions contribute nothing; the run equals the run over the defined ones |
| BlockPass.RunFunctions | part_1_rust/src/my_pass.rs:45-60 | a module with only undefined functions changes nothing |
| BlockPass.RunPassTagsEachBlockOnce | part_1_rust/src/my_pass.rs:29-62 | after the pass every tagged block has one id, ids are distinct, no block is labelled twice, and every label ends in `br_` and the id of the block it is inserted into |

## Left out

- Everything libclang computes is an input. This covers parsing, cursor
  kinds, spelling locations, extents and tokens. Module `Syntax` supplies
  these as the sequence of visits, with each node's line, column, token and
  subtree already resolved.
- Shell commands are not modelled: `clang-format`, compiling the modified
  program, running valgrind and reading the trace back. They only run
  external programs.
- File reading and writing, and the temporary-file rename, are not
  modelled. Files are sequences of lines, and writes are the text or lines
  that would be written.
- Debug printing is not modelled, including `printSeminalInputFeatures`,
  because it only produces console output. The features it prints are the
  detector's result.
- The LLVM side is not modelled: debug-metadata lookup, the IR builder,
  and declaring `printf` and its format string. A block arrives with its
  instructions' locations, each file name already cut to its base name.
  An insertion is recorded as (address, id, label).
- The first-versus-last file-name mismatch warning in the Rust pass is not
  modelled, because it only logs.
- `KeyPointsCollector::isFunctionPtr(const std::string &)` is not modelled.
  Nothing calls it.
- `getDeclLocation` takes an index argument, and the detector keeps a
  `count` field. Neither is modelled, because neither affects any result.
- Registry.NewFunctionDeclInfo: the source leaves `recursive` uninitialised.
  The model starts it at false, the only reading under which
  `setRecursive` means anything.
- Transform.TransformFrom: the source leaves `branchCountCurrFunc`
  uninitialised before the first function. The model starts it at 0, which
  affects only lines before any function.
- Discovery.Step: requires a current function whenever a scope opens. The
  source dereferences the current function there, and every branch
  statement in C lies inside a function body.
- Registry.VisitCallExpr: every visited node carries a token. The source
  dereferences the token pointer without checking it.
- BlockPass.InsertPrintf: a three-operand branch whose operands 1 and 2
  are not both blocks is skipped. The Rust code would panic on
  `unwrap_right` there.
- BlockPass.GetBlockId: the source counter is a `u32`. The model uses an
  unbounded `nat`, so wrap-around after 2^32 blocks is not modelled.
- Dictionary.AddBranchesToDictionary: its own contract gives only the final
  counter and the branch lines. The identifier each target receives is stated
  by Dictionary.DictionaryKeepsFirstScope and Dictionary.DictionaryTargetId.
- Line numbers are `unsigned` in the source and `nat` here. No overflow
  case is modelled.
- Includes.ReinsertInvertsRemove: requires that the file's last line is not
  an include. Trailing includes are lost even by the corrected
  reinsertion, because no later line triggers their output.
- `VisitCompoundStmt` exits when its parent is not a compound statement.
  This is not modelled, because the model only visits the children of a
  compound statement.
- `MAP_FIND` is modelled as map membership. `std::map` iteration order is
  modelled as ascending keys.

## Findings

| source | as written | input that shows it | evidently intended | confidence | as-written member | corrected member |
|---|---|---|---|---|---|---|
| src/KeyPointsCollector.cpp:86-91 | after writing a run of directives, the line counter is not advanced for the ordinary line written next, so every later directive comes back one line too late | `#include <a.h>`, `int x;`, `#include <b.h>`, `int y;`, `int z;` gives `#include <a.h>`, `int x;`, `int y;`, `#include <b.h>`, `int z;` | the ordinary line also advances the counter, so reinsertion restores the original file | not executed | Includes.AsWrittenMisplacesLaterInclude | Includes.ReinsertInvertsRemove |

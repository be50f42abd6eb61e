# prosemirror-commands: the decision logic of the editing commands

This project models the structural editing commands of `src/commands.js`
(prosemirror-commands) in Dafny, and proves what each command decides.
Commands run in query mode:
- a command that returns false is a function returning `None`;
- a command that applies returns `Some(edit)`, where the `Edit` value names the transaction it would dispatch.

The document tree, resolved positions and selections are small Dafny
values (module `Doc`):
- A `Node` has a type record: `isTextblock`, `isolating`, `isAtom`, `inlineContent`, `code`, selectability and so on. It also has its children and a text length.
- Node sizes follow ProseMirror's token counting: a text node counts its characters, a leaf 1, and any other node 2 plus its content.
- A resolved position is its ancestor path plus the offset in its parent. Depth, index, `before`, `after`, `start`, `end`, `nodeBefore`, `nodeAfter` and `sharedDepth` are computed from that path.

Every schema query the code delegates to prosemirror-model or
prosemirror-transform is an uninterpreted function field of `Doc.Schema`:
- `canReplace`, `canJoin`, `joinPoint`, `liftTarget`, `canSplit`;
- `findWrapping`, `compatibleContent`, `allowsMarkType`, `rangeHasMark`;
- `nodesBetween`, `marks`, content-match edges;
- and the others listed in `doc.dfy`.

The modules:
- `Boundary`: `findCutBefore`/`findCutAfter` and `textblockAt`.
- `Barrier`: `joinMaybeClear` and `deleteBarrier`.
- `Commands`: the remaining commands, as functions, and `defaultBlockAt`.
- `Split`: `splitBlock` as a method, and the marks `splitBlockKeepMarks` keeps.
- `BlockType`: `setBlockType` as a method.
- `Marks`: `markApplies` and `toggleMark` as methods.
- `AutoJoin`: `wrapDispatchForJoin` and `autoJoin`. Range collection, the boundary scan, the sort and the descending joins are each a method or function with its own proof.
- `Chain`: `chainCommands` and the Backspace/Delete chains.

## Model

| member | source | states |
|---|---|---|
| Boundary.SearchCutBefore | src/commands.js:104-107 | the downward loop stops only at a depth with a previous sibling after passing only first-child, non-isolating ancestors, and returns the boundary before the ancestor below it |
| Boundary.SearchCutBeforeFinds | src/commands.js:104-107 | if some depth meets the stop condition, the loop does not fall through to "no cut" |
| Boundary.CutBeforeShape | src/commands.js:105 | the cut found is `before(i + 1)`: its node after is the ancestor at depth i+1, its node before that ancestor's previous sibling |
| Boundary.FindCutBefore | src/commands.js:103-109 | none when the position's parent is isolating; otherwise a boundary satisfying the cut condition, at the position `$pos.before(i + 1)` with the right neighbours |
| Boundary.FindCutBeforeComplete | src/commands.js:103-109 | whenever depth i satisfies the cut condition, `findCutBefore` returns exactly the boundary before ancestor i+1, so it is the deepest such depth |
| Boundary.SearchCutAfter | src/commands.js:183-187 | mirror of `SearchCutBefore` for a next sibling, passing only last-child ancestors |
| Boundary.SearchCutAfterFinds | src/commands.js:183-187 | if some depth meets the stop condition, the loop finds a cut |
| Boundary.CutAfterShape | src/commands.js:185 | the cut found is `after(i + 1)`, with the ancestor as its node before and the next sibling as its node after |
| Boundary.FindCutAfter | src/commands.js:182-189 | none for an isolating parent; otherwise the cut after the deepest ancestor with a next sibling, never crossing an isolating node |
| Boundary.FindCutAfterComplete | src/commands.js:182-189 | whenever depth i satisfies the mirrored cut condition, `findCutAfter` returns the boundary after ancestor i+1 |
| Boundary.EdgeChild | src/commands.js:71 | the child `textblockAt` steps to is the node's first child on the start side and its last child on the end side |
| Boundary.TextblockAt | src/commands.js:70-74 | a textblock is found at once, a node without children ends the walk with false, and otherwise the answer is that of the edge child |
| Boundary.TextblockAtChain | src/commands.js:70-74 | `textblockAt(node, side)` holds iff some node on the first-child (or last-child) chain from `node` is a textblock |
| Barrier.JoinMaybeClear | src/commands.js:400-415 | applies only to compatible neighbours; an empty node before is deleted exactly over its own extent, and that happens exactly when the deletion is allowed; otherwise the nodes are joined when the parent and the join allow; refuses only when neither applies |
| Barrier.RewrapChain | src/commands.js:422-424 | the wrappers are `findWrapping`'s answer, offered exactly when the parent can lose the node after, a wrapping exists, and the node before's content is valid ending with the first wrapper (the node after itself when none is needed) |
| Barrier.DeleteBarrier | src/commands.js:417-446 | refuses when either neighbour is isolating; otherwise tries join-or-clear, then rewrap, then lift; a deletion or join is always `joinMaybeClear`'s edit, a rewrap only follows its failure, and a lift follows both failures and goes only to a target at or above the cut's depth; a refusal means all three failed |
| Commands.DeleteSelection | src/commands.js:9-13 | applies exactly when the selection is not empty |
| Commands.Lift | src/commands.js:238-244 | applies exactly when the schema finds a lift target for the selection's block range, and lifts to it |
| Commands.BackwardAtCut | src/commands.js:43-67 | tries in order: barrier deletion (skipped for an isolating node before), deleting the empty block, which then lands in the textblock before or selects the node before, then deleting a preceding atom sibling, whose end is the cut and the block's start; any other edit is the barrier deletion's, and it refuses exactly when all three tries fail |
| Commands.BackwardFrom | src/commands.js:33-67 | past the guard: with no cut, the lift of the cursor's block exactly when a lift target exists; with a cut, the cut's tries, which never lift |
| Commands.JoinBackward | src/commands.js:27-68 | refuses without a cursor, or (without a view) at a non-zero parent offset; with no cut it lifts exactly when a lift target exists; an isolating parent leaves only the lift; with a cut it never lifts and makes the cut's tries |
| Commands.ForwardAtCut | src/commands.js:131-154 | the mirrored tries after the cut: barrier deletion first, then deleting the empty block and landing in or selecting the node after, then deleting a following atom sibling; any other edit is the barrier deletion's, and it refuses exactly when all three tries fail |
| Commands.JoinForward | src/commands.js:120-155 | refuses without a cursor, or (without a view) before the end of the parent, or when there is no cut after the block; a cursor at the end of its textblock with a cut after the block gets exactly the cut's tries |
| Commands.SelectNodeBackward | src/commands.js:88-101 | refuses for a non-empty selection or mid-text; in a textblock it selects the selectable node just before the cut; elsewhere it selects the node ending at the head, and does so whenever that node is selectable |
| Commands.SelectsBeforeCut | src/commands.js:88-101 | for an empty selection at the start of a textblock with a selectable node before the cut, `selectNodeBackward` applies and selects exactly that node |
| Commands.SelectNodeForward | src/commands.js:167-180 | the mirror: the selectable node just after the cut, or the node starting at the head; in either case it applies whenever that node is selectable |
| Commands.JoinUp | src/commands.js:197-212 | a selected non-textblock node joins upward exactly when `canJoin` allows at its start, and stays selected; any other selection joins exactly at the join point found upward |
| Commands.JoinDown | src/commands.js:219-231 | the mirror at the selection's end, downward, without reselecting |
| Commands.NewlineInCode | src/commands.js:252-257 | applies exactly inside a code block with anchor and head in the same parent |
| Commands.DefaultBlockFrom | src/commands.js:260-263 | the loop from edge i on: the first later edge that is a textblock without required attributes, or none iff no such edge exists |
| Commands.DefaultBlockAt | src/commands.js:259-265 | `defaultBlockAt(match)`: the first edge type that is a textblock without required attributes, or none iff there is no such edge |
| Commands.ExitCode | src/commands.js:274-285 | applies only inside code with a same-parent selection; then it inserts, after the code block, the default block its parent may hold there, and only if the parent can take it; refuses only when no default block exists or fits |
| Commands.CreateParagraphNear | src/commands.js:292-304 | applies exactly when neither end is in inline content and a default textblock fits; inserts it before the selection when it starts its parent and a child follows, after it otherwise |
| Commands.LiftEmptyBlock | src/commands.js:311-325 | needs a cursor in an empty block; splits before it whenever it is not the last child and the split is allowed, and otherwise lifts it; refuses only when no lift target exists |
| Commands.SelectParentNode | src/commands.js:382-389 | selects the deepest ancestor below the document holding both ends of the selection, and refuses exactly when there is none |
| Commands.SelectAll | src/commands.js:395-398 | always applies and selects the whole document |
| Commands.WrapIn | src/commands.js:455-463 | applies exactly when a wrapping in the node type exists for the block range, and wraps it |
| Commands.CursorEnds | src/commands.js:28 | a cursor's range starts and ends at its head |
| Commands.JoinBackwardWithoutCutLifts | src/commands.js:33-41 | with no cut before the cursor's block, `joinBackward` behaves exactly as `lift` |
| Commands.JoinsExcludeDeleteSelection | src/commands.js:9-13 | when `joinBackward` or `joinForward` applies, `deleteSelection` does not (the joins need a cursor, an empty selection) |
| Commands.LiftEmptyBlockFallsBackToLift | src/commands.js:321-324 | when `liftEmptyBlock` does not split, its edit is exactly `lift`'s |
| Commands.ExitCodeNeedsCode | src/commands.js:252-257 | `exitCode` applies only where `newlineInCode` does |
| Commands.DeletedAtomIsSelectable | src/commands.js:62-65 | in a textblock, the atom `joinBackward` deletes starts where `selectNodeBackward` would select when that atom is selectable |
| Commands.SelectedParentHoldsSelection | src/commands.js:382-389 | the node `selectParentNode` selects holds both the selection's start and its end |
| Split.DefaultAfterParent | src/commands.js:346 | `deflt` is none at depth 0, and otherwise the default block of the grandparent's content after the parent, which is a textblock without required attributes |
| Split.ResetAsWritten | src/commands.js:355-356 | the reset condition as written throws exactly when the split is at a block's start and not at its end and there is no default block |
| Split.ShouldReset | src/commands.js:355-357 | the guarded reset happens only at the block's start, not at its end, and only to an existing default textblock other than the block's own type |
| Split.ResetAgrees | src/commands.js:355-357 | the guarded condition equals the written one wherever that evaluates, is false where it throws, and resets only to an existing default type different from the parent's |
| Split.ResetThrowsAtHeadingStart | src/commands.js:346-356 | a concrete state (the start of a heading that the document allows only headings after) where the split is allowed and the written condition throws |
| Split.SplitBlock | src/commands.js:332-362 | a selected block splits at its start exactly when it is not its parent's first content and `canSplit` allows; otherwise it applies iff the selection starts in a block. It deletes first for a text selection, gives the new block the default type at the block's end, prefers a plain split inside, refuses the split only when no allowed variant is left, and resets only by the guarded rule |
| Split.KeptMarks | src/commands.js:369-375 | the kept marks are the stored marks when set, and otherwise the marks at the start unless the selection's end is at its parent's start |
| BlockType.SetBlockType | src/commands.js:470-488 | applies exactly when some node between the selection's ends is a textblock without the target markup that already has the type or whose parent accepts the type in its place; then it retypes the selection range |
| Marks.MarkApplies | src/commands.js:490-501 | true exactly when some range starts in the document node, which allows the mark, or spans a node with inline content that allows it |
| Marks.ActiveMarks | src/commands.js:521 | the stored marks when set (an empty set included), and otherwise the marks at the cursor |
| Marks.FindMarkedRange | src/commands.js:526-530 | the early-stopping loop finds exactly whether some range already has the mark |
| Marks.StepsForRanges | src/commands.js:531-535 | one step per range, over that range, all adding or all removing |
| Marks.ToggleMark | src/commands.js:515-541 | refuses for an empty selection without a cursor or when no range admits the mark; a cursor removes the stored mark iff it is active and adds it otherwise; ranges get one step each, removing iff some range has the mark |
| Marks.ToggleAllOrNothing | src/commands.js:526-535 | the range toggle is all or nothing: every step removes or every step adds, and it removes exactly when some range has the mark |
| AutoJoin.Flatten | src/commands.js:552 | two positions per touched range, in order: range i's start at 2i and its end at 2i+1 |
| AutoJoin.Remapped | src/commands.js:550-551 | every gathered position is replaced by its image under the step |
| AutoJoin.CollectedRangesPaired | src/commands.js:547-553 | the gathered positions come in pairs, one per range touched by any step |
| AutoJoin.CollectRanges | src/commands.js:547-553 | the in-place remap-then-push loop computes the touched ranges, each carried through every later step, with an even count |
| AutoJoin.ScanOf | src/commands.js:560-561 | the scan runs over the deepest ancestor of `from` whose content holds `to`, from the child after `from`; its first boundary is the one before that child, at or after `from`, except inside a text node, where it is `from` |
| AutoJoin.ScanRange | src/commands.js:561-570 | scanning one range keeps what was recorded, adds no duplicate, records only boundaries between same-typed joinable siblings within the range, and records every such boundary |
| AutoJoin.ScanPairSound | src/commands.js:557-571 | after each range, every recorded position is a join point of some range |
| AutoJoin.ScanPairComplete | src/commands.js:557-571 | after each range, every join point of the ranges scanned so far is recorded |
| AutoJoin.FindJoinable | src/commands.js:557-571 | `joinable` holds each position at most once, only join points of the collected ranges, and all of them |
| AutoJoin.SortAscending | src/commands.js:573 | the sort orders the positions ascending and keeps each as often as it occurs, duplicates included |
| AutoJoin.SortedDistinct | src/commands.js:573 | sorting positions recorded once gives strictly increasing positions |
| AutoJoin.JoinDescending | src/commands.js:574-576 | joins happen in strictly descending position order, only at scanned positions; each is allowed after the joins before it, and every position is joined iff it is allowed after exactly the joins above it |
| AutoJoin.WrapDispatchForJoin | src/commands.js:543-579 | a transaction that is not generic gets no joins; otherwise the joins are strictly descending, each allowed when made, and each at a join point of the touched ranges; every join point was tried after exactly the joins above it, and joined exactly when that was allowed |
| AutoJoin.NamesJoinable | src/commands.js:592-595 | with a list of type names, two nodes are joinable exactly when the first one's type name is listed |
| AutoJoin.NamesJoinableBoth | src/commands.js:592-595 | with a list of type names, a joined boundary lies between two nodes whose type names are both listed, though only the first is checked |
| Chain.Chain | src/commands.js:604-610 | the empty chain refuses, and a successful chain dispatches the edit of one of its commands |
| Chain.ChainFirstSuccess | src/commands.js:604-610 | a chain applies iff one of its commands does, and then its edit is that of the first such command, all earlier ones having refused; the empty chain refuses |
| Chain.ChainAppend | src/commands.js:604-610 | chaining two chains runs the second only when the first refuses |
| Chain.ChainCommands | src/commands.js:604-610 | the loop returns the chain's result; every command called before the last refused; on success the last one called applied and no later command was called; on failure all were called |
| Chain.BackspaceDeletesSelection | src/commands.js:612-613 | Backspace and Delete over a non-empty selection delete it |
| Chain.BackspaceMidTextRefuses | src/commands.js:612 | without a view, Backspace with a cursor inside a textblock away from its start refuses |
| Chain.DeleteMidTextRefuses | src/commands.js:613 | without a view, Delete with a cursor inside a textblock away from its end refuses |
| Chain.ChainWithSelectAllApplies | src/commands.js:604-610 | a chain holding `selectAll` always applies |

## Left out

- Dispatching and the transaction: the model says which edit a command makes. It does not build the resulting document.
  - Left out: `tr.lift`, `tr.join`, `tr.split`, `tr.delete`, `deleteRange`, `clearIncompatible`, `ReplaceAroundStep`, `setNodeMarkup`, `insert`, mark steps, `scrollIntoView`. All belong to prosemirror-transform and prosemirror-state, which are not part of this model.
  - Positions in `Edit` values are positions in the state's document, before any mapping.
- `Selection.findFrom` and `NodeSelection.create` after an empty-block deletion: `Doc.Landing` records only the position and direction the new selection is searched from.
- `DeleteAtom` and `DeleteRange`: both stand for `tr.delete` over a range. They are kept apart only to name which try produced them.
- The rewrap offset arithmetic (`joinAt = end + 2 * conn.length`, src/commands.js:431-432): `Rewrap` records the cut and the wrapper types only.
- `view.endOfTextblock`: an uninterpreted boolean input (`Doc.View`).
- Schema internals: content matching, `findWrapping`, `liftTarget`, `canSplit`, `canJoin`, `joinPoint`, `compatibleContent`, `allowsMarkType`, `rangeHasMark`, `nodesBetween`, `marks()` and `hasRequiredAttrs` are uninterpreted functions of `Doc.Schema`.
- Node and mark attributes: `hasMarkup`'s attribute comparison is the `sameAttrs` input of `BlockType.SetBlockType`. Mark attributes are not modelled.
- The keymaps and platform detection (src/commands.js:615-673) are static configuration. Only the Backspace and Delete chains (src/commands.js:612-613) are modelled.
- Chain.Command: `exitCode`, `splitBlock`, `setBlockType` and `toggleMark` cannot be chained in this model. The first has its own precondition and the others are methods. So the Enter chain is not modelled.
- Commands.ExitCode: requires a code block inside the selection's parent chain to sit below the document. In the source, `$head.node(-1)` is undefined there and `exitCode` would throw.
- Split.SplitBlock: `canSplitAfter` answers `canSplit` for the document after the text selection is deleted, because the deletion is not modelled.
  - The reset condition passes `Fragment.from(deflt.create(), $from.parent)`. The model checks only the default block, because `Fragment.from` ignores its second argument.
- AutoJoin.WrapDispatchForJoin: `resolve` stands for `tr.doc.resolve`, and `canJoinNow(done, pos)` for `canJoin` on the document after the joins in `done`. The contract states which positions are joined and in what order, not the joined document.
- `autoJoin` itself (src/commands.js:596) only wraps the dispatch. In query mode it returns what the wrapped command returns.

## Findings

| source | as written | input that shows it | evidently intended | confidence | as-written member | corrected member |
|---|---|---|---|---|---|---|
| src/commands.js:355-356 | after an allowed split at the very start of a block that is not at its end, the condition calls `deflt.create()` even when `defaultBlockAt` found no default type (`deflt` is null), which throws | a cursor at the start of a non-empty heading, in a document whose content after a heading allows only headings, with a heading type that has a required attribute, where the split is allowed | reset only when `deflt` exists: `deflt && $from.parent.type != deflt && …` | not executed | Split.ResetThrowsAtHeadingStart | Split.ResetAgrees |

/** `splitBlock`: which split a selection asks for, with which node type
    after the split, and whether the block before the split is reset to
    the default type; and the marks `splitBlockKeepMarks` carries over. */
module Split {
  import opened Doc
  import opened Commands

  /** What `splitBlock` dispatches. */
  datatype SplitPlan =
    // a selected block is split where it starts
    | SplitSelectedNode(at: nat)
    // a split of the selection's parent block
    | SplitParent(
        deleteFirst: bool,           // a text selection is deleted first
        split: bool,                 // the split itself may be refused
        at: nat,                     // `$from.pos`, mapped through the deletion
        typeAfter: Option<NodeType>, // the type of the node after the split, if set
        resetTo: Option<NodeType>)   // the type the node before is reset to, if any

  /** The outcome of evaluating an expression that may throw. */
  datatype Outcome<T> = Value(v: T) | Throws

  /** `deflt`: the default textblock that may follow the position's parent
      in the grandparent; none for a position in the document itself. */
  function DefaultAfterParent(sc: Schema, from: ResolvedPos): (r: Option<NodeType>)
    requires from.Valid()
    ensures r.Some? ==> from.Depth() > 0 && IsDefaultBlock(sc, r.value)
    ensures from.Depth() > 0 ==>
      r == DefaultBlockAt(sc, sc.edgesAt(from.Ancestor(from.Depth() - 1), from.IndexAfter(from.Depth() - 1)))
  {
    if from.Depth() == 0 then None
    else
      var t := DefaultBlockAt(sc, sc.edgesAt(from.Ancestor(from.Depth() - 1), from.IndexAfter(from.Depth() - 1)));
      if t.Some? then assert IsDefaultBlock(sc, t.value); t else t
  }

  /** The reset condition of `splitBlock` as written: after a split at the
      very start of a block that is not at its end, the block before the
      split becomes a default block when the grandparent allows it. The
      condition builds that default block even when there is none, and
      then throws. */
  function ResetAsWritten(sc: Schema, from: ResolvedPos, atEnd: bool): (r: Outcome<bool>)
    requires from.Valid()
    ensures r.Throws? <==>
      !atEnd && from.parentOffset == 0 && DefaultAfterParent(sc, from).None?
  {
    var deflt := DefaultAfterParent(sc, from);
    if atEnd || from.parentOffset != 0 then Value(false)
    // `$from.parent.type != deflt` holds whenever `deflt` is null
    else if deflt == Some(from.Parent().ntype) then Value(false)
    // `deflt.create()` on null (at depth 0, `$from.node(-1)` is missing first)
    else if deflt.None? then Throws
    else
      var d := from.Depth();
      Value(sc.canReplaceWith(from.Ancestor(d - 1), from.Index(d - 1), from.IndexAfter(d - 1), deflt.value))
  }

  /** The reset condition with the guard on `deflt` the source evidently
      intends: it only resets to a default block that exists. */
  function ShouldReset(sc: Schema, from: ResolvedPos, atEnd: bool): (r: bool)
    requires from.Valid()
    // only at the block's start, not at its end, and only to an existing
    // default textblock that is not the block's own type
    ensures r ==> !atEnd && from.parentOffset == 0 && from.Depth() > 0
    ensures r ==>
      var deflt := DefaultAfterParent(sc, from);
      deflt.Some? && IsDefaultBlock(sc, deflt.value) && deflt.value != from.Parent().ntype
  {
    var deflt := DefaultAfterParent(sc, from);
    && !atEnd && from.parentOffset == 0
    && deflt.Some? && from.Parent().ntype != deflt.value
    && sc.canReplaceWith(from.Ancestor(from.Depth() - 1), from.Index(from.Depth() - 1),
                         from.IndexAfter(from.Depth() - 1), deflt.value)
  }

  /** The guarded condition agrees with the written one wherever that one
      evaluates, and is false exactly where that one throws. */
  lemma ResetAgrees(sc: Schema, from: ResolvedPos, atEnd: bool)
    requires from.Valid()
    ensures ResetAsWritten(sc, from, atEnd).Value? ==>
      ResetAsWritten(sc, from, atEnd).v == ShouldReset(sc, from, atEnd)
    ensures ResetAsWritten(sc, from, atEnd).Throws? ==> !ShouldReset(sc, from, atEnd)
    ensures ShouldReset(sc, from, atEnd) ==>
      var deflt := DefaultAfterParent(sc, from);
      deflt.Some? && IsDefaultBlock(sc, deflt.value) && deflt.value != from.Parent().ntype
  {
  }

  /** A heading type: a textblock whose level attribute is required. */
  function Heading(): NodeType {
    NodeType("heading", false, false, true, true, true, false, false, false, false)
  }

  /** A document holding one heading with three characters of text; the
      document's content allows headings only. */
  function HeadingDoc(): Node {
    var text := NodeType("text", true, true, false, false, false, true, false, false, false);
    var docType := NodeType("doc", false, false, true, false, false, false, false, false, false);
    Node(docType, [Node(Heading(), [Node(text, [], 3)], 0)], 0)
  }

  /** The cursor at the start of the heading's text. */
  function HeadingStart(): ResolvedPos {
    ResolvedPos([Level(HeadingDoc(), 0), Level(HeadingDoc().content[0], 0)], 0)
  }

  /** A schema in which, after a heading, only another heading may follow,
      and in which splitting is allowed. */
  function HeadingSchema(): Schema {
    Schema(
      (n: Node, i: nat, j: nat) => true,
      (n: Node, i: nat, j: nat, ty: NodeType) => true,
      (a: NodeType, b: NodeType) => true,
      (n: Node, p: nat) => true,
      (n: Node, p: nat, dir: int) => None,
      (a: ResolvedPos, b: ResolvedPos) => None,
      (a: ResolvedPos) => None,
      (n: Node, ty: NodeType) => None,
      (n: Node, ty: NodeType) => true,
      (n: Node, p: nat, ty: Option<NodeType>) => true,
      (n: Node, i: nat) => [Heading()],
      (ty: NodeType) => ty == Heading(),
      (a: ResolvedPos, b: ResolvedPos, ty: NodeType) => false,
      (ty: NodeType, m: MarkType) => true,
      (n: Node, a: nat, b: nat, m: MarkType) => false,
      (n: Node, a: nat, b: nat) => [],
      (p: ResolvedPos) => {})
  }

  lemma HeadingStartValid()
    ensures HeadingStart().Valid() && HeadingStart().Depth() == 1
    ensures HeadingStart().Parent() == HeadingDoc().content[0]
    ensures ContentSize(HeadingStart().Parent().content) == 3
  {
    var p := HeadingStart();
    var h := HeadingDoc().content[0];
    assert h.content[..0] == [];
    assert h.content[..1] == h.content;
    assert p.LinkedAt(1);
  }

  /** The input that shows the missing guard: a cursor at the start of a
      heading that is not empty, where the document offers no default
      textblock after the heading. The split is allowed there, so the
      reset condition is evaluated, and it throws. */
  lemma ResetThrowsAtHeadingStart()
    ensures HeadingStart().Valid()
    ensures HeadingStart().Parent().ntype.isBlock && HeadingStart().parentOffset == 0
    ensures HeadingStart().parentOffset < ContentSize(HeadingStart().Parent().content)
    ensures HeadingSchema().canSplit(HeadingDoc(), HeadingStart().Pos(), None)
    ensures ResetAsWritten(HeadingSchema(), HeadingStart(), false).Throws?
  {
    HeadingStartValid();
    var sc := HeadingSchema();
    var from := HeadingStart();
    var edges := sc.edgesAt(from.Ancestor(0), from.IndexAfter(0));
    assert edges == [Heading()];
    assert !IsDefaultBlock(sc, edges[0]);
    assert DefaultAfterParent(sc, from).None?;
  }

  /** `splitBlock`: a selected block splits at its start when it is not
      its parent's first content and the schema allows; any other
      selection in a block splits that block after deleting a text
      selection. The node after the split gets the default type when the
      split is at the block's end, or when a plain split is refused and a
      split into the default type is allowed. `canSplitAfter(types)` is
      the schema's answer for the split in the document after the
      deletion. */
  method SplitBlock(sc: Schema, st: State, canSplitAfter: Option<NodeType> -> bool) returns (r: Option<SplitPlan>)
    requires st.Valid()
    // a selected block: a split at its position, when not at the start
    ensures st.selection.kind.NodeSel? && st.selection.kind.node.ntype.isBlock ==>
      var from := st.selection.From();
      && (r.Some? <==> from.parentOffset > 0 && sc.canSplit(st.doc, from.Pos(), None))
      && (r.Some? ==> r.value == SplitSelectedNode(from.Pos()))
    // any other selection applies whenever its start lies in a block
    ensures !(st.selection.kind.NodeSel? && st.selection.kind.node.ntype.isBlock) ==>
      (r.Some? <==> st.selection.From().Parent().ntype.isBlock) && (r.Some? ==> r.value.SplitParent?)
    ensures r.Some? && r.value.SplitParent? ==>
      var from, to := st.selection.From(), st.selection.To();
      var atEnd := to.parentOffset == ContentSize(to.Parent().content);
      var deflt := DefaultAfterParent(sc, from);
      var plan := r.value;
      && plan.at == from.Pos()
      && (plan.deleteFirst <==> st.selection.kind.TextSel?)
      // the chosen type is the default block, if any
      && (plan.typeAfter.Some? ==> plan.typeAfter == deflt)
      // at the block's end, the new block gets the default type when there is one
      && (atEnd && deflt.Some? ==> plan.typeAfter == deflt)
      // a split is made only where the schema allows it with the chosen type
      && (plan.split ==> canSplitAfter(plan.typeAfter))
      // inside the block, a plain split is preferred when allowed
      && (!atEnd && canSplitAfter(None) ==> plan.split && plan.typeAfter.None?)
      // a refusal means no allowed split was left untried
      && (!plan.split ==> !canSplitAfter(deflt) && ((atEnd && deflt.Some?) || !canSplitAfter(None)))
      // the block before the split is reset only to the default type, by the guarded rule
      && (plan.resetTo.Some? <==> plan.split && ShouldReset(sc, from, atEnd))
      && (plan.resetTo.Some? ==> plan.resetTo == deflt)
  {
    var from, to := st.selection.From(), st.selection.To();
    if st.selection.kind.NodeSel? && st.selection.kind.node.ntype.isBlock {
      if from.parentOffset == 0 || !sc.canSplit(st.doc, from.Pos(), None) {
        return None;
      }
      return Some(SplitSelectedNode(from.Pos()));
    }
    if !from.Parent().ntype.isBlock {
      return None;
    }
    var atEnd := to.parentOffset == ContentSize(to.Parent().content);
    var deleteFirst := st.selection.kind.TextSel?;
    var deflt := DefaultAfterParent(sc, from);
    var types: Option<NodeType> := if atEnd && deflt.Some? then deflt else None;
    var can := canSplitAfter(types);
    if types.None? && !can && canSplitAfter(deflt) {
      types := deflt;
      can := true;
    }
    var resetTo: Option<NodeType> := None;
    if can && ShouldReset(sc, from, atEnd) {
      resetTo := deflt;
    }
    return Some(SplitParent(deleteFirst, can, from.Pos(), types, resetTo));
  }

  /** `splitBlockKeepMarks`: the marks the split keeps active. Stored marks
      win (an empty stored set included); otherwise the marks at the
      selection's start, unless the selection's end is at its parent's
      start. */
  function KeptMarks(sc: Schema, st: State): (r: Option<set<MarkType>>)
    requires st.Valid()
    ensures st.storedMarks.Some? ==> r == st.storedMarks
    ensures st.storedMarks.None? ==>
      (r.Some? <==> st.selection.To().parentOffset > 0) &&
      (r.Some? ==> r.value == sc.marksAt(st.selection.From()))
  {
    if st.storedMarks.Some? then st.storedMarks
    else if st.selection.To().parentOffset != 0 then Some(sc.marksAt(st.selection.From()))
    else None
  }
}

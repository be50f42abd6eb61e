/** The editing commands in query mode: each returns `None` when the
    command does not apply (it returns false) and otherwise the edit it
    would dispatch. */
module Commands {
  import opened Doc
  import opened Boundary
  import opened Barrier

  /** `deleteSelection`: applies exactly when the selection is not empty. */
  function DeleteSelection(st: State): (r: Option<Edit>)
    requires st.Valid()
    ensures r.Some? <==> !st.selection.Empty()
    ensures r.Some? ==> r.value == Edit.DeleteSelection
  {
    if st.selection.Empty() then None else Some(Edit.DeleteSelection)
  }

  /** Without a view, the cursor is at the start of its textblock when its
      offset in the parent is zero; with one, the view's answer decides. */
  predicate AtStartOfTextblock(c: ResolvedPos, view: View)
    requires c.Valid()
  {
    match view
    case NoView => c.parentOffset == 0
    case WithView(atStart, _) => atStart
  }

  /** The mirror test: the offset is the parent's content size. */
  predicate AtEndOfTextblock(c: ResolvedPos, view: View)
    requires c.Valid()
  {
    match view
    case NoView => c.parentOffset >= ContentSize(c.Parent().content)
    case WithView(_, atEnd) => atEnd
  }

  /** `lift`: lift the block range of the selection to the target depth
      the schema allows, if any. */
  function Lift(sc: Schema, st: State): (r: Option<Edit>)
    requires st.Valid()
    ensures r.Some? <==> sc.liftTarget(st.selection.From(), st.selection.To()).Some?
    ensures r.Some? ==>
      r.value == LiftRange(st.selection.From(), st.selection.To(),
                           sc.liftTarget(st.selection.From(), st.selection.To()).value)
  {
    match sc.liftTarget(st.selection.From(), st.selection.To())
    case Some(target) => Some(LiftRange(st.selection.From(), st.selection.To(), target))
    case None => None
  }

  /** The second try of `joinBackward` applies: the cursor's block is
      empty and the node before the cut ends in a textblock or can be
      selected. */
  predicate EmptyBlockBeforeApplies(h: ResolvedPos, cut: ResolvedPos)
    requires h.Valid() && FindCutBefore(h) == Some(cut)
  {
    var before := cut.NodeBefore().value;
    ContentSize(h.Parent().content) == 0 && (TextblockAt(before, AtEnd) || IsSelectable(before))
  }

  /** The third try applies: the node before the cut is an atom and a
      sibling of the cursor's block. */
  predicate AtomBeforeApplies(h: ResolvedPos, cut: ResolvedPos)
    requires h.Valid() && FindCutBefore(h) == Some(cut)
  {
    cut.NodeBefore().value.ntype.isAtom && cut.Depth() + 1 == h.Depth()
  }

  /** `e` deletes the cursor's empty block `h` next to the node before the
      cut, which is a textblock ending there or a selectable node; the
      selection lands at the end of that textblock, or on that node. */
  predicate DeletesEmptyBlockBefore(h: ResolvedPos, cut: ResolvedPos, e: Edit)
    requires h.Valid() && FindCutBefore(h) == Some(cut)
  {
    var before := cut.NodeBefore().value;
    && e.DeleteBlockAndSelect?
    && EmptyBlockBeforeApplies(h, cut)
    && e.start == h.Before(h.Depth()) && e.end == h.After(h.Depth())
    && (TextblockAt(before, AtEnd) ==> e.landing == TextNear(cut.Pos(), -1))
    && (!TextblockAt(before, AtEnd) ==> e.landing.NodeAt? && e.landing.pos + NodeSize(before) == cut.Pos())
  }

  /** `e` deletes the atom just before the cut, a sibling of the cursor's
      block, when deleting the block itself was not possible. */
  predicate DeletesAtomBefore(h: ResolvedPos, cut: ResolvedPos, e: Edit)
    requires h.Valid() && FindCutBefore(h) == Some(cut)
  {
    var before := cut.NodeBefore().value;
    && e.DeleteAtom?
    && !EmptyBlockBeforeApplies(h, cut) && AtomBeforeApplies(h, cut)
    && e.end == cut.Pos() == h.Before(h.Depth())
    && e.start + NodeSize(before) == e.end
  }

  /** The tries of `joinBackward` once a cut before the cursor's block is
      found: the barrier deletion (unless the node before is isolating),
      then deleting the empty block next to a node that can take the
      selection, then deleting an atom sibling right before the block. */
  function BackwardAtCut(sc: Schema, h: ResolvedPos, cut: ResolvedPos): (r: Option<Edit>)
    requires h.Valid() && FindCutBefore(h) == Some(cut)
    ensures var before := cut.NodeBefore().value;
      !before.ntype.isolating && DeleteBarrier(sc, cut).Some? ==> r == DeleteBarrier(sc, cut)
    ensures r.Some? && (r.value.DeleteBlockAndSelect? || r.value.DeleteAtom?) ==>
      cut.NodeBefore().value.ntype.isolating || DeleteBarrier(sc, cut).None?
    // any other edit is the barrier deletion's
    ensures r.Some? && !(r.value.DeleteBlockAndSelect? || r.value.DeleteAtom?) ==>
      !cut.NodeBefore().value.ntype.isolating && r == DeleteBarrier(sc, cut)
    // refusal means all three tries failed
    ensures r.None? <==>
      && (cut.NodeBefore().value.ntype.isolating || DeleteBarrier(sc, cut).None?)
      && !EmptyBlockBeforeApplies(h, cut) && !AtomBeforeApplies(h, cut)
    ensures r.Some? && r.value.DeleteBlockAndSelect? ==> DeletesEmptyBlockBefore(h, cut, r.value)
    ensures r.Some? && r.value.DeleteAtom? ==> DeletesAtomBefore(h, cut, r.value)
    ensures r.Some? ==>
      r.value.DeleteBlockAndSelect? || r.value.DeleteAtom? ||
      r.value.DeleteRange? || r.value.ClearAndJoin? || r.value.Rewrap? || r.value.LiftAfter?
  {
    var before := cut.NodeBefore().value;
    if !before.ntype.isolating && DeleteBarrier(sc, cut).Some? then DeleteBarrier(sc, cut)
    else if EmptyBlockBeforeApplies(h, cut) then
      NodeBeforeFits(cut);
      var landing := if TextblockAt(before, AtEnd) then TextNear(cut.Pos(), -1)
                     else NodeAt(cut.Pos() - NodeSize(before));
      Some(DeleteBlockAndSelect(h.Before(h.Depth()), h.After(h.Depth()), landing))
    else if AtomBeforeApplies(h, cut) then
      NodeBeforeFits(cut);
      Some(DeleteAtom(cut.Pos() - NodeSize(before), cut.Pos()))
    else None
  }

  /** What `joinBackward` does once its guard passes, for the cursor `h`:
      lift the block when no cut precedes it, and otherwise make the tries
      of `BackwardAtCut`. */
  function BackwardFrom(sc: Schema, h: ResolvedPos): (r: Option<Edit>)
    requires h.Valid()
    // with no cut, it lifts the cursor's block exactly when the schema allows
    ensures FindCutBefore(h).None? ==>
      (r.Some? <==> sc.liftTarget(h, h).Some?) &&
      (r.Some? ==> r.value == LiftRange(h, h, sc.liftTarget(h, h).value))
    // an isolating parent leaves no cut: at most the lift remains
    ensures r.Some? && h.Parent().ntype.isolating ==> r.value.LiftRange?
    // with a cut, it never lifts
    ensures FindCutBefore(h).Some? ==>
      r == BackwardAtCut(sc, h, FindCutBefore(h).value) && (r.Some? ==> !r.value.LiftRange?)
  {
    match FindCutBefore(h)
    case None =>
      (match sc.liftTarget(h, h)
       case Some(target) => Some(LiftRange(h, h, target))
       case None => None)
    case Some(cut) => BackwardAtCut(sc, h, cut)
  }

  /** `joinBackward`: for a cursor at the start of its textblock, lift the
      block when no cut precedes it, and otherwise make the tries of
      `BackwardAtCut`. */
  function JoinBackward(sc: Schema, st: State, view: View): (r: Option<Edit>)
    requires st.Valid()
    // the guard: a cursor at the start of its textblock
    ensures st.selection.Cursor().None? ==> r.None?
    ensures view.NoView? && st.selection.head.parentOffset > 0 ==> r.None?
    ensures r.Some? ==> st.selection.Cursor().Some? && AtStartOfTextblock(st.selection.head, view)
    // past the guard, the lift or the tries at the cut
    ensures st.selection.Cursor().Some? && AtStartOfTextblock(st.selection.head, view) ==>
      r == BackwardFrom(sc, st.selection.head)
    // with no cut, it lifts the cursor's block exactly when the schema allows
    ensures st.selection.Cursor().Some? && AtStartOfTextblock(st.selection.head, view) &&
            FindCutBefore(st.selection.head).None? ==>
      var h := st.selection.head;
      (r.Some? <==> sc.liftTarget(h, h).Some?) &&
      (r.Some? ==> r.value == LiftRange(h, h, sc.liftTarget(h, h).value))
    // an isolating parent leaves no cut: at most the lift remains
    ensures r.Some? && st.selection.head.Parent().ntype.isolating ==> r.value.LiftRange?
    // with a cut, it never lifts
    ensures r.Some? && FindCutBefore(st.selection.head).Some? ==>
      !r.value.LiftRange? && r == BackwardAtCut(sc, st.selection.head, FindCutBefore(st.selection.head).value)
  {
    var cursor := st.selection.Cursor();
    if cursor.None? || !AtStartOfTextblock(cursor.value, view) then None
    else BackwardFrom(sc, cursor.value)
  }

  /** The mirror of `EmptyBlockBeforeApplies`, with the node after the cut
      starting with a textblock. */
  predicate EmptyBlockAfterApplies(h: ResolvedPos, cut: ResolvedPos)
    requires h.Valid() && FindCutAfter(h) == Some(cut)
  {
    var after := cut.NodeAfter().value;
    ContentSize(h.Parent().content) == 0 && (TextblockAt(after, AtStart) || IsSelectable(after))
  }

  /** The mirror of `AtomBeforeApplies`. */
  predicate AtomAfterApplies(h: ResolvedPos, cut: ResolvedPos)
    requires h.Valid() && FindCutAfter(h) == Some(cut)
  {
    cut.NodeAfter().value.ntype.isAtom && cut.Depth() + 1 == h.Depth()
  }

  /** The mirror of `DeletesEmptyBlockBefore`, with the node after the cut. */
  predicate DeletesEmptyBlockAfter(h: ResolvedPos, cut: ResolvedPos, e: Edit)
    requires h.Valid() && FindCutAfter(h) == Some(cut)
  {
    var after := cut.NodeAfter().value;
    && e.DeleteBlockAndSelect?
    && EmptyBlockAfterApplies(h, cut)
    && e.start == h.Before(h.Depth()) && e.end == h.After(h.Depth())
    && e.landing == (if TextblockAt(after, AtStart) then TextNear(cut.Pos(), 1) else NodeAt(cut.Pos()))
  }

  /** The mirror of `DeletesAtomBefore`: the atom just after the cut. */
  predicate DeletesAtomAfter(h: ResolvedPos, cut: ResolvedPos, e: Edit)
    requires h.Valid() && FindCutAfter(h) == Some(cut)
  {
    var after := cut.NodeAfter().value;
    && e.DeleteAtom?
    && !EmptyBlockAfterApplies(h, cut) && AtomAfterApplies(h, cut)
    && e.start == cut.Pos() == h.After(h.Depth())
    && e.end == e.start + NodeSize(after)
  }

  /** The tries of `joinForward` at the cut after the cursor's block: the
      barrier deletion, then deleting the empty block next to a node that
      can take the selection, then deleting an atom sibling right after. */
  function ForwardAtCut(sc: Schema, h: ResolvedPos, cut: ResolvedPos): (r: Option<Edit>)
    requires h.Valid() && FindCutAfter(h) == Some(cut)
    ensures DeleteBarrier(sc, cut).Some? ==> r == DeleteBarrier(sc, cut)
    ensures r.Some? && (r.value.DeleteBlockAndSelect? || r.value.DeleteAtom?) ==> DeleteBarrier(sc, cut).None?
    // any other edit is the barrier deletion's
    ensures r.Some? && !(r.value.DeleteBlockAndSelect? || r.value.DeleteAtom?) ==> r == DeleteBarrier(sc, cut)
    // refusal means all three tries failed
    ensures r.None? <==>
      DeleteBarrier(sc, cut).None? && !EmptyBlockAfterApplies(h, cut) && !AtomAfterApplies(h, cut)
    ensures r.Some? && r.value.DeleteBlockAndSelect? ==> DeletesEmptyBlockAfter(h, cut, r.value)
    ensures r.Some? && r.value.DeleteAtom? ==> DeletesAtomAfter(h, cut, r.value)
    ensures r.Some? ==>
      r.value.DeleteBlockAndSelect? || r.value.DeleteAtom? ||
      r.value.DeleteRange? || r.value.ClearAndJoin? || r.value.Rewrap? || r.value.LiftAfter?
  {
    var after := cut.NodeAfter().value;
    if DeleteBarrier(sc, cut).Some? then DeleteBarrier(sc, cut)
    else if EmptyBlockAfterApplies(h, cut) then
      var landing := if TextblockAt(after, AtStart) then TextNear(cut.Pos(), 1) else NodeAt(cut.Pos());
      Some(DeleteBlockAndSelect(h.Before(h.Depth()), h.After(h.Depth()), landing))
    else if AtomAfterApplies(h, cut) then
      Some(DeleteAtom(cut.Pos(), cut.Pos() + NodeSize(after)))
    else None
  }

  /** `joinForward`: for a cursor at the end of its textblock, the tries of
      `ForwardAtCut`; with no cut after the block there is nothing to do. */
  function JoinForward(sc: Schema, st: State, view: View): (r: Option<Edit>)
    requires st.Valid()
    ensures st.selection.Cursor().None? ==> r.None?
    ensures (view.NoView? && st.selection.head.parentOffset < ContentSize(st.selection.head.Parent().content))
      ==> r.None?
    ensures r.Some? ==> st.selection.Cursor().Some? && AtEndOfTextblock(st.selection.head, view)
    ensures FindCutAfter(st.selection.head).None? ==> r.None?
    ensures r.Some? ==> r == ForwardAtCut(sc, st.selection.head, FindCutAfter(st.selection.head).value)
    // past the guard, with a cut, exactly the tries at that cut
    ensures st.selection.Cursor().Some? && AtEndOfTextblock(st.selection.head, view) &&
            FindCutAfter(st.selection.head).Some? ==>
      r == ForwardAtCut(sc, st.selection.head, FindCutAfter(st.selection.head).value)
  {
    match st.selection.Cursor()
    case None => None
    case Some(h) =>
      if !AtEndOfTextblock(h, view) then None
      else match FindCutAfter(h)
        case None => None
        case Some(cut) => ForwardAtCut(sc, h, cut)
  }

  /** `selectNodeBackward`: with an empty selection, select the node
      before the cursor, or, for a cursor at the start of a textblock, the
      node before the cut preceding that block, if it is selectable. */
  function SelectNodeBackward(st: State, view: View): (r: Option<Edit>)
    requires st.Valid()
    ensures !st.selection.Empty() ==> r.None?
    ensures (view.NoView? && st.selection.head.Parent().ntype.isTextblock && st.selection.head.parentOffset > 0)
      ==> r.None?
    // in a textblock: the selectable node just before the cut, which is the
    // previous sibling of the ancestor the cut precedes
    ensures r.Some? && st.selection.head.Parent().ntype.isTextblock ==>
      var h := st.selection.head;
      && AtStartOfTextblock(h, view) && FindCutBefore(h).Some?
      && var cut := FindCutBefore(h).value;
      && IsSelectable(cut.NodeBefore().value)
      && r.value.SelectNode? && r.value.at + NodeSize(cut.NodeBefore().value) == cut.Pos()
    // elsewhere: the selectable node ending at the head
    ensures r.Some? && !st.selection.head.Parent().ntype.isTextblock ==>
      var h := st.selection.head;
      && h.NodeBefore().Some? && IsSelectable(h.NodeBefore().value)
      && r.value.SelectNode? && r.value.at + NodeSize(h.NodeBefore().value) == h.Pos()
    // and it applies whenever that node is selectable
    ensures && st.selection.Empty() && !st.selection.head.Parent().ntype.isTextblock
            && st.selection.head.NodeBefore().Some? && IsSelectable(st.selection.head.NodeBefore().value)
      ==> r.Some?
  {
    var h := st.selection.head;
    if !st.selection.Empty() then None
    else
      var cut := if h.Parent().ntype.isTextblock then
                   (if AtStartOfTextblock(h, view) then FindCutBefore(h) else None)
                 else Some(h);
      match cut
      case None => None
      case Some(c) =>
        match c.NodeBefore()
        case None => None
        case Some(node) =>
          if !IsSelectable(node) then None
          else
            NodeBeforeFits(c);
            Some(SelectNode(c.Pos() - NodeSize(node)))
  }

  /** `selectNodeForward`: the mirror of `selectNodeBackward`. */
  function SelectNodeForward(st: State, view: View): (r: Option<Edit>)
    requires st.Valid()
    ensures !st.selection.Empty() ==> r.None?
    ensures (view.NoView? && st.selection.head.Parent().ntype.isTextblock &&
             st.selection.head.parentOffset < ContentSize(st.selection.head.Parent().content))
      ==> r.None?
    ensures r.Some? && st.selection.head.Parent().ntype.isTextblock ==>
      var h := st.selection.head;
      && AtEndOfTextblock(h, view) && FindCutAfter(h).Some?
      && var cut := FindCutAfter(h).value;
      && IsSelectable(cut.NodeAfter().value)
      && r.value == SelectNode(cut.Pos())
    ensures r.Some? && !st.selection.head.Parent().ntype.isTextblock ==>
      var h := st.selection.head;
      h.NodeAfter().Some? && IsSelectable(h.NodeAfter().value) && r.value == SelectNode(h.Pos())
    ensures && st.selection.Empty() && !st.selection.head.Parent().ntype.isTextblock
            && st.selection.head.NodeAfter().Some? && IsSelectable(st.selection.head.NodeAfter().value)
      ==> r.Some?
    ensures (&& st.selection.Empty() && st.selection.head.Parent().ntype.isTextblock
             && AtEndOfTextblock(st.selection.head, view) && FindCutAfter(st.selection.head).Some?
             && IsSelectable(FindCutAfter(st.selection.head).value.NodeAfter().value))
      ==> r.Some?
  {
    var h := st.selection.head;
    if !st.selection.Empty() then None
    else
      var cut := if h.Parent().ntype.isTextblock then
                   (if AtEndOfTextblock(h, view) then FindCutAfter(h) else None)
                 else Some(h);
      match cut
      case None => None
      case Some(c) =>
        match c.NodeAfter()
        case None => None
        case Some(node) => if !IsSelectable(node) then None else Some(SelectNode(c.Pos()))
  }

  /** `joinUp`: a selected non-textblock node joins with the sibling above
      when `canJoin` allows it there, and stays selected; any other
      selection joins at the join point `joinPoint` finds upwards. */
  function JoinUp(sc: Schema, st: State): (r: Option<Edit>)
    requires st.Valid()
    ensures r.Some? ==> r.value.Join? && (r.value.reselect <==> st.selection.kind.NodeSel?)
    ensures st.selection.kind.NodeSel? ==>
      var from := st.selection.From().Pos();
      (r.Some? <==> !st.selection.kind.node.ntype.isTextblock && sc.canJoin(st.doc, from)) &&
      (r.Some? ==> r.value.at == from)
    ensures !st.selection.kind.NodeSel? ==>
      var point := sc.joinPoint(st.doc, st.selection.From().Pos(), -1);
      (r.Some? <==> point.Some?) && (r.Some? ==> r.value.at == point.value)
  {
    match st.selection.kind
    case NodeSel(node) =>
      if node.ntype.isTextblock || !sc.canJoin(st.doc, st.selection.From().Pos()) then None
      else Some(Join(st.selection.From().Pos(), true))
    case _ =>
      match sc.joinPoint(st.doc, st.selection.From().Pos(), -1)
      case None => None
      case Some(point) => Some(Join(point, false))
  }

  /** `joinDown`: the mirror of `joinUp` with the sibling below, at the
      selection's end; the selection is left to the transaction. */
  function JoinDown(sc: Schema, st: State): (r: Option<Edit>)
    requires st.Valid()
    ensures r.Some? ==> r.value.Join? && !r.value.reselect
    ensures st.selection.kind.NodeSel? ==>
      var to := st.selection.To().Pos();
      (r.Some? <==> !st.selection.kind.node.ntype.isTextblock && sc.canJoin(st.doc, to)) &&
      (r.Some? ==> r.value.at == to)
    ensures !st.selection.kind.NodeSel? ==>
      var point := sc.joinPoint(st.doc, st.selection.To().Pos(), 1);
      (r.Some? <==> point.Some?) && (r.Some? ==> r.value.at == point.value)
  {
    match st.selection.kind
    case NodeSel(node) =>
      if node.ntype.isTextblock || !sc.canJoin(st.doc, st.selection.To().Pos()) then None
      else Some(Join(st.selection.To().Pos(), false))
    case _ =>
      match sc.joinPoint(st.doc, st.selection.To().Pos(), 1)
      case None => None
      case Some(point) => Some(Join(point, false))
  }

  /** `newlineInCode`: inside a code node, with anchor and head in the same
      node, the selection is replaced by a newline. */
  function NewlineInCode(st: State): (r: Option<Edit>)
    requires st.Valid()
    ensures r.Some? <==> st.selection.head.Parent().ntype.code && st.selection.head.SameParent(st.selection.anchor)
    ensures r.Some? ==> r.value == InsertNewline
  {
    var h := st.selection.head;
    if !h.Parent().ntype.code || !h.SameParent(st.selection.anchor) then None else Some(InsertNewline)
  }

  /** A type `defaultBlockAt` accepts: a textblock with no required attributes. */
  predicate IsDefaultBlock(sc: Schema, t: NodeType) {
    t.isTextblock && !sc.hasRequiredAttrs(t)
  }

  /** The loop of `defaultBlockAt` from edge `i` on. */
  function DefaultBlockFrom(sc: Schema, edges: seq<NodeType>, i: nat): (r: Option<NodeType>)
    requires i <= |edges|
    ensures r.None? <==> forall k :: i <= k < |edges| ==> !IsDefaultBlock(sc, edges[k])
    ensures r.Some? ==>
      exists j :: i <= j < |edges| && edges[j] == r.value && IsDefaultBlock(sc, edges[j]) &&
        forall k :: i <= k < j ==> !IsDefaultBlock(sc, edges[k])
    decreases |edges| - i
  {
    if i == |edges| then None
    else if IsDefaultBlock(sc, edges[i]) then Some(edges[i])
    else DefaultBlockFrom(sc, edges, i + 1)
  }

  /** `defaultBlockAt(match)`: the first edge type of a content match that
      is a textblock without required attributes, if any. */
  function DefaultBlockAt(sc: Schema, edges: seq<NodeType>): (r: Option<NodeType>)
    ensures r.None? <==> forall k :: 0 <= k < |edges| ==> !IsDefaultBlock(sc, edges[k])
    ensures r.Some? ==>
      exists j :: 0 <= j < |edges| && edges[j] == r.value && IsDefaultBlock(sc, edges[j]) &&
        forall k :: 0 <= k < j ==> !IsDefaultBlock(sc, edges[k])
  {
    DefaultBlockFrom(sc, edges, 0)
  }

  /** `exitCode`: from inside a code node, insert the default block that
      may follow it in its parent, after it. A code node must sit below the
      document for the command to look at the grandparent. */
  function ExitCode(sc: Schema, st: State): (r: Option<Edit>)
    requires st.Valid()
    requires st.selection.head.Parent().ntype.code && st.selection.head.SameParent(st.selection.anchor)
      ==> st.selection.head.Depth() > 0
    ensures r.Some? ==> st.selection.head.Parent().ntype.code && st.selection.head.SameParent(st.selection.anchor)
    ensures r.Some? ==>
      var h := st.selection.head;
      var above := h.Ancestor(h.Depth() - 1);
      var after := h.IndexAfter(h.Depth() - 1);
      && r.value.InsertBlock? && r.value.at == h.After(h.Depth())
      && IsDefaultBlock(sc, r.value.blockType)
      && DefaultBlockAt(sc, sc.edgesAt(above, after)) == Some(r.value.blockType)
      && sc.canReplaceWith(above, after, after, r.value.blockType)
    ensures r.None? && st.selection.head.Parent().ntype.code && st.selection.head.SameParent(st.selection.anchor) ==>
      var h := st.selection.head;
      var above := h.Ancestor(h.Depth() - 1);
      var after := h.IndexAfter(h.Depth() - 1);
      var t := DefaultBlockAt(sc, sc.edgesAt(above, after));
      t.None? || !sc.canReplaceWith(above, after, after, t.value)
  {
    var h := st.selection.head;
    if !h.Parent().ntype.code || !h.SameParent(st.selection.anchor) then None
    else
      var above := h.Ancestor(h.Depth() - 1);
      var after := h.IndexAfter(h.Depth() - 1);
      match DefaultBlockAt(sc, sc.edgesAt(above, after))
      // a missing type never fits: `canReplaceWith` finds no edge for it
      case None => None
      case Some(t) =>
        if !sc.canReplaceWith(above, after, after, t) then None
        else Some(InsertBlock(h.After(h.Depth()), t))
  }

  /** `createParagraphNear`: when neither end of the selection has inline
      content (a block is selected), insert the default textblock before
      the selection when it starts its parent's content and something
      follows, and after it otherwise. */
  function CreateParagraphNear(sc: Schema, st: State): (r: Option<Edit>)
    requires st.Valid()
    ensures var from, to := st.selection.From(), st.selection.To();
      var t := DefaultBlockAt(sc, sc.edgesAt(from.Parent(), to.IndexAfter(to.Depth())));
      r.Some? <==> !from.Parent().ntype.inlineContent && !to.Parent().ntype.inlineContent && t.Some?
    ensures r.Some? ==>
      var from, to := st.selection.From(), st.selection.To();
      && r.value.InsertBlock? && r.value.blockType.isTextblock
      && DefaultBlockAt(sc, sc.edgesAt(from.Parent(), to.IndexAfter(to.Depth()))) == Some(r.value.blockType)
      && (r.value.at == from.Pos() <==>
            (from.parentOffset == 0 && to.Index(to.Depth()) < |to.Parent().content|) || from.Pos() == to.Pos())
      && (r.value.at == from.Pos() || r.value.at == to.Pos())
  {
    var from, to := st.selection.From(), st.selection.To();
    if from.Parent().ntype.inlineContent || to.Parent().ntype.inlineContent then None
    else match DefaultBlockAt(sc, sc.edgesAt(from.Parent(), to.IndexAfter(to.Depth())))
      case None => None
      case Some(t) =>
        if !t.isTextblock then None
        else
          var side := if from.parentOffset == 0 && to.Index(to.Depth()) < |to.Parent().content| then from else to;
          Some(InsertBlock(side.Pos(), t))
  }

  /** `liftEmptyBlock`: for a cursor in an empty textblock, split the
      grandparent before the block when the block is not its parent's last
      child (and the split is allowed), and otherwise lift the block. */
  function LiftEmptyBlock(sc: Schema, st: State): (r: Option<Edit>)
    requires st.Valid()
    ensures r.Some? ==> st.selection.Cursor().Some? && ContentSize(st.selection.head.Parent().content) == 0
    ensures r.Some? && r.value.Split? ==>
      var c := st.selection.head;
      && c.Depth() > 1 && c.After(c.Depth()) != c.End(c.Depth() - 1)
      && r.value.at == c.Before(c.Depth()) && sc.canSplit(st.doc, c.Before(c.Depth()), None)
    ensures r.Some? && !r.value.Split? ==>
      var c := st.selection.head;
      && sc.liftTarget(c, c).Some?
      && r.value == LiftRange(c, c, sc.liftTarget(c, c).value)
    // the split comes first: whenever it is possible it is the edit
    ensures var c := st.selection.head;
      && st.selection.Cursor().Some? && ContentSize(c.Parent().content) == 0
      && c.Depth() > 1 && c.After(c.Depth()) != c.End(c.Depth() - 1)
      && sc.canSplit(st.doc, c.Before(c.Depth()), None)
      ==> r == Some(Split(c.Before(c.Depth())))
    ensures r.None? && st.selection.Cursor().Some? && ContentSize(st.selection.head.Parent().content) == 0 ==>
      sc.liftTarget(st.selection.head, st.selection.head).None?
  {
    match st.selection.Cursor()
    case None => None
    case Some(c) =>
      if ContentSize(c.Parent().content) != 0 then None
      else if c.Depth() > 1 && c.After(c.Depth()) != c.End(c.Depth() - 1) &&
              sc.canSplit(st.doc, c.Before(c.Depth()), None) then
        Some(Split(c.Before(c.Depth())))
      else match sc.liftTarget(c, c)
        case Some(target) => Some(LiftRange(c, c, target))
        case None => None
  }

  /** Ancestor `d` of `p` holds offset `to` in its content. */
  predicate Holds(p: ResolvedPos, d: nat, to: int)
    requires p.Valid() && d <= p.Depth()
  {
    p.Start(d) <= to <= p.End(d)
  }

  /** `selectParentNode`: select the deepest ancestor of the selection's
      start whose content also holds its end; never the document. */
  function SelectParentNode(st: State): (r: Option<Edit>)
    requires st.Valid()
    ensures var from, to := st.selection.From(), st.selection.To().Pos();
      r.None? <==> forall d :: 1 <= d <= from.Depth() ==> !Holds(from, d, to)
    ensures r.Some? ==>
      var from, to := st.selection.From(), st.selection.To().Pos();
      exists d :: 1 <= d <= from.Depth() && r.value == SelectNode(from.Before(d)) && Holds(from, d, to) &&
        forall e :: d < e <= from.Depth() ==> !Holds(from, e, to)
  {
    var from := st.selection.From();
    var same := from.SharedDepth(st.selection.To().Pos());
    if same == 0 then None
    else
      assert Holds(from, same, st.selection.To().Pos());
      Some(SelectNode(from.Before(same)))
  }

  /** `selectAll`: always applies, selecting the whole document. */
  function SelectAll(st: State): (r: Option<Edit>)
    ensures r == Some(SelectWholeDoc)
  {
    Some(SelectWholeDoc)
  }

  /** `wrapIn(nodeType)`: wrap the selection's block range in a node of the
      type when the schema finds a wrapping. */
  function WrapIn(sc: Schema, st: State, nodeType: NodeType): (r: Option<Edit>)
    requires st.Valid()
    ensures r.Some? <==> sc.canWrap(st.selection.From(), st.selection.To(), nodeType)
    ensures r.Some? ==> r.value == WrapRange(st.selection.From(), st.selection.To(), nodeType)
  {
    if sc.canWrap(st.selection.From(), st.selection.To(), nodeType) then
      Some(WrapRange(st.selection.From(), st.selection.To(), nodeType))
    else None
  }

  /** A cursor's range is collapsed onto the head. */
  lemma CursorEnds(st: State)
    requires st.Valid() && st.selection.Cursor().Some?
    ensures st.selection.From() == st.selection.head && st.selection.To() == st.selection.head
  {
    assert st.selection.anchor == st.selection.head;
  }

  /** With no cut before its block, `joinBackward` is `lift`. */
  lemma JoinBackwardWithoutCutLifts(sc: Schema, st: State, view: View)
    requires st.Valid() && st.selection.Cursor().Some?
    requires AtStartOfTextblock(st.selection.head, view) && FindCutBefore(st.selection.head).None?
    ensures JoinBackward(sc, st, view) == Lift(sc, st)
  {
    CursorEnds(st);
  }

  /** `deleteSelection` and the joins apply to disjoint selections: the
      joins need a cursor, which is an empty selection. */
  lemma JoinsExcludeDeleteSelection(sc: Schema, st: State, view: View)
    requires st.Valid()
    requires JoinBackward(sc, st, view).Some? || JoinForward(sc, st, view).Some?
    ensures DeleteSelection(st).None?
  {
    CursorIffEmpty(st.selection);
  }

  /** When `liftEmptyBlock` does not split, it is `lift`. */
  lemma LiftEmptyBlockFallsBackToLift(sc: Schema, st: State)
    requires st.Valid() && LiftEmptyBlock(sc, st).Some? && !LiftEmptyBlock(sc, st).value.Split?
    ensures LiftEmptyBlock(sc, st) == Lift(sc, st)
  {
    CursorEnds(st);
  }

  /** `exitCode` applies only where `newlineInCode` does. */
  lemma ExitCodeNeedsCode(sc: Schema, st: State)
    requires st.Valid()
    requires st.selection.head.Parent().ntype.code && st.selection.head.SameParent(st.selection.anchor)
      ==> st.selection.head.Depth() > 0
    ensures ExitCode(sc, st).Some? ==> NewlineInCode(st).Some?
  {
  }

  /** The atom deleted at a cut is the node just before it. */
  lemma DeletedAtomBeforeCut(sc: Schema, h: ResolvedPos, cut: ResolvedPos)
    requires h.Valid() && FindCutBefore(h) == Some(cut)
    requires BackwardFrom(sc, h).Some? && BackwardFrom(sc, h).value.DeleteAtom?
    ensures BackwardFrom(sc, h).value.start + NodeSize(cut.NodeBefore().value) == cut.Pos()
  {
    assert BackwardFrom(sc, h) == BackwardAtCut(sc, h, cut);
  }

  /** At the start of a textblock, `selectNodeBackward` selects the
      selectable node just before the cut. */
  lemma SelectsBeforeCut(st: State, view: View)
    requires st.Valid() && st.selection.Empty() && st.selection.head.Parent().ntype.isTextblock
    requires AtStartOfTextblock(st.selection.head, view) && FindCutBefore(st.selection.head).Some?
    requires IsSelectable(FindCutBefore(st.selection.head).value.NodeBefore().value)
    ensures var cut := FindCutBefore(st.selection.head).value;
      && SelectNodeBackward(st, view).Some? && SelectNodeBackward(st, view).value.SelectNode?
      && SelectNodeBackward(st, view).value.at + NodeSize(cut.NodeBefore().value) == cut.Pos()
  {
    assert SelectNodeBackward(st, view).Some?;
  }

  /** An atom deletion by `joinBackward` passed its guard and found a cut. */
  lemma DeletedAtomGuard(sc: Schema, st: State, view: View)
    requires st.Valid() && JoinBackward(sc, st, view).Some? && JoinBackward(sc, st, view).value.DeleteAtom?
    ensures st.selection.Empty() && AtStartOfTextblock(st.selection.head, view)
    ensures FindCutBefore(st.selection.head).Some?
    ensures JoinBackward(sc, st, view) == BackwardFrom(sc, st.selection.head)
  {
    CursorIffEmpty(st.selection);
  }

  /** The atom `joinBackward` deletes in a textblock is the node
      `selectNodeBackward` would select, when it is selectable. */
  lemma DeletedAtomIsSelectable(sc: Schema, st: State, view: View)
    requires st.Valid() && st.selection.head.Parent().ntype.isTextblock
    requires JoinBackward(sc, st, view).Some? && JoinBackward(sc, st, view).value.DeleteAtom?
    requires IsSelectable(FindCutBefore(st.selection.head).value.NodeBefore().value)
    ensures SelectNodeBackward(st, view) == Some(SelectNode(JoinBackward(sc, st, view).value.start))
  {
    var h := st.selection.head;
    DeletedAtomGuard(sc, st, view);
    DeletedAtomBeforeCut(sc, h, FindCutBefore(h).value);
    SelectsBeforeCut(st, view);
    assert SelectNodeBackward(st, view).value.at == JoinBackward(sc, st, view).value.start;
  }

  /** The node `selectParentNode` selects holds both ends of the selection. */
  lemma SelectedParentHoldsSelection(st: State)
    requires st.Valid() && SelectParentNode(st).Some?
    ensures var from := st.selection.From();
      exists d :: 1 <= d <= from.Depth() && SelectParentNode(st).value.at == from.Before(d) &&
        Holds(from, d, from.Pos()) && Holds(from, d, st.selection.To().Pos())
  {
    var from := st.selection.From();
    var d := from.SharedDepth(st.selection.To().Pos());
    PosInsideAncestors(from, d);
    assert Holds(from, d, from.Pos());
  }
}

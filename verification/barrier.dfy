/** Barrier deletion: given a cut with a node on each side, decide how to
    remove the boundary between them. The tries, cheapest first: delete an
    empty node before the cut or join the two nodes (`joinMaybeClear`),
    rewrap the node after the cut into the one before it, lift the content
    after the cut. Isolating nodes on either side are never touched. */
module Barrier {
  import opened Doc

  /** `$pos.index()` of a cut: the index of its node after. */
  function CutIndex(cut: ResolvedPos): nat
    requires cut.Valid()
  {
    cut.Index(cut.Depth())
  }

  /** The node before a cut that `joinMaybeClear` may simply delete: empty,
      and its parent still valid without it. */
  predicate DeletableEmpty(sc: Schema, cut: ResolvedPos)
    requires cut.AtBoundary() && cut.NodeBefore().Some?
  {
    && ContentSize(cut.NodeBefore().value.content) == 0
    && sc.canReplace(cut.Parent(), CutIndex(cut) - 1, CutIndex(cut))
  }

  /** The two nodes of a cut may be joined: the parent stays valid with one
      child fewer, and the node after is a textblock or `canJoin` holds. */
  predicate Joinable(sc: Schema, cut: ResolvedPos)
    requires cut.AtBoundary() && cut.NodeAfter().Some?
  {
    && sc.canReplace(cut.Parent(), CutIndex(cut), CutIndex(cut) + 1)
    && (cut.NodeAfter().value.ntype.isTextblock || sc.canJoin(cut.Root(), cut.Pos()))
  }

  /** `joinMaybeClear($pos)`: for two nodes with compatible content, delete
      the node before when it is empty, otherwise clear what the merge would
      not allow and join them. */
  function JoinMaybeClear(sc: Schema, cut: ResolvedPos): (r: Option<Edit>)
    requires cut.AtBoundary()
    ensures r.Some? ==>
      && cut.NodeBefore().Some? && cut.NodeAfter().Some?
      && sc.compatibleContent(cut.NodeBefore().value.ntype, cut.NodeAfter().value.ntype)
    // an empty node before is deleted, never joined: exactly its own extent
    ensures r.Some? ==>
      (DeletableEmpty(sc, cut) <==> r.value.DeleteRange?)
    ensures r.Some? && r.value.DeleteRange? ==>
      r.value.end == cut.Pos() && r.value.start + NodeSize(cut.NodeBefore().value) == cut.Pos()
    ensures r.Some? && !r.value.DeleteRange? ==>
      Joinable(sc, cut) && r.value == ClearAndJoin(cut.Pos(), cut.NodeBefore().value.ntype)
    // complete: with compatible neighbours, it refuses only when neither applies
    ensures r.None? && cut.NodeBefore().Some? && cut.NodeAfter().Some? &&
            sc.compatibleContent(cut.NodeBefore().value.ntype, cut.NodeAfter().value.ntype) ==>
      !DeletableEmpty(sc, cut) && !Joinable(sc, cut)
  {
    if cut.NodeBefore().None? || cut.NodeAfter().None? then None
    else
      var before, after := cut.NodeBefore().value, cut.NodeAfter().value;
      if !sc.compatibleContent(before.ntype, after.ntype) then None
      else if DeletableEmpty(sc, cut) then
        NodeBeforeFits(cut);
        Some(DeleteRange(cut.Pos() - NodeSize(before), cut.Pos()))
      else if !Joinable(sc, cut) then None
      else Some(ClearAndJoin(cut.Pos(), before.ntype))
  }

  /** `conn[0] || after.type`: the type the node before's content must be
      able to end with, the first wrapper or the node after itself. */
  function FirstWrapper(conn: seq<NodeType>, after: NodeType): (t: NodeType)
    ensures t == after || t in conn
    ensures |conn| > 0 ==> t == conn[0]
  {
    if |conn| > 0 then conn[0] else after
  }

  /** The wrapper types `findWrapping` proposes for the node after the cut,
      when they fit: the parent may lose the node after, and the node
      before's content stays valid once it ends with the first wrapper (or
      with the node after itself when no wrapper is needed). */
  function RewrapChain(sc: Schema, cut: ResolvedPos): (r: Option<seq<NodeType>>)
    requires cut.AtBoundary() && cut.NodeBefore().Some? && cut.NodeAfter().Some?
    ensures r.Some? ==> sc.findWrapping(cut.NodeBefore().value, cut.NodeAfter().value.ntype) == r
    // the chain is offered exactly when all three tests pass, the last being
    // that the node before may end with the first wrapper
    ensures r.Some? <==>
      && sc.canReplace(cut.Parent(), CutIndex(cut), CutIndex(cut) + 1)
      && sc.findWrapping(cut.NodeBefore().value, cut.NodeAfter().value.ntype).Some?
      && sc.endsValidWith(cut.NodeBefore().value,
           FirstWrapper(sc.findWrapping(cut.NodeBefore().value, cut.NodeAfter().value.ntype).value,
                        cut.NodeAfter().value.ntype))
  {
    var before, after := cut.NodeBefore().value, cut.NodeAfter().value;
    if !sc.canReplace(cut.Parent(), CutIndex(cut), CutIndex(cut) + 1) then None
    else match sc.findWrapping(before, after.ntype)
      case None => None
      case Some(conn) =>
        if sc.endsValidWith(before, FirstWrapper(conn, after.ntype)) then Some(conn) else None
  }

  /** `deleteBarrier(state, $cut)`: the ordered fallback of the tries. */
  function DeleteBarrier(sc: Schema, cut: ResolvedPos): (r: Option<Edit>)
    requires cut.AtBoundary() && cut.NodeBefore().Some? && cut.NodeAfter().Some?
    // an isolating node on either side blocks every try
    ensures cut.NodeBefore().value.ntype.isolating || cut.NodeAfter().value.ntype.isolating ==> r.None?
    ensures r.Some? ==> !cut.NodeBefore().value.ntype.isolating && !cut.NodeAfter().value.ntype.isolating
    // first try: join or clear, whenever it applies
    ensures r.Some? && JoinMaybeClear(sc, cut).Some? ==> r == JoinMaybeClear(sc, cut)
    ensures r.Some? && (r.value.DeleteRange? || r.value.ClearAndJoin?) ==> r == JoinMaybeClear(sc, cut)
    // second try: rewrap, only when joining failed
    ensures r.Some? && r.value.Rewrap? ==>
      JoinMaybeClear(sc, cut).None? && RewrapChain(sc, cut) == Some(r.value.wrappers) && r.value.at == cut.Pos()
    // last try: lift, only when both failed and only to a depth at or above the cut's
    ensures r.Some? && r.value.LiftAfter? ==>
      && JoinMaybeClear(sc, cut).None? && RewrapChain(sc, cut).None?
      && sc.liftTargetAfter(cut) == Some(r.value.target)
      && r.value.target >= cut.Depth() && r.value.at == cut.Pos()
    ensures r.Some? ==> r.value.DeleteRange? || r.value.ClearAndJoin? || r.value.Rewrap? || r.value.LiftAfter?
    // refusal means every try failed
    ensures r.None? && !cut.NodeBefore().value.ntype.isolating && !cut.NodeAfter().value.ntype.isolating ==>
      && JoinMaybeClear(sc, cut).None? && RewrapChain(sc, cut).None?
      && (sc.liftTargetAfter(cut).None? || sc.liftTargetAfter(cut).value < cut.Depth())
  {
    var before, after := cut.NodeBefore().value, cut.NodeAfter().value;
    if before.ntype.isolating || after.ntype.isolating then None
    else if JoinMaybeClear(sc, cut).Some? then JoinMaybeClear(sc, cut)
    else if RewrapChain(sc, cut).Some? then Some(Rewrap(cut.Pos(), RewrapChain(sc, cut).value))
    else match sc.liftTargetAfter(cut)
      case Some(target) => if target >= cut.Depth() then Some(LiftAfter(cut.Pos(), target)) else None
      case None => None
  }
}

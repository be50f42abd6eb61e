/** `chainCommands`: try commands one by one until one applies; and the
    Backspace and Delete chains built with it. */
module Chain {
  import D = Doc
  import C = Commands

  /** The commands a chain can hold. Commands computed by methods
      (`splitBlock`, `setBlockType`, `toggleMark`) and `exitCode`, which
      needs its own precondition, are not among them. */
  datatype Command =
    | DeleteSelection | JoinBackward | SelectNodeBackward | JoinForward | SelectNodeForward
    | JoinUp | JoinDown | Lift | NewlineInCode | CreateParagraphNear | LiftEmptyBlock
    | SelectParentNode | SelectAll | WrapIn(nodeType: D.NodeType)

  /** A command run in query mode. */
  function Run(sc: D.Schema, c: Command, st: D.State, view: D.View): D.Option<D.Edit>
    requires st.Valid()
  {
    match c
    case DeleteSelection => C.DeleteSelection(st)
    case JoinBackward => C.JoinBackward(sc, st, view)
    case SelectNodeBackward => C.SelectNodeBackward(st, view)
    case JoinForward => C.JoinForward(sc, st, view)
    case SelectNodeForward => C.SelectNodeForward(st, view)
    case JoinUp => C.JoinUp(sc, st)
    case JoinDown => C.JoinDown(sc, st)
    case Lift => C.Lift(sc, st)
    case NewlineInCode => C.NewlineInCode(st)
    case CreateParagraphNear => C.CreateParagraphNear(sc, st)
    case LiftEmptyBlock => C.LiftEmptyBlock(sc, st)
    case SelectParentNode => C.SelectParentNode(st)
    case SelectAll => C.SelectAll(st)
    case WrapIn(t) => C.WrapIn(sc, st, t)
  }

  /** What a chain dispatches: the edit of its first command that applies. */
  function Chain(sc: D.Schema, cmds: seq<Command>, st: D.State, view: D.View): (r: D.Option<D.Edit>)
    requires st.Valid()
    ensures |cmds| == 0 ==> r.None?
    // a successful chain dispatches the edit of one of its commands
    ensures r.Some? ==> exists i :: 0 <= i < |cmds| && r == Run(sc, cmds[i], st, view)
    decreases |cmds|
  {
    if |cmds| == 0 then D.None
    else
      var first := Run(sc, cmds[0], st, view);
      if first.Some? then first
      else
        var rest := Chain(sc, cmds[1..], st, view);
        if rest.Some? then
          var i :| 0 <= i < |cmds[1..]| && rest == Run(sc, cmds[1..][i], st, view);
          assert cmds[i + 1] == cmds[1..][i];
          rest
        else rest
  }

  /** A chain applies exactly when one of its commands does, and then
      dispatches the edit of the first such command; the empty chain never
      applies. */
  lemma {:induction false} ChainFirstSuccess(sc: D.Schema, cmds: seq<Command>, st: D.State, view: D.View)
    requires st.Valid()
    ensures Chain(sc, cmds, st, view).Some? <==> exists i :: 0 <= i < |cmds| && Run(sc, cmds[i], st, view).Some?
    ensures Chain(sc, cmds, st, view).Some? ==>
      exists i :: 0 <= i < |cmds| && Chain(sc, cmds, st, view) == Run(sc, cmds[i], st, view) &&
        forall k :: 0 <= k < i ==> Run(sc, cmds[k], st, view).None?
    decreases |cmds|
  {
    if |cmds| > 0 && Run(sc, cmds[0], st, view).None? {
      var rest := cmds[1..];
      ChainFirstSuccess(sc, rest, st, view);
      if Chain(sc, rest, st, view).Some? {
        var i :| 0 <= i < |rest| && Chain(sc, rest, st, view) == Run(sc, rest[i], st, view) &&
          forall k :: 0 <= k < i ==> Run(sc, rest[k], st, view).None?;
        assert cmds[i + 1] == rest[i];
        assert forall k :: 0 <= k < i + 1 ==> Run(sc, cmds[k], st, view).None? by {
          forall k | 0 <= k < i + 1 ensures Run(sc, cmds[k], st, view).None? {
            if k > 0 {
              assert cmds[k] == rest[k - 1];
            }
          }
        }
      } else {
        forall i | 0 <= i < |cmds| ensures Run(sc, cmds[i], st, view).None? {
          if i > 0 {
            assert cmds[i] == rest[i - 1];
          }
        }
      }
    }
  }

  /** Chaining two chains: the second runs only when the first refuses. */
  lemma {:induction false} ChainAppend(sc: D.Schema, a: seq<Command>, b: seq<Command>, st: D.State, view: D.View)
    requires st.Valid()
    ensures Chain(sc, a + b, st, view) ==
      if Chain(sc, a, st, view).Some? then Chain(sc, a, st, view) else Chain(sc, b, st, view)
    decreases |a|
  {
    if |a| == 0 {
      assert a + b == b;
    } else {
      assert (a + b)[0] == a[0];
      assert (a + b)[1..] == a[1..] + b;
      ChainAppend(sc, a[1..], b, st, view);
    }
  }

  /** `chainCommands(...commands)`: call the commands in order, stopping at
      the first that applies; `invoked` is how many were called. */
  method ChainCommands(sc: D.Schema, cmds: seq<Command>, st: D.State, view: D.View)
    returns (r: D.Option<D.Edit>, invoked: nat)
    requires st.Valid()
    ensures r == Chain(sc, cmds, st, view)
    ensures invoked <= |cmds|
    // every command called before the last one refused
    ensures forall k :: 0 <= k < invoked - 1 ==> Run(sc, cmds[k], st, view).None?
    // success: the last command called applied, and no later one was called
    ensures r.Some? ==> 0 < invoked && r == Run(sc, cmds[invoked - 1], st, view)
    // failure: every command was called and refused
    ensures r.None? ==> invoked == |cmds| && forall k :: 0 <= k < |cmds| ==> Run(sc, cmds[k], st, view).None?
  {
    var i := 0;
    while i < |cmds|
      invariant 0 <= i <= |cmds|
      invariant forall k :: 0 <= k < i ==> Run(sc, cmds[k], st, view).None?
      invariant Chain(sc, cmds, st, view) == Chain(sc, cmds[i..], st, view)
    {
      var result := Run(sc, cmds[i], st, view);
      assert cmds[i..][1..] == cmds[i + 1..];
      if result.Some? {
        return result, i + 1;
      }
      i := i + 1;
    }
    return D.None, |cmds|;
  }

  /** The Backspace chain. */
  const Backspace: seq<Command> := [DeleteSelection, JoinBackward, SelectNodeBackward]

  /** The Delete chain. */
  const Delete: seq<Command> := [DeleteSelection, JoinForward, SelectNodeForward]

  /** Backspace over a selection that is not empty deletes it. */
  lemma BackspaceDeletesSelection(sc: D.Schema, st: D.State, view: D.View)
    requires st.Valid() && !st.selection.Empty()
    ensures Chain(sc, Backspace, st, view) == D.Some(D.Edit.DeleteSelection)
    ensures Chain(sc, Delete, st, view) == D.Some(D.Edit.DeleteSelection)
  {
  }

  /** Without a view, Backspace with a cursor inside a textblock's text,
      away from its start, does nothing: the key is left to the browser. */
  lemma BackspaceMidTextRefuses(sc: D.Schema, st: D.State)
    requires st.Valid() && st.selection.Empty()
    requires st.selection.head.Parent().ntype.isTextblock && st.selection.head.parentOffset > 0
    ensures Chain(sc, Backspace, st, D.NoView) == D.None
  {
    var cmds := Backspace;
    assert Run(sc, cmds[0], st, D.NoView).None?;
    assert Run(sc, cmds[1], st, D.NoView).None?;
    assert Run(sc, cmds[2], st, D.NoView).None?;
    assert cmds[1..][1..][1..] == [];
  }

  /** The mirror for Delete, away from the textblock's end. */
  lemma DeleteMidTextRefuses(sc: D.Schema, st: D.State)
    requires st.Valid() && st.selection.Empty()
    requires st.selection.head.Parent().ntype.isTextblock
    requires st.selection.head.parentOffset < D.ContentSize(st.selection.head.Parent().content)
    ensures Chain(sc, Delete, st, D.NoView) == D.None
  {
    var cmds := Delete;
    assert Run(sc, cmds[0], st, D.NoView).None?;
    assert Run(sc, cmds[1], st, D.NoView).None?;
    assert Run(sc, cmds[2], st, D.NoView).None?;
    assert cmds[1..][1..][1..] == [];
  }

  /** A chain holding `selectAll` always applies. */
  lemma ChainWithSelectAllApplies(sc: D.Schema, cmds: seq<Command>, st: D.State, view: D.View)
    requires st.Valid() && SelectAll in cmds
    ensures Chain(sc, cmds, st, view).Some?
  {
    var i :| 0 <= i < |cmds| && cmds[i] == SelectAll;
    assert Run(sc, cmds[i], st, view).Some?;
    ChainFirstSuccess(sc, cmds, st, view);
  }
}

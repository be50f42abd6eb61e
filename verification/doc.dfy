/** The document model the editing commands read: node types reduced to their
    capability flags, immutable nodes with ProseMirror's token sizes, resolved
    positions (a position together with its ancestor path), selections, the
    editor state, and the schema and transform queries that the commands
    delegate to the document library, which stand here as uninterpreted functions. */
module Doc {

  datatype Option<T> = None | Some(value: T)

  /** Mark types are identified by name; mark attributes are not modelled. */
  type MarkType = string

  /** A node type, reduced to the flags the commands consult. */
  datatype NodeType = NodeType(
    name: string,
    isText: bool,          // a run of text
    isLeaf: bool,          // holds no content; occupies one token
    isBlock: bool,
    isTextblock: bool,     // a block with inline content
    inlineContent: bool,
    isAtom: bool,          // a leaf, or declared atomic
    isolating: bool,       // editing never crosses its boundary
    code: bool,            // holds literal code
    selectable: bool)      // may be the target of a node selection

  /** An immutable tree node; `textLen` is the length of a text node. */
  datatype Node = Node(ntype: NodeType, content: seq<Node>, textLen: nat)

  /** Token size of a node: text counts its characters, a leaf one token,
      any other node its content plus an opening and a closing token. */
  function NodeSize(n: Node): nat
    decreases n
  {
    if n.ntype.isText then n.textLen
    else if n.ntype.isLeaf then 1
    else 2 + ContentSize(n.content)
  }

  /** `content.size`: the summed token size of a sequence of children. */
  function ContentSize(s: seq<Node>): nat
    decreases s
  {
    if |s| == 0 then 0 else ContentSize(s[..|s| - 1]) + NodeSize(s[|s| - 1])
  }

  /** Offset, inside its parent's content, of the boundary before child `k`. */
  function Prefix(s: seq<Node>, k: nat): nat
    requires k <= |s|
  {
    ContentSize(s[..k])
  }

  lemma PrefixStep(s: seq<Node>, k: nat)
    requires k < |s|
    ensures Prefix(s, k + 1) == Prefix(s, k) + NodeSize(s[k])
  {
    assert s[..k + 1][..k] == s[..k];
  }

  lemma PrefixAll(s: seq<Node>)
    ensures Prefix(s, |s|) == ContentSize(s)
  {
    assert s[..|s|] == s;
  }

  lemma {:induction false} PrefixMono(s: seq<Node>, j: nat, k: nat)
    requires j <= k <= |s|
    ensures Prefix(s, j) <= Prefix(s, k)
  {
    if j < k {
      PrefixMono(s, j, k - 1);
      PrefixStep(s, k - 1);
    }
  }

  /** A node that can hold a position inside it. */
  predicate Container(n: Node) {
    !n.ntype.isText && !n.ntype.isLeaf
  }

  /** `NodeSelection.isSelectable`: text is never selectable as a node. */
  predicate IsSelectable(n: Node) {
    !n.ntype.isText && n.ntype.selectable
  }

  /** One step of a resolved position's path: an ancestor and the index of
      the child the position lies in (or before). */
  datatype Level = Level(node: Node, index: nat)

  /** The inner level is the child the outer level points at. */
  predicate Linked(outer: Level, inner: Level) {
    outer.index < |outer.node.content| && inner.node == outer.node.content[outer.index]
  }

  /** A resolved position: the ancestor path from the document (depth 0)
      down to the position's parent, and the offset inside that parent. */
  datatype ResolvedPos = ResolvedPos(path: seq<Level>, parentOffset: nat) {

    predicate Valid() {
      && |path| > 0
      && (forall d :: 0 <= d < |path| ==> ContainerAt(d))
      && (forall d :: 0 < d < |path| ==> LinkedAt(d))
      && path[|path| - 1].index <= |path[|path| - 1].node.content|
      && Prefix(path[|path| - 1].node.content, path[|path| - 1].index) <= parentOffset
      && parentOffset <= ContentSize(path[|path| - 1].node.content)
      // an offset past the boundary before child `index` lies inside that child
      && (Prefix(path[|path| - 1].node.content, path[|path| - 1].index) < parentOffset ==>
            path[|path| - 1].index < |path[|path| - 1].node.content| &&
            parentOffset < Prefix(path[|path| - 1].node.content, path[|path| - 1].index + 1) &&
            path[|path| - 1].node.content[path[|path| - 1].index].ntype.isText)
    }

    /** Ancestor `d` can hold positions. */
    predicate ContainerAt(d: nat)
      requires d < |path|
    {
      Container(path[d].node)
    }

    /** Ancestor `d` is the child ancestor `d - 1` points at. */
    predicate LinkedAt(d: nat)
      requires 0 < d < |path|
    {
      Linked(path[d - 1], path[d])
    }

    function Depth(): nat
      requires Valid()
    {
      |path| - 1
    }

    /** `$pos.node(d)`. */
    function Ancestor(d: nat): Node
      requires Valid() && d <= Depth()
    {
      path[d].node
    }

    /** `$pos.index(d)`. */
    function Index(d: nat): (r: nat)
      requires Valid() && d <= Depth()
      ensures r <= |Ancestor(d).content|
      ensures d < Depth() ==> r < |Ancestor(d).content|
    {
      if d < Depth() then
        assert LinkedAt(d + 1);
        path[d].index
      else path[d].index
    }

    function Root(): Node
      requires Valid()
    {
      path[0].node
    }

    function Parent(): Node
      requires Valid()
    {
      path[Depth()].node
    }

    /** How far the position lies inside the text node at `Index(Depth())`. */
    function TextOffset(): nat
      requires Valid()
    {
      parentOffset - Prefix(Parent().content, Index(Depth()))
    }

    /** `$pos.indexAfter(d)`. */
    function IndexAfter(d: nat): nat
      requires Valid() && d <= Depth()
    {
      if d == Depth() && TextOffset() == 0 then Index(d) else Index(d) + 1
    }

    /** `$pos.start(d)`: absolute offset where the content of ancestor `d` begins. */
    function Start(d: nat): nat
      requires Valid() && d <= Depth()
      decreases d
    {
      if d == 0 then 0
      else
        assert LinkedAt(d);
        Start(d - 1) + Prefix(Ancestor(d - 1).content, Index(d - 1)) + 1
    }

    /** `$pos.end(d)`: absolute offset where the content of ancestor `d` ends. */
    function End(d: nat): nat
      requires Valid() && d <= Depth()
    {
      Start(d) + ContentSize(Ancestor(d).content)
    }

    /** `$pos.pos`: the absolute offset. */
    function Pos(): nat
      requires Valid()
    {
      Start(Depth()) + parentOffset
    }

    /** `$pos.before(d)`: the offset just before ancestor `d`. */
    function Before(d: nat): nat
      requires Valid() && 1 <= d <= Depth()
    {
      Start(d) - 1
    }

    /** `$pos.after(d)`: the offset just after ancestor `d`; for
        `d == Depth() + 1` the position itself, as in the library. */
    function After(d: nat): nat
      requires Valid() && 1 <= d <= Depth() + 1
    {
      if d == Depth() + 1 then Pos() else Before(d) + NodeSize(Ancestor(d))
    }

    /** `$pos.nodeBefore`: the child ending at the position, or, inside a
        text node, the part of that text before the position. */
    function NodeBefore(): Option<Node>
      requires Valid()
    {
      if TextOffset() > 0 then Some(Node(Parent().content[Index(Depth())].ntype, [], TextOffset()))
      else if Index(Depth()) > 0 then Some(Parent().content[Index(Depth()) - 1])
      else None
    }

    /** `$pos.nodeAfter`: the child starting at the position, or, inside a
        text node, the part of that text after the position. */
    function NodeAfter(): Option<Node>
      requires Valid()
    {
      if TextOffset() > 0 then
        PrefixStep(Parent().content, Index(Depth()));
        Some(Node(Parent().content[Index(Depth())].ntype, [],
                  NodeSize(Parent().content[Index(Depth())]) - TextOffset()))
      else if Index(Depth()) < |Parent().content| then Some(Parent().content[Index(Depth())])
      else None
    }

    /** `$pos.sameParent($other)`: both positions lie in the same node. */
    predicate SameParent(other: ResolvedPos)
      requires Valid() && other.Valid()
    {
      Start(Depth()) == other.Start(other.Depth())
    }

    /** A position at a child boundary (not inside a text node). */
    predicate AtBoundary() {
      Valid() && TextOffset() == 0
    }

    /** The position inside ancestor `i` at the boundary before its child `k`:
        what the library returns for `$pos.doc.resolve(...)` of that offset. */
    function BoundaryAt(i: nat, k: nat): (c: ResolvedPos)
      requires Valid() && i <= Depth() && k <= |Ancestor(i).content|
      ensures c.AtBoundary() && c.Depth() == i && c.Parent() == Ancestor(i) && c.Index(i) == k
      ensures c.path[..i] == path[..i]
    {
      PrefixMono(Ancestor(i).content, k, |Ancestor(i).content|);
      PrefixAll(Ancestor(i).content);
      var c := ResolvedPos(path[..i] + [Level(Ancestor(i), k)], Prefix(Ancestor(i).content, k));
      assert forall d :: 0 < d < |c.path| ==> c.LinkedAt(d) by {
        forall d | 0 < d < |c.path| ensures c.LinkedAt(d) {
          assert LinkedAt(d);
        }
      }
      assert forall d :: 0 <= d < |c.path| ==> c.ContainerAt(d) by {
        forall d | 0 <= d < |c.path| ensures c.ContainerAt(d) {
          assert ContainerAt(d);
        }
      }
      c
    }

    /** `$pos.sharedDepth(to)`: the deepest ancestor depth whose content
        contains offset `to` (0 if only the document does). */
    function SharedDepth(to: int): (r: nat)
      requires Valid()
      ensures r <= Depth()
      ensures r == 0 || Start(r) <= to <= End(r)
      ensures forall d :: r < d <= Depth() ==> !(Start(d) <= to <= End(d))
    {
      SharedFrom(to, Depth())
    }

    function SharedFrom(to: int, d: nat): (r: nat)
      requires Valid() && d <= Depth()
      ensures r <= d
      ensures r == 0 || Start(r) <= to <= End(r)
      ensures forall e :: r < e <= d ==> !(Start(e) <= to <= End(e))
      decreases d
    {
      if d == 0 then 0
      else if Start(d) <= to <= End(d) then d
      else SharedFrom(to, d - 1)
    }
  }

  /** Ancestor content ranges nest: the content of ancestor `d + 1` lies
      strictly inside the content of ancestor `d`. */
  lemma AncestorNested(p: ResolvedPos, d: nat)
    requires p.Valid() && d < p.Depth()
    ensures p.Start(d) < p.Start(d + 1) && p.End(d + 1) < p.End(d)
  {
    assert p.LinkedAt(d + 1);
    var s := p.Ancestor(d).content;
    var k := p.Index(d);
    assert p.ContainerAt(d + 1);
    PrefixStep(s, k);
    PrefixMono(s, k + 1, |s|);
    PrefixAll(s);
  }

  /** If ancestor `d` contains an offset, so does every shallower ancestor:
      the depths `sharedDepth` looks through form a downward-closed set. */
  lemma {:induction false} ContainsDownward(p: ResolvedPos, e: nat, d: nat, to: int)
    requires p.Valid() && e <= d <= p.Depth()
    requires p.Start(d) <= to <= p.End(d)
    ensures p.Start(e) <= to <= p.End(e)
    decreases d - e
  {
    if e < d {
      AncestorNested(p, d - 1);
      ContainsDownward(p, e, d - 1, to);
    }
  }

  /** The shared depth is the whole set of depths whose content holds `to`. */
  lemma SharedDepthExact(p: ResolvedPos, to: int, d: nat)
    requires p.Valid() && 1 <= d <= p.Depth()
    ensures (p.Start(d) <= to <= p.End(d)) <==> d <= p.SharedDepth(to)
  {
    var r := p.SharedDepth(to);
    if d <= r {
      ContainsDownward(p, d, r, to);
    }
  }

  /** Each ancestor above the parent points at the next ancestor. */
  lemma OnPath(p: ResolvedPos, d: nat)
    requires p.Valid() && d < p.Depth()
    ensures p.Index(d) < |p.Ancestor(d).content|
    ensures p.Ancestor(d).content[p.Index(d)] == p.Ancestor(d + 1)
  {
    assert p.LinkedAt(d + 1);
  }

  /** The node before a position ends at or after the document's start. */
  lemma NodeBeforeFits(p: ResolvedPos)
    requires p.Valid() && p.NodeBefore().Some?
    ensures NodeSize(p.NodeBefore().value) <= p.Pos()
  {
    if p.TextOffset() == 0 {
      PrefixStep(p.Parent().content, p.Index(p.Depth()) - 1);
    }
  }

  /** A position lies inside the content of each of its ancestors. */
  lemma PosInsideAncestors(p: ResolvedPos, d: nat)
    requires p.Valid() && d <= p.Depth()
    ensures p.Start(d) <= p.Pos() <= p.End(d)
  {
    ContainsDownward(p, d, p.Depth(), p.Pos());
  }

  /** `Start(d)` depends only on the path above depth `d`. */
  lemma {:induction false} SameStart(p: ResolvedPos, q: ResolvedPos, d: nat)
    requires p.Valid() && q.Valid() && d <= p.Depth() && d <= q.Depth()
    requires p.path[..d] == q.path[..d]
    ensures p.Start(d) == q.Start(d)
  {
    if d > 0 {
      assert p.path[..d - 1] == p.path[..d][..d - 1];
      assert q.path[..d - 1] == q.path[..d][..d - 1];
      assert p.path[d - 1] == p.path[..d][d - 1];
      assert q.path[d - 1] == q.path[..d][d - 1];
      SameStart(p, q, d - 1);
    }
  }

  /** The kinds of selection the commands distinguish. */
  datatype SelKind = TextSel | NodeSel(node: Node) | AllSel

  datatype SelRange = SelRange(from: ResolvedPos, to: ResolvedPos)

  /** A selection: its kind, anchor and head, and its ranges (`$from` and
      `$to` are the first range's ends). */
  datatype Selection = Selection(kind: SelKind, anchor: ResolvedPos, head: ResolvedPos, ranges: seq<SelRange>) {

    predicate Valid() {
      && anchor.Valid() && head.Valid() && |ranges| > 0
      && (forall i :: 0 <= i < |ranges| ==> ranges[i].from.Valid() && ranges[i].to.Valid())
      // an offset resolves to one position
      && (anchor.Pos() == head.Pos() ==> anchor == head)
      // a text selection has one range, spanning anchor and head
      && (kind.TextSel? ==>
            |ranges| == 1 &&
            ((ranges[0].from == anchor && ranges[0].to == head) ||
             (ranges[0].from == head && ranges[0].to == anchor)))
    }

    function From(): ResolvedPos
      requires Valid()
    {
      ranges[0].from
    }

    function To(): ResolvedPos
      requires Valid()
    {
      ranges[0].to
    }

    /** `selection.empty`: every range is collapsed. */
    predicate Empty()
      requires Valid()
    {
      forall i :: 0 <= i < |ranges| ==> ranges[i].from.Pos() == ranges[i].to.Pos()
    }

    /** `selection.$cursor`: the head of a collapsed text selection. */
    function Cursor(): (r: Option<ResolvedPos>)
      requires Valid()
      ensures r.Some? ==> r.value == head && kind.TextSel?
    {
      if kind.TextSel? && anchor.Pos() == head.Pos() then Some(head) else None
    }
  }

  /** A text selection has a cursor exactly when it is empty. */
  lemma CursorIffEmpty(sel: Selection)
    requires sel.Valid() && sel.kind.TextSel?
    ensures sel.Cursor().Some? <==> sel.Empty()
  {
    var f, t := sel.ranges[0].from, sel.ranges[0].to;
    assert f.Pos() == t.Pos() <==> sel.anchor.Pos() == sel.head.Pos();
  }

  /** The editor state a command reads. */
  datatype State = State(doc: Node, selection: Selection, storedMarks: Option<set<MarkType>>) {
    predicate Valid() {
      && selection.Valid()
      && selection.anchor.Root() == doc && selection.head.Root() == doc
      && (forall i :: 0 <= i < |selection.ranges| ==>
            selection.ranges[i].from.Root() == doc && selection.ranges[i].to.Root() == doc)
    }
  }

  /** The optional view: when present, its answer to `endOfTextblock`
      (bidi-aware, computed from the DOM) replaces the offset test. */
  datatype View = NoView | WithView(atStartOfTextblock: bool, atEndOfTextblock: bool)

  /** A node visited by `doc.nodesBetween(from, to, f)`, with its parent and
      its index in that parent, in visiting order. */
  datatype Visit = Visit(node: Node, parent: Node, index: nat)

  /** The schema and transform queries the commands delegate. They are
      uninterpreted: the commands only combine their answers. */
  datatype Schema = Schema(
    // parent.canReplace(from, to): children from..to may be removed
    canReplace: (Node, nat, nat) -> bool,
    // parent.canReplaceWith(from, to, type)
    canReplaceWith: (Node, nat, nat, NodeType) -> bool,
    // type.compatibleContent(other)
    compatibleContent: (NodeType, NodeType) -> bool,
    // canJoin(doc, pos)
    canJoin: (Node, nat) -> bool,
    // joinPoint(doc, pos, dir)
    joinPoint: (Node, nat, int) -> Option<nat>,
    // liftTarget($from.blockRange($to)), None when there is no range or no target
    liftTarget: (ResolvedPos, ResolvedPos) -> Option<nat>,
    // liftTarget of the block range of Selection.findFrom($cut, 1)
    liftTargetAfter: ResolvedPos -> Option<nat>,
    // before.contentMatchAt(before.childCount).findWrapping(type)
    findWrapping: (Node, NodeType) -> Option<seq<NodeType>>,
    // that match's matchType(type).validEnd
    endsValidWith: (Node, NodeType) -> bool,
    // canSplit(doc, pos, 1, types), types given by an optional node type
    canSplit: (Node, nat, Option<NodeType>) -> bool,
    // node.contentMatchAt(index): its edge types, in order
    edgesAt: (Node, nat) -> seq<NodeType>,
    // type.hasRequiredAttrs()
    hasRequiredAttrs: NodeType -> bool,
    // findWrapping($from.blockRange($to), type) succeeds
    canWrap: (ResolvedPos, ResolvedPos, NodeType) -> bool,
    // type.allowsMarkType(mark)
    allowsMarkType: (NodeType, MarkType) -> bool,
    // doc.rangeHasMark(from, to, mark)
    rangeHasMark: (Node, nat, nat, MarkType) -> bool,
    // the nodes doc.nodesBetween(from, to) visits
    nodesBetween: (Node, nat, nat) -> seq<Visit>,
    // $pos.marks()
    marksAt: ResolvedPos -> set<MarkType>)

  /** Where the selection lands after a block is deleted next to a neighbour. */
  datatype Landing =
    | TextNear(pos: nat, dir: int)   // Selection.findFrom(pos, dir)
    | NodeAt(pos: nat)               // NodeSelection.create(doc, pos)

  /** The edit a command decides on: what it dispatches when it returns true.
      Offsets are in the document the command was given. */
  datatype Edit =
    | DeleteSelection
    | LiftRange(from: ResolvedPos, to: ResolvedPos, target: nat)
    | DeleteRange(start: nat, end: nat)
    | DeleteAtom(start: nat, end: nat)
    | ClearAndJoin(at: nat, into: NodeType)
    | Rewrap(at: nat, wrappers: seq<NodeType>)
    | LiftAfter(at: nat, target: nat)
    | DeleteBlockAndSelect(start: nat, end: nat, landing: Landing)
    | SelectNode(at: nat)
    | Join(at: nat, reselect: bool)
    | Split(at: nat)
    | InsertNewline
    | InsertBlock(at: nat, blockType: NodeType)
    | SelectWholeDoc
    | SetType(start: nat, end: nat, blockType: NodeType)
    | WrapRange(from: ResolvedPos, to: ResolvedPos, wrapper: NodeType)
}

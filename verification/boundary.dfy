/** Boundary location: the cut just before or just after the block that
    holds a position, found by walking the position's ancestors from its
    parent's parent towards the document without crossing an isolating node;
    and the test for a textblock along the first-child or last-child edge of
    a node. */
module Boundary {
  import opened Doc

  /** `findCutBefore` stops at ancestor `i`: it has a child before the one on
      the path, every ancestor on the path between it and the position is its
      own parent's first child, and no ancestor deeper than `i` (the
      position's parent included) is isolating. */
  predicate IsCutBefore(p: ResolvedPos, i: nat)
    requires p.Valid()
  {
    && i < p.Depth()
    && p.Index(i) > 0
    && (forall j :: i < j < p.Depth() ==> p.Index(j) == 0)
    && (forall j :: i < j <= p.Depth() ==> !p.Ancestor(j).ntype.isolating)
  }

  /** The mirror image: ancestor `i` has a child after the one on the path,
      every ancestor on the path between is its parent's last child. */
  predicate IsCutAfter(p: ResolvedPos, i: nat)
    requires p.Valid()
  {
    && i < p.Depth()
    && p.Index(i) + 1 < |p.Ancestor(i).content|
    && (forall j :: i < j < p.Depth() ==> p.Index(j) + 1 == |p.Ancestor(j).content|)
    && (forall j :: i < j <= p.Depth() ==> !p.Ancestor(j).ntype.isolating)
  }

  /** The loop of `findCutBefore`, entered at depth `k`, may stop at `i`:
      ancestor `i` has a previous sibling for the path, and every depth the
      loop passes before it has none and is not isolating. */
  predicate StopsBefore(p: ResolvedPos, i: nat, k: nat)
    requires p.Valid() && k <= p.Depth()
  {
    && i < k
    && p.Index(i) > 0
    && (forall j :: i < j < k ==> p.Index(j) == 0 && !p.Ancestor(j).ntype.isolating)
  }

  /** The mirror of `StopsBefore` for `findCutAfter`. */
  predicate StopsAfter(p: ResolvedPos, i: nat, k: nat)
    requires p.Valid() && k <= p.Depth()
  {
    && i < k
    && p.Index(i) + 1 < |p.Ancestor(i).content|
    && (forall j :: i < j < k ==> p.Index(j) + 1 >= |p.Ancestor(j).content| && !p.Ancestor(j).ntype.isolating)
  }

  /** The loop of `findCutBefore` from depth `k - 1` down to 0. */
  function SearchCutBefore(p: ResolvedPos, k: nat): (r: Option<ResolvedPos>)
    requires p.Valid() && k <= p.Depth()
    ensures r.Some? ==> r.value.AtBoundary() && r.value.Depth() < k
    ensures r.Some? ==>
      StopsBefore(p, r.value.Depth(), k) && r.value == p.BoundaryAt(r.value.Depth(), p.Index(r.value.Depth()))
    decreases k
  {
    if k == 0 then None
    else if p.Index(k - 1) > 0 then
      OnPath(p, k - 1);
      Some(p.BoundaryAt(k - 1, p.Index(k - 1)))
    else if p.Ancestor(k - 1).ntype.isolating then None
    else SearchCutBefore(p, k - 1)
  }

  /** If the loop may stop somewhere, it stops. */
  lemma {:induction false} SearchCutBeforeFinds(p: ResolvedPos, i: nat, k: nat)
    requires p.Valid() && k <= p.Depth() && StopsBefore(p, i, k)
    ensures SearchCutBefore(p, k).Some?
    decreases k
  {
    if p.Index(k - 1) == 0 {
      assert i < k - 1;
      SearchCutBeforeFinds(p, i, k - 1);
    }
  }

  /** The cut `c` is the library's `before(i + 1)` for its depth `i`: the
      ancestor at depth `i + 1` is its node after, and that ancestor's
      previous sibling its node before. */
  predicate BeforeCutShape(p: ResolvedPos, c: ResolvedPos)
    requires p.Valid() && c.Valid() && c.Depth() < p.Depth() && p.Index(c.Depth()) > 0
  {
    var i := c.Depth();
    && c.Pos() == p.Before(i + 1)
    && c.NodeAfter() == Some(p.Ancestor(i + 1))
    && c.NodeBefore() == Some(p.Ancestor(i).content[p.Index(i) - 1])
  }

  /** A cut the search stops at lies just before the ancestor at depth
      `i + 1`, between it and its previous sibling. */
  lemma CutBeforeShape(p: ResolvedPos, k: nat)
    requires p.Valid() && k <= p.Depth() && SearchCutBefore(p, k).Some?
    ensures BeforeCutShape(p, SearchCutBefore(p, k).value)
  {
    var c := SearchCutBefore(p, k).value;
    var i := c.Depth();
    SameStart(c, p, i);
    OnPath(p, i);
  }

  /** Where the search from the parent stops, past a parent that is not
      isolating, the cut condition holds. */
  lemma StopsBeforeIsCut(p: ResolvedPos, i: nat)
    requires p.Valid() && StopsBefore(p, i, p.Depth()) && !p.Parent().ntype.isolating
    ensures IsCutBefore(p, i)
  {
  }

  /** `findCutBefore($pos)`: the boundary just before the deepest ancestor
      that has a previous sibling, never crossing an isolating node. */
  function FindCutBefore(p: ResolvedPos): (r: Option<ResolvedPos>)
    requires p.Valid()
    ensures p.Parent().ntype.isolating ==> r.None?
    ensures r.Some? ==> r.value.AtBoundary() && r.value.Depth() < p.Depth()
    ensures r.Some? ==>
      IsCutBefore(p, r.value.Depth()) &&
      r.value == p.BoundaryAt(r.value.Depth(), p.Index(r.value.Depth()))
    ensures r.Some? ==> BeforeCutShape(p, r.value)
  {
    if p.Parent().ntype.isolating then None
    else
      var c := SearchCutBefore(p, p.Depth());
      if c.Some? then
        StopsBeforeIsCut(p, c.value.Depth());
        CutBeforeShape(p, p.Depth());
        c
      else c
  }

  /** Completeness: whenever depth `i` satisfies the cut condition,
      `findCutBefore` returns the boundary before ancestor `i + 1`; no other
      depth can satisfy it. */
  lemma FindCutBeforeComplete(p: ResolvedPos, i: nat)
    requires p.Valid() && IsCutBefore(p, i)
    ensures FindCutBefore(p) == Some(p.BoundaryAt(i, p.Index(i)))
  {
    assert !p.Ancestor(p.Depth()).ntype.isolating;
    assert StopsBefore(p, i, p.Depth());
    SearchCutBeforeFinds(p, i, p.Depth());
    var c := FindCutBefore(p).value;
    assert IsCutBefore(p, c.Depth());
  }



  /** The loop of `findCutAfter` from depth `k - 1` down to 0. */
  function SearchCutAfter(p: ResolvedPos, k: nat): (r: Option<ResolvedPos>)
    requires p.Valid() && k <= p.Depth()
    ensures r.Some? ==> r.value.AtBoundary() && r.value.Depth() < k
    ensures r.Some? ==>
      StopsAfter(p, r.value.Depth(), k) && r.value == p.BoundaryAt(r.value.Depth(), p.Index(r.value.Depth()) + 1)
    decreases k
  {
    if k == 0 then None
    else if p.Index(k - 1) + 1 < |p.Ancestor(k - 1).content| then Some(p.BoundaryAt(k - 1, p.Index(k - 1) + 1))
    else if p.Ancestor(k - 1).ntype.isolating then None
    else SearchCutAfter(p, k - 1)
  }

  lemma {:induction false} SearchCutAfterFinds(p: ResolvedPos, i: nat, k: nat)
    requires p.Valid() && k <= p.Depth() && StopsAfter(p, i, k)
    ensures SearchCutAfter(p, k).Some?
    decreases k
  {
    if p.Index(k - 1) + 1 >= |p.Ancestor(k - 1).content| {
      assert i < k - 1;
      SearchCutAfterFinds(p, i, k - 1);
    }
  }

  /** The cut `c` is the library's `after(i + 1)` for its depth `i`: the
      ancestor at depth `i + 1` is its node before, and that ancestor's next
      sibling its node after. */
  predicate AfterCutShape(p: ResolvedPos, c: ResolvedPos)
    requires p.Valid() && c.Valid() && c.Depth() < p.Depth()
    requires p.Index(c.Depth()) + 1 < |p.Ancestor(c.Depth()).content|
  {
    var i := c.Depth();
    && c.Pos() == p.After(i + 1)
    && c.NodeBefore() == Some(p.Ancestor(i + 1))
    && c.NodeAfter() == Some(p.Ancestor(i).content[p.Index(i) + 1])
  }

  /** A cut the search stops at lies just after the ancestor at depth
      `i + 1`, between it and its next sibling. */
  lemma CutAfterShape(p: ResolvedPos, k: nat)
    requires p.Valid() && k <= p.Depth() && SearchCutAfter(p, k).Some?
    ensures AfterCutShape(p, SearchCutAfter(p, k).value)
  {
    var c := SearchCutAfter(p, k).value;
    var i := c.Depth();
    SameStart(c, p, i);
    OnPath(p, i);
    PrefixStep(p.Ancestor(i).content, p.Index(i));
  }

  /** The mirror of `StopsBeforeIsCut`. */
  lemma StopsAfterIsCut(p: ResolvedPos, i: nat)
    requires p.Valid() && StopsAfter(p, i, p.Depth()) && !p.Parent().ntype.isolating
    ensures IsCutAfter(p, i)
  {
    forall j | i < j < p.Depth() ensures p.Index(j) + 1 == |p.Ancestor(j).content| {
      assert p.Index(j) < |p.Ancestor(j).content|;
    }
  }

  /** `findCutAfter($pos)`: the boundary just after the deepest ancestor
      that has a next sibling, never crossing an isolating node. */
  function FindCutAfter(p: ResolvedPos): (r: Option<ResolvedPos>)
    requires p.Valid()
    ensures p.Parent().ntype.isolating ==> r.None?
    ensures r.Some? ==> r.value.AtBoundary() && r.value.Depth() < p.Depth()
    ensures r.Some? ==>
      IsCutAfter(p, r.value.Depth()) &&
      r.value == p.BoundaryAt(r.value.Depth(), p.Index(r.value.Depth()) + 1)
    ensures r.Some? ==> AfterCutShape(p, r.value)
  {
    if p.Parent().ntype.isolating then None
    else
      var c := SearchCutAfter(p, p.Depth());
      if c.Some? then
        StopsAfterIsCut(p, c.value.Depth());
        CutAfterShape(p, p.Depth());
        c
      else c
  }

  /** Completeness of `findCutAfter`, as for `FindCutBeforeComplete`. */
  lemma FindCutAfterComplete(p: ResolvedPos, i: nat)
    requires p.Valid() && IsCutAfter(p, i)
    ensures FindCutAfter(p) == Some(p.BoundaryAt(i, p.Index(i) + 1))
  {
    assert !p.Ancestor(p.Depth()).ntype.isolating;
    assert StopsAfter(p, i, p.Depth());
    SearchCutAfterFinds(p, i, p.Depth());
    var c := FindCutAfter(p).value;
    assert IsCutAfter(p, c.Depth());
  }


  /** Which edge of a node `textblockAt` follows. */
  datatype Side = AtStart | AtEnd

  /** `node.firstChild` or `node.lastChild`. */
  function EdgeChild(n: Node, side: Side): (c: Node)
    requires |n.content| > 0
    ensures side == AtStart ==> c == n.content[0]
    ensures side == AtEnd ==> c == n.content[|n.content| - 1]
  {
    if side == AtStart then n.content[0] else n.content[|n.content| - 1]
  }

  /** `textblockAt(node, side)`: the loop that follows first (or last)
      children from `node` for as long as there are any. */
  function TextblockAt(n: Node, side: Side): (r: bool)
    // a textblock is found at once; a node without children ends the walk
    ensures n.ntype.isTextblock ==> r
    ensures |n.content| == 0 ==> (r <==> n.ntype.isTextblock)
    // otherwise the answer is the edge child's
    ensures !n.ntype.isTextblock && |n.content| > 0 ==> (r <==> TextblockAt(EdgeChild(n, side), side))
    decreases n
  {
    n.ntype.isTextblock || (|n.content| > 0 && TextblockAt(EdgeChild(n, side), side))
  }

  /** The node reached from `n` after `k` steps along the edge, if any. */
  function EdgeDescendant(n: Node, side: Side, k: nat): Option<Node>
    decreases k
  {
    if k == 0 then Some(n)
    else if |n.content| == 0 then None
    else EdgeDescendant(EdgeChild(n, side), side, k - 1)
  }

  predicate TextblockOnEdge(n: Node, side: Side, k: nat) {
    EdgeDescendant(n, side, k).Some? && EdgeDescendant(n, side, k).value.ntype.isTextblock
  }

  /** `textblockAt` holds exactly when some node on the edge chain starting
      at `node` (itself included) is a textblock. */
  lemma {:induction false} TextblockAtChain(n: Node, side: Side)
    ensures TextblockAt(n, side) <==> exists k: nat :: TextblockOnEdge(n, side, k)
    decreases n
  {
    if n.ntype.isTextblock {
      assert TextblockOnEdge(n, side, 0);
    } else if |n.content| == 0 {
      forall k: nat ensures !TextblockOnEdge(n, side, k) {
        if k > 0 {
          assert EdgeDescendant(n, side, k) == None;
        }
      }
    } else {
      var c := EdgeChild(n, side);
      TextblockAtChain(c, side);
      if TextblockAt(c, side) {
        var k: nat :| TextblockOnEdge(c, side, k);
        assert EdgeDescendant(n, side, k + 1) == EdgeDescendant(c, side, k);
        assert TextblockOnEdge(n, side, k + 1);
      } else {
        forall k: nat ensures !TextblockOnEdge(n, side, k) {
          if k > 0 {
            assert EdgeDescendant(n, side, k) == EdgeDescendant(c, side, k - 1);
            assert !TextblockOnEdge(c, side, k - 1);
          }
        }
      }
    }
  }
}

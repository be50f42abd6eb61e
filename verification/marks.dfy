/** Mark toggling: `markApplies` decides whether any selection range may
    carry a mark, and `toggleMark` toggles it, on the stored marks for a
    cursor and all or nothing over the ranges otherwise. Mark attributes
    are not modelled. */
module Marks {
  import opened Doc

  /** A visited node whose inline content may carry the mark. */
  predicate InlineAllows(sc: Schema, v: Visit, mark: MarkType) {
    v.node.ntype.inlineContent && sc.allowsMarkType(v.node.ntype, mark)
  }

  /** One range admits the mark: it starts in the document node itself and
      the document allows the mark, or it spans a node with inline content
      that allows it. */
  predicate RangeAllowsMark(sc: Schema, doc: Node, rg: SelRange, mark: MarkType)
    requires rg.from.Valid() && rg.to.Valid()
  {
    var visits := sc.nodesBetween(doc, rg.from.Pos(), rg.to.Pos());
    || (rg.from.Depth() == 0 && sc.allowsMarkType(doc.ntype, mark))
    || exists k :: 0 <= k < |visits| && InlineAllows(sc, visits[k], mark)
  }

  predicate RangesValid(ranges: seq<SelRange>) {
    forall i :: 0 <= i < |ranges| ==> ranges[i].from.Valid() && ranges[i].to.Valid()
  }

  /** `markApplies(doc, ranges, type)`: some range admits the mark. */
  method MarkApplies(sc: Schema, doc: Node, ranges: seq<SelRange>, mark: MarkType) returns (can: bool)
    requires RangesValid(ranges)
    ensures can <==> exists i :: 0 <= i < |ranges| && RangeAllowsMark(sc, doc, ranges[i], mark)
  {
    var i := 0;
    while i < |ranges|
      invariant 0 <= i <= |ranges|
      invariant forall j :: 0 <= j < i ==> !RangeAllowsMark(sc, doc, ranges[j], mark)
    {
      var rg := ranges[i];
      var visits := sc.nodesBetween(doc, rg.from.Pos(), rg.to.Pos());
      var c := if rg.from.Depth() == 0 then sc.allowsMarkType(doc.ntype, mark) else false;
      var k := 0;
      while k < |visits|
        invariant 0 <= k <= |visits|
        invariant c <==> (rg.from.Depth() == 0 && sc.allowsMarkType(doc.ntype, mark)) ||
                         exists j :: 0 <= j < k && InlineAllows(sc, visits[j], mark)
      {
        // once `can` holds, the callback stops and changes nothing
        if !c {
          c := visits[k].node.ntype.inlineContent && sc.allowsMarkType(visits[k].node.ntype, mark);
        }
        k := k + 1;
      }
      if c {
        return true;
      }
      i := i + 1;
    }
    return false;
  }

  /** The marks active at a cursor: the stored marks when there are any
      (an empty stored set included), otherwise the marks at the cursor. */
  function ActiveMarks(sc: Schema, st: State, cursor: ResolvedPos): (r: set<MarkType>)
    ensures st.storedMarks.Some? ==> r == st.storedMarks.value
    ensures st.storedMarks.None? ==> r == sc.marksAt(cursor)
  {
    if st.storedMarks.Some? then st.storedMarks.value else sc.marksAt(cursor)
  }

  /** Range `i` already carries the mark somewhere. */
  predicate RangeHasMarkAt(sc: Schema, doc: Node, ranges: seq<SelRange>, i: nat, mark: MarkType)
    requires RangesValid(ranges) && i < |ranges|
  {
    sc.rangeHasMark(doc, ranges[i].from.Pos(), ranges[i].to.Pos(), mark)
  }

  /** Some range already carries the mark somewhere. */
  predicate AnyRangeHasMark(sc: Schema, doc: Node, ranges: seq<SelRange>, mark: MarkType)
    requires RangesValid(ranges)
  {
    exists i: nat :: i < |ranges| && RangeHasMarkAt(sc, doc, ranges, i, mark)
  }

  /** One step of a range toggle: add or remove the mark over `from..to`. */
  datatype MarkStep = MarkStep(remove: bool, from: nat, to: nat)

  /** What `toggleMark` dispatches. */
  datatype Toggle = RemoveStored | AddStored | Steps(steps: seq<MarkStep>)

  /** The first loop of `toggleMark`'s range branch: whether any range
      has the mark, stopping at the first that does. */
  method FindMarkedRange(sc: Schema, doc: Node, ranges: seq<SelRange>, mark: MarkType) returns (has: bool)
    requires RangesValid(ranges)
    ensures has <==> AnyRangeHasMark(sc, doc, ranges, mark)
  {
    has := false;
    var i := 0;
    while !has && i < |ranges|
      invariant 0 <= i <= |ranges|
      invariant has <==> exists j: nat :: j < i && RangeHasMarkAt(sc, doc, ranges, j, mark)
    {
      has := sc.rangeHasMark(doc, ranges[i].from.Pos(), ranges[i].to.Pos(), mark);
      assert has == RangeHasMarkAt(sc, doc, ranges, i, mark);
      i := i + 1;
    }
  }

  /** The second loop: the same step, removing or adding, for every range. */
  method StepsForRanges(ranges: seq<SelRange>, remove: bool) returns (steps: seq<MarkStep>)
    requires RangesValid(ranges)
    ensures |steps| == |ranges|
    ensures forall i :: 0 <= i < |ranges| ==>
      steps[i] == MarkStep(remove, ranges[i].from.Pos(), ranges[i].to.Pos())
  {
    steps := [];
    var i := 0;
    while i < |ranges|
      invariant 0 <= i <= |ranges|
      invariant |steps| == i
      invariant forall j :: 0 <= j < i ==> steps[j] == MarkStep(remove, ranges[j].from.Pos(), ranges[j].to.Pos())
    {
      steps := steps + [MarkStep(remove, ranges[i].from.Pos(), ranges[i].to.Pos())];
      i := i + 1;
    }
  }

  /** `toggleMark(mark)`: refused for an empty selection without a cursor or
      when no range admits the mark. For a cursor the stored marks are
      toggled; otherwise the mark is removed from every range if any range
      has it, and added to every range if none has. */
  method ToggleMark(sc: Schema, st: State, mark: MarkType) returns (r: Option<Toggle>)
    requires st.Valid()
    ensures r.Some? <==>
      && !(st.selection.Empty() && st.selection.Cursor().None?)
      && exists i :: 0 <= i < |st.selection.ranges| && RangeAllowsMark(sc, st.doc, st.selection.ranges[i], mark)
    // a cursor toggles the mark in the stored set
    ensures r.Some? && st.selection.Cursor().Some? ==>
      && (r.value.RemoveStored? || r.value.AddStored?)
      && (r.value.RemoveStored? <==> mark in ActiveMarks(sc, st, st.selection.Cursor().value))
    // a range selection: one step per range, all removing or all adding
    ensures r.Some? && st.selection.Cursor().None? ==>
      && r.value.Steps? && |r.value.steps| == |st.selection.ranges|
      && forall i :: 0 <= i < |st.selection.ranges| ==>
           r.value.steps[i] == MarkStep(AnyRangeHasMark(sc, st.doc, st.selection.ranges, mark),
                                        st.selection.ranges[i].from.Pos(), st.selection.ranges[i].to.Pos())
  {
    var sel := st.selection;
    if sel.Empty() && sel.Cursor().None? {
      return None;
    }
    var applies := MarkApplies(sc, st.doc, sel.ranges, mark);
    if !applies {
      return None;
    }
    if sel.Cursor().Some? {
      if mark in ActiveMarks(sc, st, sel.Cursor().value) {
        return Some(RemoveStored);
      }
      return Some(AddStored);
    }
    var has := FindMarkedRange(sc, st.doc, sel.ranges, mark);
    var steps := StepsForRanges(sel.ranges, has);
    return Some(Steps(steps));
  }

  /** The range toggle is all or nothing: every step removes, or every step
      adds, and it removes exactly when some range has the mark. */
  lemma ToggleAllOrNothing(sc: Schema, doc: Node, ranges: seq<SelRange>, mark: MarkType, steps: seq<MarkStep>)
    requires RangesValid(ranges) && |steps| == |ranges|
    requires forall i :: 0 <= i < |steps| ==>
      steps[i] == MarkStep(AnyRangeHasMark(sc, doc, ranges, mark), ranges[i].from.Pos(), ranges[i].to.Pos())
    ensures forall i, j :: 0 <= i < |steps| && 0 <= j < |steps| ==> steps[i].remove == steps[j].remove
    ensures forall i :: 0 <= i < |steps| ==>
      var hasAny := exists k :: 0 <= k < |ranges| && sc.rangeHasMark(doc, ranges[k].from.Pos(), ranges[k].to.Pos(), mark);
      steps[i].remove <==> hasAny
  {
    if exists k :: 0 <= k < |ranges| && sc.rangeHasMark(doc, ranges[k].from.Pos(), ranges[k].to.Pos(), mark) {
      var k :| 0 <= k < |ranges| && sc.rangeHasMark(doc, ranges[k].from.Pos(), ranges[k].to.Pos(), mark);
      assert RangeHasMarkAt(sc, doc, ranges, k, mark);
    }
  }
}

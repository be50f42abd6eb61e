/** `autoJoin` and `wrapDispatchForJoin`: after a command's transaction, find
    the sibling boundaries inside the ranges the transaction touched where
    two joinable nodes of the same type meet, and join them from the last
    position to the first. */
module AutoJoin {
  import opened Doc

  /** A range of the document after a step, `from..to`. */
  datatype Span = Span(from: int, to: int)

  /** A step's position map: how it maps a position, and the ranges it
      touched, in the coordinates after the step. */
  datatype StepMap = StepMap(mapPos: int -> int, touched: seq<Span>)

  /** The ends of spans, pushed pairwise, in order. */
  function Flatten(spans: seq<Span>): (r: seq<int>)
    ensures |r| == 2 * |spans|
    // span `i` gives the pair at `2 * i`: its start, then its end
    ensures forall i :: 0 <= i < |spans| ==> r[2 * i] == spans[i].from && r[2 * i + 1] == spans[i].to
    decreases |spans|
  {
    if |spans| == 0 then []
    else Flatten(spans[..|spans| - 1]) + [spans[|spans| - 1].from, spans[|spans| - 1].to]
  }

  /** Every position of `rs` mapped through one step. */
  function Remapped(rs: seq<int>, m: StepMap): (r: seq<int>)
    ensures |r| == |rs| && forall i :: 0 <= i < |rs| ==> r[i] == m.mapPos(rs[i])
  {
    seq(|rs|, i requires 0 <= i < |rs| => m.mapPos(rs[i]))
  }

  /** The ranges touched by the steps, each carried through every later step. */
  function CollectedRanges(maps: seq<StepMap>): seq<int>
    decreases |maps|
  {
    if |maps| == 0 then []
    else
      var last := maps[|maps| - 1];
      Remapped(CollectedRanges(maps[..|maps| - 1]), last) + Flatten(last.touched)
  }

  /** The number of spans the steps touched. */
  function TouchedCount(maps: seq<StepMap>): nat
    decreases |maps|
  {
    if |maps| == 0 then 0 else TouchedCount(maps[..|maps| - 1]) + |maps[|maps| - 1].touched|
  }

  /** The collected positions come in pairs, one pair per touched span. */
  lemma {:induction false} CollectedRangesPaired(maps: seq<StepMap>)
    ensures |CollectedRanges(maps)| == 2 * TouchedCount(maps)
    ensures |CollectedRanges(maps)| % 2 == 0
    decreases |maps|
  {
    if |maps| > 0 {
      var prefix := maps[..|maps| - 1];
      CollectedRangesPaired(prefix);
      var earlier := CollectedRanges(prefix);
      var last := maps[|maps| - 1];
      assert |Remapped(earlier, last)| == |earlier|;
      assert |Flatten(last.touched)| == 2 * |last.touched|;
      assert CollectedRanges(maps) == Remapped(earlier, last) + Flatten(last.touched);
    }
  }

  /** The first loop of `wrapDispatchForJoin`: for each step, map the
      positions gathered so far through it, in place, then push the ranges
      it touched. */
  method CollectRanges(maps: seq<StepMap>) returns (ranges: seq<int>)
    ensures ranges == CollectedRanges(maps)
    ensures |ranges| % 2 == 0
  {
    ranges := [];
    var i := 0;
    while i < |maps|
      invariant 0 <= i <= |maps|
      invariant ranges == CollectedRanges(maps[..i])
    {
      var m := maps[i];
      ghost var before := ranges;
      var j := 0;
      while j < |ranges|
        invariant 0 <= j <= |ranges| == |before|
        invariant forall t :: 0 <= t < j ==> ranges[t] == m.mapPos(before[t])
        invariant forall t :: j <= t < |ranges| ==> ranges[t] == before[t]
      {
        ranges := ranges[j := m.mapPos(ranges[j])];
        j := j + 1;
      }
      assert ranges == Remapped(before, m);
      var k := 0;
      while k < |m.touched|
        invariant 0 <= k <= |m.touched|
        invariant ranges == Remapped(before, m) + Flatten(m.touched[..k])
      {
        assert m.touched[..k + 1][..k] == m.touched[..k];
        ranges := ranges + [m.touched[k].from, m.touched[k].to];
        k := k + 1;
      }
      assert m.touched[..k] == m.touched;
      assert maps[..i + 1][..i] == maps[..i];
      i := i + 1;
    }
    assert maps[..i] == maps;
    CollectedRangesPaired(maps);
  }

  /** Where the boundary scan of one range runs: the children of the
      deepest ancestor holding both ends, from child `first` on, the first
      boundary at `start`, as long as boundaries stay at or before `to`. */
  datatype Scan = Scan(parent: Node, first: nat, start: int, to: int)

  predicate ScanValid(s: Scan) {
    s.first <= |s.parent.content|
  }

  /** The boundary after ancestor `d + 1` follows its closing token. */
  lemma AfterIsEnd(p: ResolvedPos, d: nat)
    requires p.Valid() && d < p.Depth()
    ensures p.After(d + 1) == p.End(d + 1) + 1
  {
    assert p.ContainerAt(d + 1);
  }

  /** The boundary after ancestor `d + 1` is the one before the next child
      of ancestor `d`. */
  lemma AfterIsNextBoundary(p: ResolvedPos, d: nat)
    requires p.Valid() && d < p.Depth()
    ensures p.After(d + 1) == p.Start(d) + Prefix(p.Ancestor(d).content, p.Index(d) + 1)
  {
    OnPath(p, d);
    PrefixStep(p.Ancestor(d).content, p.Index(d));
  }

  /** The end of ancestor `d + 1` is the boundary after it in ancestor `d`,
      past the position. */
  lemma AfterChild(p: ResolvedPos, d: nat)
    requires p.Valid() && d < p.Depth()
    ensures p.IndexAfter(d) == p.Index(d) + 1
    ensures p.After(d + 1) == p.Start(d) + Prefix(p.Ancestor(d).content, p.Index(d) + 1)
    ensures p.Pos() < p.After(d + 1)
  {
    AfterIsEnd(p, d);
    var e := d + 1;
    PosInsideAncestors(p, e);
    assert p.Pos() <= p.End(e);
    assert p.After(e) == p.End(e) + 1;
    AfterIsNextBoundary(p, d);
  }

  /** The scan of the range `from..to`, as the library resolves `from`. */
  function ScanOf(p: ResolvedPos, to: int): (s: Scan)
    requires p.Valid()
    ensures ScanValid(s) && s.to == to
    // the deepest ancestor whose content holds `to`, from the child after `from`
    ensures s.parent == p.Ancestor(p.SharedDepth(to)) && s.first == p.IndexAfter(p.SharedDepth(to))
    // the first boundary scanned is the one before child `first`, at or after `from` ...
    ensures p.SharedDepth(to) < p.Depth() || p.TextOffset() == 0 ==>
      s.start == p.Start(p.SharedDepth(to)) + Prefix(s.parent.content, s.first) && p.Pos() <= s.start
    // ... except inside a text node, where it is `from` itself
    ensures p.SharedDepth(to) == p.Depth() && p.TextOffset() > 0 ==> s.start == p.Pos()
  {
    var d := p.SharedDepth(to);
    if d < p.Depth() then
      AfterChild(p, d);
      Scan(p.Ancestor(d), p.IndexAfter(d), p.After(d + 1), to)
    else Scan(p.Ancestor(d), p.IndexAfter(d), p.After(d + 1), to)
  }

  /** The position the scan reaches at child `j`. */
  function ScanPos(s: Scan, j: nat): int
    requires ScanValid(s) && s.first <= j <= |s.parent.content|
  {
    s.start + Prefix(s.parent.content, j) - Prefix(s.parent.content, s.first)
  }

  lemma ScanPosStep(s: Scan, j: nat)
    requires ScanValid(s) && s.first <= j < |s.parent.content|
    ensures ScanPos(s, j + 1) == ScanPos(s, j) + NodeSize(s.parent.content[j])
  {
    PrefixStep(s.parent.content, j);
  }

  lemma ScanPosMono(s: Scan, j: nat, k: nat)
    requires ScanValid(s) && s.first <= j <= k <= |s.parent.content|
    ensures ScanPos(s, j) <= ScanPos(s, k)
  {
    PrefixMono(s.parent.content, j, k);
  }

  /** The scan reaches child `j` while its boundary is within the range. */
  predicate Visited(s: Scan, j: nat) {
    ScanValid(s) && s.first <= j < |s.parent.content| && ScanPos(s, j) <= s.to
  }

  /** Child `j` and the sibling before it have the same type and are joinable. */
  predicate JoinAt(parent: Node, j: nat, isJoinable: (Node, Node) -> bool) {
    && 0 < j < |parent.content|
    && parent.content[j - 1].ntype == parent.content[j].ntype
    && isJoinable(parent.content[j - 1], parent.content[j])
  }

  /** A boundary the scan of `s` records. */
  predicate Hit(s: Scan, j: nat, isJoinable: (Node, Node) -> bool) {
    Visited(s, j) && JoinAt(s.parent, j, isJoinable)
  }

  predicate NoDup(xs: seq<int>) {
    forall a, b :: 0 <= a < b < |xs| ==> xs[a] != xs[b]
  }

  /** `x` is a boundary the scan of `s` records. */
  predicate Recorded(s: Scan, isJoinable: (Node, Node) -> bool, x: int) {
    exists j: nat :: j < |s.parent.content| && Hit(s, j, isJoinable) && ScanPos(s, j) == x
  }

  /** The inner loop of the scan, for one range: record each boundary
      between joinable siblings of the same type, unless already recorded. */
  method ScanRange(s: Scan, isJoinable: (Node, Node) -> bool, joinable: seq<int>) returns (out: seq<int>)
    requires ScanValid(s) && NoDup(joinable)
    ensures |joinable| <= |out| && out[..|joinable|] == joinable
    ensures NoDup(out)
    ensures forall i :: |joinable| <= i < |out| ==> Recorded(s, isJoinable, out[i])
    ensures forall j: nat :: Hit(s, j, isJoinable) ==> ScanPos(s, j) in out
  {
    out := joinable;
    var content := s.parent.content;
    var index := s.first;
    var pos := s.start;
    while pos <= s.to
      invariant s.first <= index <= |content|
      invariant pos == ScanPos(s, index)
      invariant |joinable| <= |out| && out[..|joinable|] == joinable
      invariant NoDup(out)
      invariant forall i :: |joinable| <= i < |out| ==> Recorded(s, isJoinable, out[i])
      invariant forall j: nat :: j < index && Hit(s, j, isJoinable) ==> ScanPos(s, j) in out
      decreases |content| - index
    {
      if index >= |content| {
        break;
      }
      var after := content[index];
      if index > 0 && pos !in out {
        var before := content[index - 1];
        if before.ntype == after.ntype && isJoinable(before, after) {
          assert Hit(s, index, isJoinable);
          assert Recorded(s, isJoinable, pos);
          ghost var previous := out;
          out := out + [pos];
          assert out[..|previous|] == previous;
          assert out[..|joinable|] == previous[..|joinable|];
        }
      }
      ScanPosStep(s, index);
      pos := pos + NodeSize(after);
      index := index + 1;
    }
    forall j: nat | Hit(s, j, isJoinable) ensures ScanPos(s, j) in out {
      if j >= index {
        ScanPosMono(s, index, j);
      }
    }
  }

  /** The scan of the pair of collected positions at `i`. */
  function PairScan(ranges: seq<int>, resolve: int -> ResolvedPos, i: nat): Scan
    requires i + 1 < |ranges| && resolve(ranges[i]).Valid()
  {
    ScanOf(resolve(ranges[i]), ranges[i + 1])
  }

  /** `resolve` acts as `doc.resolve` on the collected positions: each
      resolves to a valid position at that offset, all in one document. */
  predicate Resolvable(ranges: seq<int>, resolve: int -> ResolvedPos) {
    forall i :: 0 <= i < |ranges| ==> ResolvesBeside(resolve, ranges[i], ranges[0])
  }

  /** `x` resolves to a valid position at offset `x`, in the document `y`
      resolves in. */
  predicate ResolvesBeside(resolve: int -> ResolvedPos, x: int, y: int) {
    && resolve(x).Valid() && resolve(x).Pos() == x
    && resolve(y).Valid() && resolve(x).Root() == resolve(y).Root()
  }

  /** `x` is a boundary the scan of the pair at `i` records. */
  predicate JoinPoint(ranges: seq<int>, resolve: int -> ResolvedPos, isJoinable: (Node, Node) -> bool,
                      i: nat, x: int)
    requires Resolvable(ranges, resolve)
  {
    i % 2 == 0 && i + 1 < |ranges| && Recorded(PairScan(ranges, resolve, i), isJoinable, x)
  }

  /** `x` is a boundary the scan of some pair records. */
  predicate IsJoinPoint(ranges: seq<int>, resolve: int -> ResolvedPos, isJoinable: (Node, Node) -> bool, x: int)
    requires Resolvable(ranges, resolve)
  {
    exists i: nat :: i < |ranges| && JoinPoint(ranges, resolve, isJoinable, i, x)
  }

  /** A scan's boundaries, all in `out`, are what it records. */
  lemma RecordedIn(s: Scan, isJoinable: (Node, Node) -> bool, out: seq<int>)
    requires forall j: nat :: Hit(s, j, isJoinable) ==> ScanPos(s, j) in out
    ensures forall x :: Recorded(s, isJoinable, x) ==> x in out
  {
    forall x | Recorded(s, isJoinable, x) ensures x in out {
      var j: nat :| j < |s.parent.content| && Hit(s, j, isJoinable) && ScanPos(s, j) == x;
    }
  }

  /** After scanning the pair at `i`, every recorded position is a join point. */
  lemma ScanPairSound(ranges: seq<int>, resolve: int -> ResolvedPos, isJoinable: (Node, Node) -> bool,
                      i: nat, previous: seq<int>, joinable: seq<int>)
    requires Resolvable(ranges, resolve) && i % 2 == 0 && i + 1 < |ranges|
    requires forall k :: 0 <= k < |previous| ==> IsJoinPoint(ranges, resolve, isJoinable, previous[k])
    requires |previous| <= |joinable| && joinable[..|previous|] == previous
    requires forall k :: |previous| <= k < |joinable| ==> Recorded(PairScan(ranges, resolve, i), isJoinable, joinable[k])
    ensures forall k :: 0 <= k < |joinable| ==> IsJoinPoint(ranges, resolve, isJoinable, joinable[k])
  {
    forall k | 0 <= k < |joinable| ensures IsJoinPoint(ranges, resolve, isJoinable, joinable[k]) {
      if k < |previous| {
        assert joinable[k] == previous[k];
      } else {
        assert JoinPoint(ranges, resolve, isJoinable, i, joinable[k]);
      }
    }
  }

  /** After scanning the pair at `i`, the join points of every pair up to it
      are recorded. */
  lemma ScanPairComplete(ranges: seq<int>, resolve: int -> ResolvedPos, isJoinable: (Node, Node) -> bool,
                         i: nat, previous: seq<int>, joinable: seq<int>)
    requires Resolvable(ranges, resolve) && i % 2 == 0 && i + 1 < |ranges|
    requires forall i': nat, x :: i' < i && JoinPoint(ranges, resolve, isJoinable, i', x) ==> x in previous
    requires |previous| <= |joinable| && joinable[..|previous|] == previous
    requires forall x :: Recorded(PairScan(ranges, resolve, i), isJoinable, x) ==> x in joinable
    ensures forall i': nat, x :: i' < i + 2 && JoinPoint(ranges, resolve, isJoinable, i', x) ==> x in joinable
  {
    forall i': nat, x | i' < i + 2 && JoinPoint(ranges, resolve, isJoinable, i', x)
      ensures x in joinable
    {
      if i' < i {
        assert x in previous;
        var k :| 0 <= k < |previous| && previous[k] == x;
        assert joinable[k] == x;
      } else {
        assert i' == i;
      }
    }
  }

  /** The second loop of `wrapDispatchForJoin`: the joinable boundaries in
      all collected ranges, each recorded once. `resolve` resolves a
      position in the transaction's document. */
  method FindJoinable(ranges: seq<int>, resolve: int -> ResolvedPos, isJoinable: (Node, Node) -> bool)
    returns (joinable: seq<int>)
    requires |ranges| % 2 == 0 && Resolvable(ranges, resolve)
    ensures NoDup(joinable)
    ensures forall k :: 0 <= k < |joinable| ==> IsJoinPoint(ranges, resolve, isJoinable, joinable[k])
    ensures forall i: nat, x :: JoinPoint(ranges, resolve, isJoinable, i, x) ==> x in joinable
  {
    joinable := [];
    var i := 0;
    while i < |ranges|
      invariant 0 <= i <= |ranges| && i % 2 == 0
      invariant NoDup(joinable)
      invariant forall k :: 0 <= k < |joinable| ==> IsJoinPoint(ranges, resolve, isJoinable, joinable[k])
      invariant forall i': nat, x :: i' < i && JoinPoint(ranges, resolve, isJoinable, i', x) ==> x in joinable
    {
      var previous := joinable;
      var sc := PairScan(ranges, resolve, i);
      joinable := ScanRange(sc, isJoinable, joinable);
      ScanPairSound(ranges, resolve, isJoinable, i, previous, joinable);
      RecordedIn(sc, isJoinable, joinable);
      ScanPairComplete(ranges, resolve, isJoinable, i, previous, joinable);
      i := i + 2;
    }
  }

  // ---- sorting: `joinable.sort((a, b) => a - b)` ----

  /** Each position is at most the next one. */
  predicate Sorted(xs: seq<int>) {
    forall i :: 0 < i < |xs| ==> xs[i - 1] <= xs[i]
  }

  predicate StrictlyDescending(xs: seq<int>) {
    forall a, b :: 0 <= a < b < |xs| ==> xs[a] > xs[b]
  }

  /** Insert `x` before the first element it does not exceed. */
  function Insert(x: int, xs: seq<int>): (r: seq<int>)
    ensures |r| == |xs| + 1 && (r[0] == x || (|xs| > 0 && r[0] == xs[0]))
    ensures multiset(r) == multiset(xs) + multiset{x}
    ensures Sorted(xs) ==> Sorted(r)
    decreases |xs|
  {
    if |xs| == 0 then [x]
    else if x <= xs[0] then [x] + xs
    else
      assert xs == [xs[0]] + xs[1..];
      [xs[0]] + Insert(x, xs[1..])
  }

  /** Ascending numeric order, as the comparator `a - b` sorts: the result
      is ordered and holds each position as often as the input does. */
  function SortAscending(xs: seq<int>): (r: seq<int>)
    ensures |r| == |xs|
    ensures Sorted(r)
    ensures multiset(r) == multiset(xs)
    decreases |xs|
  {
    if |xs| == 0 then []
    else
      assert xs == [xs[0]] + xs[1..];
      Insert(xs[0], SortAscending(xs[1..]))
  }

  lemma {:induction false} NoDupCounts(xs: seq<int>, v: int)
    requires NoDup(xs)
    ensures multiset(xs)[v] <= 1
    decreases |xs|
  {
    if |xs| > 0 {
      assert xs == [xs[0]] + xs[1..];
      assert NoDup(xs[1..]);
      NoDupCounts(xs[1..], v);
      if v == xs[0] {
        assert v !in xs[1..];
      }
    }
  }

  lemma RepeatCounts(xs: seq<int>, a: nat, b: nat)
    requires a < b < |xs| && xs[a] == xs[b]
    ensures multiset(xs)[xs[a]] >= 2
  {
    assert xs == xs[..a] + [xs[a]] + xs[a + 1..b] + [xs[b]] + xs[b + 1..];
  }

  /** Strictly increasing neighbours make the whole sequence strictly increasing. */
  lemma {:induction false} StepsIncrease(ys: seq<int>, a: nat, b: nat)
    requires StepsUp(ys)
    requires a < b < |ys|
    ensures ys[a] < ys[b]
    decreases b - a
  {
    if b > a + 1 {
      StepsIncrease(ys, a, b - 1);
    }
  }

  /** Each element is below the next. */
  predicate StepsUp(ys: seq<int>) {
    forall i :: 0 < i < |ys| ==> ys[i - 1] < ys[i]
  }

  /** Sorted neighbours of positions recorded once differ. */
  lemma NeighboursDistinct(xs: seq<int>)
    requires NoDup(xs)
    ensures StepsUp(SortAscending(xs))
  {
    var ys := SortAscending(xs);
    forall i | 0 < i < |ys| ensures ys[i - 1] < ys[i] {
      NoRepeat(xs, ys, i);
    }
  }

  /** A permutation of positions recorded once repeats none of them. */
  lemma NoRepeat(xs: seq<int>, ys: seq<int>, i: nat)
    requires NoDup(xs) && multiset(ys) == multiset(xs) && 0 < i < |ys|
    ensures ys[i - 1] != ys[i]
  {
    if ys[i - 1] == ys[i] {
      RepeatCounts(ys, i - 1, i);
      NoDupCounts(xs, ys[i]);
    }
  }

  /** Sorting positions recorded once gives strictly increasing positions. */
  lemma SortedDistinct(xs: seq<int>)
    requires NoDup(xs)
    ensures Ascending(SortAscending(xs))
  {
    var ys := SortAscending(xs);
    NeighboursDistinct(xs);
    forall a, b | 0 <= a < b < |ys| ensures ys[a] < ys[b] {
      StepsIncrease(ys, a, b);
    }
  }

  // ---- joining from the last position down ----

  /** The joins made before position `v` is considered: the prefix of a
      descending join sequence above `v`. */
  function Above(joined: seq<int>, v: int): seq<int>
    decreases |joined|
  {
    if |joined| == 0 || joined[0] <= v then [] else [joined[0]] + Above(joined[1..], v)
  }

  lemma {:induction false} AboveAll(joined: seq<int>, v: int)
    requires forall k :: 0 <= k < |joined| ==> joined[k] > v
    ensures Above(joined, v) == joined
    decreases |joined|
  {
    if |joined| > 0 {
      AboveAll(joined[1..], v);
      assert joined == [joined[0]] + joined[1..];
    }
  }

  lemma {:induction false} AboveAppend(joined: seq<int>, x: int, v: int)
    requires x <= v
    ensures Above(joined + [x], v) == Above(joined, v)
    decreases |joined|
  {
    if |joined| > 0 && joined[0] > v {
      AboveAppend(joined[1..], x, v);
      assert (joined + [x])[1..] == joined[1..] + [x];
    }
  }

  /** Each join was allowed after the joins made before it. */
  predicate Admitted(joined: seq<int>, canJoinNow: (seq<int>, int) -> bool) {
    forall k :: 0 <= k < |joined| ==> canJoinNow(joined[..k], joined[k])
  }

  /** Every position from `i` on was tried after exactly the joins above it,
      and joined exactly when that was allowed. */
  predicate Tried(sorted: seq<int>, i: nat, joined: seq<int>, canJoinNow: (seq<int>, int) -> bool) {
    forall m :: i <= m < |sorted| ==>
      (sorted[m] in joined <==> canJoinNow(Above(joined, sorted[m]), sorted[m]))
  }

  predicate Ascending(sorted: seq<int>) {
    forall a, b :: 0 <= a < b < |sorted| ==> sorted[a] < sorted[b]
  }

  /** Every joined position is one of the positions from `i` on. */
  predicate Within(joined: seq<int>, sorted: seq<int>, i: nat) {
    forall k :: 0 <= k < |joined| ==> exists m :: i <= m < |sorted| && sorted[m] == joined[k]
  }

  /** The positions joined so far lie above every position still to try. */
  lemma JoinedAbove(sorted: seq<int>, i: nat, joined: seq<int>)
    requires Ascending(sorted) && 0 < i <= |sorted| && Within(joined, sorted, i)
    ensures forall k :: 0 <= k < |joined| ==> joined[k] > sorted[i - 1]
  {
    forall k | 0 <= k < |joined| ensures joined[k] > sorted[i - 1] {
      var v := joined[k];
      assert exists m :: i <= m < |sorted| && sorted[m] == v;
      var m :| i <= m < |sorted| && sorted[m] == joined[k];
      assert sorted[i - 1] < sorted[m];
    }
  }

  /** Appending a join below every position already tried keeps them tried. */
  lemma TriedAppend(sorted: seq<int>, i: nat, joined: seq<int>, canJoinNow: (seq<int>, int) -> bool)
    requires Ascending(sorted) && 0 < i <= |sorted|
    requires Tried(sorted, i, joined, canJoinNow)
    ensures Tried(sorted, i, joined + [sorted[i - 1]], canJoinNow)
  {
    var x := sorted[i - 1];
    forall m | i <= m < |sorted|
      ensures sorted[m] in joined + [x] <==> canJoinNow(Above(joined + [x], sorted[m]), sorted[m])
    {
      AboveAppend(joined, x, sorted[m]);
    }
  }

  /** Appending the next position keeps the joins within the tried positions. */
  lemma WithinAppend(sorted: seq<int>, i: nat, joined: seq<int>)
    requires 0 < i <= |sorted| && Within(joined, sorted, i)
    ensures Within(joined + [sorted[i - 1]], sorted, i - 1)
  {
    var next := joined + [sorted[i - 1]];
    forall k | 0 <= k < |next| ensures exists m :: i - 1 <= m < |sorted| && sorted[m] == next[k] {
      if k == |joined| {
        assert sorted[i - 1] == next[k];
      } else {
        assert next[k] == joined[k];
        assert exists m :: i <= m < |sorted| && sorted[m] == joined[k];
      }
    }
  }

  /** Appending an allowed join below all earlier ones keeps the joins
      descending and admitted. */
  lemma AdmittedAppend(joined: seq<int>, x: int, canJoinNow: (seq<int>, int) -> bool)
    requires StrictlyDescending(joined) && Admitted(joined, canJoinNow)
    requires forall k :: 0 <= k < |joined| ==> joined[k] > x
    requires canJoinNow(joined, x)
    ensures StrictlyDescending(joined + [x]) && Admitted(joined + [x], canJoinNow)
  {
    var next := joined + [x];
    forall k | 0 <= k < |next| ensures canJoinNow(next[..k], next[k]) {
      if k < |joined| {
        assert next[..k] == joined[..k];
      } else {
        assert next[..k] == joined;
      }
    }
  }

  /** The position at `i - 1`, once tried, joins the tried ones. */
  lemma TriedExtend(sorted: seq<int>, i: nat, joined: seq<int>, canJoinNow: (seq<int>, int) -> bool)
    requires 0 < i <= |sorted| && Tried(sorted, i, joined, canJoinNow)
    requires sorted[i - 1] in joined <==> canJoinNow(Above(joined, sorted[i - 1]), sorted[i - 1])
    ensures Tried(sorted, i - 1, joined, canJoinNow)
  {
  }

  /** A turn of the descending loop that joins keeps its invariant. */
  lemma JoinTurnJoins(sorted: seq<int>, i: nat, joined: seq<int>, canJoinNow: (seq<int>, int) -> bool)
    requires Ascending(sorted) && 0 < i <= |sorted|
    requires StrictlyDescending(joined) && Admitted(joined, canJoinNow) && Within(joined, sorted, i)
    requires Tried(sorted, i, joined, canJoinNow)
    requires canJoinNow(joined, sorted[i - 1])
    ensures var next := joined + [sorted[i - 1]];
      && StrictlyDescending(next) && Admitted(next, canJoinNow) && Within(next, sorted, i - 1)
      && Tried(sorted, i - 1, next, canJoinNow)
  {
    var x := sorted[i - 1];
    var next := joined + [x];
    JoinedAbove(sorted, i, joined);
    AdmittedAppend(joined, x, canJoinNow);
    WithinAppend(sorted, i, joined);
    TriedAppend(sorted, i, joined, canJoinNow);
    AboveAll(joined, x);
    AboveAppend(joined, x, x);
    assert next[|joined|] == x;
    TriedExtend(sorted, i, next, canJoinNow);
  }

  /** A turn of the descending loop that does not join keeps its invariant. */
  lemma JoinTurnSkips(sorted: seq<int>, i: nat, joined: seq<int>, canJoinNow: (seq<int>, int) -> bool)
    requires Ascending(sorted) && 0 < i <= |sorted|
    requires Within(joined, sorted, i) && Tried(sorted, i, joined, canJoinNow)
    requires !canJoinNow(joined, sorted[i - 1])
    ensures Within(joined, sorted, i - 1) && Tried(sorted, i - 1, joined, canJoinNow)
  {
    var x := sorted[i - 1];
    JoinedAbove(sorted, i, joined);
    AboveAll(joined, x);
    assert x !in joined by {
      forall k | 0 <= k < |joined| ensures joined[k] != x {
      }
    }
    TriedExtend(sorted, i, joined, canJoinNow);
    assert Within(joined, sorted, i - 1) by {
      forall k | 0 <= k < |joined| ensures exists m :: i - 1 <= m < |sorted| && sorted[m] == joined[k] {
        var v := joined[k];
        assert exists m :: i <= m < |sorted| && sorted[m] == v;
      }
    }
  }

  /** The last loop of `wrapDispatchForJoin`: walk the sorted positions from
      the last down, joining where `canJoinNow(done, pos)` holds, `done`
      being the joins made so far (the document they produced decides). */
  method JoinDescending(sorted: seq<int>, canJoinNow: (seq<int>, int) -> bool) returns (joined: seq<int>)
    requires Ascending(sorted)
    ensures StrictlyDescending(joined)
    ensures Within(joined, sorted, 0) && Admitted(joined, canJoinNow)
    // every position was tried, after exactly the joins above it
    ensures Tried(sorted, 0, joined, canJoinNow)
  {
    joined := [];
    var i := |sorted|;
    while i > 0
      invariant 0 <= i <= |sorted|
      invariant StrictlyDescending(joined) && Admitted(joined, canJoinNow)
      invariant Within(joined, sorted, i) && Tried(sorted, i, joined, canJoinNow)
    {
      if canJoinNow(joined, sorted[i - 1]) {
        JoinTurnJoins(sorted, i, joined, canJoinNow);
        joined := joined + [sorted[i - 1]];
      } else {
        JoinTurnSkips(sorted, i, joined, canJoinNow);
      }
      i := i - 1;
    }
  }

  /** `wrapDispatchForJoin(dispatch, isJoinable)` for one transaction: the
      positions joined before the transaction is dispatched. A transaction
      that is not generic is dispatched as it is. */
  method WrapDispatchForJoin(isGeneric: bool, maps: seq<StepMap>, resolve: int -> ResolvedPos,
                             isJoinable: (Node, Node) -> bool, canJoinNow: (seq<int>, int) -> bool)
    returns (joined: seq<int>)
    requires Resolvable(CollectedRanges(maps), resolve)
    ensures !isGeneric ==> joined == []
    ensures StrictlyDescending(joined) && Admitted(joined, canJoinNow)
    ensures forall k :: 0 <= k < |joined| ==> IsJoinPoint(CollectedRanges(maps), resolve, isJoinable, joined[k])
    // every join point of the touched ranges was tried, after exactly the
    // joins above it, and joined exactly when that was allowed
    ensures isGeneric ==> forall x :: IsJoinPoint(CollectedRanges(maps), resolve, isJoinable, x) ==>
      (x in joined <==> canJoinNow(Above(joined, x), x))
  {
    if !isGeneric {
      return [];
    }
    var ranges := CollectRanges(maps);
    var joinable := FindJoinable(ranges, resolve, isJoinable);
    var sorted := SortAscending(joinable);
    SortedDistinct(joinable);
    joined := JoinDescending(sorted, canJoinNow);
    forall k | 0 <= k < |joined| ensures IsJoinPoint(ranges, resolve, isJoinable, joined[k]) {
      var m :| 0 <= m < |sorted| && sorted[m] == joined[k];
      assert joined[k] in multiset(sorted);
      assert joined[k] in joinable;
      var t :| 0 <= t < |joinable| && joinable[t] == joined[k];
    }
    forall x | IsJoinPoint(ranges, resolve, isJoinable, x)
      ensures x in joined <==> canJoinNow(Above(joined, x), x)
    {
      var i: nat :| i < |ranges| && JoinPoint(ranges, resolve, isJoinable, i, x);
      assert x in multiset(joinable);
      assert x in sorted;
      var m :| 0 <= m < |sorted| && sorted[m] == x;
    }
  }

  /** `autoJoin(command, names)`: given node type names instead of a
      predicate, two nodes are joinable when the first one's type name is
      listed. */
  function NamesJoinable(names: seq<string>): (r: (Node, Node) -> bool)
    // only the first node's type name is looked up
    ensures forall before: Node, after: Node :: r(before, after) <==> before.ntype.name in names
  {
    (before: Node, after: Node) => before.ntype.name in names
  }

  /** With type names, a recorded boundary lies between two nodes whose
      (equal) type name is listed: checking only the first suffices. */
  lemma NamesJoinableBoth(parent: Node, j: nat, names: seq<string>)
    requires JoinAt(parent, j, NamesJoinable(names))
    ensures parent.content[j - 1].ntype.name in names && parent.content[j].ntype.name in names
  {
  }
}

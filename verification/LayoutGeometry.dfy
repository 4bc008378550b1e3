/** Rectangles of a layout: exact tiling, and moving the focus across it. */
module LayoutGeometry {
  import opened Options
  import opened Screen
  import opened LayoutTree

  datatype PaneInfo = PaneInfo(id: PaneId, rect: Rect, isFocused: bool)

  predicate Contains(r: Rect, x: int, y: int) {
    r.x <= x < r.x + r.width && r.y <= y < r.y + r.height
  }

  /** Round half away from zero, then the saturating cast to u16. */
  function RoundToU16(v: real): (n: nat)
    ensures n <= U16_MAX
  {
    if v < 0.0 then 0 else Min((v + 0.5).Floor, U16_MAX)
  }

  function Scaled(len: real, ratio: real): real {
    len * ratio
  }

  function FirstLen(len: nat, ratio: real): nat {
    RoundToU16(Scaled(len as real, ratio))
  }

  function SecondLen(len: nat, ratio: real): nat {
    if FirstLen(len, ratio) <= len then len - FirstLen(len, ratio) else 0
  }

  function SplitRect(area: Rect, direction: Direction, ratio: real): (Rect, Rect) {
    match direction
    case Horizontal =>
      var w := FirstLen(area.width, ratio);
      (Rect(area.x, area.y, w, area.height), Rect(area.x + w, area.y, SecondLen(area.width, ratio), area.height))
    case Vertical =>
      var h := FirstLen(area.height, ratio);
      (Rect(area.x, area.y, area.width, h), Rect(area.x, area.y + h, area.width, SecondLen(area.height, ratio)))
  }

  function PanesOf(node: Node, area: Rect, focus: PaneId): (panes: seq<PaneInfo>)
    ensures |panes| == |PaneIds(node)|
  {
    match node
    case Pane(id) => [PaneInfo(id, area, id == focus)]
    case Split(direction, ratio, first, second) =>
      var (a, b) := SplitRect(area, direction, ratio);
      PanesOf(first, a, focus) + PanesOf(second, b, focus)
  }

  /** Collecting into a growing vector, as the code does. */
  method CollectPanes(node: Node, area: Rect, focus: PaneId, result: seq<PaneInfo>) returns (result': seq<PaneInfo>)
    ensures result' == result + PanesOf(node, area, focus)
    decreases node
  {
    match node
    case Pane(id) =>
      result' := result + [PaneInfo(id, area, id == focus)];
    case Split(direction, ratio, first, second) =>
      var (a, b) := SplitRect(area, direction, ratio);
      result' := CollectPanes(first, a, focus, result);
      result' := CollectPanes(second, b, focus, result');
  }

  // ----- Tiling -----

  lemma ScaledBelow(len: real, ratio: real)
    requires 0.0 <= ratio <= 1.0 && 0.0 <= len
    ensures 0.0 <= Scaled(len, ratio) <= len
  {}

  lemma RoundBelow(v: real, len: nat)
    requires 0.0 <= v <= len as real
    ensures RoundToU16(v) <= len
  {
    assert (v + 0.5).Floor as real <= v + 0.5;
  }

  lemma FirstLenFits(len: nat, ratio: real)
    requires 0.0 <= ratio <= 1.0 && len <= U16_MAX
    ensures FirstLen(len, ratio) <= len && FirstLen(len, ratio) + SecondLen(len, ratio) == len
  {
    hide RoundToU16;
    hide Scaled;
    ScaledBelow(len as real, ratio);
    RoundBelow(Scaled(len as real, ratio), len);
  }

  /** The first share is the whole number nearest to the requested one, ties going up. */
  lemma FirstShareIsNearest(len: nat, ratio: real)
    requires 0.0 <= ratio <= 1.0 && len <= U16_MAX
    ensures var n := FirstLen(len, ratio) as real; n - 0.5 <= len as real * ratio < n + 0.5
  {
    var v := Scaled(len as real, ratio);
    ScaledBelow(len as real, ratio);
    assert v < (v + 0.5).Floor as real + 0.5;
    assert v + 0.5 < (len + 1) as real;
  }

  lemma ShareGrowsWithRatio(len: nat, a: real, b: real)
    requires a <= b
    ensures FirstLen(len, a) <= FirstLen(len, b)
  {
    assert Scaled(len as real, a) <= Scaled(len as real, b);
  }

  lemma SplitRectTiles(area: Rect, direction: Direction, ratio: real)
    requires 0.0 <= ratio <= 1.0 && EdgesFit(area)
    ensures var (a, b) := SplitRect(area, direction, ratio);
            && EdgesFit(a) && EdgesFit(b)
            && (forall x, y :: Contains(area, x, y) <==> Contains(a, x, y) || Contains(b, x, y))
            && (forall x, y :: !(Contains(a, x, y) && Contains(b, x, y)))
            && a.width * a.height + b.width * b.height == area.width * area.height
  {
    FirstLenFits(area.width, ratio);
    FirstLenFits(area.height, ratio);
    hide FirstLen;
    hide SecondLen;
    var (a, b) := SplitRect(area, direction, ratio);
    if direction == Horizontal {
      ProductSplits(a.width, b.width, area.height);
    } else {
      ProductSplits(a.height, b.height, area.width);
    }
  }

  lemma ProductSplits(x: nat, y: nat, m: nat)
    ensures x * m + y * m == (x + y) * m && m * x + m * y == m * (x + y)
  {}

  function TotalArea(panes: seq<PaneInfo>): nat {
    if panes == [] then 0 else panes[0].rect.width * panes[0].rect.height + TotalArea(panes[1..])
  }

  lemma {:induction false} TotalAreaAppend(a: seq<PaneInfo>, b: seq<PaneInfo>)
    ensures TotalArea(a + b) == TotalArea(a) + TotalArea(b)
    decreases |a|
  {
    if a == [] {
      assert a + b == b;
    } else {
      TotalAreaAppend(a[1..], b);
      assert (a + b)[1..] == a[1..] + b;
    }
  }

  predicate Owns(panes: seq<PaneInfo>, i: int, x: int, y: int) {
    0 <= i < |panes| && Contains(panes[i].rect, x, y)
  }

  /** The pane that owns a cell. */
  function OwnerOf(node: Node, area: Rect, x: int, y: int): nat {
    match node
    case Pane(_) => 0
    case Split(direction, ratio, first, second) =>
      var (a, b) := SplitRect(area, direction, ratio);
      if Contains(a, x, y) then OwnerOf(first, a, x, y) else CountPanes(first) + OwnerOf(second, b, x, y)
  }

  /** Every cell of the area lies in exactly one pane, and no pane reaches outside. */
  lemma {:induction false} TilesExactly(node: Node, area: Rect, focus: PaneId, x: int, y: int)
    requires HasRatiosIn(node, 0.0, 1.0) && EdgesFit(area)
    ensures forall i ::
              Owns(PanesOf(node, area, focus), i, x, y) <==> Contains(area, x, y) && i == OwnerOf(node, area, x, y)
  {
    match node
    case Pane(_) =>
    case Split(direction, ratio, first, second) =>
      var (a, b) := SplitRect(area, direction, ratio);
      SplitRectTiles(area, direction, ratio);
      TilesExactly(first, a, focus, x, y);
      TilesExactly(second, b, focus, x, y);
      var p, q := PanesOf(first, a, focus), PanesOf(second, b, focus);
      forall i
        ensures Owns(p + q, i, x, y) <==> Owns(p, i, x, y) || Owns(q, i - |p|, x, y)
      {}
  }

  lemma {:induction false} AreasSumUp(node: Node, area: Rect, focus: PaneId)
    requires HasRatiosIn(node, 0.0, 1.0) && EdgesFit(area)
    ensures TotalArea(PanesOf(node, area, focus)) == area.width * area.height
  {
    match node
    case Pane(_) =>
      assert TotalArea(PanesOf(node, area, focus)[1..]) == 0;
    case Split(direction, ratio, first, second) =>
      var (a, b) := SplitRect(area, direction, ratio);
      SplitRectTiles(area, direction, ratio);
      AreasSumUp(first, a, focus);
      AreasSumUp(second, b, focus);
      TotalAreaAppend(PanesOf(first, a, focus), PanesOf(second, b, focus));
  }

  lemma {:induction false} PanesInIdOrder(node: Node, area: Rect, focus: PaneId)
    ensures forall i :: 0 <= i < |PaneIds(node)| ==>
              PanesOf(node, area, focus)[i].id == PaneIds(node)[i]
                  && PanesOf(node, area, focus)[i].isFocused == (PaneIds(node)[i] == focus)
  {
    if node.Split? {
      var (a, b) := SplitRect(area, node.direction, node.ratio);
      PanesInIdOrder(node.first, a, focus);
      PanesInIdOrder(node.second, b, focus);
    }
  }

  lemma {:induction false} PanesFit(node: Node, area: Rect, focus: PaneId)
    requires HasRatiosIn(node, 0.0, 1.0) && EdgesFit(area)
    ensures forall i :: 0 <= i < |PaneIds(node)| ==> EdgesFit(PanesOf(node, area, focus)[i].rect)
  {
    if node.Split? {
      var (a, b) := SplitRect(area, node.direction, node.ratio);
      SplitRectTiles(area, node.direction, node.ratio);
      PanesFit(node.first, a, focus);
      PanesFit(node.second, b, focus);
    }
  }

  lemma {:induction false} SplitAbsent(node: Node, target: PaneId, direction: Direction, newId: PaneId, ratio: real)
    requires target !in PaneIds(node)
    ensures SplitAt(node, target, direction, newId, ratio) == node
  {
    if node.Split? {
      SplitAbsent(node.first, target, direction, newId, ratio);
      SplitAbsent(node.second, target, direction, newId, ratio);
    }
  }

  /** The listing with pane `i` replaced by the two halves of its rectangle. */
  function Divided(panes: seq<PaneInfo>, i: nat, focus: PaneId, direction: Direction,
                   newId: PaneId, ratio: real): seq<PaneInfo>
    requires i < |panes|
  {
    var (a, b) := SplitRect(panes[i].rect, direction, ratio);
    panes[..i] + [panes[i].(rect := a), PaneInfo(newId, b, newId == focus)] + panes[i + 1..]
  }

  lemma DividedAppend(x: seq<PaneInfo>, y: seq<PaneInfo>, i: nat, focus: PaneId,
                      direction: Direction, newId: PaneId, ratio: real)
    requires i < |x| + |y|
    ensures Divided(x + y, i, focus, direction, newId, ratio)
            == if i < |x| then Divided(x, i, focus, direction, newId, ratio) + y
               else x + Divided(y, i - |x|, focus, direction, newId, ratio)
  {
    hide SplitRect;
    var all := x + y;
    if i < |x| {
      assert all[i] == x[i] && all[..i] == x[..i] && all[i + 1..] == x[i + 1..] + y;
    } else {
      var j := i - |x|;
      assert all[i] == y[j] && all[..i] == x + y[..j] && all[i + 1..] == y[j + 1..];
    }
  }

  lemma PanesUnfold(d: Direction, r: real, first: Node, second: Node, area: Rect, focus: PaneId)
    ensures var cut := SplitRect(area, d, r);
            PanesOf(Split(d, r, first, second), area, focus)
            == PanesOf(first, cut.0, focus) + PanesOf(second, cut.1, focus)
  {
    hide SplitRect;
  }

  lemma DistinctHalves(left: seq<PaneId>, right: seq<PaneId>)
    requires IsDistinct(left + right)
    ensures IsDistinct(left) && IsDistinct(right)
    ensures forall id :: id in left ==> id !in right
  {
    var ids := left + right;
    assert forall j :: 0 <= j < |left| ==> left[j] == ids[j];
    assert forall j :: 0 <= j < |right| ==> right[j] == ids[|left| + j];
  }

  /** Splitting a pane cuts its own rectangle in two, first the old pane and then the new one,
      and moves no other pane. */
  lemma {:induction false} SplitDividesTarget(node: Node, area: Rect, focus: PaneId, i: nat,
                                              direction: Direction, newId: PaneId, ratio: real)
    requires IsDistinct(PaneIds(node)) && i < |PaneIds(node)|
    ensures PanesOf(SplitAt(node, PaneIds(node)[i], direction, newId, ratio), area, focus)
            == Divided(PanesOf(node, area, focus), i, focus, direction, newId, ratio)
  {
    hide Divided;
    hide SplitRect;
    match node
    case Pane(id) =>
      DividedPane(id, area, focus, direction, newId, ratio);
    case Split(d, r, first, second) =>
      var cut := SplitRect(area, d, r);
      var left, right := PaneIds(first), PaneIds(second);
      var target := (left + right)[i];
      DistinctHalves(left, right);
      hide IsDistinct;
      PanesUnfold(d, r, first, second, area, focus);
      DividedAppend(PanesOf(first, cut.0, focus), PanesOf(second, cut.1, focus), i, focus, direction, newId, ratio);
      if i < |left| {
        SplitDividesTarget(first, cut.0, focus, i, direction, newId, ratio);
        SplitAbsent(second, target, direction, newId, ratio);
        PanesUnfold(d, r, SplitAt(first, target, direction, newId, ratio), second, area, focus);
      } else {
        SplitDividesTarget(second, cut.1, focus, i - |left|, direction, newId, ratio);
        SplitAbsent(first, target, direction, newId, ratio);
        PanesUnfold(d, r, first, SplitAt(second, target, direction, newId, ratio), area, focus);
      }
      hide PanesOf;
  }

  lemma DividedPane(id: PaneId, area: Rect, focus: PaneId, direction: Direction, newId: PaneId, ratio: real)
    ensures PanesOf(SplitAt(Pane(id), id, direction, newId, ratio), area, focus)
            == Divided(PanesOf(Pane(id), area, focus), 0, focus, direction, newId, ratio)
  {
    hide SplitRect;
    var (a, b) := SplitRect(area, direction, ratio);
    var one := PaneInfo(id, area, id == focus);
    assert [one][..0] == [] && [one][1..] == [];
  }

  /** Swapping two panes exchanges their rectangles and touches no other. */
  lemma {:induction false} SwapExchangesRects(node: Node, area: Rect, focus: PaneId, a: PaneId, b: PaneId)
    ensures |PaneIds(SwapPaneIds(node, a, b))| == |PaneIds(node)|
    ensures forall i :: 0 <= i < |PaneIds(node)| ==>
              && PanesOf(SwapPaneIds(node, a, b), area, focus)[i].rect == PanesOf(node, area, focus)[i].rect
              && PanesOf(SwapPaneIds(node, a, b), area, focus)[i].id == SwapId(PanesOf(node, area, focus)[i].id, a, b)
  {
    SwapIds(node, a, b);
    if node.Split? {
      var (p, q) := SplitRect(area, node.direction, node.ratio);
      SwapExchangesRects(node.first, p, focus, a, b);
      SwapExchangesRects(node.second, q, focus, a, b);
    }
  }

  // ----- Directional navigation -----

  datatype NavDirection = Left | Right | Up | Down

  function Saturate(v: int): nat {
    Max(0, Min(v, U16_MAX))
  }

  predicate RangesOverlap(aStart: nat, aLen: nat, bStart: nat, bLen: nat) {
    aStart < bStart + bLen && aStart + aLen > bStart
  }

  function RangeOverlapAmount(aStart: nat, aLen: nat, bStart: nat, bLen: nat): nat {
    Max(0, Min(Saturate(aStart + aLen), Saturate(bStart + bLen)) - Max(aStart, bStart))
  }

  function RangeCenterDistance(aStart: nat, aLen: nat, bStart: nat, bLen: nat): nat {
    var a, b := Saturate(Saturate(aStart * 2) + aLen), Saturate(Saturate(bStart * 2) + bLen);
    if a < b then b - a else a - b
  }

  predicate IsAcross(r: Rect, f: Rect, nav: NavDirection) {
    match nav
    case Left => r.x + r.width <= f.x && RangesOverlap(r.y, r.height, f.y, f.height)
    case Right => r.x >= f.x + f.width && RangesOverlap(r.y, r.height, f.y, f.height)
    case Up => r.y + r.height <= f.y && RangesOverlap(r.x, r.width, f.x, f.width)
    case Down => r.y >= f.y + f.height && RangesOverlap(r.x, r.width, f.x, f.width)
  }

  function EdgeDistance(r: Rect, f: Rect, nav: NavDirection): nat {
    match nav
    case Left => Max(0, f.x - (r.x + r.width))
    case Right => Max(0, r.x - (f.x + f.width))
    case Up => Max(0, f.y - (r.y + r.height))
    case Down => Max(0, r.y - (f.y + f.height))
  }

  function Overlap(r: Rect, f: Rect, nav: NavDirection): nat {
    match nav
    case Left => RangeOverlapAmount(r.y, r.height, f.y, f.height)
    case Right => RangeOverlapAmount(r.y, r.height, f.y, f.height)
    case Up => RangeOverlapAmount(r.x, r.width, f.x, f.width)
    case Down => RangeOverlapAmount(r.x, r.width, f.x, f.width)
  }

  function CenterDistance(r: Rect, f: Rect, nav: NavDirection): nat {
    match nav
    case Left => RangeCenterDistance(r.y, r.height, f.y, f.height)
    case Right => RangeCenterDistance(r.y, r.height, f.y, f.height)
    case Up => RangeCenterDistance(r.x, r.width, f.x, f.width)
    case Down => RangeCenterDistance(r.x, r.width, f.x, f.width)
  }

  predicate IsCandidate(p: PaneInfo, focused: PaneInfo, nav: NavDirection) {
    p.id != focused.id && IsAcross(p.rect, focused.rect, nav)
  }

  /** Strictly better: nearer edge, then more overlap, then nearer centre. */
  predicate IsBetter(p: Rect, q: Rect, f: Rect, nav: NavDirection) {
    || EdgeDistance(p, f, nav) < EdgeDistance(q, f, nav)
    || (EdgeDistance(p, f, nav) == EdgeDistance(q, f, nav)
        && (|| Overlap(p, f, nav) > Overlap(q, f, nav)
            || (Overlap(p, f, nav) == Overlap(q, f, nav) && CenterDistance(p, f, nav) < CenterDistance(q, f, nav))))
  }

  /** Index of the best candidate among the first `n` panes; of equals the earliest. */
  function BestIndex(focused: PaneInfo, nav: NavDirection, panes: seq<PaneInfo>, n: nat): (r: Option<nat>)
    requires n <= |panes|
    ensures r.Some? ==> r.value < n && IsCandidate(panes[r.value], focused, nav)
    ensures forall i :: 0 <= i < n && IsCandidate(panes[i], focused, nav) ==>
              r.Some? && !IsBetter(panes[i].rect, panes[r.value].rect, focused.rect, nav)
              && (i < r.value ==> IsBetter(panes[r.value].rect, panes[i].rect, focused.rect, nav))
  {
    if n == 0 then None
    else
      var best := BestIndex(focused, nav, panes, n - 1);
      if !IsCandidate(panes[n - 1], focused, nav) then best
      else if best.None? || IsBetter(panes[n - 1].rect, panes[best.value].rect, focused.rect, nav) then Some(n - 1)
      else best
  }

  function FindInDirection(focused: PaneInfo, nav: NavDirection, panes: seq<PaneInfo>): Option<PaneId> {
    match BestIndex(focused, nav, panes, |panes|)
    case None => None
    case Some(i) => Some(panes[i].id)
  }

  predicate TouchesEdge(r: Rect, area: Rect, nav: NavDirection) {
    match nav
    case Left => r.x <= area.x
    case Right => area.x + area.width <= r.x + r.width
    case Up => r.y <= area.y
    case Down => area.y + area.height <= r.y + r.height
  }

  predicate IsEmptyRect(r: Rect) {
    r.width == 0 || r.height == 0
  }

  /** The cell just outside the focused rectangle, and the one just inside it. */
  function OutsideCell(f: Rect, nav: NavDirection): (int, int) {
    match nav
    case Left => (f.x - 1, f.y)
    case Right => (f.x + f.width, f.y)
    case Up => (f.x, f.y - 1)
    case Down => (f.x, f.y + f.height)
  }

  function InsideCell(f: Rect, nav: NavDirection): (int, int) {
    match nav
    case Left => (f.x, f.y)
    case Right => (f.x + f.width - 1, f.y)
    case Up => (f.x, f.y)
    case Down => (f.x, f.y + f.height - 1)
  }

  /** A rectangle with the outside cell but not the inside one abuts the focused one. */
  lemma AcrossTheEdge(r: Rect, f: Rect, nav: NavDirection)
    requires !IsEmptyRect(f) && EdgesFit(f) && EdgesFit(r)
    requires Contains(r, OutsideCell(f, nav).0, OutsideCell(f, nav).1)
    requires !Contains(r, InsideCell(f, nav).0, InsideCell(f, nav).1)
    ensures IsAcross(r, f, nav) && EdgeDistance(r, f, nav) == 0 && Overlap(r, f, nav) > 0
  {}

  /** A pane lies within the area, unless it is empty. */
  lemma PaneWithin(node: Node, area: Rect, focus: PaneId, k: nat)
    requires HasRatiosIn(node, 0.0, 1.0) && EdgesFit(area) && k < |PaneIds(node)|
    requires !IsEmptyRect(PanesOf(node, area, focus)[k].rect)
    ensures var r := PanesOf(node, area, focus)[k].rect;
            area.x <= r.x && r.x + r.width <= area.x + area.width && area.y <= r.y
                && r.y + r.height <= area.y + area.height
  {
    var panes := PanesOf(node, area, focus);
    var r := panes[k].rect;
    TilesExactly(node, area, focus, r.x, r.y);
    TilesExactly(node, area, focus, r.x + r.width - 1, r.y + r.height - 1);
    assert Owns(panes, k, r.x, r.y);
    assert Owns(panes, k, r.x + r.width - 1, r.y + r.height - 1);
  }

  /** On a tiling there is always somewhere to go: if a non-empty pane does not touch the edge
      of the area, the search finds a pane, and the pane found abuts it with real overlap. */
  lemma NavigationFindsNeighbour(node: Node, area: Rect, focus: PaneId, k: nat, nav: NavDirection)
    requires HasRatiosIn(node, 0.0, 1.0) && EdgesFit(area)
    requires IsDistinct(PaneIds(node)) && k < |PaneIds(node)|
    requires var r := PanesOf(node, area, focus)[k].rect; !IsEmptyRect(r) && !TouchesEdge(r, area, nav)
    ensures var panes := PanesOf(node, area, focus);
            var best := BestIndex(panes[k], nav, panes, |panes|);
            && best.Some? && FindInDirection(panes[k], nav, panes) == Some(panes[best.value].id)
            && best.value != k
            && IsAcross(panes[best.value].rect, panes[k].rect, nav)
            && EdgeDistance(panes[best.value].rect, panes[k].rect, nav) == 0
            && Overlap(panes[best.value].rect, panes[k].rect, nav) > 0
  {
    var panes := PanesOf(node, area, focus);
    var f := panes[k].rect;
    PaneWithin(node, area, focus, k);
    var out, inside := OutsideCell(f, nav), InsideCell(f, nav);
    TilesExactly(node, area, focus, out.0, out.1);
    TilesExactly(node, area, focus, inside.0, inside.1);
    assert Owns(panes, k, inside.0, inside.1);
    var i := OwnerOf(node, area, out.0, out.1);
    assert Owns(panes, i, out.0, out.1);
    assert !Owns(panes, k, out.0, out.1);
    assert !Owns(panes, i, inside.0, inside.1);
    PanesFit(node, area, focus);
    AcrossTheEdge(panes[i].rect, f, nav);
    PanesInIdOrder(node, area, focus);
    assert IsCandidate(panes[i], panes[k], nav);
  }
}

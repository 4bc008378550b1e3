/** What a caller of the layout gets: the ratio asked for, the cells it comes to, the pane meant. */
module LayoutRequests {
  import opened Options
  import opened Screen
  import opened LayoutTree
  import opened LayoutGeometry
  import opened LayoutPaths
  import opened LayoutOps

  // ----- Ratios -----

  /** The number kept for a requested one: itself from 0.1 to 0.9, else the nearer bound. */
  predicate IsKept(requested: real, kept: real) {
    if requested < 0.1 then kept == 0.1
    else if requested > 0.9 then kept == 0.9
    else kept == requested
  }

  /** One half when the request is not a finite number. */
  predicate IsGranted(requested: Option<real>, ratio: real) {
    match requested
    case None => ratio == 0.5
    case Some(v) => IsKept(v, ratio)
  }

  // ----- One subtree put in place of another -----

  function NodeAt(node: Node, path: Path): Option<Node>
    decreases |path|
  {
    if path == [] then Some(node)
    else if node.Pane? then None
    else NodeAt(if path[0] then node.second else node.first, path[1..])
  }

  /** The tree with another subtree at the end of the path, and nothing else changed. */
  function PutAt(node: Node, path: Path, sub: Node): Node
    decreases |path|
  {
    if path == [] then sub
    else if node.Pane? then node
    else if path[0] then node.(second := PutAt(node.second, path[1..], sub))
    else node.(first := PutAt(node.first, path[1..], sub))
  }

  lemma {:induction false} SplitPutsAt(node: Node, target: PaneId, direction: Direction, newId: PaneId, ratio: real)
    returns (path: Path)
    requires IsDistinct(PaneIds(node)) && target in PaneIds(node)
    ensures NodeAt(node, path) == Some(Pane(target))
    ensures SplitAt(node, target, direction, newId, ratio)
            == PutAt(node, path, Split(direction, ratio, Pane(target), Pane(newId)))
    ensures GetRatioAt(SplitAt(node, target, direction, newId, ratio), path) == Some(ratio)
    decreases node
  {
    match node
    case Pane(_) => path := [];
    case Split(d, r, first, second) =>
      DistinctHalves(PaneIds(first), PaneIds(second));
      hide IsDistinct;
      if target in PaneIds(first) {
        var rest := SplitPutsAt(first, target, direction, newId, ratio);
        SplitAbsent(second, target, direction, newId, ratio);
        path := [false] + rest;
        assert path[1..] == rest;
      } else {
        var rest := SplitPutsAt(second, target, direction, newId, ratio);
        SplitAbsent(first, target, direction, newId, ratio);
        path := [true] + rest;
        assert path[1..] == rest;
      }
  }

  /** Splitting the focused pane puts a split of that direction and of the ratio asked for where the pane
      was, with the pane first and the new one second, and moves the focus to the new one. */
  lemma SplitGetsItsRatio(l: Layout, direction: Direction, requested: Option<real>, newId: PaneId)
    returns (path: Path, ratio: real)
    requires IsDistinct(PaneIds(l.root)) && l.focus in PaneIds(l.root)
    ensures NodeAt(l.root, path) == Some(Pane(l.focus)) && IsGranted(requested, ratio)
    ensures var after := SplitFocused(l, direction, requested, newId);
            && after.root == PutAt(l.root, path, Split(direction, ratio, Pane(l.focus), Pane(newId)))
            && GetRatioAt(after.root, path) == Some(ratio)
            && after.focus == newId
  {
    ratio := ValidSplitRatio(requested);
    path := SplitPutsAt(l.root, l.focus, direction, newId, ratio);
  }

  /** The same beside any pane; refused exactly for a missing target or a pane already there. */
  lemma InsertGetsItsRatio(l: Layout, target: PaneId, moved: PaneId, direction: Direction, requested: Option<real>)
    returns (path: Path, ratio: real)
    requires IsDistinct(PaneIds(l.root))
    ensures var a := InsertPaneNear(l, target, moved, direction, requested);
            && (a.ok <==> target in PaneIds(l.root) && moved !in PaneIds(l.root))
            && (!a.ok ==> a.layout == l)
            && (a.ok ==>
                  && NodeAt(l.root, path) == Some(Pane(target)) && IsGranted(requested, ratio)
                  && a.layout.root == PutAt(l.root, path, Split(direction, ratio, Pane(target), Pane(moved)))
                  && GetRatioAt(a.layout.root, path) == Some(ratio)
                  && a.layout.focus == moved)
  {
    ratio := ValidSplitRatio(requested);
    path := [];
    if target in PaneIds(l.root) && moved !in PaneIds(l.root) {
      path := SplitPutsAt(l.root, target, direction, moved, ratio);
    }
  }

  /** Writing a ratio succeeds exactly where one can be read, and then the number kept for it stands
      there and every other ratio, the shape and the focus are as before. */
  lemma SetGetsItsRatio(l: Layout, path: Path, requested: real, other: Path)
    ensures var a := SetSplitRatio(l, path, requested);
            && (a.ok <==> GetRatioAt(l.root, path).Some?)
            && (!a.ok ==> a.layout == l)
            && (a.ok ==> GetRatioAt(a.layout.root, path).Some?
                         && IsKept(requested, GetRatioAt(a.layout.root, path).value))
            && (other != path ==> GetRatioAt(a.layout.root, other) == GetRatioAt(l.root, other))
            && Shape(a.layout.root) == Shape(l.root) && a.layout.focus == l.focus
  {
    SetRatioChangesOnly(l.root, path, Clamp(requested), path);
    SetRatioChangesOnly(l.root, path, Clamp(requested), other);
  }

  // ----- Closing -----

  /** Removing a pane puts the other child of its split where the split was, and changes nothing else. */
  lemma {:induction false} RemovePutsAt(node: Node, target: PaneId) returns (path: Path, other: Node)
    requires IsDistinct(PaneIds(node)) && target in PaneIds(node) && node.Split?
    ensures NodeAt(node, path).Some? && NodeAt(node, path).value.Split?
    ensures var cut := NodeAt(node, path).value;
            (cut.first == Pane(target) && cut.second == other) || (cut.second == Pane(target) && cut.first == other)
    ensures RemovePane(node, target) == Some(PutAt(node, path, other))
    decreases node
  {
    var first, second := node.first, node.second;
    DistinctHalves(PaneIds(first), PaneIds(second));
    hide IsDistinct;
    if target in PaneIds(first) {
      RemoveAbsent(second, target);
      if first.Pane? {
        path, other := [], second;
      } else {
        var rest, sub := RemovePutsAt(first, target);
        path, other := [false] + rest, sub;
        assert path[1..] == rest;
      }
    } else {
      RemoveAbsent(first, target);
      if second.Pane? {
        path, other := [], first;
      } else {
        var rest, sub := RemovePutsAt(second, target);
        path, other := [true] + rest, sub;
        assert path[1..] == rest;
      }
    }
  }

  /** Closing the focused pane of more than one gives its whole place to the other side of its split. */
  lemma CloseGivesPlaceToSibling(l: Layout, next: PaneId) returns (path: Path, other: Node)
    requires IsValid(l, next) && |PaneIds(l.root)| > 1
    ensures var a := CloseFocused(l);
            && a.ok && NodeAt(l.root, path).Some? && NodeAt(l.root, path).value.Split?
            && a.layout.root == PutAt(l.root, path, other)
    ensures var cut := NodeAt(l.root, path).value;
            (cut.first == Pane(l.focus) && cut.second == other) || (cut.second == Pane(l.focus) && cut.first == other)
  {
    path, other := RemovePutsAt(l.root, l.focus);
    hide RemovePane;
    hide PutAt;
  }

  // ----- Cells -----

  /** A whole number of cells nearest to this share of a length, ties going up. */
  predicate IsNearestShare(cells: nat, len: nat, ratio: real) {
    cells as real - 0.5 <= len as real * ratio < cells as real + 0.5
  }

  /** The old pane and the new one beside it (horizontal) or below it (vertical), the old one with the
      share asked for and the new one with what is left. */
  predicate IsShared(whole: Rect, kept: Rect, added: Rect, direction: Direction, ratio: real) {
    match direction
    case Horizontal =>
      && IsNearestShare(kept.width, whole.width, ratio) && kept == Rect(whole.x, whole.y, kept.width, whole.height)
      && kept.width + added.width == whole.width
      && added == Rect(whole.x + kept.width, whole.y, added.width, whole.height)
    case Vertical =>
      && IsNearestShare(kept.height, whole.height, ratio) && kept == Rect(whole.x, whole.y, whole.width, kept.height)
      && kept.height + added.height == whole.height
      && added == Rect(whole.x, whole.y + kept.height, whole.width, added.height)
  }

  lemma SplitRectShares(area: Rect, direction: Direction, ratio: real)
    requires 0.0 <= ratio <= 1.0 && EdgesFit(area)
    ensures IsShared(area, SplitRect(area, direction, ratio).0, SplitRect(area, direction, ratio).1, direction, ratio)
  {
    FirstLenFits(area.width, ratio);
    FirstLenFits(area.height, ratio);
    FirstShareIsNearest(area.width, ratio);
    FirstShareIsNearest(area.height, ratio);
    hide FirstLen;
    hide SecondLen;
  }

  /** Splitting the focused pane at a ratio gives it the nearest whole number of cells to that share of its
      own rectangle and the new pane the rest, and every other pane keeps its place. */
  lemma SplitGetsItsCells(l: Layout, next: PaneId, direction: Direction, requested: Option<real>, newId: PaneId,
                          area: Rect, i: nat) returns (ratio: real)
    requires IsValid(l, next) && EdgesFit(area)
    requires i < |PaneIds(l.root)| && PaneIds(l.root)[i] == l.focus
    ensures IsGranted(requested, ratio)
    ensures var before := PanesOf(l.root, area, newId);
            var after := PanesOf(SplitFocused(l, direction, requested, newId).root, area, newId);
            && |after| == |before| + 1
            && after[..i] == before[..i] && after[i + 2..] == before[i + 1..]
            && after[i].id == l.focus && after[i + 1].id == newId && after[i + 1].isFocused
            && IsShared(before[i].rect, after[i].rect, after[i + 1].rect, direction, ratio)
  {
    hide SplitRect;
    hide IsShared;
    ratio := ValidSplitRatio(requested);
    WiderRatios(l.root);
    var before := PanesOf(l.root, area, newId);
    SplitDividesTarget(l.root, area, newId, i, direction, newId, ratio);
    PanesInIdOrder(l.root, area, newId);
    PanesFit(l.root, area, newId);
    SplitRectShares(before[i].rect, direction, ratio);
    var cut := SplitRect(before[i].rect, direction, ratio);
    DividedParts(before, i, newId, direction, newId, ratio);
  }

  lemma DividedParts(panes: seq<PaneInfo>, i: nat, focus: PaneId, direction: Direction, newId: PaneId, ratio: real)
    requires i < |panes|
    ensures var d := Divided(panes, i, focus, direction, newId, ratio);
            && |d| == |panes| + 1 && d[..i] == panes[..i] && d[i + 2..] == panes[i + 1..]
            && d[i] == panes[i].(rect := SplitRect(panes[i].rect, direction, ratio).0)
            && d[i + 1] == PaneInfo(newId, SplitRect(panes[i].rect, direction, ratio).1, newId == focus)
  {
    hide SplitRect;
  }

  // ----- Focus and swaps -----

  /** The focus moves to a pane that is there and nowhere else; a swap is refused exactly when the panes
      are not two panes of the layout, and keeps the focus. */
  lemma FocusAndSwapAnswer(l: Layout, id: PaneId, a: PaneId, b: PaneId)
    ensures FocusPane(l, id) == if id in PaneIds(l.root) then Layout(l.root, id) else l
    ensures var s := SwapPanes(l, a, b);
            && (s.ok <==> a != b && a in PaneIds(l.root) && b in PaneIds(l.root))
            && (!s.ok ==> s.layout == l)
            && s.layout.focus == l.focus && |PaneIds(s.layout.root)| == |PaneIds(l.root)|
            && (s.ok ==> forall i :: 0 <= i < |PaneIds(l.root)| ==>
                  PaneIds(s.layout.root)[i]
                  == if PaneIds(l.root)[i] == a then b else if PaneIds(l.root)[i] == b then a else PaneIds(l.root)[i])
  {
    SwapIds(l.root, a, b);
  }

  // ----- Resizing -----

  /** What a resize adds to a ratio: growing right or down adds to it, growing left or up takes away. */
  function Added(nav: NavDirection, delta: real): real {
    match nav
    case Right => delta
    case Down => delta
    case Left => -delta
    case Up => -delta
  }

  /** The border lies across the axis, next to the pane, and at most one cell from this side of it. */
  predicate IsNear(s: SplitBorder, f: Rect, nav: NavDirection) {
    match nav
    case Left => s.direction == Horizontal && f.x - 1 <= s.pos <= f.x + 1 && IsBeside(s, f)
    case Right => s.direction == Horizontal && f.x + f.width - 1 <= s.pos <= f.x + f.width + 1 && IsBeside(s, f)
    case Up => s.direction == Vertical && f.y - 1 <= s.pos <= f.y + 1 && IsBeside(s, f)
    case Down => s.direction == Vertical && f.y + f.height - 1 <= s.pos <= f.y + f.height + 1 && IsBeside(s, f)
  }

  /** The border's area and the pane overlap along the border. */
  predicate IsBeside(s: SplitBorder, f: Rect) {
    match s.direction
    case Horizontal => s.area.y < f.y + f.height && f.y < s.area.y + s.area.height
    case Vertical => s.area.x < f.x + f.width && f.x < s.area.x + s.area.width
  }

  lemma NearIsCandidate(s: SplitBorder, f: Rect, nav: NavDirection)
    ensures IsResizeCandidate(s, TargetDirection(nav), f, nav) <==> IsNear(s, f, nav)
    ensures Gap(s, f, nav) == SplitEdgeDistance(s, f, nav)
  {}

  function Behind(nav: NavDirection): NavDirection {
    match nav
    case Left => Right
    case Right => Left
    case Up => Down
    case Down => Up
  }

  /** How far a border stands from a side. */
  function Gap(s: SplitBorder, f: Rect, nav: NavDirection): int {
    var side := match nav case Left => f.x case Right => f.x + f.width case Up => f.y case Down => f.y + f.height;
    if s.pos < side then side - s.pos else s.pos - side
  }

  /** The first of the nearest borders near this side. */
  predicate IsNearest(splits: seq<SplitBorder>, i: nat, f: Rect, nav: NavDirection) {
    && i < |splits| && IsNear(splits[i], f, nav)
    && forall j :: 0 <= j < |splits| && IsNear(splits[j], f, nav) ==>
         Gap(splits[i], f, nav) <= Gap(splits[j], f, nav) && (j < i ==> Gap(splits[i], f, nav) < Gap(splits[j], f, nav))
  }

  predicate HasNear(splits: seq<SplitBorder>, f: Rect, nav: NavDirection) {
    exists i :: 0 <= i < |splits| && IsNear(splits[i], f, nav)
  }

  /** A resize takes the nearest border at the side asked for, or the one behind the pane if there is
      none, or nothing if there is none there either. */
  lemma ResizeChooses(splits: seq<SplitBorder>, f: Rect, nav: NavDirection)
    ensures match ResizeSplit(splits, f, nav)
            case None => !HasNear(splits, f, nav) && !HasNear(splits, f, Behind(nav))
            case Some(i) =>
              if HasNear(splits, f, nav) then IsNearest(splits, i, f, nav) else IsNearest(splits, i, f, Behind(nav))
  {
    assert TargetDirection(Behind(nav)) == TargetDirection(nav) && Behind(nav) == Opposite(nav);
    NearestIs(splits, f, nav);
    NearestIs(splits, f, Behind(nav));
    hide HasNear;
    hide IsNearest;
    hide NearestSplit;
  }

  lemma NearestIs(splits: seq<SplitBorder>, f: Rect, nav: NavDirection)
    ensures match NearestSplit(splits, TargetDirection(nav), f, nav, |splits|)
            case None => !HasNear(splits, f, nav)
            case Some(i) => HasNear(splits, f, nav) && IsNearest(splits, i, f, nav)
  {
    hide NearestSplit;
    hide IsNear;
    hide IsResizeCandidate;
    hide Gap;
    hide SplitEdgeDistance;
    forall j | 0 <= j < |splits|
      ensures IsResizeCandidate(splits[j], TargetDirection(nav), f, nav) <==> IsNear(splits[j], f, nav)
      ensures Gap(splits[j], f, nav) == SplitEdgeDistance(splits[j], f, nav)
    {
      NearIsCandidate(splits[j], f, nav);
    }
  }

  /** The tree with the ratio of this border moved by the step, kept from 0.1 to 0.9, and nothing else. */
  predicate IsStepped(before: Node, after: Node, s: SplitBorder, step: real) {
    && GetRatioAt(before, s.path) == Some(s.ratio) && GetRatioAt(after, s.path).Some?
    && IsKept(s.ratio + step, GetRatioAt(after, s.path).value)
    && after == SetRatioAt(before, s.path, GetRatioAt(after, s.path).value)
  }

  /** A resize of a pane writes the ratio of the border chosen for that very pane: what was there, plus or
      minus the step, kept from 0.1 to 0.9. Nothing else changes, and the focus stays. */
  lemma ResizeStepsExactly(l: Layout, next: PaneId, id: PaneId, nav: NavDirection, delta: real, area: Rect, k: nat)
    requires IsValid(l, next) && k < |PaneIds(l.root)| && PaneIds(l.root)[k] == id
    ensures var splits, f := SplitsOf(l.root, area, []), PanesOf(l.root, area, id)[k].rect;
            var after := ResizePane(l, id, nav, delta, area).layout;
            && after.focus == l.focus
            && match ResizeSplit(splits, f, nav)
               case None => after.root == l.root
               case Some(i) => IsStepped(l.root, after.root, splits[i], Added(nav, delta))
  {
    hide PanesOf;
    hide SplitsOf;
    hide SetRatioAt;
    hide ResizeSplit;
    hide IsStepped;
    hide HasRatiosIn;
    var panes, splits := PanesOf(l.root, area, id), SplitsOf(l.root, area, []);
    PanesInIdOrder(l.root, area, id);
    assert FirstFocused(panes) == Some(k);
    match ResizeSplit(splits, panes[k].rect, nav)
    case None =>
    case Some(i) =>
      SplitBordersAreFaithful(l.root, area, i);
      StepIs(l.root, splits[i], nav, delta);
  }

  lemma StepIs(root: Node, s: SplitBorder, nav: NavDirection, delta: real)
    requires GetRatioAt(root, s.path) == Some(s.ratio)
    ensures IsStepped(root, SetRatioAt(root, s.path, Clamp(s.ratio + Step(nav, delta))), s, Added(nav, delta))
  {
    SetRatioChangesOnly(root, s.path, Clamp(s.ratio + Step(nav, delta)), s.path);
    hide SetRatioAt;
    hide GetRatioAt;
  }

  // ----- Ranking of neighbours -----

  /** How far a pane lies beyond this side of another. */
  function Beyond(r: Rect, f: Rect, nav: NavDirection): int {
    match nav
    case Left => f.x - (r.x + r.width)
    case Right => r.x - (f.x + f.width)
    case Up => f.y - (r.y + r.height)
    case Down => r.y - (f.y + f.height)
  }

  /** Cells they share along that side, none if negative. */
  function SharedCells(r: Rect, f: Rect, nav: NavDirection): int {
    match nav
    case Left => Min(r.y + r.height, f.y + f.height) - Max(r.y, f.y)
    case Right => Min(r.y + r.height, f.y + f.height) - Max(r.y, f.y)
    case Up => Min(r.x + r.width, f.x + f.width) - Max(r.x, f.x)
    case Down => Min(r.x + r.width, f.x + f.width) - Max(r.x, f.x)
  }

  /** Twice the distance of their middles along that side. */
  function OffCentre(r: Rect, f: Rect, nav: NavDirection): int {
    var d := match nav
             case Left => (2 * r.y + r.height) - (2 * f.y + f.height)
             case Right => (2 * r.y + r.height) - (2 * f.y + f.height)
             case Up => (2 * r.x + r.width) - (2 * f.x + f.width)
             case Down => (2 * r.x + r.width) - (2 * f.x + f.width);
    if d < 0 then -d else d
  }

  /** No number doubled here exceeds a u16. */
  predicate IsSmall(r: Rect) {
    r.x + r.width <= 32767 && r.y + r.height <= 32767
  }

  /** Which panes are asked: those wholly beyond the side that share a cell with it along it. */
  lemma CandidatesExactly(p: PaneInfo, focused: PaneInfo, nav: NavDirection)
    requires !IsEmptyRect(p.rect) && !IsEmptyRect(focused.rect)
    ensures IsCandidate(p, focused, nav)
            <==> && p.id != focused.id
                 && Beyond(p.rect, focused.rect, nav) >= 0 && SharedCells(p.rect, focused.rect, nav) > 0
  {}

  /** And which is preferred: the one less far beyond; of those, the one that shares more cells; of those,
      the one less off centre. */
  lemma PreferenceExactly(p: Rect, q: Rect, f: Rect, nav: NavDirection)
    requires IsSmall(p) && IsSmall(q) && IsSmall(f)
    requires IsAcross(p, f, nav) && IsAcross(q, f, nav)
    requires !IsEmptyRect(p) && !IsEmptyRect(q) && !IsEmptyRect(f)
    ensures IsBetter(p, q, f, nav)
            <==> || Beyond(p, f, nav) < Beyond(q, f, nav)
                 || (Beyond(p, f, nav) == Beyond(q, f, nav) && SharedCells(p, f, nav) > SharedCells(q, f, nav))
                 || (&& Beyond(p, f, nav) == Beyond(q, f, nav) && SharedCells(p, f, nav) == SharedCells(q, f, nav)
                     && OffCentre(p, f, nav) < OffCentre(q, f, nav))
  {
    RankOf(p, f, nav);
    RankOf(q, f, nav);
    hide EdgeDistance;
    hide Overlap;
    hide CenterDistance;
    hide Beyond;
    hide SharedCells;
    hide OffCentre;
  }

  lemma RankOf(r: Rect, f: Rect, nav: NavDirection)
    requires IsSmall(r) && IsSmall(f) && IsAcross(r, f, nav) && !IsEmptyRect(r) && !IsEmptyRect(f)
    ensures EdgeDistance(r, f, nav) == Beyond(r, f, nav) && Overlap(r, f, nav) == SharedCells(r, f, nav)
    ensures CenterDistance(r, f, nav) == OffCentre(r, f, nav)
  {
    SharedRank(r.x, r.width, f.x, f.width);
    SharedRank(r.y, r.height, f.y, f.height);
    hide RangeOverlapAmount;
    hide RangeCenterDistance;
  }

  /** The amounts along one axis, where nothing saturates. */
  lemma SharedRank(a: nat, aLen: nat, b: nat, bLen: nat)
    requires a + aLen <= 32767 && b + bLen <= 32767
    ensures RangesOverlap(a, aLen, b, bLen) && 0 < aLen && 0 < bLen ==>
              RangeOverlapAmount(a, aLen, b, bLen) == Min(a + aLen, b + bLen) - Max(a, b)
    ensures var d := (2 * a + aLen) - (2 * b + bLen);
            RangeCenterDistance(a, aLen, b, bLen) == if d < 0 then -d else d
  {}
}

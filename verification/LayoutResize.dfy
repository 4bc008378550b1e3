/** What a resize does to the panes: it finds the edge it was asked for, and moves it outward. */
module LayoutResize {
  import opened Options
  import opened Screen
  import opened LayoutTree
  import opened LayoutGeometry
  import opened LayoutPaths

  // ----- A resize finds the edge it was asked for -----

  predicate IsOnEdge(s: SplitBorder, f: Rect, nav: NavDirection) {
    s.direction == TargetDirection(nav) && s.pos == EdgeOf(f, nav) && SplitOverlaps(s, f, nav)
  }

  predicate LiesIn(r: Rect, area: Rect) {
    area.x <= r.x && r.x + r.width <= area.x + area.width && area.y <= r.y && r.y + r.height <= area.y + area.height
  }

  /** A rectangle that touches its half of a split, but not the whole area, touches the border. */
  lemma HalfTouchesBorder(direction: Direction, ratio: real, first: Node, second: Node, area: Rect, prefix: Path,
                          f: Rect, nav: NavDirection, inSecond: bool)
    requires 0.0 <= ratio <= 1.0 && EdgesFit(area) && !IsEmptyRect(f) && !TouchesEdge(f, area, nav)
    requires var cut := SplitRect(area, direction, ratio);
             var half := if inSecond then cut.1 else cut.0;
             LiesIn(f, half) && TouchesEdge(f, half, nav)
    ensures IsOnEdge(SplitsOf(Split(direction, ratio, first, second), area, prefix)[0], f, nav)
  {
    SplitsUnfold(direction, ratio, first, second, area, prefix);
    hide SplitsOf;
    FirstLenFits(area.width, ratio);
    FirstLenFits(area.height, ratio);
    hide FirstLen;
    hide SecondLen;
  }

  /** On each side where a non-empty pane does not touch the area, a split has its border. */
  lemma {:induction false} EdgeHasSplit(node: Node, area: Rect, prefix: Path, focus: PaneId, k: nat, nav: NavDirection)
    returns (i: nat)
    requires HasRatiosIn(node, 0.0, 1.0) && EdgesFit(area) && k < |PaneIds(node)|
    requires var r := PanesOf(node, area, focus)[k].rect; !IsEmptyRect(r) && !TouchesEdge(r, area, nav)
    ensures i < |SplitsOf(node, area, prefix)|
    ensures IsOnEdge(SplitsOf(node, area, prefix)[i], PanesOf(node, area, focus)[k].rect, nav)
  {
    hide SplitsOf;
    hide PanesOf;
    hide SplitRect;
    hide IsOnEdge;
    hide IsEmptyRect;
    i := 0;
    var f := PanesOf(node, area, focus)[k].rect;
    if node.Split? {
      var cut := SplitRect(area, node.direction, node.ratio);
      SplitRectTiles(area, node.direction, node.ratio);
      SplitsUnfold(node.direction, node.ratio, node.first, node.second, area, prefix);
      PanesUnfold(node.direction, node.ratio, node.first, node.second, area, focus);
      var n := |PaneIds(node.first)|;
      if k < n {
        PaneWithin(node.first, cut.0, focus, k);
        if TouchesEdge(f, cut.0, nav) {
          HalfTouchesBorder(node.direction, node.ratio, node.first, node.second, area, prefix, f, nav, false);
        } else {
          var j := EdgeHasSplit(node.first, cut.0, prefix + [false], focus, k, nav);
          i := 1 + j;
        }
      } else {
        PaneWithin(node.second, cut.1, focus, k - n);
        if TouchesEdge(f, cut.1, nav) {
          HalfTouchesBorder(node.direction, node.ratio, node.first, node.second, area, prefix, f, nav, true);
        } else {
          var j := EdgeHasSplit(node.second, cut.1, prefix + [true], focus, k - n, nav);
          i := 1 + |SplitsOf(node.first, cut.0, prefix + [false])| + j;
        }
      }
    } else {
      OnePaneTouches(node.id, area, focus, nav);
    }
  }

  lemma OnePaneTouches(id: PaneId, area: Rect, focus: PaneId, nav: NavDirection)
    ensures PanesOf(Pane(id), area, focus) == [PaneInfo(id, area, id == focus)] && TouchesEdge(area, area, nav)
  {}

  /** A resize toward a side where the pane does not touch the area moves a split whose border
      lies exactly on that side of the pane. */
  lemma ResizeFindsEdge(root: Node, focus: PaneId, nav: NavDirection, area: Rect, k: nat)
    requires HasRatiosIn(root, 0.0, 1.0) && EdgesFit(area) && k < |PaneIds(root)|
    requires var r := PanesOf(root, area, focus)[k].rect; !IsEmptyRect(r) && !TouchesEdge(r, area, nav)
    ensures var splits, f := SplitsOf(root, area, []), PanesOf(root, area, focus)[k].rect;
            ResizeSplit(splits, f, nav).Some? && IsOnEdge(splits[ResizeSplit(splits, f, nav).value], f, nav)
  {
    var splits, f := SplitsOf(root, area, []), PanesOf(root, area, focus)[k].rect;
    var i := EdgeHasSplit(root, area, [], focus, k, nav);
    assert IsResizeCandidate(splits[i], TargetDirection(nav), f, nav);
    assert SplitEdgeDistance(splits[i], f, nav) == 0;
  }

  function BorderAt(area: Rect, direction: Direction, ratio: real): nat {
    if direction == Horizontal then area.x + FirstLen(area.width, ratio) else area.y + FirstLen(area.height, ratio)
  }

  lemma {:induction false} BorderPosition(node: Node, area: Rect, prefix: Path, i: nat)
    requires i < |SplitsOf(node, area, prefix)|
    ensures var s := SplitsOf(node, area, prefix)[i]; s.pos == BorderAt(s.area, s.direction, s.ratio)
  {
    var (a, b) := SplitRect(area, node.direction, node.ratio);
    var n := |SplitsOf(node.first, a, prefix + [false])|;
    if i > n {
      BorderPosition(node.second, b, prefix + [true], i - 1 - n);
    } else if i > 0 {
      BorderPosition(node.first, a, prefix + [false], i - 1);
    }
  }

  /** Writing the ratio of border `i` moves that border and leaves its area where it was. */
  lemma {:induction false} SetMovesBorder(node: Node, area: Rect, prefix: Path, i: nat, ratio: real)
    requires i < |SplitsOf(node, area, prefix)|
    requires |prefix| <= |SplitsOf(node, area, prefix)[i].path|
    ensures var s := SplitsOf(node, area, prefix)[i];
            var moved := SplitsOf(SetRatioAt(node, s.path[|prefix|..], ratio), area, prefix);
            && |moved| == |SplitsOf(node, area, prefix)|
            && moved[i] == s.(ratio := ratio, pos := BorderAt(s.area, s.direction, ratio))
    decreases node, 0
  {
    hide SplitsOf;
    hide SplitRect;
    hide BorderAt;
    match node
    case Pane(_) =>
      NoSplits(node, area, prefix);
    case Split(d, r, first, second) =>
      var (a, b) := SplitRect(area, d, r);
      SplitsUnfold(d, r, first, second, area, prefix);
      var left := SplitsOf(first, a, prefix + [false]);
      var s := SplitsOf(node, area, prefix)[i];
      var rel := s.path[|prefix|..];
      if i == 0 {
        assert rel == [];
        SplitsUnfold(d, ratio, first, second, area, prefix);
        BorderPosition(Split(d, ratio, first, second), area, prefix, 0);
        SplitsAreRatios(node, area, prefix);
        SplitsAreRatios(Split(d, ratio, first, second), area, prefix);
      } else if i > |left| {
        assert s == SplitsOf(second, b, prefix + [true])[i - 1 - |left|];
        SetMovesBorderBelow(second, b, prefix, true, i - 1 - |left|, ratio);
        SplitsUnfold(d, r, first, SetRatioAt(second, rel[1..], ratio), area, prefix);
      } else {
        assert s == left[i - 1];
        SetMovesBorderBelow(first, a, prefix, false, i - 1, ratio);
        SplitsUnfold(d, r, SetRatioAt(first, rel[1..], ratio), second, area, prefix);
      }
  }

  lemma {:induction false} SetMovesBorderBelow(child: Node, area: Rect, prefix: Path, turn: bool, i: nat, ratio: real)
    requires i < |SplitsOf(child, area, prefix + [turn])|
    ensures var s := SplitsOf(child, area, prefix + [turn])[i];
            |prefix| < |s.path| && s.path[|prefix|..][0] == turn
            && var moved := SplitsOf(SetRatioAt(child, s.path[|prefix|..][1..], ratio), area, prefix + [turn]);
               i < |moved| && moved[i] == s.(ratio := ratio, pos := BorderAt(s.area, s.direction, ratio))
               && |moved| == |SplitsOf(child, area, prefix + [turn])|
    decreases child, 1
  {
    hide Describes;
    hide BorderAt;
    hide SplitsOf;
    var s := SplitsOf(child, area, prefix + [turn])[i];
    BordersBelow(child, area, prefix + [turn], i);
    assert (prefix + [turn])[|prefix|] == turn;
    assert s.path[|prefix|] == s.path[..|prefix| + 1][|prefix|];
    assert s.path[|prefix|..][1..] == s.path[|prefix + [turn]|..];
    SetMovesBorder(child, area, prefix + [turn], i, ratio);
  }

  /** Border `i` lies on the given side of the pane, and afterwards it is the same border
      moved away from the pane, or held by the bounds. */
  predicate PushesEdge(before: seq<SplitBorder>, after: seq<SplitBorder>, i: int, f: Rect, nav: NavDirection) {
    && 0 <= i < |before| && i < |after|
    && IsOnEdge(before[i], f, nav)
    && after[i] == before[i].(pos := after[i].pos, ratio := after[i].ratio)
    && (if nav.Right? || nav.Down? then before[i].pos <= after[i].pos else after[i].pos <= before[i].pos)
  }

  /** Growing the focused pane toward a side it shares with another pane moves that very side,
      outward. */
  lemma ResizeMovesEdgeOutward(root: Node, focus: PaneId, nav: NavDirection, delta: real, area: Rect, k: nat)
    requires HasRatiosIn(root, 0.1, 0.9) && EdgesFit(area) && 0.0 <= delta
    requires IsDistinct(PaneIds(root)) && k < |PaneIds(root)| && PaneIds(root)[k] == focus
    requires var r := PanesOf(root, area, focus)[k].rect; !IsEmptyRect(r) && !TouchesEdge(r, area, nav)
    ensures var after := ResizeFocused(root, focus, nav, delta, area);
            var f := PanesOf(root, area, focus)[k].rect;
            exists i :: PushesEdge(SplitsOf(root, area, []), SplitsOf(after, area, []), i, f, nav)
  {
    var panes, splits := PanesOf(root, area, focus), SplitsOf(root, area, []);
    hide PanesOf;
    hide SplitsOf;
    hide HasRatiosIn;
    WiderRatios(root);
    PanesInIdOrder(root, area, focus);
    assert FirstFocused(panes) == Some(k);
    ResizeFindsEdge(root, focus, nav, area, k);
    var i := ResizeSplit(splits, panes[k].rect, nav).value;
    hide ResizeSplit;
    var s := splits[i];
    var ratio := Clamp(s.ratio + Step(nav, delta));
    SplitBordersAreFaithful(root, area, i);
    assert ResizeFocused(root, focus, nav, delta, area) == SetRatioAt(root, s.path, ratio);
    hide ResizeFocused;
    hide SetRatioAt;
    SplitRatioIn(root, s.path, 0.1, 0.9);
    assert s.path[0..] == s.path;
    SetMovesBorder(root, area, [], i, ratio);
    BorderPosition(root, area, [], i);
    BordersFollowRatios(s.area, s.direction, s.ratio, ratio);
    assert PushesEdge(splits, SplitsOf(SetRatioAt(root, s.path, ratio), area, []), i, panes[k].rect, nav);
  }

  lemma BordersFollowRatios(area: Rect, direction: Direction, x: real, y: real)
    ensures x <= y ==> BorderAt(area, direction, x) <= BorderAt(area, direction, y)
    ensures y <= x ==> BorderAt(area, direction, y) <= BorderAt(area, direction, x)
  {
    var len := if direction == Horizontal then area.width else area.height;
    if x <= y {
      ShareGrowsWithRatio(len, x, y);
    }
    if y <= x {
      ShareGrowsWithRatio(len, y, x);
    }
  }

  lemma {:induction false} SplitRatioIn(node: Node, path: Path, lo: real, hi: real)
    requires HasRatiosIn(node, lo, hi) && GetRatioAt(node, path).Some?
    ensures lo <= GetRatioAt(node, path).value <= hi
    decreases node
  {
    if node.Split? && path != [] {
      SplitRatioIn(if path[0] then node.second else node.first, path[1..], lo, hi);
    }
  }

  // ----- Panes move with their areas -----

  function EndAlong(r: Rect, direction: Direction): nat {
    if direction == Horizontal then r.x + r.width else r.y + r.height
  }

  /** Along this axis both edges of `s` lie at or beyond those of `r`. */
  predicate IsShifted(r: Rect, s: Rect, direction: Direction) {
    StartAlong(r, direction) <= StartAlong(s, direction) && EndAlong(r, direction) <= EndAlong(s, direction)
  }

  function LenAlong(r: Rect, direction: Direction): nat {
    if direction == Horizontal then r.width else r.height
  }

  lemma ShareShifts(x: nat, len: nat, y: nat, len': nat, ratio: real)
    requires x <= y && x + len <= y + len' && len <= U16_MAX && len' <= U16_MAX && 0.0 <= ratio <= 1.0
    ensures x + FirstLen(len, ratio) <= y + FirstLen(len', ratio)
  {
    FirstShareIsNearest(len, ratio);
    FirstShareIsNearest(len', ratio);
    hide FirstLen;
    BlendGrows(x as real, (x + len) as real, y as real, (y + len') as real, ratio);
    assert x as real + len as real * ratio <= y as real + len' as real * ratio;
  }

  lemma ProductNonNegative(a: real, b: real)
    requires 0.0 <= a && 0.0 <= b
    ensures 0.0 <= a * b
  {}

  /** A point dividing an interval in a fixed ratio moves up when both ends do. */
  lemma BlendGrows(x: real, u: real, y: real, v: real, ratio: real)
    requires x <= y && u <= v && 0.0 <= ratio <= 1.0
    ensures x + (u - x) * ratio <= y + (v - y) * ratio
  {
    ProductNonNegative(y - x, 1.0 - ratio);
    ProductNonNegative(v - u, ratio);
    assert y + (v - y) * ratio - x - (u - x) * ratio == (y - x) * (1.0 - ratio) + (v - u) * ratio;
  }

  lemma HalvesShift(area: Rect, area': Rect, cut: Direction, ratio: real, direction: Direction)
    requires 0.0 <= ratio <= 1.0 && EdgesFit(area) && EdgesFit(area') && IsShifted(area, area', direction)
    ensures var (a, b), (a', b') := SplitRect(area, cut, ratio), SplitRect(area', cut, ratio);
            IsShifted(a, a', direction) && IsShifted(b, b', direction)
  {
    FirstLenFits(area.width, ratio);
    FirstLenFits(area'.width, ratio);
    FirstLenFits(area.height, ratio);
    FirstLenFits(area'.height, ratio);
    if cut == direction {
      ShareShifts(StartAlong(area, cut), LenAlong(area, cut), StartAlong(area', cut), LenAlong(area', cut), ratio);
    }
    hide FirstLen;
    hide SecondLen;
  }

  /** When an area shifts, every pane in it does. */
  lemma {:induction false} PanesShift(node: Node, area: Rect, area': Rect, focus: PaneId, direction: Direction, k: nat)
    requires HasRatiosIn(node, 0.0, 1.0) && EdgesFit(area) && EdgesFit(area') && IsShifted(area, area', direction)
    requires k < |PaneIds(node)|
    ensures IsShifted(PanesOf(node, area, focus)[k].rect, PanesOf(node, area', focus)[k].rect, direction)
  {
    if node.Split? {
      var (a, b) := SplitRect(area, node.direction, node.ratio);
      var (a', b') := SplitRect(area', node.direction, node.ratio);
      HalvesShift(area, area', node.direction, node.ratio, direction);
      SplitRectTiles(area, node.direction, node.ratio);
      SplitRectTiles(area', node.direction, node.ratio);
      hide SplitRect;
      hide IsShifted;
      hide EdgesFit;
      var n := |PaneIds(node.first)|;
      if k < n {
        PanesShift(node.first, a, a', focus, direction, k);
      } else {
        PanesShift(node.second, b, b', focus, direction, k - n);
      }
    }
  }

  lemma LargerShareShifts(area: Rect, direction: Direction, lo: real, hi: real)
    requires 0.0 <= lo <= hi <= 1.0 && EdgesFit(area)
    ensures var (a, b), (a', b') := SplitRect(area, direction, lo), SplitRect(area, direction, hi);
            IsShifted(a, a', direction) && IsShifted(b, b', direction)
  {
    ShareGrowsWithRatio(area.width, lo, hi);
    ShareGrowsWithRatio(area.height, lo, hi);
    FirstLenFits(area.width, lo);
    FirstLenFits(area.height, lo);
    FirstLenFits(area.width, hi);
    FirstLenFits(area.height, hi);
    hide FirstLen;
    hide SecondLen;
  }

  /** A larger ratio at one path shifts every pane along the axis of that split. */
  lemma {:induction false} LargerRatioShifts(node: Node, area: Rect, path: Path,
                                             lo: real, hi: real, focus: PaneId, k: nat)
    requires HasRatiosIn(node, 0.0, 1.0) && EdgesFit(area) && 0.0 <= lo <= hi <= 1.0
    requires SubtreeAt(node, area, path).Some? && SubtreeAt(node, area, path).value.0.Split?
    requires k < |PaneIds(node)|
    ensures |PaneIds(SetRatioAt(node, path, lo))| == |PaneIds(SetRatioAt(node, path, hi))| == |PaneIds(node)|
    ensures IsShifted(PanesOf(SetRatioAt(node, path, lo), area, focus)[k].rect,
                      PanesOf(SetRatioAt(node, path, hi), area, focus)[k].rect,
                      SubtreeAt(node, area, path).value.0.direction)
    decreases node
  {
    SetKeepsCount(node, path, lo);
    SetKeepsCount(node, path, hi);
    if path == [] {
      LargerShareShifts(area, node.direction, lo, hi);
      RootShifts(node, area, lo, hi, focus, k);
    } else {
      var cut := SplitRect(area, node.direction, node.ratio);
      SplitRectTiles(area, node.direction, node.ratio);
      hide SplitRect;
      hide IsShifted;
      hide EdgesFit;
      var n := |PaneIds(node.first)|;
      SetKeepsCount(node.first, path[1..], lo);
      SetKeepsCount(node.first, path[1..], hi);
      if path[0] && k >= n {
        LargerRatioShifts(node.second, cut.1, path[1..], lo, hi, focus, k - n);
      } else if !path[0] && k < n {
        LargerRatioShifts(node.first, cut.0, path[1..], lo, hi, focus, k);
      } else {
        ShiftedBySelf(if k < n then PanesOf(node.first, cut.0, focus)[k].rect
                      else PanesOf(node.second, cut.1, focus)[k - n].rect,
                      SubtreeAt(node, area, path).value.0.direction);
      }
    }
  }

  lemma ShiftedBySelf(r: Rect, direction: Direction)
    ensures IsShifted(r, r, direction)
  {}

  lemma SetKeepsCount(node: Node, path: Path, ratio: real)
    ensures |PaneIds(SetRatioAt(node, path, ratio))| == |PaneIds(node)|
  {
    SetRatioChangesOnly(node, path, ratio, []);
    ShapeKeepsIds(node);
    ShapeKeepsIds(SetRatioAt(node, path, ratio));
  }

  lemma RootShifts(node: Node, area: Rect, lo: real, hi: real, focus: PaneId, k: nat)
    requires node.Split? && HasRatiosIn(node, 0.0, 1.0) && EdgesFit(area) && 0.0 <= lo <= hi <= 1.0
    requires k < |PaneIds(node)|
    ensures IsShifted(PanesOf(SetRatioAt(node, [], lo), area, focus)[k].rect,
                      PanesOf(SetRatioAt(node, [], hi), area, focus)[k].rect, node.direction)
  {
    var cut, cut' := SplitRect(area, node.direction, lo), SplitRect(area, node.direction, hi);
    LargerShareShifts(area, node.direction, lo, hi);
    SplitRectTiles(area, node.direction, lo);
    SplitRectTiles(area, node.direction, hi);
    hide SplitRect;
    hide IsShifted;
    hide EdgesFit;
    var n := |PaneIds(node.first)|;
    if k < n {
      PanesShift(node.first, cut.0, cut'.0, focus, node.direction, k);
    } else {
      PanesShift(node.second, cut.1, cut'.1, focus, node.direction, k - n);
    }
  }

  lemma {:induction false} SetToSame(node: Node, path: Path)
    requires GetRatioAt(node, path).Some?
    ensures SetRatioAt(node, path, GetRatioAt(node, path).value) == node
    decreases node
  {
    if path != [] {
      SetToSame(if path[0] then node.second else node.first, path[1..]);
    }
  }

  /** A resize toward one side moves every pane that way along its axis, or leaves it. */
  lemma ResizeShiftsPanes(root: Node, focus: PaneId, nav: NavDirection, delta: real, area: Rect, k: nat)
    requires HasRatiosIn(root, 0.1, 0.9) && EdgesFit(area) && 0.0 <= delta && k < |PaneIds(root)|
    ensures var after := ResizeFocused(root, focus, nav, delta, area);
            && |PaneIds(after)| == |PaneIds(root)|
            && var r, s := PanesOf(root, area, focus)[k].rect, PanesOf(after, area, focus)[k].rect;
               if nav.Right? || nav.Down? then IsShifted(r, s, TargetDirection(nav))
               else IsShifted(s, r, TargetDirection(nav))
  {
    ResizeMovesOneRatio(root, focus, nav, delta, area);
    WiderRatios(root);
    var after := ResizeFocused(root, focus, nav, delta, area);
    if after == root {
      ShiftedBySelf(PanesOf(root, area, focus)[k].rect, TargetDirection(nav));
    } else {
      var i := ResizedBorder(root, focus, nav, delta, area);
      hide ResizeFocused;
      var s := SplitsOf(root, area, [])[i];
      var ratio := Clamp(s.ratio + Step(nav, delta));
      SplitBordersAreFaithful(root, area, i);
      BordersAreDrawnAtSplits(root, area, i);
      SplitRatioIn(root, s.path, 0.1, 0.9);
      SetToSame(root, s.path);
      hide SplitsOf;
      if nav.Right? || nav.Down? {
        LargerRatioShifts(root, area, s.path, s.ratio, ratio, focus, k);
      } else {
        LargerRatioShifts(root, area, s.path, ratio, s.ratio, focus, k);
      }
    }
  }

  /** The border a resize moves lies across the axis it was asked for. */
  lemma ResizedBorder(root: Node, focus: PaneId, nav: NavDirection, delta: real, area: Rect) returns (i: nat)
    requires ResizeFocused(root, focus, nav, delta, area) != root
    ensures i < |SplitsOf(root, area, [])| && SplitsOf(root, area, [])[i].direction == TargetDirection(nav)
    ensures var s := SplitsOf(root, area, [])[i];
            ResizeFocused(root, focus, nav, delta, area) == SetRatioAt(root, s.path, Clamp(s.ratio + Step(nav, delta)))
  {
    var panes, splits := PanesOf(root, area, focus), SplitsOf(root, area, []);
    i := ResizeSplit(splits, panes[FirstFocused(panes).value].rect, nav).value;
    SplitBordersAreFaithful(root, area, i);
  }

  predicate IsNoFurtherIn(before: Rect, after: Rect, nav: NavDirection) {
    if nav.Right? || nav.Down? then EdgeOf(before, nav) <= EdgeOf(after, nav)
    else EdgeOf(after, nav) <= EdgeOf(before, nav)
  }

  /** Growing toward a side never pulls that side of the pane, or of any pane, further in. */
  lemma ResizeNeverPullsIn(root: Node, focus: PaneId, nav: NavDirection, delta: real, area: Rect, k: nat)
    requires HasRatiosIn(root, 0.1, 0.9) && EdgesFit(area) && 0.0 <= delta && k < |PaneIds(root)|
    ensures var after := ResizeFocused(root, focus, nav, delta, area);
            && |PaneIds(after)| == |PaneIds(root)|
            && IsNoFurtherIn(PanesOf(root, area, focus)[k].rect, PanesOf(after, area, focus)[k].rect, nav)
  {
    ResizeShiftsPanes(root, focus, nav, delta, area, k);
    hide ResizeFocused;
    hide PanesOf;
  }

  // ----- The focused pane's own length -----

  /** Of two reals no further apart than a whole distance, neither are the nearest whole numbers. */
  lemma NearestSteps(x: real, n: int, y: real, m: int, distance: nat)
    requires n as real - 0.5 <= x < n as real + 0.5 && m as real - 0.5 <= y < m as real + 0.5
    requires x <= y <= x + distance as real
    ensures n <= m <= n + distance
  {}

  lemma ScaledSteps(len: nat, more: nat, ratio: real)
    requires 0.0 <= ratio <= 1.0
    ensures var x, y := Scaled(len as real, ratio), Scaled((len + more) as real, ratio); x <= y <= x + more as real
  {
    var x, d := len as real, more as real;
    ProductNonNegative(d, ratio);
    ProductNonNegative(d, 1.0 - ratio);
    assert (len + more) as real == x + d;
    assert (x + d) * ratio == x * ratio + d * ratio;
    assert d * (1.0 - ratio) == d - d * ratio;
  }

  lemma NearestToScaled(len: nat, ratio: real)
    requires 0.0 <= ratio <= 1.0 && len <= U16_MAX
    ensures FirstLen(len, ratio) as real - 0.5 <= Scaled(len as real, ratio) < FirstLen(len, ratio) as real + 0.5
  {
    FirstShareIsNearest(len, ratio);
    hide FirstLen;
  }

  lemma SharesGrowWithLength(len: nat, len': nat, ratio: real)
    requires len <= len' <= U16_MAX && 0.0 <= ratio <= 1.0
    ensures FirstLen(len, ratio) <= FirstLen(len', ratio)
    ensures SecondLen(len, ratio) <= SecondLen(len', ratio)
  {
    hide FirstLen;
    hide SecondLen;
    hide Scaled;
    FirstLenFits(len, ratio);
    FirstLenFits(len', ratio);
    NearestToScaled(len, ratio);
    NearestToScaled(len', ratio);
    var more := len' - len;
    assert len + more == len';
    ScaledSteps(len, more, ratio);
    NearestSteps(Scaled(len as real, ratio), FirstLen(len, ratio),
                 Scaled(len' as real, ratio), FirstLen(len', ratio), more);
  }

  lemma HalvesGrow(area: Rect, area': Rect, cut: Direction, ratio: real, direction: Direction)
    requires 0.0 <= ratio <= 1.0 && EdgesFit(area) && EdgesFit(area')
    requires LenAlong(area, direction) <= LenAlong(area', direction)
    ensures var (a, b), (a', b') := SplitRect(area, cut, ratio), SplitRect(area', cut, ratio);
            LenAlong(a, direction) <= LenAlong(a', direction) && LenAlong(b, direction) <= LenAlong(b', direction)
  {
    SharesGrowWithLength(LenAlong(area, direction), LenAlong(area', direction), ratio);
    hide FirstLen;
    hide SecondLen;
  }

  /** When an area grows along an axis, no pane in it gets shorter along that axis. */
  lemma {:induction false} PanesGrow(node: Node, area: Rect, area': Rect, focus: PaneId, direction: Direction, k: nat)
    requires HasRatiosIn(node, 0.0, 1.0) && EdgesFit(area) && EdgesFit(area')
    requires LenAlong(area, direction) <= LenAlong(area', direction) && k < |PaneIds(node)|
    ensures LenAlong(PanesOf(node, area, focus)[k].rect, direction)
            <= LenAlong(PanesOf(node, area', focus)[k].rect, direction)
  {
    if node.Split? {
      var cut, cut' := SplitRect(area, node.direction, node.ratio), SplitRect(area', node.direction, node.ratio);
      HalvesGrow(area, area', node.direction, node.ratio, direction);
      SplitRectTiles(area, node.direction, node.ratio);
      SplitRectTiles(area', node.direction, node.ratio);
      hide SplitRect;
      hide LenAlong;
      hide EdgesFit;
      var n := |PaneIds(node.first)|;
      if k < n {
        PanesGrow(node.first, cut.0, cut'.0, focus, direction, k);
      } else {
        PanesGrow(node.second, cut.1, cut'.1, focus, direction, k - n);
      }
    }
  }

  lemma HalvesLieIn(area: Rect, cut: Direction, ratio: real)
    requires 0.0 <= ratio <= 1.0 && EdgesFit(area)
    ensures var (a, b) := SplitRect(area, cut, ratio); LiesIn(a, area) && LiesIn(b, area)
  {
    FirstLenFits(area.width, ratio);
    FirstLenFits(area.height, ratio);
    hide FirstLen;
    hide SecondLen;
  }

  lemma {:induction false} PaneLiesIn(node: Node, area: Rect, focus: PaneId, k: nat)
    requires HasRatiosIn(node, 0.0, 1.0) && EdgesFit(area) && k < |PaneIds(node)|
    ensures LiesIn(PanesOf(node, area, focus)[k].rect, area)
  {
    if node.Split? {
      var cut := SplitRect(area, node.direction, node.ratio);
      HalvesLieIn(area, node.direction, node.ratio);
      SplitRectTiles(area, node.direction, node.ratio);
      hide SplitRect;
      var n := |PaneIds(node.first)|;
      if k < n {
        PaneLiesIn(node.first, cut.0, focus, k);
      } else {
        PaneLiesIn(node.second, cut.1, focus, k - n);
      }
    }
  }

  /** What a larger ratio at one split does to a rectangle: nothing; or it lies in the first half,
      which grew, and is no shorter; or in the second, which shrank, and is no longer. */
  predicate IsEffect(r: Rect, s: Rect, lo: (Rect, Rect), hi: (Rect, Rect), direction: Direction) {
    || r == s
    || (LiesIn(r, lo.0) && LiesIn(s, hi.0) && lo.0 != hi.0 && LenAlong(r, direction) <= LenAlong(s, direction))
    || (LiesIn(r, lo.1) && LiesIn(s, hi.1) && lo.1 != hi.1 && LenAlong(s, direction) <= LenAlong(r, direction))
  }

  lemma RatioEffectHere(node: Node, area: Rect, lo: real, hi: real, focus: PaneId, k: nat)
    requires node.Split? && HasRatiosIn(node, 0.0, 1.0) && EdgesFit(area) && 0.0 <= lo <= hi <= 1.0
    requires k < |PaneIds(node)|
    ensures IsEffect(PanesOf(SetRatioAt(node, [], lo), area, focus)[k].rect,
                     PanesOf(SetRatioAt(node, [], hi), area, focus)[k].rect,
                     SplitRect(area, node.direction, lo), SplitRect(area, node.direction, hi), node.direction)
  {
    var cut, cut' := SplitRect(area, node.direction, lo), SplitRect(area, node.direction, hi);
    HalvesTrade(area, node.direction, lo, hi);
    SplitRectTiles(area, node.direction, lo);
    SplitRectTiles(area, node.direction, hi);
    hide SplitRect;
    hide LiesIn;
    hide LenAlong;
    hide EdgesFit;
    var n := |PaneIds(node.first)|;
    if k < n {
      PaneLiesIn(node.first, cut.0, focus, k);
      PaneLiesIn(node.first, cut'.0, focus, k);
      PanesGrow(node.first, cut.0, cut'.0, focus, node.direction, k);
    } else {
      PaneLiesIn(node.second, cut.1, focus, k - n);
      PaneLiesIn(node.second, cut'.1, focus, k - n);
      PanesGrow(node.second, cut'.1, cut.1, focus, node.direction, k - n);
    }
  }

  lemma HalvesTrade(area: Rect, direction: Direction, lo: real, hi: real)
    requires 0.0 <= lo <= hi <= 1.0 && EdgesFit(area)
    ensures var (a, b), (a', b') := SplitRect(area, direction, lo), SplitRect(area, direction, hi);
            LenAlong(a, direction) <= LenAlong(a', direction) && LenAlong(b', direction) <= LenAlong(b, direction)
  {
    var len := LenAlong(area, direction);
    ShareGrowsWithRatio(len, lo, hi);
    FirstLenFits(len, lo);
    FirstLenFits(len, hi);
    hide FirstLen;
    hide SecondLen;
  }

  lemma {:induction false} RatioEffect(node: Node, area: Rect, path: Path, lo: real, hi: real, focus: PaneId, k: nat)
    requires HasRatiosIn(node, 0.0, 1.0) && EdgesFit(area) && 0.0 <= lo <= hi <= 1.0
    requires SubtreeAt(node, area, path).Some? && SubtreeAt(node, area, path).value.0.Split?
    requires k < |PaneIds(node)|
    ensures |PaneIds(SetRatioAt(node, path, lo))| == |PaneIds(SetRatioAt(node, path, hi))| == |PaneIds(node)|
    ensures var (sub, part) := SubtreeAt(node, area, path).value;
            && EdgesFit(part) && LiesIn(part, area)
            && IsEffect(PanesOf(SetRatioAt(node, path, lo), area, focus)[k].rect,
                        PanesOf(SetRatioAt(node, path, hi), area, focus)[k].rect,
                        SplitRect(part, sub.direction, lo), SplitRect(part, sub.direction, hi), sub.direction)
    decreases node
  {
    SetKeepsCount(node, path, lo);
    SetKeepsCount(node, path, hi);
    if path == [] {
      RatioEffectHere(node, area, lo, hi, focus, k);
    } else {
      var cut := SplitRect(area, node.direction, node.ratio);
      SplitRectTiles(area, node.direction, node.ratio);
      HalvesLieIn(area, node.direction, node.ratio);
      hide SplitRect;
      hide IsEffect;
      hide EdgesFit;
      var n := |PaneIds(node.first)|;
      SetKeepsCount(node.first, path[1..], lo);
      SetKeepsCount(node.first, path[1..], hi);
      var child, part := if path[0] then node.second else node.first, if path[0] then cut.1 else cut.0;
      if path[0] == (k >= n) {
        RatioEffect(child, part, path[1..], lo, hi, focus, if path[0] then k - n else k);
      } else {
        SomePane(child);
        RatioEffect(child, part, path[1..], lo, hi, focus, 0);
        var r := if k < n then PanesOf(node.first, cut.0, focus)[k].rect
                 else PanesOf(node.second, cut.1, focus)[k - n].rect;
        var (sub, inner) := SubtreeAt(node, area, path).value;
        NoEffect(r, SplitRect(inner, sub.direction, lo), SplitRect(inner, sub.direction, hi), sub.direction);
      }
    }
  }

  lemma SomePane(node: Node)
    ensures |PaneIds(node)| > 0
  {}

  lemma NoEffect(r: Rect, lo: (Rect, Rect), hi: (Rect, Rect), direction: Direction)
    ensures IsEffect(r, r, lo, hi, direction)
  {}

  /** Growing toward the end: a pane that ends with the area cannot gain, and one that ends at the
      border lies before it. */
  lemma EndGrows(area: Rect, part: Rect, direction: Direction, lo: real, hi: real, r: Rect, s: Rect)
    requires 0.0 <= lo <= hi <= 1.0 && EdgesFit(part) && LiesIn(part, area) && !IsEmptyRect(r)
    requires IsEffect(r, s, SplitRect(part, direction, lo), SplitRect(part, direction, hi), direction)
    ensures EndAlong(area, direction) <= EndAlong(r, direction) ==> LenAlong(s, direction) <= LenAlong(r, direction)
    ensures EndAlong(r, direction) == BorderAt(part, direction, lo) ==> LenAlong(r, direction) <= LenAlong(s, direction)
  {
    FirstLenFits(LenAlong(part, direction), lo);
    FirstLenFits(LenAlong(part, direction), hi);
    ShareGrowsWithRatio(LenAlong(part, direction), lo, hi);
    hide FirstLen;
    hide SecondLen;
  }

  /** The same toward the start, read the other way round. */
  lemma StartGrows(area: Rect, part: Rect, direction: Direction, lo: real, hi: real, r: Rect, s: Rect)
    requires 0.0 <= lo <= hi <= 1.0 && EdgesFit(part) && LiesIn(part, area) && !IsEmptyRect(s)
    requires IsEffect(r, s, SplitRect(part, direction, lo), SplitRect(part, direction, hi), direction)
    ensures StartAlong(s, direction) <= StartAlong(area, direction) ==> LenAlong(r, direction) <= LenAlong(s, direction)
    ensures StartAlong(s, direction) == BorderAt(part, direction, hi) ==>
              LenAlong(s, direction) <= LenAlong(r, direction)
  {
    FirstLenFits(LenAlong(part, direction), lo);
    FirstLenFits(LenAlong(part, direction), hi);
    ShareGrowsWithRatio(LenAlong(part, direction), lo, hi);
    hide FirstLen;
    hide SecondLen;
  }

  /** A pane that does not touch the area on this side never gets shorter, one that does never longer. */
  predicate GrowsOrShrinks(before: Rect, after: Rect, area: Rect, nav: NavDirection) {
    var d := TargetDirection(nav);
    if TouchesEdge(before, area, nav) then LenAlong(after, d) <= LenAlong(before, d)
    else LenAlong(before, d) <= LenAlong(after, d)
  }

  lemma UnchangedGrows(r: Rect, area: Rect, nav: NavDirection)
    ensures GrowsOrShrinks(r, r, area, nav)
  {}

  /** Growing the focused pane toward one side: if the pane does not touch the area there it never gets
      shorter, and if it does it never gets longer, for then the only border it can move is the one
      behind it. */
  lemma ResizeGrowsOrShrinks(root: Node, focus: PaneId, nav: NavDirection, delta: real, area: Rect, k: nat)
    requires HasRatiosIn(root, 0.1, 0.9) && EdgesFit(area) && 0.0 <= delta
    requires IsDistinct(PaneIds(root)) && k < |PaneIds(root)| && PaneIds(root)[k] == focus
    requires !IsEmptyRect(PanesOf(root, area, focus)[k].rect)
    ensures var after := ResizeFocused(root, focus, nav, delta, area);
            && |PaneIds(after)| == |PaneIds(root)|
            && GrowsOrShrinks(PanesOf(root, area, focus)[k].rect, PanesOf(after, area, focus)[k].rect, area, nav)
  {
    hide ResizeFocused;
    hide PanesOf;
    hide SplitsOf;
    hide SetRatioAt;
    hide GrowsOrShrinks;
    ResizeMovesOneRatio(root, focus, nav, delta, area);
    WiderRatios(root);
    if ResizeFocused(root, focus, nav, delta, area) != root {
      var i := FocusedBorder(root, focus, nav, delta, area, k);
      BorderPushed(root, focus, nav, delta, area, k, i);
    } else {
      UnchangedGrows(PanesOf(root, area, focus)[k].rect, area, nav);
    }
  }

  lemma BorderPushed(root: Node, focus: PaneId, nav: NavDirection, delta: real, area: Rect, k: nat, i: nat)
    requires HasRatiosIn(root, 0.1, 0.9) && HasRatiosIn(root, 0.0, 1.0) && EdgesFit(area) && 0.0 <= delta
    requires k < |PaneIds(root)| && !IsEmptyRect(PanesOf(root, area, focus)[k].rect)
    requires i < |SplitsOf(root, area, [])| && SplitsOf(root, area, [])[i].direction == TargetDirection(nav)
    requires var r := PanesOf(root, area, focus)[k].rect;
             !TouchesEdge(r, area, nav) ==> SplitsOf(root, area, [])[i].pos == EdgeOf(r, nav)
    ensures var b := SplitsOf(root, area, [])[i];
            var after := SetRatioAt(root, b.path, Clamp(b.ratio + Step(nav, delta)));
            && |PaneIds(after)| == |PaneIds(root)|
            && GrowsOrShrinks(PanesOf(root, area, focus)[k].rect, PanesOf(after, area, focus)[k].rect, area, nav)
  {
    hide SplitsOf;
    hide PanesOf;
    hide SetRatioAt;
    hide HasRatiosIn;
    hide IsEffect;
    hide BorderAt;
    hide IsEmptyRect;
    var b := SplitsOf(root, area, [])[i];
    var ratio := Clamp(b.ratio + Step(nav, delta));
    SplitBordersAreFaithful(root, area, i);
    BordersAreDrawnAtSplits(root, area, i);
    BorderPosition(root, area, [], i);
    SplitRatioIn(root, b.path, 0.1, 0.9);
    SetToSame(root, b.path);
    var f := PanesOf(root, area, focus)[k].rect;
    SetKeepsCount(root, b.path, ratio);
    var after := PanesOf(SetRatioAt(root, b.path, ratio), area, focus)[k].rect;
    if nav.Right? || nav.Down? {
      RatioEffect(root, area, b.path, b.ratio, ratio, focus, k);
      EndGrows(area, b.area, TargetDirection(nav), b.ratio, ratio, f, after);
    } else {
      RatioEffect(root, area, b.path, ratio, b.ratio, focus, k);
      StartGrows(area, b.area, TargetDirection(nav), ratio, b.ratio, after, f);
    }
  }

  /** The border the focused pane moves; it lies on the pane's own side where there is room. */
  lemma FocusedBorder(root: Node, focus: PaneId, nav: NavDirection, delta: real, area: Rect, k: nat) returns (i: nat)
    requires HasRatiosIn(root, 0.0, 1.0) && EdgesFit(area)
    requires IsDistinct(PaneIds(root)) && k < |PaneIds(root)| && PaneIds(root)[k] == focus
    requires !IsEmptyRect(PanesOf(root, area, focus)[k].rect)
    requires ResizeFocused(root, focus, nav, delta, area) != root
    ensures i < |SplitsOf(root, area, [])| && SplitsOf(root, area, [])[i].direction == TargetDirection(nav)
    ensures var s := SplitsOf(root, area, [])[i];
            && ResizeFocused(root, focus, nav, delta, area)
               == SetRatioAt(root, s.path, Clamp(s.ratio + Step(nav, delta)))
            && var r := PanesOf(root, area, focus)[k].rect;
               !TouchesEdge(r, area, nav) ==> s.pos == EdgeOf(r, nav)
  {
    var panes, splits := PanesOf(root, area, focus), SplitsOf(root, area, []);
    PanesInIdOrder(root, area, focus);
    assert FirstFocused(panes) == Some(k);
    i := ResizeSplit(splits, panes[k].rect, nav).value;
    SplitBordersAreFaithful(root, area, i);
    if !TouchesEdge(panes[k].rect, area, nav) {
      ResizeFindsEdge(root, focus, nav, area, k);
    }
    hide PanesOf;
    hide SplitsOf;
    hide SetRatioAt;
  }

  /** Two panes side by side: growing the right one to the right takes it from five cells to four. */
  lemma GrowingCanShrink()
    ensures var root := Split(Horizontal, 0.5, Pane(1), Pane(2));
            var area := Rect(0, 0, 10, 10);
            var after := ResizeFocused(root, 2, Right, 0.1, area);
            && |PaneIds(root)| == |PaneIds(after)| == 2
            && PanesOf(root, area, 2)[1].rect.width == 5 && PanesOf(after, area, 2)[1].rect.width == 4
  {
    var root := Split(Horizontal, 0.5, Pane(1), Pane(2));
    var area := Rect(0, 0, 10, 10);
    assert FirstLen(10, 0.5) == 5 && FirstLen(10, 0.6) == 6;
    var left, right := Rect(0, 0, 5, 10), Rect(5, 0, 5, 10);
    assert PanesOf(Pane(1), left, 2) == [PaneInfo(1, left, false)];
    assert PanesOf(Pane(2), right, 2) == [PaneInfo(2, right, true)];
    var panes := PanesOf(root, area, 2);
    assert panes == [PaneInfo(1, left, false), PaneInfo(2, right, true)];
    assert panes[1..] == [PaneInfo(2, right, true)];
    assert FirstFocused(panes[1..]) == Some(0) && FirstFocused(panes) == Some(1);
    var border := SplitBorder(5, Horizontal, 0.5, area, []);
    assert SplitsOf(root, area, []) == [border];
    assert NearestSplit([border], Horizontal, right, Right, 0) == None;
    assert NearestSplit([border], Horizontal, right, Right, 1) == None;
    assert NearestSplit([border], Horizontal, right, Left, 0) == None;
    assert NearestSplit([border], Horizontal, right, Left, 1) == Some(0);
    assert ResizeFocused(root, 2, Right, 0.1, area) == Split(Horizontal, 0.6, Pane(1), Pane(2));
    var narrow := Rect(6, 0, 4, 10);
    assert PanesOf(Pane(2), narrow, 2) == [PaneInfo(2, narrow, true)];
  }
}

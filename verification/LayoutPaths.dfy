/** Paths to splits: listing them, reading and writing their ratios, and resizing by them. */
module LayoutPaths {
  import opened Options
  import opened Screen
  import opened LayoutTree
  import opened LayoutGeometry

  type Path = seq<bool>

  datatype SplitBorder = SplitBorder(pos: nat, direction: Direction, ratio: real, area: Rect, path: Path)
  datatype RatioEntry = RatioEntry(path: Path, ratio: real)

  function GetRatioAt(node: Node, path: Path): Option<real> {
    match node
    case Pane(_) => None
    case Split(_, ratio, first, second) =>
      if path == [] then Some(ratio) else GetRatioAt(if path[0] then second else first, path[1..])
  }

  predicate SetsRatioAt(node: Node, path: Path) {
    match node
    case Pane(_) => false
    case Split(_, _, first, second) =>
      path == [] || SetsRatioAt(if path[0] then second else first, path[1..])
  }

  /** The tree after the write; unchanged when the path leads to no split. */
  function SetRatioAt(node: Node, path: Path, ratio: real): Node {
    match node
    case Pane(_) => node
    case Split(d, r, first, second) =>
      if path == [] then Split(d, ratio, first, second)
      else if path[0] then Split(d, r, first, SetRatioAt(second, path[1..], ratio))
      else Split(d, r, SetRatioAt(first, path[1..], ratio), second)
  }

  /** Borders of all splits, parents before children, first children before second. */
  function SplitsOf(node: Node, area: Rect, path: Path): seq<SplitBorder> {
    match node
    case Pane(_) => []
    case Split(direction, ratio, first, second) =>
      var (a, b) := SplitRect(area, direction, ratio);
      var pos := if direction == Horizontal then a.x + a.width else a.y + a.height;
      [SplitBorder(pos, direction, ratio, area, path)]
        + SplitsOf(first, a, path + [false]) + SplitsOf(second, b, path + [true])
  }

  /** Paths and ratios of all splits, each path copied as it is reached. */
  function RatiosOf(node: Node, path: Path): seq<RatioEntry> {
    match node
    case Pane(_) => []
    case Split(_, ratio, first, second) =>
      [RatioEntry(path, ratio)] + RatiosOf(first, path + [false]) + RatiosOf(second, path + [true])
  }

  /** The listing that pushes onto and pops from one shared path. */
  class RatioCollector {
    var path: Path
    var out: seq<RatioEntry>

    constructor ()
      ensures path == [] && out == []
    {
      path, out := [], [];
    }

    method Collect(node: Node)
      modifies this
      ensures path == old(path)
      ensures out == old(out) + RatiosOf(node, old(path))
      decreases node
    {
      if node.Split? {
        out := out + [RatioEntry(path, node.ratio)];
        path := path + [false];
        Collect(node.first);
        path := path[..|path| - 1];
        assert path == old(path);
        path := path + [true];
        Collect(node.second);
        path := path[..|path| - 1];
        assert path == old(path);
      }
    }
  }

  method SplitRatios(node: Node) returns (out: seq<RatioEntry>)
    ensures out == RatiosOf(node, [])
  {
    var collector := new RatioCollector();
    collector.Collect(node);
    out := collector.out;
    assert [] + RatiosOf(node, []) == RatiosOf(node, []);
  }

  // ----- Faithful paths -----

  predicate HasEntry(entries: seq<RatioEntry>, path: Path, ratio: real) {
    RatioEntry(path, ratio) in entries
  }

  lemma {:induction false} SplitsAreRatios(node: Node, area: Rect, path: Path)
    ensures |SplitsOf(node, area, path)| == |RatiosOf(node, path)|
    ensures forall i :: 0 <= i < |SplitsOf(node, area, path)| ==>
              RatiosOf(node, path)[i]
                  == RatioEntry(SplitsOf(node, area, path)[i].path, SplitsOf(node, area, path)[i].ratio)
  {
    if node.Split? {
      var (a, b) := SplitRect(area, node.direction, node.ratio);
      SplitsAreRatios(node.first, a, path + [false]);
      SplitsAreRatios(node.second, b, path + [true]);
    }
  }

  lemma {:induction false} OneSplitLessThanPanes(node: Node, path: Path)
    ensures |RatiosOf(node, path)| == |PaneIds(node)| - 1
  {
    if node.Split? {
      OneSplitLessThanPanes(node.first, path + [false]);
      OneSplitLessThanPanes(node.second, path + [true]);
    }
  }

  /** Below a prefix, exactly the split paths are listed, each with its ratio. */
  lemma {:induction false} RatiosAreReadable(node: Node, prefix: Path, path: Path, ratio: real)
    ensures HasEntry(RatiosOf(node, prefix), prefix + path, ratio) <==> GetRatioAt(node, path) == Some(ratio)
  {
    match node
    case Pane(_) =>
    case Split(_, r, first, second) =>
      var left, right := RatiosOf(first, prefix + [false]), RatiosOf(second, prefix + [true]);
      ListedBelow(first, prefix + [false]);
      ListedBelow(second, prefix + [true]);
      if path == [] {
        assert prefix + path == prefix;
      } else if path[0] {
        RatiosAreReadable(second, prefix + [true], path[1..], ratio);
        assert prefix + [true] + path[1..] == prefix + path;
        assert (prefix + path)[|prefix|] == true;
      } else {
        RatiosAreReadable(first, prefix + [false], path[1..], ratio);
        assert prefix + [false] + path[1..] == prefix + path;
        assert (prefix + path)[|prefix|] == false;
      }
  }

  /** Everything listed below a prefix starts with it. */
  lemma {:induction false} ListedBelow(node: Node, prefix: Path)
    ensures forall e :: e in RatiosOf(node, prefix) ==> |prefix| <= |e.path| && e.path[..|prefix|] == prefix
  {
    if node.Split? {
      ListedBelow(node.first, prefix + [false]);
      ListedBelow(node.second, prefix + [true]);
      forall e | e in RatiosOf(node, prefix)
        ensures |prefix| <= |e.path| && e.path[..|prefix|] == prefix
      {
        if e in RatiosOf(node.first, prefix + [false]) {
          assert e.path[..|prefix|] == e.path[..|prefix| + 1][..|prefix|];
        } else if e in RatiosOf(node.second, prefix + [true]) {
          assert e.path[..|prefix|] == e.path[..|prefix| + 1][..|prefix|];
        }
      }
    }
  }

  predicate HasDistinctPaths(entries: seq<RatioEntry>) {
    forall i, j :: 0 <= i < j < |entries| ==> entries[i].path != entries[j].path
  }

  lemma {:induction false} PathsAreDistinct(node: Node, prefix: Path)
    ensures HasDistinctPaths(RatiosOf(node, prefix))
  {
    if node.Split? {
      var left, right := RatiosOf(node.first, prefix + [false]), RatiosOf(node.second, prefix + [true]);
      PathsAreDistinct(node.first, prefix + [false]);
      PathsAreDistinct(node.second, prefix + [true]);
      ListedBelow(node.first, prefix + [false]);
      ListedBelow(node.second, prefix + [true]);
      forall e | e in left
        ensures |e.path| > |prefix| && e.path[|prefix|] == false
      {
        assert e.path[..|prefix| + 1][|prefix|] == false;
      }
      forall e | e in right
        ensures |e.path| > |prefix| && e.path[|prefix|] == true
      {
        assert e.path[..|prefix| + 1][|prefix|] == true;
      }
      var all := [RatioEntry(prefix, node.ratio)] + left + right;
      forall i, j | 0 <= i < j < |all|
        ensures all[i].path != all[j].path
      {
        assert all[j] == if j <= |left| then left[j - 1] else right[j - 1 - |left|];
        if i > 0 {
          assert all[i] == if i <= |left| then left[i - 1] else right[i - 1 - |left|];
        }
      }
    }
  }

  /** Split borders: one fewer than panes, on distinct paths, each path reading back its ratio. */
  lemma SplitBordersAreFaithful(node: Node, area: Rect, i: nat)
    requires i < |SplitsOf(node, area, [])|
    ensures |SplitsOf(node, area, [])| == |PaneIds(node)| - 1
    ensures var s := SplitsOf(node, area, []);
            && GetRatioAt(node, s[i].path) == Some(s[i].ratio)
            && SetsRatioAt(node, s[i].path)
            && (forall j :: 0 <= j < |s| && j != i ==> s[j].path != s[i].path)
  {
    var s := SplitsOf(node, area, []);
    SplitsAreRatios(node, area, []);
    OneSplitLessThanPanes(node, []);
    PathsAreDistinct(node, []);
    RatiosAreReadable(node, [], s[i].path, s[i].ratio);
    assert [] + s[i].path == s[i].path;
    assert RatiosOf(node, [])[i] in RatiosOf(node, []);
    SetsExactlyWhereReadable(node, s[i].path);
  }

  lemma NoSplits(node: Node, area: Rect, prefix: Path)
    requires node.Pane?
    ensures SplitsOf(node, area, prefix) == []
  {}

  lemma SplitsUnfold(direction: Direction, ratio: real, first: Node, second: Node, area: Rect, prefix: Path)
    ensures var cut := SplitRect(area, direction, ratio);
            var pos := if direction == Horizontal then cut.0.x + cut.0.width else cut.0.y + cut.0.height;
            SplitsOf(Split(direction, ratio, first, second), area, prefix)
            == [SplitBorder(pos, direction, ratio, area, prefix)]
               + SplitsOf(first, cut.0, prefix + [false]) + SplitsOf(second, cut.1, prefix + [true])
  {
    hide SplitRect;
  }

  /** The subtree a path leads to, and the area it fills. */
  function SubtreeAt(node: Node, area: Rect, path: Path): Option<(Node, Rect)> {
    if path == [] then Some((node, area))
    else
      match node
      case Pane(_) => None
      case Split(direction, ratio, first, second) =>
        var (a, b) := SplitRect(area, direction, ratio);
        if path[0] then SubtreeAt(second, b, path[1..]) else SubtreeAt(first, a, path[1..])
  }

  function StartAlong(r: Rect, direction: Direction): nat {
    if direction == Horizontal then r.x else r.y
  }

  /** The border describes the split its path leads to: its direction, its area, and the
      position where its second child starts. */
  predicate Describes(s: SplitBorder, node: Node, area: Rect, path: Path) {
    var here, second := SubtreeAt(node, area, path), SubtreeAt(node, area, path + [true]);
    && here.Some? && here.value.0.Split? && here.value.1 == s.area && here.value.0.direction == s.direction
    && second.Some? && StartAlong(second.value.1, s.direction) == s.pos
  }

  lemma {:induction false} BordersBelow(node: Node, area: Rect, prefix: Path, i: nat)
    requires i < |SplitsOf(node, area, prefix)|
    ensures var s := SplitsOf(node, area, prefix)[i];
            |prefix| <= |s.path| && s.path[..|prefix|] == prefix && Describes(s, node, area, s.path[|prefix|..])
  {
    hide SplitsOf;
    hide Describes;
    match node
    case Pane(_) =>
      NoSplits(node, area, prefix);
    case Split(d, r, first, second) =>
      var (a, b) := SplitRect(area, d, r);
      hide SplitRect;
      SplitsUnfold(d, r, first, second, area, prefix);
      var left := SplitsOf(first, a, prefix + [false]);
      var s := SplitsOf(node, area, prefix)[i];
      if i == 0 {
        assert s.path[|prefix|..] == [];
        OwnBorder(d, r, first, second, area, prefix);
      } else if i > |left| {
        assert s == SplitsOf(second, b, prefix + [true])[i - 1 - |left|];
        BordersBelow(second, b, prefix + [true], i - 1 - |left|);
        DescribedBelow(s, node, area, prefix, true, b);
      } else {
        assert s == left[i - 1];
        BordersBelow(first, a, prefix + [false], i - 1);
        DescribedBelow(s, node, area, prefix, false, a);
      }
  }

  lemma OwnBorder(d: Direction, r: real, first: Node, second: Node, area: Rect, prefix: Path)
    ensures Describes(SplitsOf(Split(d, r, first, second), area, prefix)[0], Split(d, r, first, second), area, [])
  {
    assert ([] + [true])[1..] == [];
  }

  /** What describes a split of a child describes it in the parent, one step further down. */
  lemma DescribedBelow(s: SplitBorder, node: Node, area: Rect, prefix: Path, turn: bool, part: Rect)
    requires node.Split?
    requires var (a, b) := SplitRect(area, node.direction, node.ratio); part == if turn then b else a
    requires |prefix| < |s.path| && s.path[..|prefix| + 1] == prefix + [turn]
    requires Describes(s, if turn then node.second else node.first, part, s.path[|prefix + [turn]|..])
    ensures s.path[..|prefix|] == prefix && Describes(s, node, area, s.path[|prefix|..])
  {
    hide SplitRect;
    var rel := s.path[|prefix| + 1..];
    assert s.path[..|prefix|] == s.path[..|prefix| + 1][..|prefix|];
    assert s.path[|prefix|] == s.path[..|prefix| + 1][|prefix|];
    assert s.path[|prefix|..] == [turn] + rel;
    assert ([turn] + rel)[1..] == rel;
    assert ([turn] + rel + [true])[1..] == rel + [true];
  }

  /** Every border stands where the split at its path divides its area. */
  lemma BordersAreDrawnAtSplits(node: Node, area: Rect, i: nat)
    requires i < |SplitsOf(node, area, [])|
    ensures Describes(SplitsOf(node, area, [])[i], node, area, SplitsOf(node, area, [])[i].path)
  {
    BordersBelow(node, area, [], i);
    var path := SplitsOf(node, area, [])[i].path;
    assert path[0..] == path;
  }

  // ----- Writing one ratio -----

  lemma {:induction false} SetsExactlyWhereReadable(node: Node, path: Path)
    ensures SetsRatioAt(node, path) <==> GetRatioAt(node, path).Some?
    decreases node
  {
    if node.Split? && path != [] {
      SetsExactlyWhereReadable(if path[0] then node.second else node.first, path[1..]);
    }
  }

  /** The tree with every ratio blanked out. */
  function Shape(node: Node): Node {
    match node
    case Pane(_) => node
    case Split(d, _, first, second) => Split(d, 0.0, Shape(first), Shape(second))
  }

  /** A write succeeds exactly on split paths, changes the ratio there, and nothing else. */
  lemma {:induction false} SetRatioChangesOnly(node: Node, path: Path, ratio: real, other: Path)
    ensures SetsRatioAt(node, path) <==> GetRatioAt(node, path).Some?
    ensures Shape(SetRatioAt(node, path, ratio)) == Shape(node)
    ensures GetRatioAt(SetRatioAt(node, path, ratio), other)
            == if SetsRatioAt(node, path) && other == path then Some(ratio) else GetRatioAt(node, other)
    ensures !SetsRatioAt(node, path) ==> SetRatioAt(node, path, ratio) == node
    decreases node
  {
    if node.Split? && path != [] {
      var child := if path[0] then node.second else node.first;
      if other != [] && other[0] == path[0] {
        SetRatioChangesOnly(child, path[1..], ratio, other[1..]);
        assert other == path <==> other[1..] == path[1..] by {
          assert other == [other[0]] + other[1..] && path == [path[0]] + path[1..];
        }
      } else {
        SetRatioChangesOnly(child, path[1..], ratio, []);
      }
    }
  }

  /** Shape and ratios together determine a tree. */
  lemma {:induction false} ShapeAndRatiosDetermine(a: Node, b: Node)
    requires Shape(a) == Shape(b)
    requires forall p :: GetRatioAt(a, p) == GetRatioAt(b, p)
    ensures a == b
    decreases a
  {
    if a.Split? {
      assert GetRatioAt(a, []) == GetRatioAt(b, []);
      forall p
        ensures GetRatioAt(a.first, p) == GetRatioAt(b.first, p)
      {
        assert ([false] + p)[1..] == p;
        assert GetRatioAt(a, [false] + p) == GetRatioAt(b, [false] + p);
      }
      forall p
        ensures GetRatioAt(a.second, p) == GetRatioAt(b.second, p)
      {
        assert ([true] + p)[1..] == p;
        assert GetRatioAt(a, [true] + p) == GetRatioAt(b, [true] + p);
      }
      ShapeAndRatiosDetermine(a.first, b.first);
      ShapeAndRatiosDetermine(a.second, b.second);
    }
  }

  lemma {:induction false} ShapeKeepsIds(node: Node)
    ensures PaneIds(Shape(node)) == PaneIds(node)
  {
    if node.Split? {
      ShapeKeepsIds(node.first);
      ShapeKeepsIds(node.second);
    }
  }

  lemma {:induction false} SetKeepsRatiosIn(node: Node, path: Path, ratio: real, lo: real, hi: real)
    requires HasRatiosIn(node, lo, hi) && lo <= ratio <= hi
    ensures HasRatiosIn(SetRatioAt(node, path, ratio), lo, hi)
    decreases node
  {
    if node.Split? && path != [] {
      SetKeepsRatiosIn(if path[0] then node.second else node.first, path[1..], ratio, lo, hi);
    }
  }

  /** The two listings differ exactly when some readable ratio does. */
  lemma ListingsTellApart(a: Node, b: Node)
    requires Shape(a) == Shape(b)
    ensures RatiosOf(a, []) == RatiosOf(b, []) <==> a == b
  {
    if RatiosOf(a, []) == RatiosOf(b, []) {
      forall p
        ensures GetRatioAt(a, p) == GetRatioAt(b, p)
      {
        assert [] + p == p;
        if GetRatioAt(a, p).Some? {
          RatiosAreReadable(a, [], p, GetRatioAt(a, p).value);
          RatiosAreReadable(b, [], p, GetRatioAt(a, p).value);
        } else if GetRatioAt(b, p).Some? {
          RatiosAreReadable(a, [], p, GetRatioAt(b, p).value);
          RatiosAreReadable(b, [], p, GetRatioAt(b, p).value);
        }
      }
      ShapeAndRatiosDetermine(a, b);
    }
  }

  // ----- Resizing -----

  function Clamp(v: real): (r: real)
    ensures 0.1 <= r <= 0.9
  {
    if v < 0.1 then 0.1 else if v > 0.9 then 0.9 else v
  }

  function AbsDiff(a: nat, b: nat): nat {
    if a < b then b - a else a - b
  }

  function EdgeOf(f: Rect, nav: NavDirection): nat {
    match nav
    case Left => f.x
    case Right => f.x + f.width
    case Up => f.y
    case Down => f.y + f.height
  }

  function SplitEdgeDistance(s: SplitBorder, f: Rect, nav: NavDirection): nat {
    AbsDiff(s.pos, EdgeOf(f, nav))
  }

  predicate SplitOverlaps(s: SplitBorder, f: Rect, nav: NavDirection) {
    if nav.Left? || nav.Right? then RangesOverlap(s.area.y, s.area.height, f.y, f.height)
    else RangesOverlap(s.area.x, s.area.width, f.x, f.width)
  }

  predicate IsResizeCandidate(s: SplitBorder, direction: Direction, f: Rect, nav: NavDirection) {
    s.direction == direction && SplitOverlaps(s, f, nav) && SplitEdgeDistance(s, f, nav) <= 1
  }

  /** Index of the nearest candidate among the first `n`; of equals the earliest. */
  function NearestSplit(splits: seq<SplitBorder>, direction: Direction, f: Rect, nav: NavDirection, n: nat)
    : (r: Option<nat>)
    requires n <= |splits|
    ensures r.Some? ==> r.value < n && IsResizeCandidate(splits[r.value], direction, f, nav)
    ensures forall i :: 0 <= i < n && IsResizeCandidate(splits[i], direction, f, nav) ==>
              r.Some? && SplitEdgeDistance(splits[r.value], f, nav) <= SplitEdgeDistance(splits[i], f, nav)
              && (i < r.value ==> SplitEdgeDistance(splits[r.value], f, nav) < SplitEdgeDistance(splits[i], f, nav))
  {
    if n == 0 then None
    else
      var best := NearestSplit(splits, direction, f, nav, n - 1);
      if !IsResizeCandidate(splits[n - 1], direction, f, nav) then best
      else if best.None? then Some(n - 1)
      else if SplitEdgeDistance(splits[n - 1], f, nav) < SplitEdgeDistance(splits[best.value], f, nav) then Some(n - 1)
      else best
  }

  function Opposite(nav: NavDirection): NavDirection {
    match nav
    case Left => Right
    case Right => Left
    case Up => Down
    case Down => Up
  }

  function TargetDirection(nav: NavDirection): Direction {
    if nav.Left? || nav.Right? then Horizontal else Vertical
  }

  /** The split a resize moves: on the requested edge, or else on the opposite one. */
  function ResizeSplit(splits: seq<SplitBorder>, f: Rect, nav: NavDirection): (r: Option<nat>)
    ensures r.Some? ==> r.value < |splits|
  {
    var near := NearestSplit(splits, TargetDirection(nav), f, nav, |splits|);
    if near.Some? then near else NearestSplit(splits, TargetDirection(nav), f, Opposite(nav), |splits|)
  }

  function FirstFocused(panes: seq<PaneInfo>): (r: Option<nat>)
    ensures r.Some? ==> r.value < |panes| && panes[r.value].isFocused
    ensures r.None? ==> forall i :: 0 <= i < |panes| ==> !panes[i].isFocused
  {
    if panes == [] then None
    else if panes[0].isFocused then Some(0)
    else
      match FirstFocused(panes[1..])
      case None =>
        assert forall i :: 1 <= i < |panes| ==> panes[i] == panes[1..][i - 1];
        None
      case Some(i) => Some(i + 1)
  }

  function ResizeFocused(root: Node, focus: PaneId, nav: NavDirection, delta: real, area: Rect): Node {
    var panes := PanesOf(root, area, focus);
    match FirstFocused(panes)
    case None => root
    case Some(k) =>
      var splits := SplitsOf(root, area, []);
      match ResizeSplit(splits, panes[k].rect, nav)
      case None => root
      case Some(i) =>
        var path := splits[i].path;
        var current := match GetRatioAt(root, path) { case Some(r) => r case None => 0.5 };
        SetRatioAt(root, path, Clamp(current + Step(nav, delta)))
  }

  function Step(nav: NavDirection, delta: real): real {
    if nav.Right? || nav.Down? then delta else -delta
  }

  /** This tree is the other with one listed split moved by the step, kept between 0.1 and 0.9. */
  predicate MovesSplit(root: Node, after: Node, area: Rect, i: int, step: real) {
    && 0 <= i < |SplitsOf(root, area, [])|
    && var s := SplitsOf(root, area, [])[i];
       && GetRatioAt(root, s.path) == Some(s.ratio)
       && after == SetRatioAt(root, s.path, Clamp(s.ratio + step))
  }

  /** A resize writes at most one ratio, that of a listed split. */
  lemma ResizeMovesOneRatio(root: Node, focus: PaneId, nav: NavDirection, delta: real, area: Rect)
    ensures var after := ResizeFocused(root, focus, nav, delta, area);
            after == root || exists i :: MovesSplit(root, after, area, i, Step(nav, delta))
    ensures Shape(ResizeFocused(root, focus, nav, delta, area)) == Shape(root)
    ensures PaneIds(ResizeFocused(root, focus, nav, delta, area)) == PaneIds(root)
  {
    var panes := PanesOf(root, area, focus);
    var splits := SplitsOf(root, area, []);
    var after := ResizeFocused(root, focus, nav, delta, area);
    ShapeKeepsIds(root);
    ShapeKeepsIds(after);
    match FirstFocused(panes)
    case None =>
    case Some(k) =>
      match ResizeSplit(splits, panes[k].rect, nav)
      case None =>
      case Some(i) =>
        SplitBordersAreFaithful(root, area, i);
        SetRatioChangesOnly(root, splits[i].path, Clamp(splits[i].ratio + Step(nav, delta)), []);
        assert MovesSplit(root, after, area, i, Step(nav, delta));
  }

  lemma ResizeKeepsRatiosIn(root: Node, focus: PaneId, nav: NavDirection, delta: real, area: Rect)
    requires HasRatiosIn(root, 0.1, 0.9)
    ensures HasRatiosIn(ResizeFocused(root, focus, nav, delta, area), 0.1, 0.9)
  {
    ResizeMovesOneRatio(root, focus, nav, delta, area);
    hide ResizeFocused;
    hide HasRatiosIn;
    var after := ResizeFocused(root, focus, nav, delta, area);
    if after != root {
      var i :| MovesSplit(root, after, area, i, Step(nav, delta));
      var s := SplitsOf(root, area, [])[i];
      SetKeepsRatiosIn(root, s.path, Clamp(s.ratio + Step(nav, delta)), 0.1, 0.9);
    }
  }
}

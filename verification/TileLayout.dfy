/** The layout object: a tree and a focus replaced by each operation. */
module TileLayout {
  import opened Options
  import opened Screen
  import opened LayoutTree
  import opened LayoutGeometry
  import opened LayoutPaths
  import Spec = LayoutOps

  /** Hands out pane ids in increasing order. */
  class PaneIdAllocator {
    var next: PaneId

    constructor (first: PaneId)
      ensures next == first
    {
      next := first;
    }

    method Alloc() returns (id: PaneId)
      modifies this
      ensures id == old(next) && next == old(next) + 1
    {
      id := next;
      next := next + 1;
    }
  }

  class TileLayout {
    var root: Node
    var focus: PaneId

    function State(): Spec.Layout
      reads this
    {
      Spec.Layout(root, focus)
    }

    constructor (ids: PaneIdAllocator)
      modifies ids
      ensures Spec.World(State(), ids.next) == Spec.Start(old(ids.next))
    {
      var id := ids.Alloc();
      root, focus := Pane(id), id;
    }

    method SplitFocusedWithRatio(direction: Direction, ratio: Option<real>, ids: PaneIdAllocator)
      returns (newId: PaneId)
      modifies this, ids
      ensures State() == Spec.SplitFocused(old(State()), direction, ratio, newId)
      ensures newId == old(ids.next) && ids.next == old(ids.next) + 1
    {
      newId := ids.Alloc();
      root := SplitAt(root, focus, direction, newId, Spec.ValidSplitRatio(ratio));
      focus := newId;
    }

    method InsertPaneNear(target: PaneId, moved: PaneId, direction: Direction, ratio: Option<real>) returns (ok: bool)
      modifies this
      ensures Spec.Answer(State(), ok) == Spec.InsertPaneNear(old(State()), target, moved, direction, ratio)
    {
      if target == moved {
        return false;
      }
      var ids := PaneIds(root);
      if target !in ids || moved in ids {
        return false;
      }
      root := SplitAt(root, target, direction, moved, Spec.ValidSplitRatio(ratio));
      focus := moved;
      ok := true;
    }

    method CloseFocused() returns (ok: bool)
      requires focus in PaneIds(root)
      modifies this
      ensures Spec.Answer(State(), ok) == Spec.CloseFocused(old(State()))
    {
      if CountPanes(root) <= 1 {
        return false;
      }
      var newFocus := Spec.Successor(PaneIds(root), focus);
      var removed := RemovePane(root, focus);
      root := Pane(0);
      if removed.None? {
        return false;
      }
      root, focus := removed.value, newFocus;
      ok := true;
    }

    method FocusPane(id: PaneId)
      modifies this`focus
      ensures State() == Spec.FocusPane(old(State()), id)
    {
      if id in PaneIds(root) {
        focus := id;
      }
    }

    method SwapPanes(first: PaneId, second: PaneId) returns (ok: bool)
      modifies this`root
      ensures Spec.Answer(State(), ok) == Spec.SwapPanes(old(State()), first, second)
    {
      if first == second {
        return false;
      }
      var ids := PaneIds(root);
      if first !in ids || second !in ids {
        return false;
      }
      root := SwapPaneIds(root, first, second);
      ok := true;
    }

    method SetSplitRatio(path: Path, ratio: real) returns (ok: bool)
      modifies this`root
      ensures Spec.Answer(State(), ok) == Spec.SetSplitRatio(old(State()), path, ratio)
    {
      ok := SetsRatioAt(root, path);
      root := SetRatioAt(root, path, Clamp(ratio));
    }

    /** Move the nearest split of the focused pane. */
    method ResizeFocused(nav: NavDirection, delta: real, area: Rect)
      modifies this`root
      ensures root == LayoutPaths.ResizeFocused(old(root), focus, nav, delta, area)
    {
      var panes := PanesOf(root, area, focus);
      var focused := FirstFocused(panes);
      if focused.None? {
        return;
      }
      var splits := SplitsOf(root, area, []);
      var best := ResizeSplit(splits, panes[focused.value].rect, nav);
      if best.Some? {
        var path := splits[best.value].path;
        var current := match GetRatioAt(root, path) { case Some(r) => r case None => 0.5 };
        var step := if nav.Right? || nav.Down? then delta else -delta;
        var ok := SetSplitRatio(path, current + step);
      }
    }

    /** Resize a pane without moving the focus for good; true when a ratio changed. */
    method ResizePane(id: PaneId, nav: NavDirection, delta: real, area: Rect) returns (changed: bool)
      modifies this
      ensures Spec.Answer(State(), changed) == Spec.ResizePane(old(State()), id, nav, delta, area)
    {
      if id !in PaneIds(root) {
        return false;
      }
      var before := SplitRatios(root);
      var previousFocus := focus;
      focus := id;
      ResizeFocused(nav, delta, area);
      focus := previousFocus;
      var after := SplitRatios(root);
      changed := after != before;
    }
  }
}

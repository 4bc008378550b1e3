/** The operations of a tiling layout, what they keep over every run, and what they undo. */
module LayoutOps {
  import opened Options
  import opened Screen
  import opened LayoutTree
  import opened LayoutGeometry
  import opened LayoutPaths

  datatype Layout = Layout(root: Node, focus: PaneId)
  datatype Answer = Answer(layout: Layout, ok: bool)

  /** A requested ratio; none when the caller's number is not finite. */
  function ValidSplitRatio(ratio: Option<real>): (r: real)
    ensures 0.1 <= r <= 0.9
  {
    match ratio
    case Some(v) => Clamp(v)
    case None => 0.5
  }

  function SplitFocused(l: Layout, direction: Direction, ratio: Option<real>, newId: PaneId): Layout {
    Layout(SplitAt(l.root, l.focus, direction, newId, ValidSplitRatio(ratio)), newId)
  }

  function InsertPaneNear(l: Layout, target: PaneId, moved: PaneId, direction: Direction, ratio: Option<real>): Answer {
    if target == moved || target !in PaneIds(l.root) || moved in PaneIds(l.root) then Answer(l, false)
    else Answer(Layout(SplitAt(l.root, target, direction, moved, ValidSplitRatio(ratio)), moved), true)
  }

  function IndexOf(ids: seq<PaneId>, id: PaneId): (i: nat)
    requires id in ids
    ensures i < |ids| && ids[i] == id && id !in ids[..i]
  {
    if ids[0] == id then 0
    else
      var i := IndexOf(ids[1..], id);
      assert ids[..i + 1] == [ids[0]] + ids[1..][..i];
      i + 1
  }

  /** The pane that takes over: the next one, or the previous when the last one closes. */
  function Successor(ids: seq<PaneId>, id: PaneId): PaneId
    requires id in ids && |ids| > 1
  {
    var pos := IndexOf(ids, id);
    if pos + 1 < |ids| then ids[pos + 1] else ids[pos - 1]
  }

  function CloseFocused(l: Layout): Answer
    requires l.focus in PaneIds(l.root)
  {
    if CountPanes(l.root) <= 1 then Answer(l, false)
    else
      match RemovePane(l.root, l.focus)
      case Some(root) => Answer(Layout(root, Successor(PaneIds(l.root), l.focus)), true)
      case None => Answer(Layout(Pane(0), l.focus), false)
  }

  function FocusPane(l: Layout, id: PaneId): Layout {
    if id in PaneIds(l.root) then l.(focus := id) else l
  }

  function SwapPanes(l: Layout, a: PaneId, b: PaneId): Answer {
    if a == b || a !in PaneIds(l.root) || b !in PaneIds(l.root) then Answer(l, false)
    else Answer(l.(root := SwapPaneIds(l.root, a, b)), true)
  }

  function SetSplitRatio(l: Layout, path: Path, ratio: real): Answer {
    Answer(l.(root := SetRatioAt(l.root, path, Clamp(ratio))), SetsRatioAt(l.root, path))
  }

  function ResizePane(l: Layout, id: PaneId, nav: NavDirection, delta: real, area: Rect): Answer {
    if id !in PaneIds(l.root) then Answer(l, false)
    else
      var root := ResizeFocused(l.root, id, nav, delta, area);
      Answer(l.(root := root), RatiosOf(root, []) != RatiosOf(l.root, []))
  }

  // ----- What every operation keeps -----

  /** Ids are distinct and all handed out, the focus is one of them, ratios are within bounds. */
  predicate IsValid(l: Layout, next: PaneId) {
    && IsDistinct(PaneIds(l.root))
    && (forall id :: id in PaneIds(l.root) ==> id < next)
    && l.focus in PaneIds(l.root)
    && HasRatiosIn(l.root, 0.1, 0.9)
  }

  lemma SplitStaysValid(l: Layout, next: PaneId, target: PaneId, direction: Direction,
                        ratio: Option<real>, newId: PaneId, next': PaneId)
    requires IsValid(l, next) && target in PaneIds(l.root) && newId !in PaneIds(l.root)
             && newId < next' && next <= next'
    ensures IsValid(Layout(SplitAt(l.root, target, direction, newId, ValidSplitRatio(ratio)), newId), next')
  {
    SplitAddsPane(l.root, target, direction, newId, ValidSplitRatio(ratio));
    SplitKeepsRatios(l.root, target, direction, newId, ValidSplitRatio(ratio), 0.1, 0.9);
  }

  lemma RemovedIsDistinct(a: seq<PaneId>, id: PaneId, b: seq<PaneId>)
    requires IsDistinct(a + [id] + b)
    ensures IsDistinct(a + b) && id !in a + b
    ensures forall x :: x in a + b <==> x in a + [id] + b && x != id
  {
    var all, rest := a + [id] + b, a + b;
    assert all[|a|] == id;
    assert forall j :: 0 <= j < |rest| ==> rest[j] == all[if j < |a| then j else j + 1];
    forall j, k | 0 <= j < k < |rest|
      ensures rest[j] != rest[k]
    {
      assert all[if j < |a| then j else j + 1] != all[if k < |a| then k else k + 1];
    }
    forall j | 0 <= j < |rest|
      ensures rest[j] != id
    {
      assert all[if j < |a| then j else j + 1] != all[|a|];
    }
  }

  /** Closing: with more than one pane it always succeeds, takes out the focused pane alone,
      keeps the order of the rest and hands the focus to one of them. */
  lemma CloseStaysValid(l: Layout, next: PaneId)
    requires IsValid(l, next)
    ensures var a := CloseFocused(l);
            && IsValid(a.layout, next)
            && (a.ok <==> |PaneIds(l.root)| > 1)
            && (!a.ok ==> a.layout == l)
            && (a.ok ==> PaneIds(a.layout.root) == Without(PaneIds(l.root), l.focus))
  {
    var ids := PaneIds(l.root);
    if |ids| > 1 {
      var pos := IndexOf(ids, l.focus);
      RemovePaneIds(l.root, l.focus);
      WithoutAt(ids, pos);
      CloseFocusIs(l);
      RemoveKeepsRatios(l.root, l.focus, 0.1, 0.9);
      hide RemovePane;
      hide PaneIds;
      hide HasRatiosIn;
      assert ids == ids[..pos] + [ids[pos]] + ids[pos + 1..];
      assert CloseFocused(l).ok && PaneIds(CloseFocused(l).layout.root) == ids[..pos] + ids[pos + 1..];
      hide CloseFocused;
      RemovedIsDistinct(ids[..pos], ids[pos], ids[pos + 1..]);
      SuccessorStays(ids, l.focus);
      hide IsDistinct;
      hide Successor;
    }
  }

  lemma SuccessorStays(ids: seq<PaneId>, id: PaneId)
    requires IsDistinct(ids) && id in ids && |ids| > 1
    ensures Successor(ids, id) in ids && Successor(ids, id) != id
  {
    var pos := IndexOf(ids, id);
    assert pos + 1 < |ids| ==> ids[pos] != ids[pos + 1];
    assert pos > 0 ==> ids[pos - 1] != ids[pos];
  }

  /** The focus goes to the pane that moves up into the closed one's place, or to the last one. */
  lemma CloseHandsOverFocus(l: Layout, next: PaneId, i: nat)
    requires IsValid(l, next) && |PaneIds(l.root)| > 1
    requires i < |PaneIds(l.root)| && PaneIds(l.root)[i] == l.focus
    ensures var left := PaneIds(CloseFocused(l).layout.root);
            && |left| == |PaneIds(l.root)| - 1
            && CloseFocused(l).layout.focus == left[if i < |left| then i else i - 1]
  {
    hide CloseFocused;
    hide RemovePane;
    var ids := PaneIds(l.root);
    CloseStaysValid(l, next);
    WithoutAt(ids, i);
    assert IndexOf(ids, l.focus) == i;
    CloseFocusIs(l);
  }

  lemma CloseFocusIs(l: Layout)
    requires l.focus in PaneIds(l.root) && CloseFocused(l).ok
    ensures |PaneIds(l.root)| > 1 && CloseFocused(l).layout.focus == Successor(PaneIds(l.root), l.focus)
  {}

  lemma SwapStaysValid(l: Layout, next: PaneId, a: PaneId, b: PaneId)
    requires IsValid(l, next)
    ensures IsValid(SwapPanes(l, a, b).layout, next)
  {
    if SwapPanes(l, a, b).ok {
      SwapKeepsIds(l.root, a, b);
      SwapKeepsRatios(l.root, a, b, 0.1, 0.9);
    }
  }

  lemma SetRatioStaysValid(l: Layout, next: PaneId, path: Path, ratio: real)
    requires IsValid(l, next)
    ensures var a := SetSplitRatio(l, path, ratio);
            && IsValid(a.layout, next) && PaneIds(a.layout.root) == PaneIds(l.root)
            && (a.ok <==> GetRatioAt(l.root, path).Some?)
  {
    SetRatioChangesOnly(l.root, path, Clamp(ratio), []);
    SetKeepsRatiosIn(l.root, path, Clamp(ratio), 0.1, 0.9);
    ShapeKeepsIds(l.root);
    ShapeKeepsIds(SetRatioAt(l.root, path, Clamp(ratio)));
  }

  /** A resize keeps ids, shape and focus, and says truthfully whether the tree changed. */
  lemma ResizeIsTruthful(l: Layout, next: PaneId, id: PaneId, nav: NavDirection, delta: real, area: Rect)
    requires IsValid(l, next)
    ensures var a := ResizePane(l, id, nav, delta, area);
            && IsValid(a.layout, next)
            && a.layout.focus == l.focus && PaneIds(a.layout.root) == PaneIds(l.root)
            && Shape(a.layout.root) == Shape(l.root)
            && (a.ok <==> a.layout != l)
  {
    if id in PaneIds(l.root) {
      ResizeMovesOneRatio(l.root, id, nav, delta, area);
      ResizeKeepsRatiosIn(l.root, id, nav, delta, area);
      hide ResizeFocused;
      ListingsTellApart(ResizeFocused(l.root, id, nav, delta, area), l.root);
    }
  }

  // ----- What operations undo -----

  /** Inserting a pane and closing it again restores the tree. */
  lemma InsertThenClose(l: Layout, next: PaneId, target: PaneId, moved: PaneId,
                        direction: Direction, ratio: Option<real>)
    requires IsValid(l, next)
    requires InsertPaneNear(l, target, moved, direction, ratio).ok
    ensures var inserted := InsertPaneNear(l, target, moved, direction, ratio).layout;
            && inserted.focus == moved && moved in PaneIds(inserted.root)
            && CloseFocused(inserted).ok
            && CloseFocused(inserted).layout.root == l.root
            && CloseFocused(inserted).layout.focus in PaneIds(l.root)
  {
    var inserted := InsertPaneNear(l, target, moved, direction, ratio).layout;
    SplitStaysValid(l, next, target, direction, ratio, moved, if moved < next then next else moved + 1);
    SplitAddsPane(l.root, target, direction, moved, ValidSplitRatio(ratio));
    CloseStaysValid(inserted, if moved < next then next else moved + 1);
    RemoveUndoesSplit(l.root, target, direction, moved, ValidSplitRatio(ratio));
  }

  /** Swapping the same panes twice restores the layout. */
  lemma SwapTwice(l: Layout, a: PaneId, b: PaneId)
    requires IsDistinct(PaneIds(l.root)) && SwapPanes(l, a, b).ok
    ensures SwapPanes(SwapPanes(l, a, b).layout, a, b) == Answer(l, true)
  {
    SwapKeepsIds(l.root, a, b);
    SwapInvolution(l.root, a, b);
  }

  // ----- Runs -----

  datatype Op =
    | SplitOp(direction: Direction, ratio: Option<real>)
    | InsertOp(target: PaneId, moved: PaneId, direction: Direction, ratio: Option<real>)
    | CloseOp
    | FocusOp(id: PaneId)
    | SwapOp(a: PaneId, b: PaneId)
    | SetRatioOp(path: Path, newRatio: real)
    | ResizeOp(id: PaneId, nav: NavDirection, delta: real, area: Rect)

  /** A layout together with the next id to hand out. */
  datatype World = World(layout: Layout, next: PaneId)

  function Start(next: PaneId): World {
    World(Layout(Pane(next), next), next + 1)
  }

  /** Only ids handed out earlier are ever inserted. */
  predicate IsPossible(w: World, op: Op) {
    op.InsertOp? ==> op.moved < w.next
  }

  function Apply(w: World, op: Op): World
    requires w.layout.focus in PaneIds(w.layout.root)
  {
    match op
    case SplitOp(direction, ratio) => World(SplitFocused(w.layout, direction, ratio, w.next), w.next + 1)
    case InsertOp(target, moved, direction, ratio) =>
      w.(layout := InsertPaneNear(w.layout, target, moved, direction, ratio).layout)
    case CloseOp => w.(layout := CloseFocused(w.layout).layout)
    case FocusOp(id) => w.(layout := FocusPane(w.layout, id))
    case SwapOp(a, b) => w.(layout := SwapPanes(w.layout, a, b).layout)
    case SetRatioOp(path, ratio) => w.(layout := SetSplitRatio(w.layout, path, ratio).layout)
    case ResizeOp(id, nav, delta, area) => w.(layout := ResizePane(w.layout, id, nav, delta, area).layout)
  }

  lemma ApplyStaysValid(w: World, op: Op)
    requires IsValid(w.layout, w.next) && IsPossible(w, op)
    ensures IsValid(Apply(w, op).layout, Apply(w, op).next)
  {
    var l, next := w.layout, w.next;
    match op
    case SplitOp(direction, ratio) => SplitStaysValid(l, next, l.focus, direction, ratio, next, next + 1);
    case InsertOp(target, moved, direction, ratio) =>
      if InsertPaneNear(l, target, moved, direction, ratio).ok {
        SplitStaysValid(l, next, target, direction, ratio, moved, next);
      }
    case CloseOp => CloseStaysValid(l, next);
    case FocusOp(id) =>
    case SwapOp(a, b) => SwapStaysValid(l, next, a, b);
    case SetRatioOp(path, ratio) => SetRatioStaysValid(l, next, path, ratio);
    case ResizeOp(id, nav, delta, area) => ResizeIsTruthful(l, next, id, nav, delta, area);
  }

  /** `trace` lists the worlds of a run of `ops`, one more than there are operations. */
  predicate IsRun(trace: seq<World>, ops: seq<Op>) {
    && |trace| == |ops| + 1
    && forall i :: 0 <= i < |ops| ==>
         && IsPossible(trace[i], ops[i])
         && (trace[i].layout.focus in PaneIds(trace[i].layout.root) ==> trace[i + 1] == Apply(trace[i], ops[i]))
  }

  lemma StartIsValid(next: PaneId)
    ensures IsValid(Start(next).layout, Start(next).next)
  {}

  /** Every layout of every run from a valid one is valid, and a fresh one is valid: the focus is
      always found, so closing never fails to find it, and every layout tiles its area. */
  lemma {:induction false} RunsStayValid(trace: seq<World>, ops: seq<Op>, n: nat)
    requires IsRun(trace, ops) && IsValid(trace[0].layout, trace[0].next) && n < |trace|
    ensures IsValid(trace[n].layout, trace[n].next)
    ensures HasRatiosIn(trace[n].layout.root, 0.0, 1.0)
  {
    if n > 0 {
      RunsStayValid(trace, ops, n - 1);
      ApplyStaysValid(trace[n - 1], ops[n - 1]);
    }
    WiderRatios(trace[n].layout.root);
  }
}

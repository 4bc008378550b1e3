/** The BSP tree of panes and its surgery: split, remove, swap. */
module LayoutTree {
  import opened Options
  import opened Screen

  datatype Direction = Horizontal | Vertical

  datatype Node =
    | Pane(id: PaneId)
    | Split(direction: Direction, ratio: real, first: Node, second: Node)

  function PaneIds(node: Node): (ids: seq<PaneId>)
    ensures |ids| >= 1
  {
    match node
    case Pane(id) => [id]
    case Split(_, _, first, second) => PaneIds(first) + PaneIds(second)
  }

  function CountPanes(node: Node): (n: nat)
    ensures n == |PaneIds(node)|
  {
    match node
    case Pane(_) => 1
    case Split(_, _, first, second) => CountPanes(first) + CountPanes(second)
  }

  predicate IsDistinct(ids: seq<PaneId>) {
    forall i, j :: 0 <= i < j < |ids| ==> ids[i] != ids[j]
  }

  predicate HasRatiosIn(node: Node, lo: real, hi: real) {
    match node
    case Pane(_) => true
    case Split(_, ratio, first, second) =>
      lo <= ratio <= hi && HasRatiosIn(first, lo, hi) && HasRatiosIn(second, lo, hi)
  }

  function SplitAt(node: Node, target: PaneId, direction: Direction, newId: PaneId, ratio: real): Node {
    match node
    case Pane(id) => if id == target then Split(direction, ratio, Pane(id), Pane(newId)) else node
    case Split(d, r, first, second) =>
      Split(d, r, SplitAt(first, target, direction, newId, ratio), SplitAt(second, target, direction, newId, ratio))
  }

  function RemovePane(node: Node, target: PaneId): Option<Node> {
    match node
    case Pane(id) => if id == target then None else Some(node)
    case Split(d, r, first, second) =>
      match (RemovePane(first, target), RemovePane(second, target))
      case (None, s) => s
      case (f, None) => f
      case (Some(f), Some(s)) => Some(Split(d, r, f, s))
  }

  function SwapId(id: PaneId, a: PaneId, b: PaneId): PaneId {
    if id == a then b else if id == b then a else id
  }

  function SwapPaneIds(node: Node, a: PaneId, b: PaneId): Node {
    match node
    case Pane(id) => Pane(SwapId(id, a, b))
    case Split(d, r, first, second) => Split(d, r, SwapPaneIds(first, a, b), SwapPaneIds(second, a, b))
  }

  lemma {:induction false} WiderRatios(node: Node)
    ensures HasRatiosIn(node, 0.1, 0.9) ==> HasRatiosIn(node, 0.0, 1.0)
  {
    if node.Split? {
      WiderRatios(node.first);
      WiderRatios(node.second);
    }
  }

  // ----- Splitting -----

  /** Every occurrence of the target gets the new id right behind it. */
  function InsertAfter(ids: seq<PaneId>, target: PaneId, newId: PaneId): seq<PaneId> {
    if ids == [] then []
    else (if ids[0] == target then [target, newId] else [ids[0]]) + InsertAfter(ids[1..], target, newId)
  }

  lemma {:induction false} InsertAfterAppend(a: seq<PaneId>, b: seq<PaneId>, target: PaneId, newId: PaneId)
    ensures InsertAfter(a + b, target, newId) == InsertAfter(a, target, newId) + InsertAfter(b, target, newId)
    decreases |a|
  {
    if a == [] {
      assert a + b == b;
    } else {
      InsertAfterAppend(a[1..], b, target, newId);
      assert (a + b)[1..] == a[1..] + b && (a + b)[0] == a[0];
      var head := if a[0] == target then [target, newId] else [a[0]];
      var x, y := InsertAfter(a[1..], target, newId), InsertAfter(b, target, newId);
      assert head + (x + y) == (head + x) + y;
    }
  }

  lemma {:induction false} SplitAtIds(node: Node, target: PaneId, direction: Direction, newId: PaneId, ratio: real)
    ensures PaneIds(SplitAt(node, target, direction, newId, ratio)) == InsertAfter(PaneIds(node), target, newId)
  {
    match node
    case Pane(id) =>
      assert [id][1..] == [];
      assert InsertAfter([], target, newId) == [];
    case Split(_, _, first, second) =>
      SplitAtIds(first, target, direction, newId, ratio);
      SplitAtIds(second, target, direction, newId, ratio);
      InsertAfterAppend(PaneIds(first), PaneIds(second), target, newId);
  }

  lemma {:induction false} InsertAfterAbsent(ids: seq<PaneId>, target: PaneId, newId: PaneId)
    requires target !in ids
    ensures InsertAfter(ids, target, newId) == ids
    decreases |ids|
  {
    if ids != [] {
      InsertAfterAbsent(ids[1..], target, newId);
    }
  }

  /** In a list without repeats the new id lands directly behind the target. */
  lemma {:induction false} InsertAfterAt(ids: seq<PaneId>, i: nat, newId: PaneId)
    requires i < |ids| && IsDistinct(ids)
    ensures InsertAfter(ids, ids[i], newId) == ids[..i + 1] + [newId] + ids[i + 1..]
    decreases |ids|
  {
    var target := ids[i];
    if i == 0 {
      InsertAfterAbsent(ids[1..], target, newId);
      assert [target, newId] + ids[1..] == ids[..1] + [newId] + ids[1..];
    } else {
      InsertAfterAt(ids[1..], i - 1, newId);
      assert ids[1..][i - 1] == target;
      assert [ids[0]] + (ids[1..][..i] + [newId] + ids[1..][i..]) == ids[..i + 1] + [newId] + ids[i + 1..];
    }
  }

  lemma InsertedIsDistinct(a: seq<PaneId>, b: seq<PaneId>, newId: PaneId)
    requires IsDistinct(a + b) && newId !in a + b
    ensures IsDistinct(a + [newId] + b)
    ensures forall id :: id in a + [newId] + b <==> id in a + b || id == newId
  {
    var ids, all := a + b, a + [newId] + b;
    forall j | 0 <= j < |all| && j != |a|
      ensures all[j] == ids[if j < |a| then j else j - 1]
    {}
    forall j, k | 0 <= j < k < |all|
      ensures all[j] != all[k]
    {
      if j == |a| {
        assert all[k] == ids[k - 1];
      } else if k == |a| {
        assert all[j] == ids[j];
      } else {
        assert all[j] == ids[if j < |a| then j else j - 1];
        assert all[k] == ids[if k < |a| then k else k - 1];
      }
    }
  }

  /** A split puts the new pane behind its target and keeps the ids distinct. */
  lemma SplitAddsPane(node: Node, target: PaneId, direction: Direction, newId: PaneId, ratio: real)
    requires IsDistinct(PaneIds(node)) && target in PaneIds(node) && newId !in PaneIds(node)
    ensures var ids := PaneIds(SplitAt(node, target, direction, newId, ratio));
            && IsDistinct(ids)
            && (forall id :: id in ids <==> id in PaneIds(node) || id == newId)
            && |ids| == |PaneIds(node)| + 1
  {
    hide IsDistinct;
    hide SplitAt;
    var ids := PaneIds(node);
    var i :| 0 <= i < |ids| && ids[i] == target;
    SplitAtIds(node, target, direction, newId, ratio);
    InsertAfterAt(ids, i, newId);
    assert ids == ids[..i + 1] + ids[i + 1..];
    InsertedIsDistinct(ids[..i + 1], ids[i + 1..], newId);
  }

  lemma {:induction false} SplitKeepsRatios(node: Node, target: PaneId,
                                            direction: Direction, newId: PaneId, ratio: real, lo: real, hi: real)
    requires HasRatiosIn(node, lo, hi) && lo <= ratio <= hi
    ensures HasRatiosIn(SplitAt(node, target, direction, newId, ratio), lo, hi)
  {
    if node.Split? {
      SplitKeepsRatios(node.first, target, direction, newId, ratio, lo, hi);
      SplitKeepsRatios(node.second, target, direction, newId, ratio, lo, hi);
    }
  }

  // ----- Removing -----

  function Without(ids: seq<PaneId>, target: PaneId): (r: seq<PaneId>)
  {
    if ids == [] then []
    else (if ids[0] == target then [] else [ids[0]]) + Without(ids[1..], target)
  }

  lemma {:induction false} WithoutAppend(a: seq<PaneId>, b: seq<PaneId>, target: PaneId)
    ensures Without(a + b, target) == Without(a, target) + Without(b, target)
    decreases |a|
  {
    if a == [] {
      assert a + b == b;
    } else {
      WithoutAppend(a[1..], b, target);
      assert (a + b)[1..] == a[1..] + b && (a + b)[0] == a[0];
      var head := if a[0] == target then [] else [a[0]];
      assert head + (Without(a[1..], target) + Without(b, target))
             == (head + Without(a[1..], target)) + Without(b, target);
    }
  }

  /** Removing a pane removes its id and keeps the order of the others; nothing is left exactly
      when no other pane was there. */
  lemma {:induction false} RemovePaneIds(node: Node, target: PaneId)
    ensures RemovePane(node, target).None? <==> Without(PaneIds(node), target) == []
    ensures RemovePane(node, target).Some? ==> PaneIds(RemovePane(node, target).value) == Without(PaneIds(node), target)
  {
    match node
    case Pane(id) =>
      assert [id][1..] == [];
      assert Without([], target) == [];
    case Split(_, _, first, second) =>
      RemovePaneIds(first, target);
      RemovePaneIds(second, target);
      WithoutAppend(PaneIds(first), PaneIds(second), target);
  }

  lemma {:induction false} WithoutAbsent(ids: seq<PaneId>, target: PaneId)
    requires target !in ids
    ensures Without(ids, target) == ids
    decreases |ids|
  {
    if ids != [] {
      WithoutAbsent(ids[1..], target);
    }
  }

  lemma {:induction false} WithoutAt(ids: seq<PaneId>, i: nat)
    requires i < |ids| && IsDistinct(ids)
    ensures Without(ids, ids[i]) == ids[..i] + ids[i + 1..]
    decreases |ids|
  {
    var target := ids[i];
    if i == 0 {
      WithoutAbsent(ids[1..], target);
    } else {
      WithoutAt(ids[1..], i - 1);
      assert ids[1..][i - 1] == target;
      assert [ids[0]] + (ids[1..][..i - 1] + ids[1..][i..]) == ids[..i] + ids[i + 1..];
    }
  }

  lemma {:induction false} RemoveAbsent(node: Node, target: PaneId)
    requires target !in PaneIds(node)
    ensures RemovePane(node, target) == Some(node)
  {
    if node.Split? {
      RemoveAbsent(node.first, target);
      RemoveAbsent(node.second, target);
    }
  }

  lemma {:induction false} RemoveKeepsRatios(node: Node, target: PaneId, lo: real, hi: real)
    requires HasRatiosIn(node, lo, hi)
    ensures RemovePane(node, target).Some? ==> HasRatiosIn(RemovePane(node, target).value, lo, hi)
  {
    if node.Split? {
      RemoveKeepsRatios(node.first, target, lo, hi);
      RemoveKeepsRatios(node.second, target, lo, hi);
    }
  }

  /** Removing a freshly split-off pane gives back the tree as it was. */
  lemma {:induction false} RemoveUndoesSplit(node: Node, target: PaneId,
                                             direction: Direction, newId: PaneId, ratio: real)
    requires newId !in PaneIds(node)
    ensures RemovePane(SplitAt(node, target, direction, newId, ratio), newId) == Some(node)
  {
    if node.Split? {
      RemoveUndoesSplit(node.first, target, direction, newId, ratio);
      RemoveUndoesSplit(node.second, target, direction, newId, ratio);
    }
  }

  // ----- Swapping -----

  lemma {:induction false} SwapIds(node: Node, a: PaneId, b: PaneId)
    ensures |PaneIds(SwapPaneIds(node, a, b))| == |PaneIds(node)|
    ensures forall i :: 0 <= i < |PaneIds(node)| ==>
              PaneIds(SwapPaneIds(node, a, b))[i] == SwapId(PaneIds(node)[i], a, b)
  {
    if node.Split? {
      SwapIds(node.first, a, b);
      SwapIds(node.second, a, b);
    }
  }

  lemma {:induction false} SwapInvolution(node: Node, a: PaneId, b: PaneId)
    ensures SwapPaneIds(SwapPaneIds(node, a, b), a, b) == node
  {
    if node.Split? {
      SwapInvolution(node.first, a, b);
      SwapInvolution(node.second, a, b);
    }
  }

  lemma {:induction false} SwapKeepsRatios(node: Node, a: PaneId, b: PaneId, lo: real, hi: real)
    requires HasRatiosIn(node, lo, hi)
    ensures HasRatiosIn(SwapPaneIds(node, a, b), lo, hi)
  {
    if node.Split? {
      SwapKeepsRatios(node.first, a, b, lo, hi);
      SwapKeepsRatios(node.second, a, b, lo, hi);
    }
  }

  lemma SwapKeepsIds(node: Node, a: PaneId, b: PaneId)
    requires IsDistinct(PaneIds(node)) && a in PaneIds(node) && b in PaneIds(node)
    ensures var ids := PaneIds(SwapPaneIds(node, a, b));
            IsDistinct(ids) && forall id :: id in ids <==> id in PaneIds(node)
  {
    SwapIds(node, a, b);
    var ids, swapped := PaneIds(node), PaneIds(SwapPaneIds(node, a, b));
    forall id | id in ids
      ensures id in swapped
    {
      assert SwapId(id, a, b) in ids;
      var j :| 0 <= j < |ids| && ids[j] == SwapId(id, a, b);
      assert swapped[j] == id;
    }
  }
}

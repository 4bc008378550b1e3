/** The commands of every update and clear take the terminal where the cache says it is. */
module KittyRefinement {
  import opened Options
  import opened Screen
  import opened HostPlacements
  import opened KittyCache

  /** Every source and every placement points at a cached image. */
  predicate IsLinked(t: Tables) {
    && (forall s :: s in t.sources ==> t.sources[s] in t.images)
    && (forall k :: k in t.placements ==> k.0 in t.images)
  }

  // ----- The pictures in use -----

  /** What an image id is drawn from: the pane and the image's signature. */
  type Picture = (PaneId, ImageSignature)

  function PictureOf(p: HostPlacement): Picture {
    (p.paneId, SignatureOf(p))
  }

  /** Every picture the frame draws is among these. */
  predicate Covers(used: set<Picture>, frame: seq<HostPlacement>) {
    forall i :: 0 <= i < |frame| && IsDrawn(frame[i]) ==> PictureOf(frame[i]) in used
  }

  /** No two of these pictures share an id. */
  predicate IsInjectiveOn(ids: Ids, used: set<Picture>) {
    forall a, b :: a in used && b in used && (ids.image)(a.0, a.1) == (ids.image)(b.0, b.1) ==> a == b
  }

  predicate IsIdOf(ids: Ids, used: set<Picture>, pane: PaneId, signature: ImageSignature, id: u32) {
    (pane, signature) in used && (ids.image)(pane, signature) == id
  }

  /** Every cached image is one of these pictures, under its own id. */
  ghost predicate IsNamed(t: Tables, ids: Ids, used: set<Picture>) {
    forall id :: id in t.images ==> exists pane: PaneId :: IsIdOf(ids, used, pane, t.images[id], id)
  }

  // ----- Tracking the terminal -----

  /** The commands so far lead from the terminal of `start` to the terminal of these tables. */
  predicate Tracks(start: Tables, g: Progress) {
    Replay(HostOf(start), g.commands) == Some(HostOf(g.tables))
  }

  lemma TracksThen(start: Tables, g: Progress, next: Progress, c: Command)
    requires Tracks(start, g) && next.commands == g.commands + [c]
    requires Step(HostOf(g.tables), c) == Some(HostOf(next.tables))
    ensures Tracks(start, next)
  {
    hide Step;
    assert [c][1..] == [];
    assert Replay(HostOf(g.tables), [c]) == Some(HostOf(next.tables));
    ReplayThen(HostOf(start), g.commands, HostOf(g.tables), [c], HostOf(next.tables));
  }

  // ----- Single steps -----

  lemma DropStep(t: Tables, id: u32)
    ensures Step(HostOf(t), DeleteImage(id)) == Some(HostOf(DropImages(t, {id})))
  {
    var a, b := Step(HostOf(t), DeleteImage(id)).value, HostOf(DropImages(t, {id}));
    assert a.placements.Keys == b.placements.Keys;
    assert a.placements == b.placements;
  }

  /** A collision with nothing to upload is the one case in which the cache keeps an image the
      host has lost. */
  predicate LosesImage(g: Progress, p: HostPlacement, ids: Ids) {
    HasCollision(g, p, ids) && p.placement.data == []
  }

  lemma EnsureTracksExactly(start: Tables, g: Progress, p: HostPlacement, ids: Ids)
    requires Tracks(start, g)
    ensures Tracks(start, EnsureImage(g, p, ids)) <==> !LosesImage(g, p, ids)
  {
    var id := ImageId(p, ids);
    if HasImage(g, p, ids) {
    } else if HasCollision(g, p, ids) {
      var dropped := DropImageInFrame(g, id);
      DropStep(g.tables, id);
      TracksThen(start, g, dropped, DeleteImage(id));
      var cleared := dropped.(tables := dropped.tables.(images := g.tables.images));
      if p.placement.data == [] {
        assert id !in HostOf(dropped.tables).images && id in HostOf(cleared.tables).images;
      } else {
        var up := UploadImage(cleared, p, ids);
        assert up.tables == dropped.tables.(images := dropped.tables.images[id := SignatureOf(p)]) by {
          assert g.tables.images[id := SignatureOf(p)] == (g.tables.images - {id})[id := SignatureOf(p)];
        }
        TracksThen(start, dropped, up, Upload(id, SignatureOf(p), p.placement.data));
      }
    } else if p.placement.data != [] {
      TracksThen(start, g, UploadImage(g, p, ids), Upload(id, SignatureOf(p), p.placement.data));
    }
  }

  lemma EnsureKeeps(g: Progress, p: HostPlacement, ids: Ids)
    requires IsLinked(g.tables)
    ensures var e := EnsureImage(g, p, ids);
            && IsLinked(e.tables)
            && (EnsureSucceeds(g, p, ids) ==> HasImage(e, p, ids))
  {}

  lemma ReleaseTracks(start: Tables, g: Progress, source: HostSourceKey, id: u32)
    requires Tracks(start, g) && IsLinked(g.tables)
    requires id in g.tables.images
    ensures var r := ReleaseSuperseded(g, source, id);
            && Tracks(start, r) && IsLinked(r.tables)
            && id in r.tables.images && r.tables.images[id] == g.tables.images[id]
            && r.tables.sources == g.tables.sources[source := id]
  {
    var moved := g.(tables := g.tables.(sources := g.tables.sources[source := id]));
    assert HostOf(moved.tables) == HostOf(g.tables);
    assert Tracks(start, moved);
    assert IsLinked(moved.tables);
    if source in g.tables.sources {
      var previous := g.tables.sources[source];
      if previous != id && previous !in moved.tables.sources.Values {
        DropStep(moved.tables, previous);
        TracksThen(start, moved, DropImageInFrame(moved, previous), DeleteImage(previous));
      }
    }
  }

  lemma ShowTracks(start: Tables, g: Progress, p: HostPlacement, viewChanged: bool, ids: Ids)
    requires Tracks(start, g) && IsLinked(g.tables)
    requires IsDrawn(p) && ImageId(p, ids) in g.tables.images
    ensures var s := ShowPlacement(g, p, viewChanged, ids);
            && Tracks(start, s) && IsLinked(s.tables)
  {
    var key, signature := KeyOf(p, ids), PlacementSignatureOf(p);
    var s := ShowPlacement(g, p, viewChanged, ids);
    if s != g {
      var display := Display(key, signature.clipped, signature.z);
      assert Step(HostOf(g.tables), display) == Some(HostOf(s.tables)) by {
        assert HostOf(g.tables).placements[key := Shown(signature.clipped, signature.z)] == HostOf(s.tables).placements;
      }
      TracksThen(start, g, s, display);
    }
  }

  /** Where ids tell the pictures in use apart, the collision branch is never taken. */
  lemma NoCollisions(g: Progress, p: HostPlacement, ids: Ids, used: set<Picture>)
    requires IsNamed(g.tables, ids, used) && IsInjectiveOn(ids, used)
    requires PictureOf(p) in used
    ensures !HasCollision(g, p, ids)
  {
    var id := ImageId(p, ids);
    if id in g.tables.images {
      var pane: PaneId :| IsIdOf(ids, used, pane, g.tables.images[id], id);
      var cached: Picture := (pane, g.tables.images[id]);
      assert (ids.image)(cached.0, cached.1) == (ids.image)(PictureOf(p).0, PictureOf(p).1);
    }
  }

  // ----- A frame -----

  /** No placement of the frame, at its turn, runs into a collision it cannot repair. */
  predicate NeverLosesImage(t: Tables, frame: seq<HostPlacement>, viewChanged: bool, ids: Ids)
    decreases |frame|
  {
    frame != [] ==>
      var last := frame[|frame| - 1];
      var before := PlaceFrame(t, frame[..|frame| - 1], viewChanged, ids);
      && NeverLosesImage(t, frame[..|frame| - 1], viewChanged, ids)
      && (IsDrawn(last) ==> !LosesImage(NoteKey(before, last, ids), last, ids))
  }

  lemma PlaceOneTracks(start: Tables, g: Progress, p: HostPlacement, viewChanged: bool, ids: Ids)
    requires Tracks(start, g) && IsLinked(g.tables)
    requires IsDrawn(p) ==> !LosesImage(NoteKey(g, p, ids), p, ids)
    ensures var o := PlaceOne(g, p, viewChanged, ids);
            Tracks(start, o) && IsLinked(o.tables)
  {
    if IsDrawn(p) {
      var noted := NoteKey(g, p, ids);
      assert Tracks(start, noted);
      EnsureTracksExactly(start, noted, p, ids);
      EnsureKeeps(noted, p, ids);
      hide EnsureImage;
      if EnsureSucceeds(noted, p, ids) {
        var ensured := EnsureImage(noted, p, ids);
        ReleaseTracks(start, ensured, p.sourceKey, ImageId(p, ids));
        hide ReleaseSuperseded;
        ShowTracks(start, ReleaseSuperseded(ensured, p.sourceKey, ImageId(p, ids)), p, viewChanged, ids);
      }
    }
  }

  lemma {:induction false} PlaceFrameTracks(t: Tables, frame: seq<HostPlacement>, viewChanged: bool, ids: Ids)
    requires IsLinked(t)
    requires NeverLosesImage(t, frame, viewChanged, ids)
    ensures var g := PlaceFrame(t, frame, viewChanged, ids);
            Tracks(t, g) && IsLinked(g.tables)
    decreases |frame|
  {
    if frame != [] {
      PlaceFrameTracks(t, frame[..|frame| - 1], viewChanged, ids);
      hide PlaceOne;
      PlaceOneTracks(t, PlaceFrame(t, frame[..|frame| - 1], viewChanged, ids), frame[|frame| - 1], viewChanged, ids);
    }
  }

  // ----- Cached images are pictures in use -----

  /** Every image of the later tables was in the earlier ones, or is the one this placement draws. */
  predicate AddsOnly(before: Tables, after: Tables, p: HostPlacement, ids: Ids) {
    forall id :: id in after.images ==>
      || (id in before.images && after.images[id] == before.images[id])
      || (IsDrawn(p) && id == ImageId(p, ids) && after.images[id] == SignatureOf(p))
  }

  lemma PlaceOneAddsOnly(g: Progress, p: HostPlacement, viewChanged: bool, ids: Ids)
    ensures AddsOnly(g.tables, PlaceOne(g, p, viewChanged, ids).tables, p, ids)
  {
    hide ClipPlacement;
    hide ImageId;
    hide ShowPlacement;
    if IsDrawn(p) {
      var noted := NoteKey(g, p, ids);
      EnsureAddsOnly(noted, p, ids);
      hide EnsureImage;
      if EnsureSucceeds(noted, p, ids) {
        var ensured := EnsureImage(noted, p, ids);
        ReleaseRemovesOnly(ensured, p.sourceKey, ImageId(p, ids));
        hide ReleaseSuperseded;
        ShowKeepsImages(ReleaseSuperseded(ensured, p.sourceKey, ImageId(p, ids)), p, viewChanged, ids);
      }
    }
  }

  lemma EnsureAddsOnly(g: Progress, p: HostPlacement, ids: Ids)
    requires IsDrawn(p)
    ensures AddsOnly(g.tables, EnsureImage(g, p, ids).tables, p, ids)
  {
    hide IsDrawn;
    hide ImageId;
  }

  lemma ReleaseRemovesOnly(g: Progress, source: HostSourceKey, id: u32)
    ensures var r := ReleaseSuperseded(g, source, id);
            forall i :: i in r.tables.images ==> i in g.tables.images && r.tables.images[i] == g.tables.images[i]
  {}

  lemma ShowKeepsImages(g: Progress, p: HostPlacement, viewChanged: bool, ids: Ids)
    requires IsDrawn(p)
    ensures ShowPlacement(g, p, viewChanged, ids).tables.images == g.tables.images
  {
    hide ClipPlacement;
  }

  lemma AddsOnlyNamed(before: Tables, after: Tables, p: HostPlacement, ids: Ids, used: set<Picture>)
    requires IsNamed(before, ids, used) && AddsOnly(before, after, p, ids)
    requires IsDrawn(p) ==> PictureOf(p) in used
    ensures IsNamed(after, ids, used)
  {
    hide IsDrawn;
    forall id | id in after.images
      ensures exists pane: PaneId :: IsIdOf(ids, used, pane, after.images[id], id)
    {
      if id in before.images && after.images[id] == before.images[id] {
        var pane: PaneId :| IsIdOf(ids, used, pane, before.images[id], id);
        assert IsIdOf(ids, used, pane, after.images[id], id);
      } else {
        assert IsIdOf(ids, used, p.paneId, after.images[id], id);
      }
    }
  }

  /** Placing a frame of pictures in use keeps the cache linked, named and in step with the
      terminal, and never runs into a collision. */
  lemma {:induction false} PlaceFrameKeeps(t: Tables, frame: seq<HostPlacement>,
                                           viewChanged: bool, ids: Ids, used: set<Picture>)
    requires IsLinked(t) && IsNamed(t, ids, used) && IsInjectiveOn(ids, used) && Covers(used, frame)
    ensures NeverLosesImage(t, frame, viewChanged, ids)
    ensures var g := PlaceFrame(t, frame, viewChanged, ids);
            Tracks(t, g) && IsLinked(g.tables) && IsNamed(g.tables, ids, used)
    decreases |frame|
  {
    if frame != [] {
      var init, last := frame[..|frame| - 1], frame[|frame| - 1];
      PlaceFrameKeeps(t, init, viewChanged, ids, used);
      var before := PlaceFrame(t, init, viewChanged, ids);
      hide IsDrawn;
      hide HasCollision;
      if IsDrawn(last) {
        NoCollisions(NoteKey(before, last, ids), last, ids, used);
      }
      PlaceOneTracks(t, before, last, viewChanged, ids);
      PlaceOneAddsOnly(before, last, viewChanged, ids);
      hide PlaceOne;
      AddsOnlyNamed(before.tables, PlaceOne(before, last, viewChanged, ids).tables, last, ids, used);
    }
  }

  lemma InjectiveNeverLoses(t: Tables, frame: seq<HostPlacement>, viewChanged: bool, ids: Ids, used: set<Picture>)
    requires IsLinked(t) && IsNamed(t, ids, used) && IsInjectiveOn(ids, used) && Covers(used, frame)
    ensures NeverLosesImage(t, frame, viewChanged, ids)
  {
    PlaceFrameKeeps(t, frame, viewChanged, ids, used);
  }

  // ----- Deleting in any order -----

  lemma DropNothing(t: Tables)
    ensures DropImages(t, {}) == t
  {
    assert t.images - {} == t.images;
    assert (map k | k in t.placements && k.0 !in {} :: t.placements[k]) == t.placements;
  }

  lemma DropTwice(t: Tables, a: set<u32>, b: set<u32>)
    ensures DropImages(DropImages(t, a), b) == DropImages(t, a + b)
  {
    assert t.images - a - b == t.images - (a + b);
    assert DropImages(DropImages(t, a), b).placements == DropImages(t, a + b).placements;
  }

  function ElementsOf<T>(s: seq<T>): set<T> {
    set x | x in s
  }

  lemma {:induction false} DeletesReplay(t: Tables, order: seq<u32>)
    ensures Replay(HostOf(t), DeleteImages(order)) == Some(HostOf(DropImages(t, ElementsOf(order))))
    decreases |order|
  {
    if order == [] {
      assert DeleteImages(order) == [] && ElementsOf(order) == {};
      DropNothing(t);
    } else {
      var id, rest := order[0], order[1..];
      assert DeleteImages(order)[1..] == DeleteImages(rest);
      assert ElementsOf(order) == {id} + ElementsOf(rest);
      DropStep(t, id);
      DeletesReplay(DropImages(t, {id}), rest);
      DropTwice(t, {id}, ElementsOf(rest));
    }
  }

  lemma {:induction false} StaleReplay(t: Tables, order: seq<PlacementKey>)
    ensures Replay(HostOf(t), DeletePlacements(order))
            == Some(HostOf(t.(placements := t.placements - ElementsOf(order))))
    decreases |order|
  {
    if order == [] {
      assert DeletePlacements(order) == [] && ElementsOf(order) == {};
      assert t.placements - {} == t.placements;
    } else {
      var key, rest := order[0], order[1..];
      assert DeletePlacements(order)[1..] == DeletePlacements(rest);
      assert ElementsOf(order) == {key} + ElementsOf(rest);
      var next := t.(placements := t.placements - {key});
      assert HostOf(t).placements - {key} == HostOf(next).placements;
      StaleReplay(next, rest);
      assert next.placements - ElementsOf(rest) == t.placements - ElementsOf(order);
    }
  }

  lemma OrderElements<T>(order: seq<T>, s: set<T>)
    requires IsOrderOf(order, s)
    ensures ElementsOf(order) == s
  {}

  // ----- A whole update -----

  lemma PrunedKeeps(t: Tables, frame: seq<HostPlacement>)
    requires IsLinked(t)
    ensures IsLinked(Pruned(t, frame))
    ensures HostOf(Pruned(t, frame)) == HostOf(DropImages(t, PrunedImages(t, frame)))
  {
    var u := Pruned(t, frame);
    forall s | s in u.sources
      ensures u.sources[s] in u.images
    {
      assert u.sources[s] in KeptSources(t, frame).Values;
    }
  }

  lemma FewerNamed(t: Tables, u: Tables, ids: Ids, used: set<Picture>)
    requires IsNamed(t, ids, used)
    requires forall id :: id in u.images ==> id in t.images && u.images[id] == t.images[id]
    ensures IsNamed(u, ids, used)
  {
    forall id | id in u.images
      ensures exists pane: PaneId :: IsIdOf(ids, used, pane, u.images[id], id)
    {
      assert u.images[id] == t.images[id];
    }
  }

  lemma StaleKeeps(g: Progress)
    requires IsLinked(g.tables)
    ensures IsLinked(DropStale(g))
  {}

  /** One update, whatever orders its hash-table walks take: the commands are never misused by
      the terminal and lead exactly to the terminal the new cache describes. */
  lemma UpdateRefines(t: Tables, frame: seq<HostPlacement>, viewChanged: bool, ids: Ids,
                      pruned: seq<u32>, stale: seq<PlacementKey>)
    requires IsLinked(t)
    requires NeverLosesImage(Pruned(t, frame), frame, viewChanged, ids)
    requires IsOrderOf(pruned, PrunedImages(t, frame))
    requires IsOrderOf(stale, StaleKeys(Placed(t, frame, viewChanged, ids)))
    ensures var u := Updated(t, frame, viewChanged, ids);
            && Replay(HostOf(t), UpdateCommands(t, frame, viewChanged, ids, pruned, stale)) == Some(HostOf(u))
            && IsLinked(u)
  {
    hide PlaceFrame;
    var a := Pruned(t, frame);
    var g := Placed(t, frame, viewChanged, ids);
    PrunedKeeps(t, frame);
    OrderElements(pruned, PrunedImages(t, frame));
    DeletesReplay(t, pruned);
    PlaceFrameTracks(a, frame, viewChanged, ids);
    ReplayThen(HostOf(t), DeleteImages(pruned), HostOf(a), g.commands, HostOf(g.tables));
    OrderElements(stale, StaleKeys(g));
    StaleReplay(g.tables, stale);
    StaleKeeps(g);
    ReplayThen(HostOf(t), DeleteImages(pruned) + g.commands, HostOf(g.tables), DeletePlacements(stale),
               HostOf(DropStale(g)));
  }

  /** A frame of pictures in use: what holds before its update holds after its pruning, after its
      placing and after its update. */
  lemma UpdateKeeps(t: Tables, frame: seq<HostPlacement>, viewChanged: bool, ids: Ids, used: set<Picture>)
    requires IsLinked(t) && IsNamed(t, ids, used) && IsInjectiveOn(ids, used) && Covers(used, frame)
    ensures IsLinked(Pruned(t, frame)) && IsNamed(Pruned(t, frame), ids, used)
    ensures NeverLosesImage(Pruned(t, frame), frame, viewChanged, ids)
    ensures var g := Placed(t, frame, viewChanged, ids); IsLinked(g.tables) && IsNamed(g.tables, ids, used)
    ensures var u := Updated(t, frame, viewChanged, ids); IsLinked(u) && IsNamed(u, ids, used)
  {
    hide PlaceFrame;
    hide Covers;
    PrunedKeeps(t, frame);
    FewerNamed(t, Pruned(t, frame), ids, used);
    PlaceFrameKeeps(Pruned(t, frame), frame, viewChanged, ids, used);
    var g := Placed(t, frame, viewChanged, ids);
    StaleKeeps(g);
    FewerNamed(g.tables, DropStale(g), ids, used);
  }

  /** Clearing deletes every image in some order and leaves an empty terminal. */
  lemma ClearRefines(t: Tables, order: seq<u32>)
    requires IsLinked(t) && IsOrderOf(order, t.images.Keys)
    ensures Replay(HostOf(t), DeleteImages(order)) == Some(HostOf(EMPTY))
    ensures HostOf(EMPTY) == Host(map[], map[])
  {
    OrderElements(order, t.images.Keys);
    DeletesReplay(t, order);
    var d := DropImages(t, t.images.Keys);
    assert d.images == map[];
    assert d.placements == map[];
  }

  // ----- Runs -----

  datatype GraphicsOp =
    | Frame(frame: seq<HostPlacement>, viewChanged: bool, pruned: seq<u32>, stale: seq<PlacementKey>)
    | Clear(order: seq<u32>)

  /** The orders an operation carries are ones the hash tables could produce. */
  predicate FitsTables(t: Tables, op: GraphicsOp, ids: Ids) {
    match op
    case Frame(frame, viewChanged, pruned, stale) =>
      && IsOrderOf(pruned, PrunedImages(t, frame))
      && IsOrderOf(stale, StaleKeys(Placed(t, frame, viewChanged, ids)))
    case Clear(order) => IsOrderOf(order, t.images.Keys)
  }

  function After(t: Tables, op: GraphicsOp, ids: Ids): Tables {
    match op
    case Frame(frame, viewChanged, _, _) => Updated(t, frame, viewChanged, ids)
    case Clear(_) => EMPTY
  }

  function CommandsOf(t: Tables, op: GraphicsOp, ids: Ids): seq<Command> {
    match op
    case Frame(frame, viewChanged, pruned, stale) => UpdateCommands(t, frame, viewChanged, ids, pruned, stale)
    case Clear(order) => DeleteImages(order)
  }

  predicate IsRun(t: Tables, ops: seq<GraphicsOp>, ids: Ids)
    decreases |ops|
  {
    ops != [] ==> FitsTables(t, ops[0], ids) && IsRun(After(t, ops[0], ids), ops[1..], ids)
  }

  function RunTables(t: Tables, ops: seq<GraphicsOp>, ids: Ids): Tables
    decreases |ops|
  {
    if ops == [] then t else RunTables(After(t, ops[0], ids), ops[1..], ids)
  }

  function RunCommands(t: Tables, ops: seq<GraphicsOp>, ids: Ids): seq<Command>
    decreases |ops|
  {
    if ops == [] then [] else CommandsOf(t, ops[0], ids) + RunCommands(After(t, ops[0], ids), ops[1..], ids)
  }

  /** Every picture any frame of the run draws is among these. */
  predicate CoversRun(used: set<Picture>, ops: seq<GraphicsOp>) {
    forall i :: 0 <= i < |ops| && ops[i].Frame? ==> Covers(used, ops[i].frame)
  }

  lemma OpRefines(t: Tables, op: GraphicsOp, ids: Ids, used: set<Picture>)
    requires IsLinked(t) && IsNamed(t, ids, used) && IsInjectiveOn(ids, used)
    requires op.Frame? ==> Covers(used, op.frame)
    requires FitsTables(t, op, ids)
    ensures Replay(HostOf(t), CommandsOf(t, op, ids)) == Some(HostOf(After(t, op, ids)))
    ensures IsLinked(After(t, op, ids)) && IsNamed(After(t, op, ids), ids, used)
  {
    hide Placed;
    hide Pruned;
    match op
    case Frame(frame, viewChanged, pruned, stale) =>
      UpdateKeeps(t, frame, viewChanged, ids, used);
      UpdateRefines(t, frame, viewChanged, ids, pruned, stale);
    case Clear(order) =>
      ClearRefines(t, order);
  }

  /** Over every run of updates and clears the terminal and the cache keep agreeing: replaying
      all commands succeeds and ends where the cache is, and the cache stays linked. All it takes
      is that the ids tell apart the pictures this run draws. */
  lemma {:induction false} RunsRefine(t: Tables, ops: seq<GraphicsOp>, ids: Ids, used: set<Picture>)
    requires IsLinked(t) && IsNamed(t, ids, used) && IsInjectiveOn(ids, used)
    requires IsRun(t, ops, ids) && CoversRun(used, ops)
    ensures Replay(HostOf(t), RunCommands(t, ops, ids)) == Some(HostOf(RunTables(t, ops, ids)))
    ensures IsLinked(RunTables(t, ops, ids)) && IsNamed(RunTables(t, ops, ids), ids, used)
    ensures IsLinked(EMPTY) && IsNamed(EMPTY, ids, used)
    decreases |ops|
  {
    hide CommandsOf;
    hide After;
    hide FitsTables;
    hide Covers;
    if ops != [] {
      OpRefines(t, ops[0], ids, used);
      var next := After(t, ops[0], ids);
      RunsRefine(next, ops[1..], ids, used);
      ReplayThen(HostOf(t), CommandsOf(t, ops[0], ids), HostOf(next), RunCommands(next, ops[1..], ids),
                 HostOf(RunTables(next, ops[1..], ids)));
    }
  }
}

/** The bytes behind every picture on the terminal are the ones the picture was supplied with. */
module KittyPictures {
  import opened Options
  import opened Bytes
  import opened Screen
  import opened HostPlacements
  import opened KittyCache
  import opened KittyRefinement

  // ----- What the terminal keeps under each image id -----

  function StoreOne(stored: map<u32, bytes>, c: Command): map<u32, bytes> {
    match c
    case Upload(id, _, data) => stored[id := data]
    case DeleteImage(id) => stored - {id}
    case _ => stored
  }

  /** The bytes under each id after these commands. */
  function Stored(stored: map<u32, bytes>, commands: seq<Command>): map<u32, bytes>
    decreases |commands|
  {
    if commands == [] then stored else Stored(StoreOne(stored, commands[0]), commands[1..])
  }

  lemma {:induction false} StoredAppend(stored: map<u32, bytes>, a: seq<Command>, b: seq<Command>)
    ensures Stored(stored, a + b) == Stored(Stored(stored, a), b)
    decreases |a|
  {
    if a == [] {
      assert a + b == b;
    } else {
      assert (a + b)[1..] == a[1..] + b;
      StoredAppend(StoreOne(stored, a[0]), a[1..], b);
    }
  }

  lemma StoredOne(stored: map<u32, bytes>, commands: seq<Command>, c: Command)
    ensures Stored(stored, commands + [c]) == StoreOne(Stored(stored, commands), c)
  {
    StoredAppend(stored, commands, [c]);
    assert [c][1..] == [];
  }

  // ----- Pictures and their data -----

  /** Each picture in use has one string of bytes; a placement brings it, or brings nothing. */
  predicate BringsItsData(p: HostPlacement, dataOf: Picture -> bytes) {
    IsDrawn(p) && p.placement.data != [] ==> p.placement.data == dataOf(PictureOf(p))
  }

  predicate FrameBringsData(frame: seq<HostPlacement>, dataOf: Picture -> bytes) {
    forall i :: 0 <= i < |frame| ==> BringsItsData(frame[i], dataOf)
  }

  predicate RunBringsData(ops: seq<GraphicsOp>, dataOf: Picture -> bytes) {
    forall i :: 0 <= i < |ops| && ops[i].Frame? ==> FrameBringsData(ops[i].frame, dataOf)
  }

  /** Exactly the cached ids have bytes, and the bytes are those of the picture with that id. */
  predicate IsStocked(t: Tables, stored: map<u32, bytes>, ids: Ids, used: set<Picture>, dataOf: Picture -> bytes) {
    && stored.Keys == t.images.Keys
    && forall pic :: pic in used && (ids.image)(pic.0, pic.1) in t.images ==>
         stored[(ids.image)(pic.0, pic.1)] == dataOf(pic)
  }

  /** The same while a frame is being placed. */
  predicate Stocks(start: map<u32, bytes>, g: Progress, ids: Ids, used: set<Picture>, dataOf: Picture -> bytes) {
    IsStocked(g.tables, Stored(start, g.commands), ids, used, dataOf)
  }

  // ----- Single steps -----

  lemma DropStocks(start: map<u32, bytes>, g: Progress, id: u32, ids: Ids, used: set<Picture>,
                   dataOf: Picture -> bytes)
    requires Stocks(start, g, ids, used, dataOf)
    ensures Stocks(start, DropImageInFrame(g, id), ids, used, dataOf)
  {
    StoredOne(start, g.commands, DeleteImage(id));
    hide Stored;
  }

  lemma UploadStocks(start: map<u32, bytes>, g: Progress, p: HostPlacement, ids: Ids, used: set<Picture>,
                     dataOf: Picture -> bytes)
    requires Stocks(start, g, ids, used, dataOf) && IsInjectiveOn(ids, used) && PictureOf(p) in used
    requires p.placement.data == dataOf(PictureOf(p))
    ensures Stocks(start, UploadImage(g, p, ids), ids, used, dataOf)
  {
    var id := ImageId(p, ids);
    var after := UploadImage(g, p, ids);
    StoredOne(start, g.commands, Upload(id, SignatureOf(p), p.placement.data));
    var stored := Stored(start, after.commands);
    hide Stored;
    forall pic: Picture | pic in used && (ids.image)(pic.0, pic.1) in after.tables.images
      ensures stored[(ids.image)(pic.0, pic.1)] == dataOf(pic)
    {
      if (ids.image)(pic.0, pic.1) == id {
        assert (ids.image)(PictureOf(p).0, PictureOf(p).1) == id;
        assert pic == PictureOf(p);
      }
    }
  }

  lemma EnsureStocks(start: map<u32, bytes>, g: Progress, p: HostPlacement, ids: Ids, used: set<Picture>,
                     dataOf: Picture -> bytes)
    requires Stocks(start, g, ids, used, dataOf) && IsInjectiveOn(ids, used) && PictureOf(p) in used
    requires IsNamed(g.tables, ids, used) && IsDrawn(p) && BringsItsData(p, dataOf)
    ensures Stocks(start, EnsureImage(g, p, ids), ids, used, dataOf)
  {
    NoCollisions(g, p, ids, used);
    if !HasImage(g, p, ids) && p.placement.data != [] {
      UploadStocks(start, g, p, ids, used, dataOf);
    }
    hide Stocks;
    hide UploadImage;
    hide IsDrawn;
  }

  lemma ReleaseStocks(start: map<u32, bytes>, g: Progress, source: HostSourceKey, id: u32, ids: Ids,
                      used: set<Picture>, dataOf: Picture -> bytes)
    requires Stocks(start, g, ids, used, dataOf)
    ensures Stocks(start, ReleaseSuperseded(g, source, id), ids, used, dataOf)
  {
    var moved := g.(tables := g.tables.(sources := g.tables.sources[source := id]));
    assert Stocks(start, moved, ids, used, dataOf);
    if source in g.tables.sources {
      DropStocks(start, moved, g.tables.sources[source], ids, used, dataOf);
    }
    hide Stocks;
    hide DropImageInFrame;
  }

  lemma ShowStocks(start: map<u32, bytes>, g: Progress, p: HostPlacement, viewChanged: bool, ids: Ids,
                   used: set<Picture>, dataOf: Picture -> bytes)
    requires Stocks(start, g, ids, used, dataOf) && IsDrawn(p)
    ensures Stocks(start, ShowPlacement(g, p, viewChanged, ids), ids, used, dataOf)
  {
    var key, signature := KeyOf(p, ids), PlacementSignatureOf(p);
    StoredOne(start, g.commands, Display(key, signature.clipped, signature.z));
    hide Stored;
    hide ClipPlacement;
  }

  lemma PlaceOneStocks(start: map<u32, bytes>, g: Progress, p: HostPlacement, viewChanged: bool, ids: Ids,
                       used: set<Picture>, dataOf: Picture -> bytes)
    requires Stocks(start, g, ids, used, dataOf) && IsInjectiveOn(ids, used) && IsNamed(g.tables, ids, used)
    requires BringsItsData(p, dataOf) && (IsDrawn(p) ==> PictureOf(p) in used)
    ensures Stocks(start, PlaceOne(g, p, viewChanged, ids), ids, used, dataOf)
  {
    hide ClipPlacement;
    if IsDrawn(p) {
      var noted := NoteKey(g, p, ids);
      assert Stocks(start, noted, ids, used, dataOf);
      EnsureStocks(start, noted, p, ids, used, dataOf);
      hide Stocks;
      hide EnsureImage;
      if EnsureSucceeds(noted, p, ids) {
        var ensured := EnsureImage(noted, p, ids);
        ReleaseStocks(start, ensured, p.sourceKey, ImageId(p, ids), ids, used, dataOf);
        hide ReleaseSuperseded;
        ShowStocks(start, ReleaseSuperseded(ensured, p.sourceKey, ImageId(p, ids)), p, viewChanged, ids, used, dataOf);
      }
    }
  }

  lemma {:induction false} PlaceFrameStocks(t: Tables, start: map<u32, bytes>, frame: seq<HostPlacement>,
                                            viewChanged: bool, ids: Ids, used: set<Picture>,
                                            dataOf: Picture -> bytes)
    requires IsLinked(t) && IsNamed(t, ids, used) && IsInjectiveOn(ids, used) && Covers(used, frame)
    requires IsStocked(t, start, ids, used, dataOf) && FrameBringsData(frame, dataOf)
    ensures Stocks(start, PlaceFrame(t, frame, viewChanged, ids), ids, used, dataOf)
    decreases |frame|
  {
    if frame != [] {
      var init, last := frame[..|frame| - 1], frame[|frame| - 1];
      hide IsDrawn;
      hide BringsItsData;
      hide Stocks;
      hide PlaceOne;
      PlaceFrameStocks(t, start, init, viewChanged, ids, used, dataOf);
      PlaceFrameKeeps(t, init, viewChanged, ids, used);
      assert BringsItsData(frame[|frame| - 1], dataOf);
      PlaceOneStocks(start, PlaceFrame(t, init, viewChanged, ids), last, viewChanged, ids, used, dataOf);
    }
  }

  // ----- Deletes around a frame -----

  lemma {:induction false} DeletesStore(stored: map<u32, bytes>, order: seq<u32>)
    ensures Stored(stored, DeleteImages(order)) == stored - ElementsOf(order)
    decreases |order|
  {
    if order == [] {
      assert DeleteImages(order) == [] && ElementsOf(order) == {};
      assert stored - {} == stored;
    } else {
      var id, rest := order[0], order[1..];
      assert DeleteImages(order)[1..] == DeleteImages(rest);
      assert ElementsOf(order) == {id} + ElementsOf(rest);
      DeletesStore(stored - {id}, rest);
      assert stored - {id} - ElementsOf(rest) == stored - ElementsOf(order);
    }
  }

  lemma {:induction false} StaleStores(stored: map<u32, bytes>, order: seq<PlacementKey>)
    ensures Stored(stored, DeletePlacements(order)) == stored
    decreases |order|
  {
    if order != [] {
      assert DeletePlacements(order)[1..] == DeletePlacements(order[1..]);
      StaleStores(stored, order[1..]);
    } else {
      assert DeletePlacements(order) == [];
    }
  }

  lemma OpStocks(t: Tables, stored: map<u32, bytes>, op: GraphicsOp, ids: Ids, used: set<Picture>,
                 dataOf: Picture -> bytes)
    requires IsLinked(t) && IsNamed(t, ids, used) && IsInjectiveOn(ids, used)
    requires op.Frame? ==> Covers(used, op.frame) && FrameBringsData(op.frame, dataOf)
    requires FitsTables(t, op, ids) && IsStocked(t, stored, ids, used, dataOf)
    ensures IsStocked(After(t, op, ids), Stored(stored, CommandsOf(t, op, ids)), ids, used, dataOf)
  {
    hide PlaceFrame;
    hide Covers;
    hide FrameBringsData;
    hide Stored;
    match op
    case Frame(frame, viewChanged, pruned, stale) =>
      var a, g := Pruned(t, frame), Placed(t, frame, viewChanged, ids);
      OrderElements(pruned, PrunedImages(t, frame));
      DeletesStore(stored, pruned);
      hide PrunedImages;
      var start := Stored(stored, DeleteImages(pruned));
      assert IsStocked(a, start, ids, used, dataOf);
      UpdateKeeps(t, frame, viewChanged, ids, used);
      PlaceFrameStocks(a, start, frame, viewChanged, ids, used, dataOf);
      StoredAppend(stored, DeleteImages(pruned), g.commands);
      StoredAppend(stored, DeleteImages(pruned) + g.commands, DeletePlacements(stale));
      StaleStores(Stored(start, g.commands), stale);
    case Clear(order) =>
      OrderElements(order, t.images.Keys);
      DeletesStore(stored, order);
  }

  // ----- Runs -----

  /** Over every run whose placements bring the data of their pictures, or none, the terminal has
      under every cached id the data of the picture it shows there. */
  lemma {:induction false} RunsStock(t: Tables, stored: map<u32, bytes>, ops: seq<GraphicsOp>, ids: Ids,
                                     used: set<Picture>, dataOf: Picture -> bytes)
    requires IsLinked(t) && IsNamed(t, ids, used) && IsInjectiveOn(ids, used)
    requires IsRun(t, ops, ids) && CoversRun(used, ops) && RunBringsData(ops, dataOf)
    requires IsStocked(t, stored, ids, used, dataOf)
    ensures IsStocked(RunTables(t, ops, ids), Stored(stored, RunCommands(t, ops, ids)), ids, used, dataOf)
    decreases |ops|
  {
    hide IsStocked;
    hide Covers;
    hide FrameBringsData;
    hide CommandsOf;
    hide After;
    hide FitsTables;
    if ops != [] {
      var next := After(t, ops[0], ids);
      OpStocks(t, stored, ops[0], ids, used, dataOf);
      OpRefines(t, ops[0], ids, used);
      StoredAppend(stored, CommandsOf(t, ops[0], ids), RunCommands(next, ops[1..], ids));
      RunsStock(next, Stored(stored, CommandsOf(t, ops[0], ids)), ops[1..], ids, used, dataOf);
    }
  }

  /** The picture `pic` is what this id stands for on the terminal, with its data. */
  predicate Holds(h: Host, stored: map<u32, bytes>, id: u32, pic: Picture, dataOf: Picture -> bytes) {
    id in h.images && h.images[id] == pic.1 && id in stored && stored[id] == dataOf(pic)
  }

  /** From nothing, after all commands of a run: each placement the terminal shows has under its image
      one of the pictures in use, and the very bytes that picture was supplied with. */
  lemma EveryPictureHasItsData(ops: seq<GraphicsOp>, ids: Ids, used: set<Picture>, dataOf: Picture -> bytes,
                               key: PlacementKey)
    requires IsInjectiveOn(ids, used) && IsRun(EMPTY, ops, ids) && CoversRun(used, ops) && RunBringsData(ops, dataOf)
    ensures var commands := RunCommands(EMPTY, ops, ids);
            && Replay(Host(map[], map[]), commands).Some?
            && var h := Replay(Host(map[], map[]), commands).value;
               key in h.placements ==>
                 && (exists pic :: pic in used && (ids.image)(pic.0, pic.1) == key.0)
                 && (forall pic :: pic in used && (ids.image)(pic.0, pic.1) == key.0 ==>
                       Holds(h, Stored(map[], commands), key.0, pic, dataOf))
  {
    hide Stored;
    hide RunCommands;
    hide RunTables;
    hide Replay;
    hide IsRun;
    var t := RunTables(EMPTY, ops, ids);
    assert HostOf(EMPTY) == Host(map[], map[]);
    RunsRefine(EMPTY, ops, ids, used);
    RunsStock(EMPTY, map[], ops, ids, used, dataOf);
    if key in t.placements {
      var pane: PaneId :| IsIdOf(ids, used, pane, t.images[key.0], key.0);
      var cached: Picture := (pane, t.images[key.0]);
      assert cached in used && (ids.image)(cached.0, cached.1) == key.0;
    }
  }
}

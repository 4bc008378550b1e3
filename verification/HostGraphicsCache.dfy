/** The host graphics cache object: three maps and the current view, updated in place. */
module HostGraphicsCache {
  import opened Options
  import opened HostPlacements
  import opened KittyCache
  import opened KittyRefinement

  datatype ViewKey = ViewKey(workspaceIndex: nat, tabIndex: nat)

  lemma OrderOfNothing<T>()
    ensures IsOrderOf<T>([], {})
    ensures DeleteImages([]) == [] && DeletePlacements([]) == []
  {}

  lemma SetStep<T>(todo: set<T>, all: set<T>, skip: set<T>, x: T)
    requires todo <= all && x in todo
    ensures (all - (todo - {x})) - skip == if x in skip then (all - todo) - skip else (all - todo) - skip + {x}
  {}

  lemma MinusStep(m: map<PlacementKey, PlacementSignature>, done: set<PlacementKey>, key: PlacementKey)
    ensures m - done - {key} == m - (done + {key})
  {}

  lemma MinusNothing(m: map<PlacementKey, PlacementSignature>)
    ensures m - {} == m
  {}

  lemma OrderExtend<T>(order: seq<T>, s: set<T>, x: T)
    requires IsOrderOf(order, s) && x !in s
    ensures IsOrderOf(order + [x], s + {x})
  {}

  lemma DeleteImagesExtend(order: seq<u32>, id: u32)
    ensures DeleteImages(order + [id]) == DeleteImages(order) + [DeleteImage(id)]
  {}

  lemma DeletePlacementsExtend(order: seq<PlacementKey>, key: PlacementKey)
    ensures DeletePlacements(order + [key]) == DeletePlacements(order) + [DeletePlacement(key)]
  {}

  class HostGraphicsCache {
    const ids: Ids
    var images: map<u32, ImageSignature>
    var placements: map<PlacementKey, PlacementSignature>
    var sources: map<HostSourceKey, u32>
    var view: Option<ViewKey>

    function State(): Tables
      reads this
    {
      Tables(images, placements, sources)
    }

    constructor (ids: Ids)
      ensures this.ids == ids && State() == EMPTY && view == None
    {
      this.ids := ids;
      images, placements, sources, view := map[], map[], map[], None;
    }

    /** Delete every image and forget everything. */
    method ClearBytes() returns (commands: seq<Command>, ghost order: seq<u32>)
      modifies this
      ensures State() == EMPTY && view == None
      ensures IsOrderOf(order, old(images).Keys) && commands == DeleteImages(order)
    {
      commands, order := [], [];
      var todo := images.Keys;
      while todo != {}
        invariant todo <= images.Keys && images == old(images)
        invariant IsOrderOf(order, images.Keys - todo) && commands == DeleteImages(order)
        decreases |todo|
      {
        var id :| id in todo;
        commands, order, todo := commands + [DeleteImage(id)], order + [id], todo - {id};
      }
      assert images.Keys - {} == images.Keys;
      images, placements, sources, view := map[], map[], map[], None;
    }

    /** Record the view; true when it differs from the last one. */
    method UpdateView(viewKey: Option<ViewKey>) returns (changed: bool)
      modifies this`view
      ensures view == viewKey && changed == (old(view) != viewKey)
    {
      if view == viewKey {
        return false;
      }
      view := viewKey;
      changed := true;
    }

    method DropImage(id: u32)
      modifies this`images, this`placements
      ensures State() == DropImages(old(State()), {id})
    {
      images := images - {id};
      placements := map k | k in placements && k.0 !in {id} :: placements[k];
    }

    /** Forget sources that left the frame, and images only vanished pane layers used. */
    method PruneSources(frame: seq<HostPlacement>) returns (commands: seq<Command>, ghost order: seq<u32>)
      modifies this`images, this`placements, this`sources
      ensures State() == Pruned(old(State()), frame)
      ensures IsOrderOf(order, PrunedImages(old(State()), frame)) && commands == DeleteImages(order)
    {
      ghost var start := State();
      var current := CurrentSources(frame);
      var removed := set s | s in sources && s !in current && s.PaneLayer? :: sources[s];
      sources := map s | s in sources && s in current :: sources[s];
      assert sources == KeptSources(start, frame);
      commands, order := DeleteRemovedImages(removed);
      assert removed - sources.Values == PrunedImages(start, frame);
    }

    /** Delete the removed images that no source needs any more. */
    method DeleteRemovedImages(all: set<u32>) returns (commands: seq<Command>, ghost order: seq<u32>)
      modifies this`images, this`placements
      ensures State() == DropImages(old(State()), all - sources.Values)
      ensures IsOrderOf(order, all - sources.Values) && commands == DeleteImages(order)
    {
      hide DropImages;
      hide IsOrderOf;
      hide DeleteImages;
      ghost var start := State();
      var removed := all;
      ghost var done: set<u32> := {};
      commands, order := [], [];
      DropNothing(start);
      OrderOfNothing<u32>();
      while removed != {}
        invariant removed <= all && done == (all - removed) - sources.Values
        invariant State() == DropImages(start, done)
        invariant IsOrderOf(order, done) && commands == DeleteImages(order)
        decreases |removed|
      {
        var id :| id in removed;
        SetStep(removed, all, sources.Values, id);
        removed := removed - {id};
        if id !in sources.Values {
          DropTwice(start, done, {id});
          OrderExtend(order, done, id);
          DeleteImagesExtend(order, id);
          done := done + {id};
          commands, order := commands + [DeleteImage(id)], order + [id];
          DropImage(id);
        }
      }
      assert (all - {}) - sources.Values == all - sources.Values;
    }

    /** Drop an image the terminal has deleted, with its placements and their keys. */
    method DropImageInFrame(id: u32, current: set<PlacementKey>, commands: seq<Command>)
      returns (current': set<PlacementKey>, commands': seq<Command>)
      modifies this`images, this`placements
      ensures Progress(State(), current', commands')
              == KittyCache.DropImageInFrame(Progress(old(State()), current, commands), id)
    {
      commands' := commands + [DeleteImage(id)];
      current' := current - set k | k in placements && k.0 == id;
      DropImage(id);
    }

    /** Make the placement's image present on the terminal, if that is possible. */
    method EnsureImage(p: HostPlacement, current: set<PlacementKey>, commands: seq<Command>)
      returns (ok: bool, current': set<PlacementKey>, commands': seq<Command>)
      modifies this`images, this`placements
      ensures var g := Progress(old(State()), current, commands);
              && Progress(State(), current', commands') == KittyCache.EnsureImage(g, p, ids)
              && ok == EnsureSucceeds(g, p, ids)
    {
      var id := ImageId(p, ids);
      current', commands' := current, commands;
      if id in images && images[id] == SignatureOf(p) {
        return true, current', commands';
      }
      if id in images {
        var kept := images;
        current', commands' := DropImageInFrame(id, current', commands');
        images := kept;
      }
      ok := p.placement.data != [];
      if ok {
        commands' := commands' + [Upload(id, SignatureOf(p), p.placement.data)];
        images := images[id := SignatureOf(p)];
      }
    }

    method ReleaseSupersededSourceImage(source: HostSourceKey, id: u32,
                                        current: set<PlacementKey>, commands: seq<Command>)
      returns (current': set<PlacementKey>, commands': seq<Command>)
      modifies this`images, this`placements, this`sources
      ensures Progress(State(), current', commands')
              == ReleaseSuperseded(Progress(old(State()), current, commands), source, id)
    {
      current', commands' := current, commands;
      var superseded := if source in sources then Some(sources[source]) else None;
      sources := sources[source := id];
      if superseded == None || superseded.value == id || superseded.value in sources.Values {
        return;
      }
      current', commands' := DropImageInFrame(superseded.value, current, commands);
    }

    method DisplayPlacement(p: HostPlacement, viewChanged: bool, commands: seq<Command>)
      returns (commands': seq<Command>)
      requires IsDrawn(p)
      modifies this`placements
      ensures forall current :: Progress(State(), current, commands')
                == ShowPlacement(Progress(old(State()), current, commands), p, viewChanged, ids)
    {
      var key, signature := KeyOf(p, ids), PlacementSignatureOf(p);
      if key in placements && !viewChanged && placements[key] == signature {
        return commands;
      }
      commands' := commands + [Display(key, signature.clipped, signature.z)];
      placements := placements[key := signature];
    }

    method PlaceOne(p: HostPlacement, viewChanged: bool, current: set<PlacementKey>, commands: seq<Command>)
      returns (current': set<PlacementKey>, commands': seq<Command>)
      modifies this`images, this`placements, this`sources
      ensures Progress(State(), current', commands')
              == KittyCache.PlaceOne(Progress(old(State()), current, commands), p, viewChanged, ids)
    {
      hide KittyCache.EnsureImage;
      hide EnsureSucceeds;
      hide ReleaseSuperseded;
      hide ShowPlacement;
      hide ClipPlacement;
      hide ImageId;
      current', commands' := current, commands;
      if ClipPlacement(p).None? {
        return;
      }
      current' := current' + {KeyOf(p, ids)};
      var ok: bool;
      ok, current', commands' := EnsureImage(p, current', commands');
      if !ok {
        return;
      }
      current', commands' := ReleaseSupersededSourceImage(p.sourceKey, ImageId(p, ids), current', commands');
      commands' := DisplayPlacement(p, viewChanged, commands');
    }

    /** Remove the placements this frame did not name. */
    method DeleteStalePlacements(current: set<PlacementKey>)
      returns (commands: seq<Command>, ghost order: seq<PlacementKey>)
      modifies this`placements
      ensures placements == old(placements) - (old(placements).Keys - current)
      ensures IsOrderOf(order, old(placements).Keys - current) && commands == DeletePlacements(order)
    {
      hide IsOrderOf;
      hide DeletePlacements;
      var stale := placements.Keys - current;
      ghost var start, all, done: set<PlacementKey> := placements, stale, {};
      commands, order := [], [];
      OrderOfNothing<PlacementKey>();
      MinusNothing(start);
      while stale != {}
        invariant stale <= all && done == (all - stale) - {}
        invariant placements == start - done
        invariant IsOrderOf(order, done) && commands == DeletePlacements(order)
        decreases |stale|
      {
        var key :| key in stale;
        SetStep(stale, all, {}, key);
        OrderExtend(order, done, key);
        DeletePlacementsExtend(order, key);
        MinusStep(start, done, key);
        stale, done := stale - {key}, done + {key};
        commands, order := commands + [DeletePlacement(key)], order + [key];
        placements := placements - {key};
      }
      assert (all - {}) - {} == all;
    }

    /** Bring the terminal from the last frame to this one. */
    method EncodeGraphicsUpdate(frame: seq<HostPlacement>, viewChanged: bool)
      returns (commands: seq<Command>, ghost pruned: seq<u32>, ghost stale: seq<PlacementKey>)
      modifies this`images, this`placements, this`sources
      ensures State() == Updated(old(State()), frame, viewChanged, ids)
      ensures IsOrderOf(pruned, PrunedImages(old(State()), frame))
      ensures IsOrderOf(stale, StaleKeys(Placed(old(State()), frame, viewChanged, ids)))
      ensures commands == UpdateCommands(old(State()), frame, viewChanged, ids, pruned, stale)
    {
      hide KittyCache.PlaceOne;
      hide Pruned;
      hide PrunedImages;
      ghost var start := State();
      commands, pruned := PruneSources(frame);
      var current: set<PlacementKey>, placed: seq<Command> := {}, [];
      for i := 0 to |frame|
        invariant Progress(State(), current, placed) == PlaceFrame(Pruned(start, frame), frame[..i], viewChanged, ids)
      {
        assert frame[..i + 1][..i] == frame[..i];
        current, placed := PlaceOne(frame[i], viewChanged, current, placed);
      }
      assert frame[..|frame|] == frame;
      var last: seq<Command>;
      ghost var g := Progress(State(), current, placed);
      last, stale := DeleteStalePlacements(current);
      assert State() == DropStale(g);
      commands := commands + placed + last;
    }

    /** One paint: clear when there is nothing to mirror, otherwise update to the frame. */
    method Encode(canPaint: bool, viewKey: Option<ViewKey>, frame: seq<HostPlacement>)
      returns (commands: seq<Command>, ghost op: GraphicsOp)
      modifies this
      ensures FitsTables(old(State()), op, ids)
      ensures State() == After(old(State()), op, ids) && commands == CommandsOf(old(State()), op, ids)
      ensures if canPaint then
                op.Frame? && op.frame == frame && op.viewChanged == (old(view) != viewKey) && view == viewKey
              else op.Clear? && view == None
    {
      hide UpdateCommands;
      hide Updated;
      hide Placed;
      hide PrunedImages;
      if !canPaint {
        ghost var order: seq<u32>;
        commands, order := ClearBytes();
        op := Clear(order);
      } else {
        var changed := UpdateView(viewKey);
        ghost var pruned: seq<u32>, stale: seq<PlacementKey>;
        commands, pruned, stale := EncodeGraphicsUpdate(frame, changed);
        op := Frame(frame, changed, pruned, stale);
      }
    }
  }
}

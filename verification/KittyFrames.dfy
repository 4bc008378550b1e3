/** After one update the cache shows exactly the frame, and repeating the frame costs nothing. */
module KittyFrames {
  import opened HostPlacements
  import opened KittyCache
  import opened KittyRefinement
  import opened KittyTurns

  // ----- What an update leaves -----

  /** An update shows exactly the placements that get their image, and leaves their sources there. */
  lemma FrameShowsExactly(t: Tables, frame: seq<HostPlacement>, viewChanged: bool, ids: Ids, used: set<Picture>)
    requires IsLinked(t) && IsNamed(t, ids, used) && IsInjectiveOn(ids, used) && Covers(used, frame)
    requires HasOneImagePerSource(frame, ids)
    ensures var a, u := Pruned(t, frame), Updated(t, frame, viewChanged, ids);
            && u.placements == Achieved(a, frame, ids, |frame|)
            && HasSources(a, frame, ids, |frame|, u) && HasImages(a, frame, ids, |frame|, u)
            && IsLinked(u) && IsNamed(u, ids, used)
  {
    UpdateKeeps(t, frame, viewChanged, ids, used);
    var a := Pruned(t, frame);
    FrameInSync(a, frame, |frame|, viewChanged, ids, used);
    assert frame[..|frame|] == frame;
    hide *;
    hide Pruned;
    var g := Placed(t, frame, viewChanged, ids);
    assert IsInSync(a, frame, ids, |frame|, g) by {
      PlacedIs(t, frame, viewChanged, ids);
    }
    StaleInSync(a, frame, ids, g);
    UpdatedIs(t, frame, viewChanged, ids);
  }

  lemma PlacedIs(t: Tables, frame: seq<HostPlacement>, viewChanged: bool, ids: Ids)
    ensures Placed(t, frame, viewChanged, ids) == PlaceFrame(Pruned(t, frame), frame, viewChanged, ids)
  {}

  lemma UpdatedIs(t: Tables, frame: seq<HostPlacement>, viewChanged: bool, ids: Ids)
    ensures Updated(t, frame, viewChanged, ids) == DropStale(Placed(t, frame, viewChanged, ids))
  {}

  /** Dropping the stale placements leaves exactly the shown ones. */
  lemma StaleInSync(a: Tables, frame: seq<HostPlacement>, ids: Ids, g: Progress)
    requires IsInSync(a, frame, ids, |frame|, g)
    ensures var u := DropStale(g);
            && u.placements == Achieved(a, frame, ids, |frame|)
            && HasSources(a, frame, ids, |frame|, u) && HasImages(a, frame, ids, |frame|, u)
  {
    hide Achieved;
    hide IsPresent;
    hide IsShown;
    hide IsMoved;
    var u := DropStale(g);
    assert u.placements.Keys == Achieved(a, frame, ids, |frame|).Keys;
  }

  // ----- Images nothing holds -----

  predicate IsOrphan(t: Tables, id: u32) {
    id in t.images && id !in t.sources.Values
  }

  /** The image was cached, and every source that held it is a terminal one the frame does not name. */
  predicate IsLeftBehind(t: Tables, frame: seq<HostPlacement>, id: u32) {
    && id in t.images
    && forall s :: s in t.sources && t.sources[s] == id ==> s.Terminal? && s !in CurrentSources(frame)
  }

  lemma LeftBehindIs(t: Tables, frame: seq<HostPlacement>, id: u32)
    ensures IsLeftBehind(t, frame, id) <==> IsOrphan(Pruned(t, frame), id)
  {
    var a := Pruned(t, frame);
    hide CurrentSources;
    assert forall s :: s in t.sources && s in CurrentSources(frame) ==> a.sources[s] == t.sources[s];
  }

  /** Images held by no source after an update are exactly those it left behind and did not show.
      The list only grows until a frame shows one again. */
  lemma OrphansExactly(t: Tables, frame: seq<HostPlacement>, viewChanged: bool, ids: Ids, used: set<Picture>, id: u32)
    requires IsLinked(t) && IsNamed(t, ids, used) && IsInjectiveOn(ids, used) && Covers(used, frame)
    requires HasOneImagePerSource(frame, ids)
    ensures IsOrphan(Updated(t, frame, viewChanged, ids), id)
            <==> IsLeftBehind(t, frame, id) && !IsShownBefore(Pruned(t, frame), frame, ids, |frame|, id)
  {
    FrameShowsExactly(t, frame, viewChanged, ids, used);
    LeftBehindIs(t, frame, id);
    hide Updated;
    hide Pruned;
    hide Covers;
    hide IsLeftBehind;
    OrphanTurns(Pruned(t, frame), frame, ids, Updated(t, frame, viewChanged, ids), id);
  }

  /** No update deletes an image that nothing holds. */
  lemma OrphansStay(t: Tables, frame: seq<HostPlacement>, viewChanged: bool, ids: Ids, used: set<Picture>, id: u32)
    requires IsLinked(t) && IsNamed(t, ids, used) && IsInjectiveOn(ids, used) && Covers(used, frame)
    requires HasOneImagePerSource(frame, ids) && IsOrphan(t, id)
    ensures id in Updated(t, frame, viewChanged, ids).images
  {
    OrphansExactly(t, frame, viewChanged, ids, used, id);
    FrameShowsExactly(t, frame, viewChanged, ids, used);
    PresentIs(Pruned(t, frame), frame, ids, |frame|, id);
    assert IsLeftBehind(t, frame, id);
    hide Updated;
    hide Pruned;
    hide IsPresent;
    hide IsShownBefore;
    hide IsHeld;
  }

  lemma OrphanTurns(a: Tables, frame: seq<HostPlacement>, ids: Ids, u: Tables, id: u32)
    requires HasSources(a, frame, ids, |frame|, u) && HasImages(a, frame, ids, |frame|, u)
    ensures IsOrphan(u, id) <==> IsOrphan(a, id) && !IsShownBefore(a, frame, ids, |frame|, id)
  {
    PresentIs(a, frame, ids, |frame|, id);
    hide IsShown;
    hide IsPresent;
    hide ImageId;
    hide IsDrawn;
    if IsShownBefore(a, frame, ids, |frame|, id) {
      var k: nat :| k < |frame| && IsShown(a, frame, ids, k) && ImageId(frame[k], ids) == id;
      assert IsAnchor(u, frame[k], ids);
    } else {
      HoldersAtEnd(a, frame, ids, u, id);
      hide HasSources;
      hide HasImages;
      hide IsHeld;
      hide IsShownBefore;
      assert id in u.images <==> IsPresent(a, frame, ids, |frame|, id);
    }
  }

  /** An image the frame has not shown is held exactly by the sources that held it from the start. */
  lemma HoldersAtEnd(a: Tables, frame: seq<HostPlacement>, ids: Ids, u: Tables, id: u32)
    requires HasSources(a, frame, ids, |frame|, u) && HasImages(a, frame, ids, |frame|, u)
    requires !IsShownBefore(a, frame, ids, |frame|, id)
    ensures id in u.sources.Values <==> IsHeld(a, frame, ids, |frame|, id)
    ensures IsHeld(a, frame, ids, |frame|, id) ==> id in a.sources.Values
    ensures id in u.images <==> IsPresent(a, frame, ids, |frame|, id)
  {
    hide IsShown;
    hide IsPresent;
    hide ImageId;
    hide IsDrawn;
    forall s | s in u.sources && u.sources[s] == id
      ensures s in a.sources && a.sources[s] == id && !IsMoved(a, frame, ids, |frame|, s)
    {
      assert forall k: nat :: k < |frame| && IsShown(a, frame, ids, k) ==> IsAnchor(u, frame[k], ids);
    }
  }

  // ----- What the terminal shows -----

  /** The terminal's view of the placements a frame asks for. */
  function ShownOn(wanted: map<PlacementKey, PlacementSignature>): map<PlacementKey, Shown> {
    map k | k in wanted :: Shown(wanted[k].clipped, wanted[k].z)
  }

  /** End to end: on a terminal that agrees with the cache, the commands of one update show exactly
      the placements that get their image, which are exactly the frame's when all do. */
  lemma TerminalShowsFrame(t: Tables, frame: seq<HostPlacement>, viewChanged: bool, ids: Ids, used: set<Picture>,
                           pruned: seq<u32>, stale: seq<PlacementKey>)
    requires IsLinked(t) && IsNamed(t, ids, used) && IsInjectiveOn(ids, used) && Covers(used, frame)
    requires HasOneImagePerSource(frame, ids)
    requires IsOrderOf(pruned, PrunedImages(t, frame))
    requires IsOrderOf(stale, StaleKeys(Placed(t, frame, viewChanged, ids)))
    ensures var host := Replay(HostOf(t), UpdateCommands(t, frame, viewChanged, ids, pruned, stale));
            && host.Some?
            && host.value.placements == ShownOn(Achieved(Pruned(t, frame), frame, ids, |frame|))
            && (ShowsAll(Pruned(t, frame), frame, ids) ==> host.value.placements == ShownOn(Wanted(frame, ids)))
  {
    hide Updated;
    hide UpdateCommands;
    hide Replay;
    hide Pruned;
    hide Placed;
    hide PrunedImages;
    hide Achieved;
    hide Wanted;
    hide ShowsAll;
    hide IsNamed;
    hide IsLinked;
    hide Covers;
    hide IsOrderOf;
    hide HasImages;
    hide HasSources;
    hide HasOneImagePerSource;
    hide IsInjectiveOn;
    hide NeverLosesImage;
    hide HostOf;
    UpdateKeeps(t, frame, viewChanged, ids, used);
    UpdateRefines(t, frame, viewChanged, ids, pruned, stale);
    FrameShowsExactly(t, frame, viewChanged, ids, used);
    HostShows(Updated(t, frame, viewChanged, ids));
    if ShowsAll(Pruned(t, frame), frame, ids) {
      AllAchieved(Pruned(t, frame), frame, ids, |frame|);
      assert frame[..|frame|] == frame;
    }
  }

  lemma HostShows(t: Tables)
    ensures HostOf(t).placements == ShownOn(t.placements)
  {}

  // ----- When it is exactly the frame -----

  /** Every drawn placement has its key shown, by itself or by another one. */
  ghost predicate ShowsEveryKey(a: Tables, frame: seq<HostPlacement>, ids: Ids) {
    forall i :: 0 <= i < |frame| && IsDrawn(frame[i]) ==>
      exists k :: k < |frame| && IsAchievedBy(a, frame, ids, k, KeyOf(frame[i], ids))
  }

  /** Frame exactness holds if and only if every key the frame draws is shown. */
  lemma FrameExactIff(t: Tables, frame: seq<HostPlacement>, viewChanged: bool, ids: Ids, used: set<Picture>)
    requires IsLinked(t) && IsNamed(t, ids, used) && IsInjectiveOn(ids, used) && Covers(used, frame)
    requires HasOneImagePerSource(frame, ids) && HasConsistentKeys(frame, ids)
    ensures Updated(t, frame, viewChanged, ids).placements == Wanted(frame, ids)
            <==> ShowsEveryKey(Pruned(t, frame), frame, ids)
  {
    FrameShowsExactly(t, frame, viewChanged, ids, used);
    hide Updated;
    var a := Pruned(t, frame);
    hide Pruned;
    hide Covers;
    hide HasSources;
    hide HasImages;
    AchievedOrNot(a, frame, ids);
  }

  /** Equal keys ask for equal placements. */
  predicate HasConsistentKeys(frame: seq<HostPlacement>, ids: Ids) {
    forall i, j :: 0 <= i < |frame| && 0 <= j < |frame| && IsDrawn(frame[i]) && IsDrawn(frame[j])
                   && KeyOf(frame[i], ids) == KeyOf(frame[j], ids)
                   ==> PlacementSignatureOf(frame[i]) == PlacementSignatureOf(frame[j])
  }

  lemma AchievedOrNot(a: Tables, frame: seq<HostPlacement>, ids: Ids)
    requires HasConsistentKeys(frame, ids)
    ensures Achieved(a, frame, ids, |frame|) == Wanted(frame, ids) <==> ShowsEveryKey(a, frame, ids)
  {
    hide IsDrawn;
    hide KeyOf;
    hide PlacementSignatureOf;
    hide IsAchievedBy;
    hide Achieved;
    hide Wanted;
    hide HasConsistentKeys;
    var done, wanted := Achieved(a, frame, ids, |frame|), Wanted(frame, ids);
    if ShowsEveryKey(a, frame, ids) {
      KeysShown(a, frame, ids);
    }
    if done == wanted {
      forall i | 0 <= i < |frame| && IsDrawn(frame[i])
        ensures exists k :: k < |frame| && IsAchievedBy(a, frame, ids, k, KeyOf(frame[i], ids))
      {
        WantedKeys(frame, ids, KeyOf(frame[i], ids));
        AchievedKeys(a, frame, ids, |frame|, KeyOf(frame[i], ids));
        assert IsWantedAt(frame, ids, i, KeyOf(frame[i], ids));
      }
    }
  }

  lemma KeysShown(a: Tables, frame: seq<HostPlacement>, ids: Ids)
    requires HasConsistentKeys(frame, ids) && ShowsEveryKey(a, frame, ids)
    ensures Achieved(a, frame, ids, |frame|) == Wanted(frame, ids)
  {
    var done, wanted := Achieved(a, frame, ids, |frame|), Wanted(frame, ids);
    DrawnWhenShown(a, frame, ids);
    hide *;
    hide IsDrawn;
    forall key | key in wanted
      ensures key in done
    {
      WantedIsAchieved(a, frame, ids, key);
    }
    forall key | key in done
      ensures key in wanted && done[key] == wanted[key]
    {
      AchievedAsWanted(a, frame, ids, key);
    }
  }

  lemma WantedIsAchieved(a: Tables, frame: seq<HostPlacement>, ids: Ids, key: PlacementKey)
    requires ShowsEveryKey(a, frame, ids) && key in Wanted(frame, ids)
    ensures key in Achieved(a, frame, ids, |frame|)
  {
    hide Wanted;
    hide Achieved;
    hide IsAchievedBy;
    hide IsDrawn;
    hide KeyOf;
    WantedKeys(frame, ids, key);
    AchievedKeys(a, frame, ids, |frame|, key);
    var i :| IsWantedAt(frame, ids, i, key);
  }

  lemma AchievedAsWanted(a: Tables, frame: seq<HostPlacement>, ids: Ids, key: PlacementKey)
    requires HasConsistentKeys(frame, ids) && key in Achieved(a, frame, ids, |frame|)
    ensures key in Wanted(frame, ids) && Achieved(a, frame, ids, |frame|)[key] == Wanted(frame, ids)[key]
  {
    DrawnWhenShown(a, frame, ids);
    hide Wanted;
    hide Achieved;
    hide IsShown;
    hide IsDrawn;
    hide KeyOf;
    hide PlacementSignatureOf;
    hide HasConsistentKeys;
    AchievedKeys(a, frame, ids, |frame|, key);
    var k :| k < |frame| && IsAchievedBy(a, frame, ids, k, key);
    WantedValue(frame, k, ids);
    AchievedValue(a, frame, ids, |frame|, k);
  }

  lemma {:induction false} WantedValue(frame: seq<HostPlacement>, i: nat, ids: Ids)
    requires i < |frame| && IsDrawn(frame[i]) && HasConsistentKeys(frame, ids)
    ensures KeyOf(frame[i], ids) in Wanted(frame, ids)
    ensures Wanted(frame, ids)[KeyOf(frame[i], ids)] == PlacementSignatureOf(frame[i])
    decreases |frame|
  {
    var init := frame[..|frame| - 1];
    if i < |init| {
      assert forall k :: 0 <= k < |init| ==> init[k] == frame[k];
      WantedValue(init, i, ids);
    }
  }

  lemma {:induction false} AchievedValue(a: Tables, frame: seq<HostPlacement>, ids: Ids, n: nat, k: nat)
    requires k < n <= |frame| && IsShown(a, frame, ids, k) && HasConsistentKeys(frame, ids)
    requires IsDrawn(frame[k])
    ensures KeyOf(frame[k], ids) in Achieved(a, frame, ids, n)
    ensures Achieved(a, frame, ids, n)[KeyOf(frame[k], ids)] == PlacementSignatureOf(frame[k])
  {
    DrawnWhenShown(a, frame, ids);
    hide IsShown;
    hide IsDrawn;
    hide KeyOf;
    hide PlacementSignatureOf;
    if k < n - 1 {
      AchievedValue(a, frame, ids, n - 1, k);
    }
  }

  /** No other drawn placement of the frame has the key of this one. */
  predicate IsOnlyOne(frame: seq<HostPlacement>, ids: Ids, i: nat)
    requires i < |frame|
  {
    forall j :: 0 <= j < |frame| && j != i && IsDrawn(frame[j]) ==> KeyOf(frame[j], ids) != KeyOf(frame[i], ids)
  }

  /** A drawn placement that leaves out its data is shown if and only if an earlier one showed its
      image, or the image outlived pruning and either no source held it then or one that did has not
      been moved by an earlier placement. */
  lemma DatalessShownExactly(t: Tables, frame: seq<HostPlacement>, i: nat, viewChanged: bool,
                             ids: Ids, used: set<Picture>)
    requires IsLinked(t) && IsNamed(t, ids, used) && IsInjectiveOn(ids, used) && Covers(used, frame)
    requires HasOneImagePerSource(frame, ids)
    requires i < |frame| && IsDrawn(frame[i]) && frame[i].placement.data == [] && IsOnlyOne(frame, ids, i)
    ensures var a, id := Pruned(t, frame), ImageId(frame[i], ids);
            KeyOf(frame[i], ids) in Updated(t, frame, viewChanged, ids).placements
            <==> || IsShownBefore(a, frame, ids, i, id)
                 || (id in a.images && (id !in a.sources.Values || IsHeld(a, frame, ids, i, id)))
  {
    FrameShowsExactly(t, frame, viewChanged, ids, used);
    var a, id := Pruned(t, frame), ImageId(frame[i], ids);
    hide Updated;
    hide Pruned;
    PresentIs(a, frame, ids, i, id);
    assert IsShown(a, frame, ids, i) <==> IsPresent(a, frame, ids, i, id);
    AchievedKeys(a, frame, ids, |frame|, KeyOf(frame[i], ids));
    DrawnWhenShown(a, frame, ids);
    hide IsShown;
    hide IsPresent;
    hide IsDrawn;
    hide KeyOf;
    hide ImageId;
    hide Achieved;
    hide HasSources;
    hide HasImages;
    hide IsHeld;
    hide IsShownBefore;
    assert IsAchievedBy(a, frame, ids, i, KeyOf(frame[i], ids)) <==> IsShown(a, frame, ids, i);
  }

  // ----- Frames that bring all they need -----

  /** Every drawn placement brings its image data, or its image is one that some placement of
      this frame keeps in use. */
  predicate IsSupplied(t: Tables, frame: seq<HostPlacement>, ids: Ids) {
    forall i :: 0 <= i < |frame| && IsDrawn(frame[i]) ==>
      || frame[i].placement.data != []
      || exists j :: 0 <= j < |frame| && IsAnchor(t, frame[j], ids) && ImageId(frame[j], ids) == ImageId(frame[i], ids)
  }

  ghost predicate ShowsAll(a: Tables, frame: seq<HostPlacement>, ids: Ids) {
    forall i: nat :: i < |frame| && IsDrawn(frame[i]) ==> IsShown(a, frame, ids, i)
  }

  lemma AnchorsSurvivePruning(t: Tables, frame: seq<HostPlacement>, i: nat, ids: Ids)
    requires i < |frame| && IsAnchor(t, frame[i], ids)
    ensures IsAnchor(Pruned(t, frame), frame[i], ids)
  {
    assert frame[i].sourceKey in CurrentSources(frame);
  }

  /** An image that some placement of the frame keeps in use is there at every turn. */
  lemma AnchoredIsPresent(a: Tables, frame: seq<HostPlacement>, ids: Ids, n: nat, j: nat)
    requires IsLinked(a) && HasOneImagePerSource(frame, ids)
    requires n <= |frame| && j < |frame| && IsAnchor(a, frame[j], ids)
    ensures IsPresent(a, frame, ids, n, ImageId(frame[j], ids))
  {
    var s, id := frame[j].sourceKey, ImageId(frame[j], ids);
    DrawnWhenShown(a, frame, ids);
    PresentIs(a, frame, ids, n, id);
    hide IsPresent;
    hide IsShown;
    hide ImageId;
    hide IsDrawn;
    if IsMoved(a, frame, ids, n, s) {
      var k: nat :| k < n && frame[k].sourceKey == s && IsShown(a, frame, ids, k);
      assert ImageId(frame[k], ids) == id;
    }
  }

  lemma SuppliedShowsAll(t: Tables, frame: seq<HostPlacement>, ids: Ids)
    requires IsLinked(t) && HasOneImagePerSource(frame, ids) && IsSupplied(t, frame, ids)
    ensures ShowsAll(Pruned(t, frame), frame, ids)
  {
    PrunedKeeps(t, frame);
    var a := Pruned(t, frame);
    hide IsDrawn;
    hide ImageId;
    hide IsPresent;
    forall i: nat | i < |frame| && IsDrawn(frame[i])
      ensures IsShown(a, frame, ids, i)
    {
      if frame[i].placement.data == [] {
        var j :| 0 <= j < |frame| && IsAnchor(t, frame[j], ids) && ImageId(frame[j], ids) == ImageId(frame[i], ids);
        AnchorsSurvivePruning(t, frame, j, ids);
        AnchoredIsPresent(a, frame, ids, i, j);
      }
    }
  }

  lemma {:induction false} AllAchieved(a: Tables, frame: seq<HostPlacement>, ids: Ids, n: nat)
    requires n <= |frame| && ShowsAll(a, frame, ids)
    ensures Achieved(a, frame, ids, n) == Wanted(frame[..n], ids)
  {
    DrawnWhenShown(a, frame, ids);
    hide IsShown;
    hide IsDrawn;
    if n > 0 {
      assert frame[..n][..n - 1] == frame[..n - 1];
      AllAchieved(a, frame, ids, n - 1);
    }
  }

  lemma AnchoredIsCached(u: Tables, p: HostPlacement, ids: Ids, used: set<Picture>)
    requires IsLinked(u) && IsNamed(u, ids, used) && IsInjectiveOn(ids, used) && PictureOf(p) in used
    requires IsAnchor(u, p, ids)
    ensures ImageId(p, ids) in u.images && u.images[ImageId(p, ids)] == SignatureOf(p)
  {
    NoCollisions(Progress(u, {}, []), p, ids, used);
  }

  /** Frame exactness: the cached placements are exactly the wanted ones, and every drawn
      placement has its source at its image and that image cached. */
  lemma FrameExact(t: Tables, frame: seq<HostPlacement>, viewChanged: bool, ids: Ids, used: set<Picture>)
    requires IsLinked(t) && IsNamed(t, ids, used) && IsInjectiveOn(ids, used) && Covers(used, frame)
    requires HasOneImagePerSource(frame, ids) && ShowsAll(Pruned(t, frame), frame, ids)
    ensures var u := Updated(t, frame, viewChanged, ids);
            && u.placements == Wanted(frame, ids)
            && IsLinked(u) && IsNamed(u, ids, used)
            && (forall i :: 0 <= i < |frame| && IsDrawn(frame[i]) ==>
                  && IsAnchor(u, frame[i], ids)
                  && ImageId(frame[i], ids) in u.images && u.images[ImageId(frame[i], ids)] == SignatureOf(frame[i]))
  {
    FrameShowsExactly(t, frame, viewChanged, ids, used);
    AllAchieved(Pruned(t, frame), frame, ids, |frame|);
    assert frame[..|frame|] == frame;
    hide Updated;
    hide Pruned;
    hide Wanted;
    hide IsDrawn;
    hide ImageId;
    hide IsShown;
    var u := Updated(t, frame, viewChanged, ids);
    forall i: nat | i < |frame| && IsDrawn(frame[i])
      ensures IsAnchor(u, frame[i], ids)
      ensures ImageId(frame[i], ids) in u.images && u.images[ImageId(frame[i], ids)] == SignatureOf(frame[i])
    {
      assert IsShown(Pruned(t, frame), frame, ids, i);
      AnchoredIsCached(u, frame[i], ids, used);
    }
  }

  // ----- Repeating a frame -----

  /** The same frame collected again; only the data carried may differ. */
  predicate IsSameFrame(f: seq<HostPlacement>, g: seq<HostPlacement>) {
    && |f| == |g|
    && forall i :: 0 <= i < |f| ==> g[i] == f[i].(placement := f[i].placement.(data := g[i].placement.data))
  }

  /** The tables already show this frame. */
  predicate Shows(u: Tables, frame: seq<HostPlacement>, ids: Ids) {
    && u.placements == Wanted(frame, ids)
    && (forall s :: s in u.sources ==> s in CurrentSources(frame))
    && (forall i :: 0 <= i < |frame| && IsDrawn(frame[i]) ==>
          && IsAnchor(u, frame[i], ids)
          && ImageId(frame[i], ids) in u.images && u.images[ImageId(frame[i], ids)] == SignatureOf(frame[i])
          && KeyOf(frame[i], ids) in u.placements
              && u.placements[KeyOf(frame[i], ids)] == PlacementSignatureOf(frame[i]))
  }

  /** One display command for each drawn placement, in frame order. */
  function Displays(frame: seq<HostPlacement>, ids: Ids): seq<Command>
    decreases |frame|
  {
    if frame == [] then []
    else
      var last := frame[|frame| - 1];
      Displays(frame[..|frame| - 1], ids)
        + (if IsDrawn(last) then [Display(KeyOf(last, ids), ClipPlacement(last).value, last.placement.z)] else [])
  }

  lemma PlaceOneRepeats(g: Progress, frame: seq<HostPlacement>, i: nat, viewChanged: bool, ids: Ids)
    requires i < |frame| && Shows(g.tables, frame, ids)
    ensures var p := frame[i];
            var o := PlaceOne(g, p, viewChanged, ids);
            && o.tables == g.tables
            && o.current == g.current + (if IsDrawn(p) then {KeyOf(p, ids)} else {})
            && o.commands == g.commands
                 + (if viewChanged && IsDrawn(p) then
                      [Display(KeyOf(p, ids), ClipPlacement(p).value, p.placement.z)]
                    else [])
  {
    hide ClipPlacement;
    hide ImageId;
    var p := frame[i];
    if IsDrawn(p) {
      var noted := NoteKey(g, p, ids);
      assert EnsureImage(noted, p, ids) == noted;
      ReleaseNothing(noted, p.sourceKey, ImageId(p, ids));
      assert noted.tables.placements[KeyOf(p, ids) := PlacementSignatureOf(p)] == noted.tables.placements;
      hide EnsureImage;
      hide ReleaseSuperseded;
    }
  }

  lemma ReleaseNothing(g: Progress, source: HostSourceKey, id: u32)
    requires source in g.tables.sources && g.tables.sources[source] == id
    ensures ReleaseSuperseded(g, source, id) == g
  {
    assert g.tables.sources[source := id] == g.tables.sources;
  }

  lemma {:induction false} PlaceFrameRepeats(u: Tables, frame: seq<HostPlacement>, n: nat, viewChanged: bool, ids: Ids)
    requires n <= |frame| && Shows(u, frame, ids)
    ensures var g := PlaceFrame(u, frame[..n], viewChanged, ids);
            && g.tables == u
            && g.current == Wanted(frame[..n], ids).Keys
            && g.commands == if viewChanged then Displays(frame[..n], ids) else []
  {
    hide PlaceOne;
    if n > 0 {
      assert frame[..n][..n - 1] == frame[..n - 1];
      PlaceFrameRepeats(u, frame, n - 1, viewChanged, ids);
      PlaceOneRepeats(PlaceFrame(u, frame[..n - 1], viewChanged, ids), frame, n - 1, viewChanged, ids);
    }
  }

  lemma PruneRepeats(u: Tables, frame: seq<HostPlacement>, ids: Ids)
    requires Shows(u, frame, ids)
    ensures Pruned(u, frame) == u && PrunedImages(u, frame) == {}
  {
    assert KeptSources(u, frame) == u.sources;
    DropNothing(u);
  }

  /** Tables that show the frame give out nothing for it; with a changed view they give out
      exactly one display per drawn placement. Either way they stay as they are. */
  lemma ShownFrameIsQuiet(u: Tables, frame: seq<HostPlacement>, viewChanged: bool, ids: Ids,
                          pruned: seq<u32>, stale: seq<PlacementKey>)
    requires Shows(u, frame, ids)
    requires IsOrderOf(pruned, PrunedImages(u, frame))
    requires IsOrderOf(stale, StaleKeys(Placed(u, frame, viewChanged, ids)))
    ensures Updated(u, frame, viewChanged, ids) == u
    ensures UpdateCommands(u, frame, viewChanged, ids, pruned, stale)
            == if viewChanged then Displays(frame, ids) else []
  {
    PruneRepeats(u, frame, ids);
    PlaceFrameRepeats(u, frame, |frame|, viewChanged, ids);
    assert frame[..|frame|] == frame;
    var g := Placed(u, frame, viewChanged, ids);
    assert StaleKeys(g) == {};
    assert u.placements - {} == u.placements;
    OrderStarts(pruned, PrunedImages(u, frame));
    OrderStarts(stale, StaleKeys(g));
  }

  lemma OrderStarts<T>(order: seq<T>, s: set<T>)
    requires IsOrderOf(order, s)
    ensures order != [] ==> order[0] in s
  {}

  // ----- Sources never outlive the frame -----

  lemma {:induction false} SourcesAreCurrent(a: Tables, frame: seq<HostPlacement>, n: nat, viewChanged: bool, ids: Ids)
    requires n <= |frame|
    requires forall s :: s in a.sources ==> s in CurrentSources(frame)
    ensures forall s :: s in PlaceFrame(a, frame[..n], viewChanged, ids).tables.sources ==> s in CurrentSources(frame)
  {
    if n > 0 {
      assert frame[..n][..n - 1] == frame[..n - 1];
      SourcesAreCurrent(a, frame, n - 1, viewChanged, ids);
      SourcesOfOne(PlaceFrame(a, frame[..n - 1], viewChanged, ids), frame[n - 1], viewChanged, ids);
      hide PlaceOne;
      assert IsDrawn(frame[n - 1]) ==> frame[n - 1].sourceKey in CurrentSources(frame);
    }
  }

  lemma SourcesOfOne(g: Progress, p: HostPlacement, viewChanged: bool, ids: Ids)
    ensures forall s :: s in PlaceOne(g, p, viewChanged, ids).tables.sources ==>
              s in g.tables.sources || (IsDrawn(p) && s == p.sourceKey)
  {}

  lemma SameFrameDraws(f: seq<HostPlacement>, g: seq<HostPlacement>, i: nat, ids: Ids)
    requires IsSameFrame(f, g) && i < |f|
    ensures IsDrawn(f[i]) == IsDrawn(g[i])
    ensures ImageId(f[i], ids) == ImageId(g[i], ids) && SignatureOf(f[i]) == SignatureOf(g[i])
    ensures KeyOf(f[i], ids) == KeyOf(g[i], ids)
    ensures IsDrawn(f[i]) ==> PlacementSignatureOf(f[i]) == PlacementSignatureOf(g[i])
  {
    assert Columns(f[i]) == Columns(g[i]) && Rows(f[i]) == Rows(g[i]);
  }

  lemma {:induction false} SameFrameWants(f: seq<HostPlacement>, g: seq<HostPlacement>, ids: Ids)
    requires IsSameFrame(f, g)
    ensures Wanted(f, ids) == Wanted(g, ids)
    decreases |f|
  {
    if f != [] {
      SameFrameWants(f[..|f| - 1], g[..|g| - 1], ids);
      SameFrameDraws(f, g, |f| - 1, ids);
    }
  }

  lemma SameFrameSources(f: seq<HostPlacement>, g: seq<HostPlacement>, ids: Ids)
    requires IsSameFrame(f, g)
    ensures CurrentSources(f) == CurrentSources(g)
  {
    forall i | 0 <= i < |f|
      ensures f[i].sourceKey == g[i].sourceKey && IsDrawn(f[i]) == IsDrawn(g[i])
    {
      SameFrameDraws(f, g, i, ids);
    }
    hide IsDrawn;
    forall s | s in CurrentSources(f)
      ensures s in CurrentSources(g)
    {
      var i :| 0 <= i < |f| && (f[i].sourceKey.Terminal? || IsDrawn(f[i])) && f[i].sourceKey == s;
      assert g[i].sourceKey == s;
    }
    forall s | s in CurrentSources(g)
      ensures s in CurrentSources(f)
    {
      var i :| 0 <= i < |g| && (g[i].sourceKey.Terminal? || IsDrawn(g[i])) && g[i].sourceKey == s;
      assert f[i].sourceKey == s;
    }
  }

  /** An update leaves tables that show its frame, also when the frame is collected again. */
  lemma UpdatedShows(t: Tables, frame: seq<HostPlacement>, again: seq<HostPlacement>, viewChanged: bool,
                     ids: Ids, used: set<Picture>)
    requires IsLinked(t) && IsNamed(t, ids, used) && IsInjectiveOn(ids, used) && Covers(used, frame)
    requires HasOneImagePerSource(frame, ids) && HasConsistentKeys(frame, ids)
    requires ShowsAll(Pruned(t, frame), frame, ids)
    requires IsSameFrame(frame, again)
    ensures Shows(Updated(t, frame, viewChanged, ids), again, ids)
  {
    var u := Updated(t, frame, viewChanged, ids);
    FrameExact(t, frame, viewChanged, ids, used);
    SameFrameWants(frame, again, ids);
    SameFrameSources(frame, again, ids);
    UpdatedSourcesAreCurrent(t, frame, viewChanged, ids);
    hide Updated;
    hide Pruned;
    hide Wanted;
    hide CurrentSources;
    hide IsDrawn;
    hide ImageId;
    hide KeyOf;
    hide SignatureOf;
    hide PlacementSignatureOf;
    hide IsInjectiveOn;
    hide IsNamed;
    hide IsLinked;
    hide Covers;
    hide HasOneImagePerSource;
    hide IsSameFrame;
    hide HasConsistentKeys;
    forall i | 0 <= i < |again| && IsDrawn(again[i])
      ensures IsAnchor(u, again[i], ids)
      ensures ImageId(again[i], ids) in u.images && u.images[ImageId(again[i], ids)] == SignatureOf(again[i])
      ensures KeyOf(again[i], ids) in u.placements
              && u.placements[KeyOf(again[i], ids)] == PlacementSignatureOf(again[i])
    {
      SameFrameDraws(frame, again, i, ids);
      SameFrameSource(frame, again, i);
      WantedValue(frame, i, ids);
      assert IsAnchor(u, frame[i], ids);
    }
  }

  lemma SameFrameSource(f: seq<HostPlacement>, g: seq<HostPlacement>, i: nat)
    requires IsSameFrame(f, g) && i < |f|
    ensures f[i].sourceKey == g[i].sourceKey
  {}

  lemma UpdatedSourcesAreCurrent(t: Tables, frame: seq<HostPlacement>, viewChanged: bool, ids: Ids)
    ensures forall s :: s in Updated(t, frame, viewChanged, ids).sources ==> s in CurrentSources(frame)
  {
    hide PlaceFrame;
    hide CurrentSources;
    assert frame[..|frame|] == frame;
    SourcesAreCurrent(Pruned(t, frame), frame, |frame|, viewChanged, ids);
  }

  /** Idempotence: repeating a frame emits nothing; repeating it under a changed view emits one
      display per drawn placement and no upload and no delete. */
  lemma RepeatIsIdempotent(t: Tables, frame: seq<HostPlacement>, again: seq<HostPlacement>, first: bool, second: bool,
                           ids: Ids, used: set<Picture>, pruned: seq<u32>, stale: seq<PlacementKey>)
    requires IsLinked(t) && IsNamed(t, ids, used) && IsInjectiveOn(ids, used) && Covers(used, frame)
    requires HasOneImagePerSource(frame, ids) && HasConsistentKeys(frame, ids)
    requires ShowsAll(Pruned(t, frame), frame, ids)
    requires IsSameFrame(frame, again)
    requires IsOrderOf(pruned, PrunedImages(Updated(t, frame, first, ids), again))
    requires IsOrderOf(stale, StaleKeys(Placed(Updated(t, frame, first, ids), again, second, ids)))
    ensures var u := Updated(t, frame, first, ids);
            && Updated(u, again, second, ids) == u
            && UpdateCommands(u, again, second, ids, pruned, stale) == if second then Displays(again, ids) else []
  {
    UpdatedShows(t, frame, again, first, ids, used);
    ShownFrameIsQuiet(Updated(t, frame, first, ids), again, second, ids, pruned, stale);
  }

  // ----- Frames that leave out data they believe is cached -----

  /** A frame collected against these tables leaves data out only for images it finds there. */
  predicate IsCollectedFrom(t: Tables, frame: seq<HostPlacement>, ids: Ids) {
    forall i :: 0 <= i < |frame| && frame[i].placement.data == [] ==>
      ImageId(frame[i], ids) in t.images && t.images[ImageId(frame[i], ids)] == SignatureOf(frame[i])
  }

  /** A drawn placement whose image is there at the end of the frame has it shown. */
  lemma PresentAtEnd(a: Tables, frame: seq<HostPlacement>, ids: Ids, i: nat)
    requires i < |frame| && IsDrawn(frame[i])
    requires IsPresent(a, frame, ids, |frame|, ImageId(frame[i], ids))
    ensures IsShownBefore(a, frame, ids, |frame|, ImageId(frame[i], ids))
  {
    var id := ImageId(frame[i], ids);
    PresentIs(a, frame, ids, |frame|, id);
    PresentIs(a, frame, ids, i, id);
    var shown := IsShown(a, frame, ids, i);
    assert IsPresent(a, frame, ids, i, id) ==> shown;
    hide IsShown;
    hide IsPresent;
    hide ImageId;
    hide IsDrawn;
  }

  /** Recovery: whatever an update could not show, the same frame collected afresh shows exactly,
      although it leaves out the data of every image it finds cached. */
  lemma NextFrameIsExact(t: Tables, frame: seq<HostPlacement>, again: seq<HostPlacement>, first: bool, second: bool,
                         ids: Ids, used: set<Picture>)
    requires IsLinked(t) && IsNamed(t, ids, used) && IsInjectiveOn(ids, used) && Covers(used, frame)
    requires HasOneImagePerSource(frame, ids) && IsSameFrame(frame, again)
    requires IsCollectedFrom(Updated(t, frame, first, ids), again, ids)
    ensures Updated(Updated(t, frame, first, ids), again, second, ids).placements == Wanted(frame, ids)
  {
    var u := Updated(t, frame, first, ids);
    FrameShowsExactly(t, frame, first, ids, used);
    var a := Pruned(t, frame);
    hide Updated;
    hide Pruned;
    SameFrameOneImage(frame, again, ids);
    SameFrameCovered(frame, again, ids, used);
    CollectedIsSupplied(a, u, frame, again, ids);
    SuppliedShowsAll(u, again, ids);
    FrameExact(u, again, second, ids, used);
    SameFrameWants(frame, again, ids);
  }

  lemma SameFrameOneImage(f: seq<HostPlacement>, g: seq<HostPlacement>, ids: Ids)
    requires IsSameFrame(f, g) && HasOneImagePerSource(f, ids)
    ensures HasOneImagePerSource(g, ids)
  {
    hide IsDrawn;
    hide ImageId;
    forall i | 0 <= i < |f|
      ensures IsDrawn(f[i]) == IsDrawn(g[i]) && ImageId(f[i], ids) == ImageId(g[i], ids)
              && f[i].sourceKey == g[i].sourceKey
    {
      SameFrameDraws(f, g, i, ids);
    }
  }

  lemma SameFrameCovered(f: seq<HostPlacement>, g: seq<HostPlacement>, ids: Ids, used: set<Picture>)
    requires IsSameFrame(f, g) && Covers(used, f)
    ensures Covers(used, g)
  {
    hide IsDrawn;
    forall i | 0 <= i < |g| && IsDrawn(g[i])
      ensures PictureOf(g[i]) in used
    {
      SameFrameDraws(f, g, i, ids);
      assert PictureOf(f[i]) in used;
    }
  }

  lemma CollectedIsSupplied(a: Tables, u: Tables, frame: seq<HostPlacement>, again: seq<HostPlacement>, ids: Ids)
    requires IsSameFrame(frame, again) && IsCollectedFrom(u, again, ids)
    requires HasSources(a, frame, ids, |frame|, u) && HasImages(a, frame, ids, |frame|, u)
    ensures IsSupplied(u, again, ids)
  {
    hide IsDrawn;
    hide ImageId;
    hide IsShown;
    hide IsPresent;
    hide IsMoved;
    forall i | 0 <= i < |again| && IsDrawn(again[i]) && again[i].placement.data == []
      ensures exists j ::
                0 <= j < |again| && IsAnchor(u, again[j], ids) && ImageId(again[j], ids) == ImageId(again[i], ids)
    {
      SameFrameDraws(frame, again, i, ids);
      PresentAtEnd(a, frame, ids, i);
      var j: nat :| j < |frame| && IsShown(a, frame, ids, j) && ImageId(frame[j], ids) == ImageId(frame[i], ids);
      assert IsAnchor(u, frame[j], ids);
      SameFrameDraws(frame, again, j, ids);
      assert IsAnchor(u, again[j], ids);
    }
  }
}

/** Which placements of a frame get their image: the state of the cache turn by turn. */
module KittyTurns {
  import opened HostPlacements
  import opened KittyCache
  import opened KittyRefinement

  // ----- What a frame asks for -----

  /** Drawn placements of one source show one image. */
  predicate HasOneImagePerSource(frame: seq<HostPlacement>, ids: Ids) {
    forall i, j :: 0 <= i < |frame| && 0 <= j < |frame| && IsDrawn(frame[i]) && IsDrawn(frame[j])
                   && frame[i].sourceKey == frame[j].sourceKey
                   ==> ImageId(frame[i], ids) == ImageId(frame[j], ids)
  }

  /** A source that already shows what this placement asks of it. */
  predicate IsAnchor(t: Tables, p: HostPlacement, ids: Ids) {
    IsDrawn(p) && p.sourceKey in t.sources && t.sources[p.sourceKey] == ImageId(p, ids)
  }

  /** The placements the frame asks for; of equal keys the last one counts. */
  function Wanted(frame: seq<HostPlacement>, ids: Ids): map<PlacementKey, PlacementSignature>
    decreases |frame|
  {
    if frame == [] then map[]
    else
      var last := frame[|frame| - 1];
      var wanted := Wanted(frame[..|frame| - 1], ids);
      if IsDrawn(last) then wanted[KeyOf(last, ids) := PlacementSignatureOf(last)] else wanted
  }

  predicate IsWantedAt(frame: seq<HostPlacement>, ids: Ids, i: int, key: PlacementKey) {
    0 <= i < |frame| && IsDrawn(frame[i]) && KeyOf(frame[i], ids) == key
  }

  /** A key is wanted exactly when some drawn placement of the frame has it. */
  lemma {:induction false} WantedKeys(frame: seq<HostPlacement>, ids: Ids, key: PlacementKey)
    ensures key in Wanted(frame, ids) <==> exists i :: IsWantedAt(frame, ids, i, key)
    decreases |frame|
  {
    hide IsDrawn;
    hide KeyOf;
    if frame != [] {
      var n := |frame| - 1;
      var init := frame[..n];
      WantedKeys(init, ids, key);
      assert forall i :: i < n ==> IsWantedAt(init, ids, i, key) == IsWantedAt(frame, ids, i, key);
      assert IsWantedAt(frame, ids, n, key) <==> IsDrawn(frame[n]) && KeyOf(frame[n], ids) == key;
    }
  }

  // ----- Which placements get their image -----

  /** Placement `i` gets its image: it brings the data, or the image is there at its turn. */
  ghost predicate IsShown(a: Tables, frame: seq<HostPlacement>, ids: Ids, i: nat)
    requires i < |frame|
    decreases i, 1
  {
    IsDrawn(frame[i]) && (frame[i].placement.data != [] || IsPresent(a, frame, ids, i, ImageId(frame[i], ids)))
  }

  /** At turn `n` an image is there: an earlier placement showed it; or it was cached at the start
      and no source held it, or one that did has not moved on. */
  ghost predicate IsPresent(a: Tables, frame: seq<HostPlacement>, ids: Ids, n: nat, id: u32)
    requires n <= |frame|
    decreases n, 0
  {
    || (exists k: nat :: k < n && IsShown(a, frame, ids, k) && ImageId(frame[k], ids) == id)
    || (id in a.images
        && (id !in a.sources.Values
            || exists s :: s in a.sources && a.sources[s] == id
                 && forall k: nat :: k < n && frame[k].sourceKey == s ==> !IsShown(a, frame, ids, k)))
  }

  /** Some placement before turn `n` has pointed this source at its image. */
  ghost predicate IsMoved(a: Tables, frame: seq<HostPlacement>, ids: Ids, n: nat, s: HostSourceKey)
    requires n <= |frame|
  {
    exists k: nat :: k < n && frame[k].sourceKey == s && IsShown(a, frame, ids, k)
  }

  ghost predicate IsShownBefore(a: Tables, frame: seq<HostPlacement>, ids: Ids, n: nat, id: u32)
    requires n <= |frame|
  {
    exists k: nat :: k < n && IsShown(a, frame, ids, k) && ImageId(frame[k], ids) == id
  }

  /** A source that held the image at the start still does at turn `n`. */
  ghost predicate IsHeld(a: Tables, frame: seq<HostPlacement>, ids: Ids, n: nat, id: u32)
    requires n <= |frame|
  {
    exists s :: s in a.sources && a.sources[s] == id && !IsMoved(a, frame, ids, n, s)
  }

  lemma PresentIs(a: Tables, frame: seq<HostPlacement>, ids: Ids, n: nat, id: u32)
    requires n <= |frame|
    ensures IsPresent(a, frame, ids, n, id)
            <==> || IsShownBefore(a, frame, ids, n, id)
                 || (id in a.images && (id !in a.sources.Values || IsHeld(a, frame, ids, n, id)))
  {
    hide IsShown;
    hide ImageId;
    if id in a.images {
      forall s | s in a.sources && a.sources[s] == id
        ensures IsMoved(a, frame, ids, n, s)
                <==> !(forall k: nat :: k < n && frame[k].sourceKey == s ==> !IsShown(a, frame, ids, k))
      {}
    }
  }

  /** The placements shown by the first `n`; of equal keys the last one counts. */
  ghost function Achieved(a: Tables, frame: seq<HostPlacement>, ids: Ids, n: nat): map<PlacementKey, PlacementSignature>
    requires n <= |frame|
  {
    if n == 0 then map[]
    else
      var before := Achieved(a, frame, ids, n - 1);
      if !IsShown(a, frame, ids, n - 1) then before
      else before[KeyOf(frame[n - 1], ids) := PlacementSignatureOf(frame[n - 1])]
  }

  ghost predicate IsAchievedBy(a: Tables, frame: seq<HostPlacement>, ids: Ids, k: int, key: PlacementKey) {
    0 <= k < |frame| && IsShown(a, frame, ids, k) && KeyOf(frame[k], ids) == key
  }

  lemma {:induction false} AchievedKeys(a: Tables, frame: seq<HostPlacement>, ids: Ids, n: nat, key: PlacementKey)
    requires n <= |frame|
    ensures key in Achieved(a, frame, ids, n) <==> exists k :: k < n && IsAchievedBy(a, frame, ids, k, key)
  {
    hide IsShown;
    hide KeyOf;
    if n > 0 {
      AchievedKeys(a, frame, ids, n - 1, key);
      assert IsAchievedBy(a, frame, ids, n - 1, key)
             <==> IsShown(a, frame, ids, n - 1) && KeyOf(frame[n - 1], ids) == key;
    }
  }

  // ----- The state while a frame is being placed -----

  /** Shown placements have their source at their image; every other source is where it was. */
  ghost predicate HasSources(a: Tables, frame: seq<HostPlacement>, ids: Ids, n: nat, t: Tables)
    requires n <= |frame|
  {
    && (forall k: nat :: k < n && IsShown(a, frame, ids, k) ==> IsAnchor(t, frame[k], ids))
    && (forall s :: s in a.sources && !IsMoved(a, frame, ids, n, s) ==> s in t.sources && t.sources[s] == a.sources[s])
    && (forall s :: s in t.sources ==> IsMoved(a, frame, ids, n, s) || (s in a.sources && t.sources[s] == a.sources[s]))
  }

  ghost predicate HasImages(a: Tables, frame: seq<HostPlacement>, ids: Ids, n: nat, t: Tables)
    requires n <= |frame|
  {
    forall id: u32 :: id in t.images <==> IsPresent(a, frame, ids, n, id)
  }

  /** Of the keys noted, exactly those of shown placements are there, with the last signature. */
  ghost predicate HasPlacements(a: Tables, frame: seq<HostPlacement>, ids: Ids, n: nat, g: Progress)
    requires n <= |frame|
  {
    && (forall k :: k in Achieved(a, frame, ids, n) ==>
          k in g.current && k in g.tables.placements && g.tables.placements[k] == Achieved(a, frame, ids, n)[k])
    && (forall k :: k in g.current && k in g.tables.placements ==> k in Achieved(a, frame, ids, n))
  }

  ghost predicate IsInSync(a: Tables, frame: seq<HostPlacement>, ids: Ids, n: nat, g: Progress)
    requires n <= |frame|
  {
    HasSources(a, frame, ids, n, g.tables) && HasImages(a, frame, ids, n, g.tables)
        && HasPlacements(a, frame, ids, n, g)
  }

  // ----- One turn without a collision -----

  /** A placement whose image is there or brought along gets it without touching anything else. */
  lemma EnsureIsCalm(g: Progress, p: HostPlacement, ids: Ids)
    requires !HasCollision(g, p, ids)
    ensures var e := EnsureImage(g, p, ids);
            && e.current == g.current && e.tables.placements == g.tables.placements
                && e.tables.sources == g.tables.sources
            && (EnsureSucceeds(g, p, ids) ==> e.tables.images.Keys == g.tables.images.Keys + {ImageId(p, ids)})
  {}

  lemma ReleaseCurrent(g: Progress, source: HostSourceKey, id: u32, key: PlacementKey)
    requires key.0 == id
    ensures ReleaseSuperseded(g.(current := g.current + {key}), source, id)
            == ReleaseSuperseded(g, source, id).(current := ReleaseSuperseded(g, source, id).current + {key})
  {
    var r := ReleaseSuperseded(g, source, id);
    var q := ReleaseSuperseded(g.(current := g.current + {key}), source, id);
    assert q.current == r.current + {key};
  }

  lemma EnsureCurrent(g: Progress, p: HostPlacement, ids: Ids, key: PlacementKey)
    requires !HasCollision(g, p, ids)
    ensures EnsureImage(g.(current := g.current + {key}), p, ids)
            == EnsureImage(g, p, ids).(current := g.current + {key})
  {}

  lemma ShowAddsKey(g: Progress, p: HostPlacement, viewChanged: bool, ids: Ids)
    requires IsDrawn(p)
    ensures ShowPlacement(g, p, viewChanged, ids).tables
            == g.tables.(placements := g.tables.placements[KeyOf(p, ids) := PlacementSignatureOf(p)])
    ensures ShowPlacement(g, p, viewChanged, ids).current == g.current
  {
    if KeyOf(p, ids) in g.tables.placements && g.tables.placements[KeyOf(p, ids)] == PlacementSignatureOf(p) {
      assert g.tables.placements[KeyOf(p, ids) := PlacementSignatureOf(p)] == g.tables.placements;
    }
  }

  /** Without a collision, noting the key first or last makes no difference. */
  lemma PlaceOneIs(g: Progress, p: HostPlacement, viewChanged: bool, ids: Ids)
    requires IsDrawn(p) && !HasCollision(g, p, ids) && EnsureSucceeds(g, p, ids)
    ensures var r := ReleaseSuperseded(EnsureImage(g, p, ids), p.sourceKey, ImageId(p, ids));
            PlaceOne(g, p, viewChanged, ids) == ShowPlacement(NoteKey(r, p, ids), p, viewChanged, ids)
  {
    EnsureIsCalm(g, p, ids);
    EnsureCurrent(g, p, ids, KeyOf(p, ids));
    hide EnsureImage;
    ReleaseCurrent(EnsureImage(g, p, ids), p.sourceKey, ImageId(p, ids), KeyOf(p, ids));
    hide ReleaseSuperseded;
    hide ShowPlacement;
  }

  lemma FailedPlacementNotesKey(g: Progress, p: HostPlacement, viewChanged: bool, ids: Ids)
    requires IsDrawn(p) && !HasCollision(g, p, ids) && !EnsureSucceeds(g, p, ids)
    ensures PlaceOne(g, p, viewChanged, ids) == NoteKey(g, p, ids)
  {
    hide ClipPlacement;
    hide ImageId;
  }

  /** Moving a source on never drops an image that some source shows then. */
  lemma ReleaseSpares(g: Progress, source: HostSourceKey, id: u32, p: HostPlacement, ids: Ids)
    requires IsAnchor(g.tables, p, ids)
    requires p.sourceKey == source ==> ImageId(p, ids) == id
    ensures var r := ReleaseSuperseded(g, source, id);
            && IsAnchor(r.tables, p, ids)
            && (forall k :: k in g.tables.placements && k.0 == ImageId(p, ids) ==>
                  k in r.tables.placements && r.tables.placements[k] == g.tables.placements[k])
            && (forall k :: k in g.current && k.0 == ImageId(p, ids) ==> k in r.current)
  {
    hide ClipPlacement;
    hide ImageId;
    var moved := g.tables.sources[source := id];
    assert moved[p.sourceKey] == ImageId(p, ids);
    assert ImageId(p, ids) in moved.Values;
  }

  lemma ReleaseOnlyDrops(g: Progress, source: HostSourceKey, id: u32)
    ensures var r := ReleaseSuperseded(g, source, id);
            && r.current <= g.current && r.tables.sources == g.tables.sources[source := id]
            && (forall k :: k in r.tables.placements ==> k in g.tables.placements)
  {}

  /** Releasing drops the image the source held before, if nothing holds it any more. */
  lemma ReleaseDropsExactly(g: Progress, source: HostSourceKey, id: u32, x: u32)
    ensures var r := ReleaseSuperseded(g, source, id);
            x in r.tables.images
            <==> && x in g.tables.images
                 && !(source in g.tables.sources && g.tables.sources[source] == x
                     && x !in g.tables.sources[source := id].Values)
  {
    assert g.tables.sources[source := id][source] == id;
  }

  // ----- One turn keeps the state in sync -----

  lemma SourcesTurn(a: Tables, frame: seq<HostPlacement>, ids: Ids, n: nat, t: Tables, u: Tables)
    requires n < |frame| && IsShown(a, frame, ids, n) && HasOneImagePerSource(frame, ids)
    requires HasSources(a, frame, ids, n, t)
    requires u.sources == t.sources[frame[n].sourceKey := ImageId(frame[n], ids)]
    ensures HasSources(a, frame, ids, n + 1, u)
  {
    DrawnWhenShown(a, frame, ids);
    hide IsShown;
    hide ImageId;
    hide IsDrawn;
    var source := frame[n].sourceKey;
    forall s
      ensures IsMoved(a, frame, ids, n + 1, s) <==> IsMoved(a, frame, ids, n, s) || s == source
    {
      MovedOneMore(a, frame, ids, n, s);
    }
    hide IsMoved;
    forall k: nat | k < n + 1 && IsShown(a, frame, ids, k)
      ensures IsAnchor(u, frame[k], ids)
    {
      if k < n {
        assert IsAnchor(t, frame[k], ids);
      }
    }
  }

  lemma MovedOneMore(a: Tables, frame: seq<HostPlacement>, ids: Ids, n: nat, s: HostSourceKey)
    requires n < |frame|
    ensures IsMoved(a, frame, ids, n + 1, s)
            <==> IsMoved(a, frame, ids, n, s) || (frame[n].sourceKey == s && IsShown(a, frame, ids, n))
  {
    hide IsShown;
    if IsMoved(a, frame, ids, n, s) {
      var k: nat :| k < n && frame[k].sourceKey == s && IsShown(a, frame, ids, k);
      assert k < n + 1 && frame[k].sourceKey == s && IsShown(a, frame, ids, k);
    }
  }

  lemma DrawnWhenShown(a: Tables, frame: seq<HostPlacement>, ids: Ids)
    ensures forall k: nat :: k < |frame| && IsShown(a, frame, ids, k) ==> IsDrawn(frame[k])
  {}

  lemma ShownBeforeOneMore(a: Tables, frame: seq<HostPlacement>, ids: Ids, n: nat, id: u32)
    requires n < |frame|
    ensures IsShownBefore(a, frame, ids, n + 1, id)
            <==> IsShownBefore(a, frame, ids, n, id) || (IsShown(a, frame, ids, n) && ImageId(frame[n], ids) == id)
  {
    hide IsShown;
    hide ImageId;
    if IsShownBefore(a, frame, ids, n, id) {
      var k: nat :| k < n && IsShown(a, frame, ids, k) && ImageId(frame[k], ids) == id;
      assert k < n + 1 && IsShown(a, frame, ids, k) && ImageId(frame[k], ids) == id;
    }
  }

  /** A turn that shows nothing leaves every image where it was. */
  lemma PresentUnshown(a: Tables, frame: seq<HostPlacement>, ids: Ids, n: nat, id: u32)
    requires n < |frame| && !IsShown(a, frame, ids, n)
    ensures IsPresent(a, frame, ids, n + 1, id) <==> IsPresent(a, frame, ids, n, id)
  {
    PresentIs(a, frame, ids, n, id);
    PresentIs(a, frame, ids, n + 1, id);
    ShownBeforeOneMore(a, frame, ids, n, id);
    hide IsShown;
    hide IsPresent;
    hide IsShownBefore;
    forall s
      ensures IsMoved(a, frame, ids, n + 1, s) <==> IsMoved(a, frame, ids, n, s)
    {
      MovedOneMore(a, frame, ids, n, s);
    }
    hide IsMoved;
  }

  /** A turn that shows image `x` drops another image exactly when its source was the last holder. */
  lemma PresentShown(a: Tables, frame: seq<HostPlacement>, ids: Ids, n: nat, t: Tables, id: u32)
    requires n < |frame| && IsShown(a, frame, ids, n) && HasOneImagePerSource(frame, ids)
    requires HasSources(a, frame, ids, n, t)
    requires id != ImageId(frame[n], ids)
    ensures var s := frame[n].sourceKey;
            IsPresent(a, frame, ids, n + 1, id)
            <==> && IsPresent(a, frame, ids, n, id)
                 && !(s in t.sources && t.sources[s] == id && id !in t.sources[s := ImageId(frame[n], ids)].Values)
  {
    PresentIs(a, frame, ids, n, id);
    PresentIs(a, frame, ids, n + 1, id);
    ShownBeforeOneMore(a, frame, ids, n, id);
    DrawnWhenShown(a, frame, ids);
    hide IsShown;
    hide IsPresent;
    hide ImageId;
    hide IsDrawn;
    if IsShownBefore(a, frame, ids, n, id) {
      ShownBeforeIsHeld(a, frame, ids, n, t, id);
    } else {
      HeldOneMore(a, frame, ids, n, id);
      HoldersAre(a, frame, ids, n, t, id);
      LastHolder(t.sources, frame[n].sourceKey, ImageId(frame[n], ids), id);
      hide IsHeld;
      hide IsHeldApart;
      hide HasSources;
      hide IsShownBefore;
    }
  }

  lemma ShownBeforeIsHeld(a: Tables, frame: seq<HostPlacement>, ids: Ids, n: nat, t: Tables, id: u32)
    requires n < |frame| && IsShown(a, frame, ids, n) && HasOneImagePerSource(frame, ids)
    requires HasSources(a, frame, ids, n, t)
    requires id != ImageId(frame[n], ids) && IsShownBefore(a, frame, ids, n, id)
    ensures id in t.sources[frame[n].sourceKey := ImageId(frame[n], ids)].Values
  {
    DrawnWhenShown(a, frame, ids);
    hide IsShown;
    hide ImageId;
    hide IsDrawn;
    hide IsMoved;
    var k: nat :| k < n && IsShown(a, frame, ids, k) && ImageId(frame[k], ids) == id;
    assert IsAnchor(t, frame[k], ids);
    assert t.sources[frame[n].sourceKey := ImageId(frame[n], ids)][frame[k].sourceKey] == id;
  }

  lemma LastHolder(sources: map<HostSourceKey, u32>, source: HostSourceKey, x: u32, id: u32)
    requires id != x
    ensures id in sources.Values && id !in sources[source := x].Values ==> source in sources && sources[source] == id
    ensures source in sources && sources[source] == id ==> id in sources.Values
  {
    forall s | s in sources && s != source && sources[s] == id
      ensures id in sources[source := x].Values
    {
      assert sources[source := x][s] == id;
    }
  }

  /** Before its image is shown, the sources at an image are the ones that always held it. */
  lemma HoldersAre(a: Tables, frame: seq<HostPlacement>, ids: Ids, n: nat, t: Tables, id: u32)
    requires n < |frame| && IsShown(a, frame, ids, n)
    requires HasSources(a, frame, ids, n, t) && !IsShownBefore(a, frame, ids, n, id)
    requires id != ImageId(frame[n], ids)
    ensures var s := frame[n].sourceKey;
            && (id in t.sources.Values <==> IsHeld(a, frame, ids, n, id))
            && (id in t.sources[s := ImageId(frame[n], ids)].Values <==> IsHeldApart(a, frame, ids, n, id, s))
  {
    hide IsShown;
    hide ImageId;
    hide IsDrawn;
    var source := frame[n].sourceKey;
    var moved := t.sources[source := ImageId(frame[n], ids)];
    forall s | s in t.sources && t.sources[s] == id
      ensures s in a.sources && a.sources[s] == id && !IsMoved(a, frame, ids, n, s)
    {
      assert forall k: nat :: k < n && IsShown(a, frame, ids, k) ==> IsAnchor(t, frame[k], ids);
    }
    forall s | s in a.sources && a.sources[s] == id && !IsMoved(a, frame, ids, n, s)
      ensures s in t.sources && t.sources[s] == id && id in t.sources.Values
      ensures s != source ==> id in moved.Values
    {
      assert s != source ==> moved[s] == id;
    }
    hide IsMoved;
    hide HasSources;
    if id in t.sources.Values {
      var s :| s in t.sources && t.sources[s] == id;
    }
    if id in moved.Values {
      var s :| s in moved && moved[s] == id;
      assert s != source && t.sources[s] == id;
    }
  }

  /** Some source other than `apart` has held the image from the start. */
  ghost predicate IsHeldApart(a: Tables, frame: seq<HostPlacement>, ids: Ids, n: nat, id: u32, apart: HostSourceKey)
    requires n <= |frame|
  {
    exists s :: s != apart && s in a.sources && a.sources[s] == id && !IsMoved(a, frame, ids, n, s)
  }

  lemma HeldOneMore(a: Tables, frame: seq<HostPlacement>, ids: Ids, n: nat, id: u32)
    requires n < |frame| && IsShown(a, frame, ids, n)
    ensures IsHeld(a, frame, ids, n + 1, id) <==> IsHeldApart(a, frame, ids, n, id, frame[n].sourceKey)
    ensures IsHeld(a, frame, ids, n, id) ==> id in a.sources.Values
  {
    hide IsShown;
    forall s
      ensures IsMoved(a, frame, ids, n + 1, s) <==> IsMoved(a, frame, ids, n, s) || s == frame[n].sourceKey
    {
      MovedOneMore(a, frame, ids, n, s);
    }
    hide IsMoved;
  }

  lemma PlacementsTurn(a: Tables, frame: seq<HostPlacement>, ids: Ids, n: nat, g: Progress, r: Progress, h: Progress)
    requires n < |frame| && IsShown(a, frame, ids, n) && HasOneImagePerSource(frame, ids)
    requires HasSources(a, frame, ids, n, g.tables) && HasPlacements(a, frame, ids, n, g)
    requires r == ReleaseSuperseded(g, frame[n].sourceKey, ImageId(frame[n], ids))
    requires h.current == r.current + {KeyOf(frame[n], ids)}
    requires IsDrawn(frame[n])
    requires h.tables.placements == r.tables.placements[KeyOf(frame[n], ids) := PlacementSignatureOf(frame[n])]
    ensures HasPlacements(a, frame, ids, n + 1, h)
  {
    ReleaseOnlyDrops(g, frame[n].sourceKey, ImageId(frame[n], ids));
    AchievedStay(a, frame, ids, n, g, r);
    assert Achieved(a, frame, ids, n + 1)
           == Achieved(a, frame, ids, n)[KeyOf(frame[n], ids) := PlacementSignatureOf(frame[n])];
    hide ReleaseSuperseded;
    hide HasSources;
    hide IsShown;
    hide IsDrawn;
    hide KeyOf;
    hide PlacementSignatureOf;
    hide Achieved;
  }

  /** Releasing the old image of a source leaves every placement shown so far. */
  lemma AchievedStay(a: Tables, frame: seq<HostPlacement>, ids: Ids, n: nat, g: Progress, r: Progress)
    requires n < |frame| && IsShown(a, frame, ids, n) && HasOneImagePerSource(frame, ids) && IsDrawn(frame[n])
    requires HasSources(a, frame, ids, n, g.tables) && HasPlacements(a, frame, ids, n, g)
    requires r == ReleaseSuperseded(g, frame[n].sourceKey, ImageId(frame[n], ids))
    ensures forall key :: key in Achieved(a, frame, ids, n) ==>
              && key in r.current && key in r.tables.placements
              && r.tables.placements[key] == Achieved(a, frame, ids, n)[key]
  {
    DrawnWhenShown(a, frame, ids);
    var source, id := frame[n].sourceKey, ImageId(frame[n], ids);
    ReleaseOnlyDrops(g, source, id);
    forall key | key in Achieved(a, frame, ids, n)
      ensures key in r.current && key in r.tables.placements
              && r.tables.placements[key] == Achieved(a, frame, ids, n)[key]
    {
      AchievedKeys(a, frame, ids, n, key);
      var k :| k < n && IsAchievedBy(a, frame, ids, k, key);
      assert IsAnchor(g.tables, frame[k], ids);
      ReleaseSpares(g, source, id, frame[k], ids);
    }
    hide ReleaseSuperseded;
    hide IsShown;
    hide IsDrawn;
    hide KeyOf;
    hide PlacementSignatureOf;
    hide Achieved;
  }

  /** A placement without its image is noted, but no placement of that image can be there. */
  lemma PlacementsUnshown(a: Tables, frame: seq<HostPlacement>, ids: Ids, n: nat, g: Progress)
    requires n < |frame| && !IsShown(a, frame, ids, n) && IsDrawn(frame[n])
    requires HasPlacements(a, frame, ids, n, g) && IsLinked(g.tables)
    requires ImageId(frame[n], ids) !in g.tables.images
    ensures HasPlacements(a, frame, ids, n + 1, NoteKey(g, frame[n], ids))
  {
    hide IsShown;
    hide ImageId;
    hide IsDrawn;
    assert Achieved(a, frame, ids, n + 1) == Achieved(a, frame, ids, n);
    assert KeyOf(frame[n], ids).0 == ImageId(frame[n], ids);
  }

  /** A turn succeeds exactly for the placements that are shown. */
  lemma ShownSucceeds(a: Tables, frame: seq<HostPlacement>, ids: Ids, n: nat, g: Progress)
    requires n < |frame| && IsDrawn(frame[n]) && HasImages(a, frame, ids, n, g.tables)
    requires !HasCollision(g, frame[n], ids)
    ensures EnsureSucceeds(g, frame[n], ids) <==> IsShown(a, frame, ids, n)
    ensures !IsShown(a, frame, ids, n) ==> ImageId(frame[n], ids) !in g.tables.images
  {
    hide IsPresent;
    hide IsDrawn;
  }

  lemma UnshownTurn(a: Tables, frame: seq<HostPlacement>, ids: Ids, n: nat, g: Progress)
    requires n < |frame| && !IsShown(a, frame, ids, n)
    requires IsInSync(a, frame, ids, n, g)
    ensures HasSources(a, frame, ids, n + 1, g.tables) && HasImages(a, frame, ids, n + 1, g.tables)
  {
    hide HasPlacements;
    hide IsShown;
    hide IsPresent;
    forall s
      ensures IsMoved(a, frame, ids, n + 1, s) <==> IsMoved(a, frame, ids, n, s)
    {
      MovedOneMore(a, frame, ids, n, s);
    }
    hide IsMoved;
    forall id: u32
      ensures IsPresent(a, frame, ids, n + 1, id) <==> IsPresent(a, frame, ids, n, id)
    {
      PresentUnshown(a, frame, ids, n, id);
    }
  }

  lemma ImagesTurn(a: Tables, frame: seq<HostPlacement>, ids: Ids, n: nat, g: Progress, e: Progress)
    requires n < |frame| && IsShown(a, frame, ids, n) && HasOneImagePerSource(frame, ids)
    requires HasSources(a, frame, ids, n, g.tables) && HasImages(a, frame, ids, n, g.tables)
    requires e.tables.sources == g.tables.sources
             && e.tables.images.Keys == g.tables.images.Keys + {ImageId(frame[n], ids)}
    ensures HasImages(a, frame, ids, n + 1, ReleaseSuperseded(e, frame[n].sourceKey, ImageId(frame[n], ids)).tables)
  {
    var source, x := frame[n].sourceKey, ImageId(frame[n], ids);
    var r := ReleaseSuperseded(e, source, x);
    hide HasSources;
    hide IsPresent;
    hide IsShown;
    hide ImageId;
    forall id: u32
      ensures id in r.tables.images <==> IsPresent(a, frame, ids, n + 1, id)
    {
      ReleaseDropsExactly(e, source, x, id);
      hide ReleaseSuperseded;
      if id == x {
        assert e.tables.sources[source := x][source] == x;
        PresentIs(a, frame, ids, n + 1, x);
        assert IsShownBefore(a, frame, ids, n + 1, x);
      } else {
        PresentShown(a, frame, ids, n, g.tables, id);
      }
    }
  }

  lemma PlaceOneKeepsSync(a: Tables, frame: seq<HostPlacement>, ids: Ids, n: nat, g: Progress, viewChanged: bool)
    requires n < |frame| && HasOneImagePerSource(frame, ids)
    requires IsInSync(a, frame, ids, n, g) && IsLinked(g.tables)
    requires IsDrawn(frame[n]) ==> !HasCollision(g, frame[n], ids)
    ensures IsInSync(a, frame, ids, n + 1, PlaceOne(g, frame[n], viewChanged, ids))
  {
    var p := frame[n];
    DrawnWhenShown(a, frame, ids);
    if !IsDrawn(p) {
      UnshownTurn(a, frame, ids, n, g);
      hide IsShown;
      assert Achieved(a, frame, ids, n + 1) == Achieved(a, frame, ids, n);
    } else {
      ShownSucceeds(a, frame, ids, n, g);
      if !IsShown(a, frame, ids, n) {
        FailedPlacementNotesKey(g, p, viewChanged, ids);
        UnshownTurn(a, frame, ids, n, g);
        PlacementsUnshown(a, frame, ids, n, g);
        hide *;
      } else {
        ShownTurn(a, frame, ids, n, g, viewChanged);
      }
    }
  }

  lemma ShownTurn(a: Tables, frame: seq<HostPlacement>, ids: Ids, n: nat, g: Progress, viewChanged: bool)
    requires n < |frame| && HasOneImagePerSource(frame, ids)
    requires IsInSync(a, frame, ids, n, g)
    requires IsDrawn(frame[n]) && !HasCollision(g, frame[n], ids) && EnsureSucceeds(g, frame[n], ids)
    requires IsShown(a, frame, ids, n)
    ensures IsInSync(a, frame, ids, n + 1, PlaceOne(g, frame[n], viewChanged, ids))
  {
    var p := frame[n];
    EnsureIsCalm(g, p, ids);
    PlaceOneIs(g, p, viewChanged, ids);
    var e := EnsureImage(g, p, ids);
    hide EnsureImage;
    hide HasCollision;
    hide PlaceOne;
    var r := ReleaseSuperseded(e, p.sourceKey, ImageId(p, ids));
    ReleaseOnlyDrops(e, p.sourceKey, ImageId(p, ids));
    var h := ShowPlacement(NoteKey(r, p, ids), p, viewChanged, ids);
    ShowAddsKey(NoteKey(r, p, ids), p, viewChanged, ids);
    hide ShowPlacement;
    assert HasSources(a, frame, ids, n, e.tables);
    assert HasPlacements(a, frame, ids, n, e);
    ImagesTurn(a, frame, ids, n, g, e);
    SourcesTurn(a, frame, ids, n, e.tables, h.tables);
    PlacementsTurn(a, frame, ids, n, e, r, h);
    assert HasImages(a, frame, ids, n + 1, h.tables) by {
      assert h.tables.images == r.tables.images;
    }
  }

  lemma StartInSync(a: Tables, frame: seq<HostPlacement>, ids: Ids)
    requires IsLinked(a)
    ensures IsInSync(a, frame, ids, 0, Progress(a, {}, []))
  {
    forall id: u32
      ensures id in a.images <==> IsPresent(a, frame, ids, 0, id)
    {
      PresentIs(a, frame, ids, 0, id);
      if id in a.sources.Values {
        var s :| s in a.sources && a.sources[s] == id;
        assert !IsMoved(a, frame, ids, 0, s);
      }
    }
  }

  lemma {:induction false} FrameInSync(a: Tables, frame: seq<HostPlacement>, n: nat,
                                       viewChanged: bool, ids: Ids, used: set<Picture>)
    requires n <= |frame| && HasOneImagePerSource(frame, ids)
    requires IsLinked(a) && IsNamed(a, ids, used) && IsInjectiveOn(ids, used) && Covers(used, frame)
    ensures IsInSync(a, frame, ids, n, PlaceFrame(a, frame[..n], viewChanged, ids))
  {
    hide PlaceOne;
    hide IsInSync;
    hide IsDrawn;
    hide HasCollision;
    hide Covers;
    hide IsNamed;
    hide IsLinked;
    hide HasOneImagePerSource;
    if n == 0 {
      StartInSync(a, frame, ids);
    } else {
      var init := frame[..n - 1];
      assert frame[..n][..n - 1] == init;
      CoversLess(used, frame, n - 1);
      FrameInSync(a, frame, n - 1, viewChanged, ids, used);
      PlaceFrameKeeps(a, init, viewChanged, ids, used);
      var g := PlaceFrame(a, init, viewChanged, ids);
      if IsDrawn(frame[n - 1]) {
        NoCollisions(g, frame[n - 1], ids, used);
      }
      PlaceOneKeepsSync(a, frame, ids, n - 1, g, viewChanged);
    }
  }

  lemma CoversLess(used: set<Picture>, frame: seq<HostPlacement>, n: nat)
    requires Covers(used, frame) && n < |frame|
    ensures Covers(used, frame[..n]) && (IsDrawn(frame[n]) ==> PictureOf(frame[n]) in used)
  {
    hide IsDrawn;
  }
}

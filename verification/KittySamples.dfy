/** A small run of the graphics cache: it meets every hypothesis of the general results, and it
    shows how a frame that leaves out cached data can lose an image once. */
module KittySamples {
  import opened Options
  import opened Bytes
  import opened Screen
  import opened HostPlacements
  import opened KittyCache
  import opened KittyRefinement
  import opened KittyTurns
  import opened KittyFrames

  const IDS := Ids((pane: PaneId, s: ImageSignature) => if s.dataFingerprint == 1 then 1 else 2,
                   (source: HostSourceKey, image: u32, placement: u32) => 9)

  /** A one-cell picture of the first pane, shown by the source with this image number. */
  function Sample(image: u32, fingerprint: nat, data: bytes): HostPlacement {
    HostPlacement(1, Rect(0, 0, 10, 10), CellSize(1, 1), Terminal(1, image),
                  ImagePlacement(image, 1, 0, 0, 0, 1, 1, Rgb, 3, fingerprint, data,
                                 RenderInfo(1, 1, 1, 1, 0, 0, 0, 0, 0, 0)),
                  0)
  }

  const DATA: bytes := [1, 2, 3]

  // Source 7 shows picture 1; then it moves on to picture 2 while source 8 wants picture 1, whose
  // data is left out because it is cached; then the same is collected again.
  const FIRST := [Sample(7, 1, DATA)]
  const SECOND := [Sample(7, 2, DATA), Sample(8, 1, [])]
  const AGAIN := [Sample(7, 2, []), Sample(8, 1, DATA)]

  const USED: set<Picture> := {PictureOf(Sample(7, 1, [])), PictureOf(Sample(7, 2, []))}

  lemma SampleDraws(image: u32, fingerprint: nat, data: bytes)
    ensures var p := Sample(image, fingerprint, data);
            && IsDrawn(p) && PictureOf(p) == PictureOf(Sample(7, fingerprint, []))
            && ImageId(p, IDS) == (if fingerprint == 1 then 1 else 2)
            && KeyOf(p, IDS) == (ImageId(p, IDS), 9)
  {
    var p := Sample(image, fingerprint, data);
    assert Columns(p) == Rows(p) == Axis(10, 1, 0, 1, 1, 0, 0, 1);
    var a := Columns(p);
    assert VisibleCells(a) == 1 && PixelLen(a) == 1 && SourceStart(a) == 0;
  }

  lemma SampleIds()
    ensures IsInjectiveOn(IDS, USED)
    ensures Covers(USED, FIRST) && Covers(USED, SECOND) && Covers(USED, AGAIN)
    ensures HasOneImagePerSource(FIRST, IDS) && HasOneImagePerSource(SECOND, IDS) && HasOneImagePerSource(AGAIN, IDS)
  {
    SamplePictures();
    SampleCovers();
    hide IsInjectiveOn;
    hide Covers;
    hide IsDrawn;
    hide ImageId;
  }

  lemma SampleCovers()
    ensures Covers(USED, FIRST) && Covers(USED, SECOND) && Covers(USED, AGAIN)
  {
    hide IsDrawn;
    assert PictureOf(Sample(7, 1, DATA)) == PictureOf(Sample(8, 1, [])) == PictureOf(Sample(8, 1, DATA))
        == PictureOf(Sample(7, 1, []));
    assert PictureOf(Sample(7, 2, DATA)) == PictureOf(Sample(7, 2, []));
    hide PictureOf;
  }

  lemma SamplePictures()
    ensures IsInjectiveOn(IDS, USED)
  {
    hide IsDrawn;
    assert (IDS.image)(1, SignatureOf(Sample(7, 1, []))) == 1 && (IDS.image)(1, SignatureOf(Sample(7, 2, []))) == 2;
  }

  ghost function OrderOf<T(!new)>(s: set<T>): (order: seq<T>)
    ensures IsOrderOf(order, s)
  {
    if s == {} then []
    else
      var x :| x in s;
      [x] + OrderOf(s - {x})
  }

  ghost function FrameOp(t: Tables, frame: seq<HostPlacement>, viewChanged: bool, ids: Ids): GraphicsOp {
    Frame(frame, viewChanged, OrderOf(PrunedImages(t, frame)), OrderOf(StaleKeys(Placed(t, frame, viewChanged, ids))))
  }

  ghost const AFTER_FIRST := Updated(EMPTY, FIRST, true, IDS)
  ghost const AFTER_SECOND := Updated(AFTER_FIRST, SECOND, false, IDS)
  ghost const AFTER_AGAIN := Updated(AFTER_SECOND, AGAIN, false, IDS)

  /** Two frames and the second one again, then a clear, from the empty cache. */
  ghost const RUN := [FrameOp(EMPTY, FIRST, true, IDS), FrameOp(AFTER_FIRST, SECOND, false, IDS),
                      FrameOp(AFTER_SECOND, AGAIN, false, IDS), Clear(OrderOf(AFTER_AGAIN.images.Keys))]

  /** This run and these ids meet every hypothesis, so the commands of the run take the terminal
      from empty to empty. */
  lemma SampleRun()
    ensures IsLinked(EMPTY) && IsNamed(EMPTY, IDS, USED) && IsInjectiveOn(IDS, USED)
    ensures IsRun(EMPTY, RUN, IDS) && CoversRun(USED, RUN)
    ensures RunTables(EMPTY, RUN, IDS) == EMPTY
    ensures Replay(HostOf(EMPTY), RunCommands(EMPTY, RUN, IDS)) == Some(HostOf(EMPTY))
  {
    SampleIds();
    SampleIsRun();
    SampleIsCovered();
    hide IsRun;
    hide RunTables;
    hide RunCommands;
    hide CoversRun;
    hide IsInjectiveOn;
    hide Covers;
    hide HasOneImagePerSource;
    RunsRefine(EMPTY, RUN, IDS, USED);
  }

  lemma SampleIsCovered()
    ensures CoversRun(USED, RUN)
  {
    SampleIds();
    hide Covers;
    hide HasOneImagePerSource;
    hide IsInjectiveOn;
  }

  lemma SampleIsRun()
    ensures IsRun(EMPTY, RUN, IDS) && RunTables(EMPTY, RUN, IDS) == EMPTY
  {
    var clear := Clear(OrderOf(AFTER_AGAIN.images.Keys));
    var third := FrameOp(AFTER_SECOND, AGAIN, false, IDS);
    var second := FrameOp(AFTER_FIRST, SECOND, false, IDS);
    var first := FrameOp(EMPTY, FIRST, true, IDS);
    assert RUN == [first] + ([second] + ([third] + ([clear] + [])));
    hide FrameOp;
    hide Updated;
    RunCons(AFTER_AGAIN, clear, []);
    FrameFits(AFTER_SECOND, AGAIN, false);
    RunCons(AFTER_SECOND, third, [clear] + []);
    FrameFits(AFTER_FIRST, SECOND, false);
    RunCons(AFTER_FIRST, second, [third] + ([clear] + []));
    FrameFits(EMPTY, FIRST, true);
    RunCons(EMPTY, first, [second] + ([third] + ([clear] + [])));
  }

  lemma RunCons(t: Tables, op: GraphicsOp, rest: seq<GraphicsOp>)
    ensures IsRun(t, [op] + rest, IDS) <==> FitsTables(t, op, IDS) && IsRun(After(t, op, IDS), rest, IDS)
    ensures RunTables(t, [op] + rest, IDS) == RunTables(After(t, op, IDS), rest, IDS)
  {
    hide FitsTables;
    hide After;
    assert ([op] + rest)[1..] == rest;
  }

  lemma FrameFits(t: Tables, frame: seq<HostPlacement>, viewChanged: bool)
    ensures FitsTables(t, FrameOp(t, frame, viewChanged, IDS), IDS)
    ensures After(t, FrameOp(t, frame, viewChanged, IDS), IDS) == Updated(t, frame, viewChanged, IDS)
  {
    hide IsOrderOf;
    hide Updated;
    hide Placed;
    hide PrunedImages;
  }

  /** After the first frame picture 1 is cached and source 7 alone holds it. */
  lemma FirstFrame()
    ensures IsLinked(AFTER_FIRST) && IsNamed(AFTER_FIRST, IDS, USED)
    ensures AFTER_FIRST.sources == map[Terminal(1, 7) := 1]
    ensures 1 in AFTER_FIRST.images && AFTER_FIRST.images[1] == SignatureOf(Sample(7, 1, DATA))
    ensures ShowsAll(Pruned(EMPTY, FIRST), FIRST, IDS)
    ensures AFTER_FIRST.placements == Wanted(FIRST, IDS)
  {
    hide ClipPlacement;
    hide IsPresent;
    hide PlaceFrame;
    SampleIds();
    SampleDraws(7, 1, DATA);
    var p := FIRST[0];
    assert Pruned(EMPTY, FIRST).sources == map[];
    SourcesAreCurrent(Pruned(EMPTY, FIRST), FIRST, 1, true, IDS);
    assert FIRST[..1] == FIRST;
    assert forall s :: s in AFTER_FIRST.sources ==> s == Terminal(1, 7);
    assert IsShown(Pruned(EMPTY, FIRST), FIRST, IDS, 0);
    FrameExact(EMPTY, FIRST, true, IDS, USED);
    hide Updated;
    assert IsAnchor(AFTER_FIRST, p, IDS);
  }

  ghost const BEFORE_SECOND := Pruned(AFTER_FIRST, SECOND)

  lemma BeforeSecond()
    ensures BEFORE_SECOND.sources == map[Terminal(1, 7) := 1]
  {
    FirstFrame();
    hide Updated;
    assert SECOND[0].sourceKey in CurrentSources(SECOND);
  }

  lemma SecondFrame()
    ensures AFTER_SECOND.placements == Achieved(BEFORE_SECOND, SECOND, IDS, 2)
    ensures HasSources(BEFORE_SECOND, SECOND, IDS, 2, AFTER_SECOND)
    ensures IsLinked(AFTER_SECOND) && IsNamed(AFTER_SECOND, IDS, USED)
    ensures IsShown(BEFORE_SECOND, SECOND, IDS, 0) && IsDrawn(SECOND[1])
  {
    hide Updated;
    hide Pruned;
    hide Achieved;
    hide Wanted;
    hide IsNamed;
    hide IsLinked;
    hide Covers;
    hide IsInjectiveOn;
    hide HasOneImagePerSource;
    hide HasSources;
    hide HasImages;
    hide IsShown;
    hide IsDrawn;
    hide IsSameFrame;
    hide IsCollectedFrom;
    SampleIds();
    FirstFrame();
    FrameShowsExactly(AFTER_FIRST, SECOND, false, IDS, USED);
    SecondDraws(BEFORE_SECOND);
  }

  lemma SecondDraws(a: Tables)
    ensures IsShown(a, SECOND, IDS, 0) && IsDrawn(SECOND[1])
  {
    SampleDraws(7, 2, DATA);
    SampleDraws(8, 1, []);
    hide IsDrawn;
    hide IsPresent;
  }

  /** The second frame leaves out only data it found cached, yet picture 1 is not shown: source 7
      was its only holder and moves on first. */
  lemma ImageLostOnce()
    ensures IsLinked(AFTER_FIRST) && IsNamed(AFTER_FIRST, IDS, USED) && IsInjectiveOn(IDS, USED) && Covers(USED, SECOND)
    ensures HasOneImagePerSource(SECOND, IDS) && IsCollectedFrom(AFTER_FIRST, SECOND, IDS)
    ensures (1, 9) in Wanted(SECOND, IDS) && (1, 9) !in AFTER_SECOND.placements
    ensures AFTER_SECOND.placements != Wanted(SECOND, IDS)
  {
    hide Updated;
    hide Pruned;
    hide Achieved;
    hide IsNamed;
    hide IsLinked;
    hide Covers;
    hide IsInjectiveOn;
    hide HasOneImagePerSource;
    hide HasSources;
    hide HasImages;
    hide IsShown;
    hide IsDrawn;
    hide IsSameFrame;
    hide IsCollectedFrom;
    SampleIds();
    FirstFrame();
    SecondFrame();
    BeforeSecond();
    SecondKeys(BEFORE_SECOND);
    SecondCollected(AFTER_FIRST);
  }

  lemma SecondCollected(t: Tables)
    requires 1 in t.images && t.images[1] == SignatureOf(Sample(7, 1, DATA))
    ensures IsCollectedFrom(t, SECOND, IDS)
  {
    SampleDraws(8, 1, []);
    assert SignatureOf(SECOND[1]) == SignatureOf(Sample(7, 1, DATA));
    hide IsDrawn;
    hide ImageId;
    hide SignatureOf;
  }

  lemma SecondKeys(a: Tables)
    requires a.sources == map[Terminal(1, 7) := 1]
    ensures (1, 9) in Wanted(SECOND, IDS) && (1, 9) !in Achieved(a, SECOND, IDS, 2)
  {
    SampleDraws(7, 2, DATA);
    SampleDraws(8, 1, []);
    SecondDraws(a);
    NotPresent(a);
    hide IsDrawn;
    hide IsPresent;
    assert !IsShown(a, SECOND, IDS, 1);
    hide IsShown;
    hide KeyOf;
    hide ImageId;
    WantedKeys(SECOND, IDS, (1, 9));
    assert IsWantedAt(SECOND, IDS, 1, (1, 9));
    AchievedKeys(a, SECOND, IDS, 2, (1, 9));
    hide Wanted;
    hide Achieved;
    forall k | k < 2
      ensures !IsAchievedBy(a, SECOND, IDS, k, (1, 9))
    {
      assert k == 0 || k == 1 || k < 0;
    }
  }

  lemma NotPresent(a: Tables)
    requires a.sources == map[Terminal(1, 7) := 1]
    requires IsShown(a, SECOND, IDS, 0)
    ensures !IsPresent(a, SECOND, IDS, 1, 1)
  {
    SampleDraws(7, 2, DATA);
    PresentIs(a, SECOND, IDS, 1, 1);
    hide IsShown;
    hide IsPresent;
    assert IsMoved(a, SECOND, IDS, 1, Terminal(1, 7));
    assert 1 in a.sources.Values by {
      assert a.sources[Terminal(1, 7)] == 1;
    }
  }

  /** The same frame collected again shows both pictures. */
  lemma ImageBackAgain()
    ensures IsCollectedFrom(AFTER_SECOND, AGAIN, IDS)
    ensures AFTER_AGAIN.placements == Wanted(SECOND, IDS)
  {
    hide Updated;
    hide Pruned;
    hide Achieved;
    hide Wanted;
    hide IsNamed;
    hide IsLinked;
    hide Covers;
    hide IsInjectiveOn;
    hide HasOneImagePerSource;
    hide HasSources;
    hide HasImages;
    hide IsShown;
    hide IsDrawn;
    hide IsSameFrame;
    hide IsCollectedFrom;
    SampleIds();
    FirstFrame();
    SecondFrame();
    AgainCollected(AFTER_SECOND);
    SameFrames();
    NextFrameIsExact(AFTER_FIRST, SECOND, AGAIN, false, false, IDS, USED);
  }

  lemma SameFrames()
    ensures IsSameFrame(SECOND, AGAIN)
  {}

  lemma AgainCollected(t: Tables)
    requires HasSources(BEFORE_SECOND, SECOND, IDS, 2, t) && IsShown(BEFORE_SECOND, SECOND, IDS, 0)
    requires IsLinked(t) && IsNamed(t, IDS, USED) && IsInjectiveOn(IDS, USED)
    ensures IsCollectedFrom(t, AGAIN, IDS)
  {
    hide IsDrawn;
    hide IsShown;
    hide Pruned;
    hide HasSources;
    hide IsNamed;
    hide IsLinked;
    hide IsInjectiveOn;
    AnchoredFirst(BEFORE_SECOND, t);
    hide IsAnchor;
    SampleDraws(7, 2, DATA);
    SampleDraws(7, 2, []);
    AnchoredIsCached(t, SECOND[0], IDS, USED);
    SamePicture(7, 2, DATA, []);
    hide ImageId;
    hide SignatureOf;
  }

  lemma SamePicture(image: u32, fingerprint: nat, data: bytes, other: bytes)
    ensures SignatureOf(Sample(image, fingerprint, data)) == SignatureOf(Sample(image, fingerprint, other))
  {}

  lemma AnchoredFirst(a: Tables, t: Tables)
    requires HasSources(a, SECOND, IDS, 2, t) && IsShown(a, SECOND, IDS, 0)
    ensures IsAnchor(t, SECOND[0], IDS)
  {
    hide IsShown;
    hide IsAnchor;
    hide IsMoved;
  }

  /** A frame that no longer names source 7 leaves picture 1 cached, held and shown by nothing. */
  lemma ImageLeftBehind()
    ensures IsOrphan(Updated(AFTER_FIRST, [], false, IDS), 1)
    ensures Updated(AFTER_FIRST, [], false, IDS).placements == map[]
  {
    SampleIds();
    FirstFrame();
    hide Updated;
    hide Pruned;
    hide IsNamed;
    hide IsLinked;
    hide IsInjectiveOn;
    var none: seq<HostPlacement> := [];
    FrameShowsExactly(AFTER_FIRST, none, false, IDS, USED);
    OrphansExactly(AFTER_FIRST, none, false, IDS, USED, 1);
  }
}

/** The host graphics cache as a state machine, the terminal it mirrors, and their agreement. */
module KittyCache {
  import opened Options
  import opened Bytes
  import opened Screen
  import opened HostPlacements

  datatype ImageSignature = ImageSignature(width: u32, height: u32, formatCode: u32, dataLen: nat, dataFingerprint: nat)
  datatype PlacementSignature = PlacementSignature(clipped: ClippedPlacement, z: i32, scrollbackOffset: u32)
  type PlacementKey = (u32, u32)

  /** The two hash functions ids are drawn from. */
  datatype Ids = Ids(image: (PaneId, ImageSignature) -> u32, placement: (HostSourceKey, u32, u32) -> u32)

  datatype Tables = Tables(
    images: map<u32, ImageSignature>,
    placements: map<PlacementKey, PlacementSignature>,
    sources: map<HostSourceKey, u32>)

  const EMPTY := Tables(map[], map[], map[])

  function FormatCode(format: ImageFormat): u32 {
    match format
    case Rgb => 24
    case Rgba => 32
    case Png => 100
  }

  function SignatureOf(p: HostPlacement): ImageSignature {
    ImageSignature(p.placement.imageWidth, p.placement.imageHeight, FormatCode(p.placement.format),
                   p.placement.dataLen, p.placement.dataFingerprint)
  }

  function ImageId(p: HostPlacement, ids: Ids): u32 {
    (ids.image)(p.paneId, SignatureOf(p))
  }

  function KeyOf(p: HostPlacement, ids: Ids): PlacementKey {
    (ImageId(p, ids), (ids.placement)(p.sourceKey, p.placement.imageId, p.placement.placementId))
  }

  /** Two placements have the same picture exactly when pane, size, format, data length and
      fingerprint agree. */
  lemma PicturesTellApart(p: HostPlacement, q: HostPlacement)
    ensures SignatureOf(p) == SignatureOf(q)
            <==> && p.placement.imageWidth == q.placement.imageWidth
                 && p.placement.imageHeight == q.placement.imageHeight
                 && p.placement.format == q.placement.format
                 && p.placement.dataLen == q.placement.dataLen
                 && p.placement.dataFingerprint == q.placement.dataFingerprint
  {}

  /** Where the placement hash tells the two apart, they share a key exactly when they are the same
      placement of the same source with the same image. */
  lemma KeysTellApart(p: HostPlacement, q: HostPlacement, ids: Ids)
    requires (ids.placement)(p.sourceKey, p.placement.imageId, p.placement.placementId)
             == (ids.placement)(q.sourceKey, q.placement.imageId, q.placement.placementId)
             ==> p.sourceKey == q.sourceKey && p.placement.imageId == q.placement.imageId
                 && p.placement.placementId == q.placement.placementId
    ensures KeyOf(p, ids) == KeyOf(q, ids)
            <==> && (ids.image)(p.paneId, SignatureOf(p)) == (ids.image)(q.paneId, SignatureOf(q))
                 && p.sourceKey == q.sourceKey
                 && p.placement.imageId == q.placement.imageId
                 && p.placement.placementId == q.placement.placementId
  {}

  predicate IsDrawn(p: HostPlacement) {
    ClipPlacement(p).Some?
  }

  function PlacementSignatureOf(p: HostPlacement): PlacementSignature
    requires IsDrawn(p)
  {
    PlacementSignature(ClipPlacement(p).value, p.placement.z, p.scrollbackOffset)
  }

  /** A placement is shown anew exactly when its crop, its depth or its scrollback changed. */
  lemma PlacementsTellApart(p: HostPlacement, q: HostPlacement)
    requires IsDrawn(p) && IsDrawn(q)
    ensures PlacementSignatureOf(p) == PlacementSignatureOf(q)
            <==> && ClipPlacement(p) == ClipPlacement(q)
                 && p.placement.z == q.placement.z
                 && p.scrollbackOffset == q.scrollbackOffset
  {
    hide ClipPlacement;
  }

  // ----- The terminal -----

  datatype Command =
    | DeleteImage(id: u32)
    | DeletePlacement(key: PlacementKey)
    | Upload(id: u32, signature: ImageSignature, data: bytes)
    | Display(key: PlacementKey, clipped: ClippedPlacement, z: i32)

  datatype Shown = Shown(clipped: ClippedPlacement, z: i32)
  datatype Host = Host(images: map<u32, ImageSignature>, placements: map<PlacementKey, Shown>)

  /** One command on the terminal; showing an absent image or uploading a present id is misuse. */
  function Step(h: Host, c: Command): Option<Host> {
    match c
    case DeleteImage(id) =>
      Some(Host(h.images - {id}, map k | k in h.placements && k.0 != id :: h.placements[k]))
    case DeletePlacement(key) => Some(h.(placements := h.placements - {key}))
    case Upload(id, signature, _) => if id in h.images then None else Some(h.(images := h.images[id := signature]))
    case Display(key, clipped, z) =>
      if key.0 in h.images then Some(h.(placements := h.placements[key := Shown(clipped, z)])) else None
  }

  function Replay(h: Host, commands: seq<Command>): Option<Host>
    decreases |commands|
  {
    if commands == [] then Some(h)
    else
      match Step(h, commands[0])
      case None => None
      case Some(next) => Replay(next, commands[1..])
  }

  /** The terminal the cache believes in. */
  function HostOf(t: Tables): Host {
    Host(t.images, map k | k in t.placements :: Shown(t.placements[k].clipped, t.placements[k].z))
  }

  lemma {:induction false} ReplayAppend(h: Host, a: seq<Command>, b: seq<Command>)
    ensures Replay(h, a + b) == match Replay(h, a) { case None => None case Some(m) => Replay(m, b) }
    decreases |a|
  {
    if a == [] {
      assert a + b == b;
    } else {
      assert (a + b)[1..] == a[1..] + b;
      match Step(h, a[0])
      case None =>
      case Some(next) => ReplayAppend(next, a[1..], b);
    }
  }

  /** Appending commands whose replay is known from where the others end. */
  lemma ReplayThen(h: Host, a: seq<Command>, m: Host, b: seq<Command>, end: Host)
    requires Replay(h, a) == Some(m) && Replay(m, b) == Some(end)
    ensures Replay(h, a + b) == Some(end)
  {
    ReplayAppend(h, a, b);
  }

  // ----- Pruning sources that left the frame -----

  function CurrentSources(frame: seq<HostPlacement>): set<HostSourceKey> {
    set i | 0 <= i < |frame| && (frame[i].sourceKey.Terminal? || IsDrawn(frame[i])) :: frame[i].sourceKey
  }

  /** A terminal's image is a source of every frame that lists it, a pane's layer only of one that
      draws it. */
  lemma SourcesExactly(frame: seq<HostPlacement>, s: HostSourceKey)
    ensures s in CurrentSources(frame)
            <==> exists i :: 0 <= i < |frame| && frame[i].sourceKey == s
                             && (s.PaneLayer? ==> ClipPlacement(frame[i]).Some?)
  {
    hide ClipPlacement;
  }

  function KeptSources(t: Tables, frame: seq<HostPlacement>): map<HostSourceKey, u32> {
    map s | s in t.sources && s in CurrentSources(frame) :: t.sources[s]
  }

  /** Images of vanished pane layers that no kept source still needs. */
  function PrunedImages(t: Tables, frame: seq<HostPlacement>): set<u32> {
    (set s | s in t.sources && s !in CurrentSources(frame) && s.PaneLayer? :: t.sources[s])
      - KeptSources(t, frame).Values
  }

  function DropImages(t: Tables, ids: set<u32>): Tables {
    t.(images := t.images - ids,
       placements := map k | k in t.placements && k.0 !in ids :: t.placements[k])
  }

  function Pruned(t: Tables, frame: seq<HostPlacement>): Tables {
    DropImages(t, PrunedImages(t, frame)).(sources := KeptSources(t, frame))
  }

  // ----- One placement -----

  /** Tables, keys seen so far in this frame, and the commands given out. */
  datatype Progress = Progress(tables: Tables, current: set<PlacementKey>, commands: seq<Command>)

  function KeysOfImage(t: Tables, id: u32): set<PlacementKey> {
    set k | k in t.placements && k.0 == id
  }

  function DropImageInFrame(g: Progress, id: u32): Progress {
    Progress(DropImages(g.tables, {id}), g.current - KeysOfImage(g.tables, id), g.commands + [DeleteImage(id)])
  }

  predicate HasImage(g: Progress, p: HostPlacement, ids: Ids) {
    ImageId(p, ids) in g.tables.images && g.tables.images[ImageId(p, ids)] == SignatureOf(p)
  }

  /** Another image sits under this id. */
  predicate HasCollision(g: Progress, p: HostPlacement, ids: Ids) {
    ImageId(p, ids) in g.tables.images && g.tables.images[ImageId(p, ids)] != SignatureOf(p)
  }

  function UploadImage(g: Progress, p: HostPlacement, ids: Ids): Progress {
    var id := ImageId(p, ids);
    Progress(g.tables.(images := g.tables.images[id := SignatureOf(p)]), g.current,
             g.commands + [Upload(id, SignatureOf(p), p.placement.data)])
  }

  /** Make the image present. On a collision the old image is deleted on the host first, and
      stays in the cache if there is nothing to upload in its place. */
  function EnsureImage(g: Progress, p: HostPlacement, ids: Ids): Progress {
    var id := ImageId(p, ids);
    if HasImage(g, p, ids) then g
    else
      var cleared :=
        if HasCollision(g, p, ids) then
          var dropped := DropImageInFrame(g, id);
          dropped.(tables := dropped.tables.(images := g.tables.images))
        else g;
      if p.placement.data == [] then cleared else UploadImage(cleared, p, ids)
  }

  predicate EnsureSucceeds(g: Progress, p: HostPlacement, ids: Ids) {
    HasImage(g, p, ids) || p.placement.data != []
  }

  /** Point the source at the image; drop the image it pointed at once nothing else does. */
  function ReleaseSuperseded(g: Progress, source: HostSourceKey, id: u32): Progress {
    var moved := g.(tables := g.tables.(sources := g.tables.sources[source := id]));
    if source !in g.tables.sources then moved
    else
      var previous := g.tables.sources[source];
      if previous == id || previous in moved.tables.sources.Values then moved
      else DropImageInFrame(moved, previous)
  }

  function ShowPlacement(g: Progress, p: HostPlacement, viewChanged: bool, ids: Ids): Progress
    requires IsDrawn(p)
  {
    var key, signature := KeyOf(p, ids), PlacementSignatureOf(p);
    if key in g.tables.placements && !viewChanged && g.tables.placements[key] == signature then g
    else
      Progress(g.tables.(placements := g.tables.placements[key := signature]), g.current,
               g.commands + [Display(key, signature.clipped, signature.z)])
  }

  function NoteKey(g: Progress, p: HostPlacement, ids: Ids): Progress {
    g.(current := g.current + {KeyOf(p, ids)})
  }

  function PlaceOne(g: Progress, p: HostPlacement, viewChanged: bool, ids: Ids): Progress {
    if !IsDrawn(p) then g
    else
      var noted := NoteKey(g, p, ids);
      var ensured := EnsureImage(noted, p, ids);
      if !EnsureSucceeds(noted, p, ids) then ensured
      else ShowPlacement(ReleaseSuperseded(ensured, p.sourceKey, ImageId(p, ids)), p, viewChanged, ids)
  }

  function PlaceFrame(t: Tables, frame: seq<HostPlacement>, viewChanged: bool, ids: Ids): Progress {
    if frame == [] then Progress(t, {}, [])
    else PlaceOne(PlaceFrame(t, frame[..|frame| - 1], viewChanged, ids), frame[|frame| - 1], viewChanged, ids)
  }

  // ----- The whole update -----

  function StaleKeys(g: Progress): set<PlacementKey> {
    g.tables.placements.Keys - g.current
  }

  function DropStale(g: Progress): Tables {
    g.tables.(placements := g.tables.placements - StaleKeys(g))
  }

  function Placed(t: Tables, frame: seq<HostPlacement>, viewChanged: bool, ids: Ids): Progress {
    PlaceFrame(Pruned(t, frame), frame, viewChanged, ids)
  }

  function Updated(t: Tables, frame: seq<HostPlacement>, viewChanged: bool, ids: Ids): Tables {
    DropStale(Placed(t, frame, viewChanged, ids))
  }

  /** Some order in which a hash table may hand out a set. */
  predicate IsOrderOf<T(==)>(order: seq<T>, s: set<T>) {
    && (forall i :: 0 <= i < |order| ==> order[i] in s)
    && (forall x :: x in s ==> x in order)
    && (forall i, j :: 0 <= i < j < |order| ==> order[i] != order[j])
  }

  function DeleteImages(order: seq<u32>): seq<Command> {
    seq(|order|, i requires 0 <= i < |order| => DeleteImage(order[i]))
  }

  function DeletePlacements(order: seq<PlacementKey>): seq<Command> {
    seq(|order|, i requires 0 <= i < |order| => DeletePlacement(order[i]))
  }

  /** All commands of one update, given the orders its two hash-table walks happen to take. */
  function UpdateCommands(t: Tables, frame: seq<HostPlacement>, viewChanged: bool, ids: Ids,
                          pruned: seq<u32>, stale: seq<PlacementKey>): seq<Command> {
    DeleteImages(pruned) + Placed(t, frame, viewChanged, ids).commands + DeletePlacements(stale)
  }
}

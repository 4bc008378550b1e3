/** The byte framer as a state machine: what one push or one timeout does to its state. */
module ByteFramer {
  import opened Options
  import opened Bytes
  import opened Utf8
  import opened SgrMouse
  import opened RawInput

  const HOST_COLOR_QUERY_REPLIES: nat := 2

  datatype Framer = Framer(
    buffer: bytes,
    discardUntil: Option<ControlStringFamily>,
    discardedTailBytes: nat,
    loneEscapeRecentlyFlushed: bool,
    hostColorRepliesAwaited: nat,
    heldPendingColorEsc: bool,
    hostColorSchemeChangeTracking: bool)

  const INITIAL := Framer([], None, 0, false, 0, false, false)

  /** Chunks handed out, and the state left behind. */
  datatype Outcome = Outcome(chunks: seq<bytes>, framer: Framer)

  function HostColorQuerySent(s: Framer): Framer {
    s.(hostColorRepliesAwaited := HOST_COLOR_QUERY_REPLIES, heldPendingColorEsc := false)
  }

  function EnableTracking(s: Framer): Framer {
    s.(hostColorSchemeChangeTracking := true)
  }

  function StopDiscarding(s: Framer): Framer {
    s.(discardUntil := None, discardedTailBytes := 0)
  }

  // ----- Draining -----

  /** One turn of the drain loop: it either stops, or goes round again with at most one chunk out. */
  datatype Turn = Stop(framer: Framer) | Again(chunks: seq<bytes>, framer: Framer)

  datatype TailScan = TailScan(rest: bytes, counted: nat, done: bool)

  function InspectedTailBytes(b: bytes, counted: nat): (n: nat)
    ensures n <= |b|
  {
    var remaining := if counted < MAX_DISCARDED_TAIL then MAX_DISCARDED_TAIL - counted else 0;
    if |b| < remaining then |b| else remaining
  }

  predicate IsNotTailByte(b: byte) {
    !IsSgrTailByte(b)
  }

  /** Swallow a mouse tail that is still arriving, within the bytes left to count. */
  function ScanOrphanedTail(b: bytes, counted: nat): TailScan {
    var inspected := InspectedTailBytes(b, counted);
    match FirstWhere(b[..inspected], IsNotTailByte)
    case Some(i) => TailScan(if IsSgrFinal(b[i]) then b[i + 1..] else b[i..], counted, true)
    case None => TailScan([], counted + inspected, |b| > inspected)
  }

  /** Bookkeeping for the replies a colour query is waiting for. */
  function NoteEvent(s: Framer, event: RawInputEvent): Framer {
    var t :=
      if event.HostDefaultColor? then
        s.(hostColorRepliesAwaited := if s.hostColorRepliesAwaited == 0 then 0 else s.hostColorRepliesAwaited - 1)
      else if s.hostColorSchemeChangeTracking && event.HostColorSchemeChanged? then HostColorQuerySent(s)
      else s;
    t.(heldPendingColorEsc := false)
  }

  function ExtractTurn(s: Framer, key: KeyParser): Turn {
    match ExtractOneEvent(s.buffer, key)
    case None => Stop(s)
    case Some(e) =>
      Again([s.buffer[..e.consumed]], NoteEvent(s, e.event).(buffer := s.buffer[e.consumed..]))
  }

  function DiscardTurn(s: Framer, family: ControlStringFamily): Turn {
    if family == OrphanedSgrMouseTail then
      var scan := ScanOrphanedTail(s.buffer, s.discardedTailBytes);
      if scan.done then Again([], StopDiscarding(s.(buffer := scan.rest)))
      else Stop(s.(buffer := scan.rest, discardedTailBytes := scan.counted))
    else
      match Terminator(s.buffer, family)
      case None => Stop(s)
      case Some(n) => Again([], StopDiscarding(s.(buffer := s.buffer[n..])))
  }

  function SteadyTurn(s: Framer, key: KeyParser): Turn {
    match s.discardUntil
    case Some(family) => DiscardTurn(s, family)
    case None => ExtractTurn(s, key)
  }

  function DrainTurn(s: Framer, key: KeyParser): Turn {
    if s.loneEscapeRecentlyFlushed then
      if IsIncompleteOrphanedTail(s.buffer) then Stop(s)
      else
        match CompleteOrphanedTail(s.buffer)
        case Some(n) => Again([], s.(buffer := s.buffer[n..], loneEscapeRecentlyFlushed := false))
        case None => SteadyTurn(s.(loneEscapeRecentlyFlushed := false), key)
    else SteadyTurn(s, key)
  }

  function Work(s: Framer): nat {
    |s.buffer| + (if s.discardUntil.Some? then 1 else 0)
  }

  lemma TurnMakesProgress(s: Framer, key: KeyParser)
    ensures DrainTurn(s, key).Again? ==> Work(DrainTurn(s, key).framer) < Work(s)
  {
    hide ExtractOneEvent;
    hide CompleteOrphanedTail;
    hide IsIncompleteOrphanedTail;
    hide Terminator;
  }

  function DrainAvailableChunks(s: Framer, key: KeyParser): Outcome
    decreases Work(s)
  {
    match DrainTurn(s, key)
    case Stop(t) => Outcome([], t)
    case Again(chunks, t) =>
      TurnMakesProgress(s, key);
      var rest := DrainAvailableChunks(t, key);
      Outcome(chunks + rest.chunks, rest.framer)
  }

  // ----- Replies that stop the program -----

  /** Reading the front of the buffer stops the program. */
  predicate ExtractStops(b: bytes, key: KeyParser) {
    ExtractOneEvent(b, key).Some? && ExtractOneEvent(b, key).value.event == Stopped
  }

  predicate TurnStops(s: Framer, key: KeyParser) {
    && !(s.loneEscapeRecentlyFlushed && (IsIncompleteOrphanedTail(s.buffer) || CompleteOrphanedTail(s.buffer).Some?))
    && s.discardUntil.None?
    && ExtractStops(s.buffer, key)
  }

  /** Some turn of the drain stops the program; what the other functions say is what happens
      when none does. */
  predicate DrainStops(s: Framer, key: KeyParser)
    decreases Work(s)
  {
    TurnStops(s, key)
    || match DrainTurn(s, key)
       case Stop(_) => false
       case Again(_, t) =>
         TurnMakesProgress(s, key);
         DrainStops(t, key)
  }

  // ----- Pushing -----

  function Feed(s: Framer, data: bytes): Framer {
    s.(buffer := s.buffer + data)
  }

  function Push(s: Framer, data: bytes, key: KeyParser): Outcome {
    DrainAvailableChunks(Feed(s, data), key)
  }

  // ----- Timeouts -----

  function StartDiscarding(s: Framer, family: ControlStringFamily): Framer {
    s.(buffer := [], discardUntil := Some(family), discardedTailBytes := 0)
  }

  function StartDiscardingMouse(s: Framer): Framer {
    s.(buffer := [],
       discardUntil := if |s.buffer| <= MAX_DISCARDED_TAIL then Some(OrphanedSgrMouseTail) else None,
       discardedTailBytes := |s.buffer|)
  }

  function TimeoutWhileDiscarding(s: Framer, family: ControlStringFamily): Framer {
    var counted := s.discardedTailBytes + |s.buffer|;
    if family == OrphanedSgrMouseTail then StopDiscarding(s.(buffer := []))
    else if IsPlausibleTail(family, s.buffer) && counted <= MAX_DISCARDED_TAIL then
      s.(buffer := if EndsInEsc(s.buffer) then [ESC] else [], discardedTailBytes := counted)
    else StopDiscarding(s.(buffer := []))
  }

  function DiscardOrBufferOrphanedTail(s: Framer): Framer {
    match CompleteOrphanedTail(s.buffer)
    case Some(n) => s.(buffer := s.buffer[n..])
    case None => StartDiscardingMouse(s)
  }

  function TimeoutOnLoneEscape(s: Framer): Outcome {
    if s.hostColorRepliesAwaited > 0 && !s.heldPendingColorEsc then Outcome([], s.(heldPendingColorEsc := true))
    else
      Outcome([s.buffer], s.(buffer := [], hostColorRepliesAwaited := 0, heldPendingColorEsc := false,
                             loneEscapeRecentlyFlushed := true))
  }

  predicate WaitsForUtf8(b: bytes) {
    StartsWithIncompleteChar(b) || (b != [] && b[0] == ESC && StartsWithIncompleteChar(b[1..]))
  }

  /** What a timeout does with what draining left in the buffer. */
  function TimeoutOnBuffer(s: Framer, key: KeyParser): Outcome {
    var b := s.buffer;
    if s.discardUntil.Some? then Outcome([], TimeoutWhileDiscarding(s, s.discardUntil.value))
    else if b == [] then Outcome([], s)
    else if s.loneEscapeRecentlyFlushed && ORPHAN_START <= b then
      Outcome([], DiscardOrBufferOrphanedTail(s).(loneEscapeRecentlyFlushed := false))
    else if IsIncompleteSgrMouse(b) then Outcome([], StartDiscardingMouse(s))
    else if IsIncompletePaste(b) then Outcome([], s)
    else if IsIncompleteDefaultColorResponse(b) then Outcome([], s)
    else if IsIncompleteColorSchemeReport(b) then Outcome([], StartDiscarding(s, HostColorSchemeCsi))
    else if ControlStringOf(b).Some? && ControlStringOf(b).value.Incomplete? then
      Outcome([], StartDiscarding(s, ControlStringOf(b).value.family))
    else if b == [ESC] then TimeoutOnLoneEscape(s)
    else if IsUtf8(b) && key(b).Some? then Outcome([b], s.(buffer := []))
    else if WaitsForUtf8(b) then Outcome([], s)
    else Outcome([], s.(buffer := [], loneEscapeRecentlyFlushed := false))
  }

  function FlushTimeout(s: Framer, key: KeyParser): Outcome {
    var drained := DrainAvailableChunks(s, key);
    var flushed := TimeoutOnBuffer(drained.framer, key);
    Outcome(drained.chunks + flushed.chunks, flushed.framer)
  }

  // ----- Events -----

  /** Chunks turned back into events: a lone ESC is the Escape key, the rest is parsed again. */
  function EventsFromChunks(chunks: seq<bytes>, key: KeyParser): seq<RawInputEvent> {
    if chunks == [] then []
    else
      var rest := EventsFromChunks(chunks[1..], key);
      if chunks[0] == [ESC] then [Key(PlainEscape)] + rest
      else
        match ExtractOneEvent(chunks[0], key)
        case Some(e) => [e.event] + rest
        case None => rest
  }

  // ----- Runs -----

  datatype Op = PushBytes(data: bytes) | Timeout | QuerySent | TrackScheme

  function Apply(s: Framer, op: Op, key: KeyParser): Outcome {
    match op
    case PushBytes(data) => Push(s, data, key)
    case Timeout => FlushTimeout(s, key)
    case QuerySent => Outcome([], HostColorQuerySent(s))
    case TrackScheme => Outcome([], EnableTracking(s))
  }

  function Run(s: Framer, ops: seq<Op>, key: KeyParser): Outcome
    decreases |ops|
  {
    if ops == [] then Outcome([], s)
    else
      var first := Apply(s, ops[0], key);
      var rest := Run(first.framer, ops[1..], key);
      Outcome(first.chunks + rest.chunks, rest.framer)
  }

  /** Everything pushed during a run. */
  function Input(ops: seq<Op>): bytes {
    if ops == [] then []
    else (if ops[0].PushBytes? then ops[0].data else []) + Input(ops[1..])
  }

  function PushAll(s: Framer, pieces: seq<bytes>, key: KeyParser): Outcome
    decreases |pieces|
  {
    if pieces == [] then Outcome([], s)
    else
      var first := Push(s, pieces[0], key);
      var rest := PushAll(first.framer, pieces[1..], key);
      Outcome(first.chunks + rest.chunks, rest.framer)
  }
}

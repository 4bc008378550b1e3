/** What a timeout may leave behind, in every state a run can reach. */
module Timeouts {
  import opened Options
  import opened Bytes
  import opened Utf8
  import opened SgrMouse
  import opened RawInput
  import opened ByteFramer
  import opened ReadBoundaries

  /** Kept by every operation: a discard has at most 128 tail bytes on its account, an open
      window after a lone ESC excludes a discard, and at most two colour replies are awaited. */
  predicate IsConsistent(s: Framer) {
    && (s.discardUntil.Some? ==> s.discardedTailBytes <= 128)
    && (s.loneEscapeRecentlyFlushed ==> s.discardUntil.None?)
    && s.hostColorRepliesAwaited <= 2
  }

  /** Draining again does nothing. */
  predicate IsSettled(s: Framer, key: KeyParser) {
    DrainTurn(s, key) == Stop(s)
  }

  lemma TurnKeepsConsistent(s: Framer, key: KeyParser)
    requires IsConsistent(s)
    ensures IsConsistent(DrainTurn(s, key).framer)
  {
    hide ExtractOneEvent;
    hide CompleteOrphanedTail;
    hide IsIncompleteOrphanedTail;
    hide Terminator;
  }

  lemma StoppedIsSettled(s: Framer, key: KeyParser)
    requires DrainTurn(s, key).Stop?
    ensures IsSettled(DrainTurn(s, key).framer, key)
  {
    hide ExtractOneEvent;
    hide CompleteOrphanedTail;
    hide IsIncompleteOrphanedTail;
    hide Terminator;
  }

  lemma {:induction false} DrainEnds(s: Framer, key: KeyParser)
    requires IsConsistent(s)
    ensures var t := DrainAvailableChunks(s, key).framer; IsConsistent(t) && IsSettled(t, key)
    decreases Work(s)
  {
    hide DrainTurn;
    TurnKeepsConsistent(s, key);
    match DrainTurn(s, key)
    case Stop(_) => StoppedIsSettled(s, key);
    case Again(_, t) =>
      TurnMakesProgress(s, key);
      DrainEnds(t, key);
  }

  lemma TimeoutKeepsConsistent(s: Framer, key: KeyParser)
    requires IsConsistent(s)
    requires s.loneEscapeRecentlyFlushed ==> IsIncompleteOrphanedTail(s.buffer)
    ensures IsConsistent(TimeoutOnBuffer(s, key).framer)
  {
    var b := s.buffer;
    assert s.loneEscapeRecentlyFlushed && b != [] ==> b[0] == BRACKET;
    hide Terminator;
    hide CompleteOrphanedTail;
    hide IsUtf8;
    hide WaitsForUtf8;
    hide IsIncompletePaste;
    hide IsPlausibleTail;
  }

  lemma SettledWindow(s: Framer, key: KeyParser)
    requires IsSettled(s, key)
    ensures s.loneEscapeRecentlyFlushed ==> IsIncompleteOrphanedTail(s.buffer)
  {
    hide SteadyTurn;
    hide CompleteOrphanedTail;
    if s.loneEscapeRecentlyFlushed && !IsIncompleteOrphanedTail(s.buffer) {
      SteadyTurnShutsNothing(CloseWindow(s), key);
    }
  }

  lemma SteadyTurnShutsNothing(s: Framer, key: KeyParser)
    requires !s.loneEscapeRecentlyFlushed
    ensures SteadyTurn(s, key).Stop? ==> !SteadyTurn(s, key).framer.loneEscapeRecentlyFlushed
  {
    hide ExtractOneEvent;
    hide ScanOrphanedTail;
    hide Terminator;
  }

  lemma ApplyKeepsConsistent(s: Framer, op: Op, key: KeyParser)
    requires IsConsistent(s)
    ensures IsConsistent(Apply(s, op, key).framer)
  {
    hide DrainTurn;
    hide TimeoutOnBuffer;
    match op
    case PushBytes(data) => DrainEnds(Feed(s, data), key);
    case Timeout =>
      DrainEnds(s, key);
      var t := DrainAvailableChunks(s, key).framer;
      SettledWindow(t, key);
      TimeoutKeepsConsistent(t, key);
    case QuerySent =>
    case TrackScheme =>
  }

  /** Consistency holds after every run from the initial state. */
  lemma {:induction false} RunsStayConsistent(s: Framer, ops: seq<Op>, key: KeyParser)
    requires IsConsistent(s)
    ensures IsConsistent(Run(s, ops, key).framer)
    ensures IsConsistent(INITIAL)
    decreases |ops|
  {
    hide Apply;
    if ops != [] {
      ApplyKeepsConsistent(s, ops[0], key);
      RunsStayConsistent(Apply(s, ops[0], key).framer, ops[1..], key);
    }
  }

  // ----- Quiescence -----

  predicate AwaitsUtf8(b: bytes) {
    IsTruncatedChar(b) || (b != [] && b[0] == ESC && IsTruncatedChar(b[1..]))
  }

  predicate IsHeldEscape(s: Framer) {
    s.buffer == [ESC] && s.heldPendingColorEsc && s.hostColorRepliesAwaited > 0
  }

  /** The shapes a timeout may leave in the buffer. */
  predicate IsQuiet(s: Framer) {
    && (s.loneEscapeRecentlyFlushed ==> s.buffer == [])
    && (s.buffer != [] ==>
          if s.discardUntil.Some? then s.buffer == [ESC] && s.discardUntil.value in {Osc, StTerminated}
          else
            || IsIncompletePaste(s.buffer)
            || IsIncompleteDefaultColorResponse(s.buffer)
            || AwaitsUtf8(s.buffer)
            || IsHeldEscape(s))
  }

  lemma WaitsForUtf8Is(b: bytes)
    ensures WaitsForUtf8(b) <==> AwaitsUtf8(b)
  {
    IncompleteIsTruncated(b);
    if b != [] {
      IncompleteIsTruncated(b[1..]);
    }
  }

  lemma TimeoutQuiets(s: Framer, key: KeyParser)
    requires IsConsistent(s)
    requires s.loneEscapeRecentlyFlushed ==> IsIncompleteOrphanedTail(s.buffer)
    ensures IsQuiet(TimeoutOnBuffer(s, key).framer)
  {
    hide FromUtf8;
    hide IsTruncatedChar;
    hide ControlStringOf;
    hide CompleteOrphanedTail;
    hide IsIncompletePaste;
    hide IsIncompleteDefaultColorResponse;
    WaitsForUtf8Is(s.buffer);
    if s.loneEscapeRecentlyFlushed {
      WindowTimeout(s, key);
    } else if s.discardUntil.Some? {
      DiscardTimeout(s, s.discardUntil.value);
    }
    hide WaitsForUtf8;
    hide AwaitsUtf8;
    hide TimeoutWhileDiscarding;
    hide IsIncompleteOrphanedTail;
  }

  lemma DiscardTimeout(s: Framer, family: ControlStringFamily)
    requires s.discardUntil == Some(family)
    ensures var t := TimeoutWhileDiscarding(s, family);
            && t.loneEscapeRecentlyFlushed == s.loneEscapeRecentlyFlushed
            && (t.buffer != [] ==> t.buffer == [ESC] && t.discardUntil == Some(family) && family in {Osc, StTerminated})
  {}

  lemma WindowTimeout(s: Framer, key: KeyParser)
    requires IsWindow(s) && IsIncompleteOrphanedTail(s.buffer)
    ensures TimeoutOnBuffer(s, key).framer.buffer == []
  {
    var b := s.buffer;
    if b != [] {
      assert b[0] == BRACKET;
      if ORPHAN_START <= b {
        assert Terminator(b, OrphanedSgrMouseTail).None? by {
          assert forall i :: 2 <= i < |b| ==> b[i] == b[2..][i - 2];
        }
      } else {
        assert b == [BRACKET];
        assert !StartsWithIncompleteChar(b) by {
          IncompleteIsTruncated(b);
        }
        hide StartsWithIncompleteChar;
      }
    }
    hide ControlStringOf;
    hide FromUtf8;
  }

  /** After a timeout, in every reachable state, only a listed shape is left waiting. */
  lemma FlushTimeoutQuiets(s: Framer, key: KeyParser)
    requires IsConsistent(s)
    ensures var t := FlushTimeout(s, key).framer; IsConsistent(t) && IsQuiet(t)
  {
    hide DrainTurn;
    hide TimeoutOnBuffer;
    DrainEnds(s, key);
    var t := DrainAvailableChunks(s, key).framer;
    SettledWindow(t, key);
    TimeoutKeepsConsistent(t, key);
    TimeoutQuiets(t, key);
  }

  // ----- The second timeout in a row -----

  lemma QuietIsSettled(s: Framer, key: KeyParser)
    requires IsConsistent(s) && IsQuiet(s) && s.discardUntil.None? && s.buffer != []
    ensures IsSettled(s, key)
    ensures s.buffer != [ESC] ==> TimeoutOnBuffer(s, key) == Outcome([], s)
    ensures s.buffer == [ESC]
            ==> TimeoutOnBuffer(s, key).chunks == [[ESC]] && TimeoutOnBuffer(s, key).framer.buffer == []
  {
    var b := s.buffer;
    if IsIncompletePaste(b) {
      QuietPaste(s, key);
    } else if IsIncompleteDefaultColorResponse(b) {
      QuietColorResponse(s, key);
    } else if AwaitsUtf8(b) {
      QuietUtf8(s, key);
    }
    hide IsIncompletePaste;
    hide IsIncompleteDefaultColorResponse;
    hide AwaitsUtf8;
  }

  lemma QuietPaste(s: Framer, key: KeyParser)
    requires IsIdle(s) && IsIncompletePaste(s.buffer)
    ensures IsSettled(s, key) && TimeoutOnBuffer(s, key) == Outcome([], s)
  {
    assert s.buffer[2] == PASTE_START[2];
    hide CompleteEscapeSequenceLen;
  }

  lemma QuietColorResponse(s: Framer, key: KeyParser)
    requires IsIdle(s) && IsIncompleteDefaultColorResponse(s.buffer)
    ensures IsSettled(s, key) && TimeoutOnBuffer(s, key) == Outcome([], s)
  {
    var b := s.buffer;
    assert b[0] == ESC && b[1] == 0x5d;
    assert !(PASTE_START <= b) && !(CSI_LESS <= b) && !(CSI + [0x3f] <= b) && b != [ESC];
    assert CompleteEscapeSequenceLen(b).None?;
    hide CompleteEscapeSequenceLen;
    hide ControlStringOf;
  }

  lemma QuietUtf8(s: Framer, key: KeyParser)
    requires IsIdle(s) && AwaitsUtf8(s.buffer)
    ensures IsSettled(s, key) && TimeoutOnBuffer(s, key) == Outcome([], s)
  {
    var b := s.buffer;
    WaitsForUtf8Is(b);
    if IsTruncatedChar(b) {
      TruncatedNotFound(b);
      IncompleteIsTruncated(b);
      hide FirstCompleteCharLen;
    } else {
      EscapedTruncated(b);
    }
    hide CompleteEscapeSequenceLen;
    hide WaitsForUtf8;
    hide IsUtf8;
  }

  lemma EscapedTruncated(b: bytes)
    requires b != [] && b[0] == ESC && IsTruncatedChar(b[1..])
    ensures CompleteEscapeSequenceLen(b).None? && !IsUtf8(b)
    ensures b[1] >= 0x80
  {
    var c := b[1..];
    assert b[1] == c[0] && c[0] >= 0x80;
    assert LeadingBitsWidth(b[1]).Some? && |b| < 1 + LeadingBitsWidth(b[1]).value;
    IncompleteIsTruncated(c);
    assert IsChar(b[..1]);
  }

  /** Outside a discard a lone ESC is out by the second timeout in a row, and whatever else
      waits is left exactly as it was. */
  lemma SecondTimeout(s: Framer, key: KeyParser)
    requires IsConsistent(s)
    ensures var t := FlushTimeout(s, key).framer;
            var again := FlushTimeout(t, key);
            && (again.framer.discardUntil.None? ==> again.framer.buffer != [ESC])
            && (t.discardUntil.None? && t.buffer == [ESC] ==> again.chunks == [[ESC]] && again.framer.buffer == [])
            && (t.discardUntil.None? && t.buffer != [ESC] ==> again == Outcome([], t))
  {
    hide DrainTurn;
    hide TimeoutOnBuffer;
    FlushTimeoutQuiets(s, key);
    var t := FlushTimeout(s, key).framer;
    FlushTimeoutQuiets(t, key);
    hide FlushTimeout;
    if t.discardUntil.None? {
      SecondTimeoutIdle(t, key);
    } else {
      SecondTimeoutDiscarding(t, key);
    }
  }

  lemma SecondTimeoutIdle(t: Framer, key: KeyParser)
    requires IsConsistent(t) && IsQuiet(t) && t.discardUntil.None?
    ensures var again := FlushTimeout(t, key);
            if t.buffer == [ESC] then again.chunks == [[ESC]] && again.framer.buffer == []
            else again == Outcome([], t)
  {
    if t.buffer == [] {
      EmptyIsSettled(t, key);
    } else {
      QuietIsSettled(t, key);
    }
    hide DrainTurn;
    hide TimeoutOnBuffer;
    LastTurn(t, t, key);
  }

  lemma EmptyIsSettled(t: Framer, key: KeyParser)
    requires t.buffer == [] && t.discardUntil.None?
    ensures IsSettled(t, key) && TimeoutOnBuffer(t, key) == Outcome([], t)
  {}

  lemma SecondTimeoutDiscarding(t: Framer, key: KeyParser)
    requires IsConsistent(t) && IsQuiet(t) && t.discardUntil.Some?
    ensures var again := FlushTimeout(t, key).framer; again.discardUntil.None? ==> again.buffer == []
  {
    DiscardIsSettled(t, key);
    hide DrainTurn;
    LastTurn(t, t, key);
  }

  lemma DiscardIsSettled(t: Framer, key: KeyParser)
    requires IsConsistent(t) && IsQuiet(t) && t.discardUntil.Some?
    ensures IsSettled(t, key)
  {
    var b := t.buffer;
    assert b == [] || b == [ESC];
    assert FindSubsequence(b, TerminalTheme.ST).None?;
  }
}

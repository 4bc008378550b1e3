/** What a timeout does with every buffer that waits outside a discard, and what the moment after a
    lone ESC does with every read. */
module TimeoutShapes {
  import opened Options
  import opened Bytes
  import opened Utf8
  import opened SgrMouse
  import opened TerminalTheme
  import opened RawInput
  import opened ByteFramer
  import opened ReadBoundaries
  import opened Timeouts
  import opened KeySequences
  import opened LateStrings
  import opened LateMouse
  import opened Runs

  // ----- The shapes, in bytes -----

  /** ESC [ 2 0 0 ~ without ESC [ 2 0 1 ~ behind it. */
  predicate IsOpenPaste(b: bytes) {
    && [0x1b, 0x5b, 0x32, 0x30, 0x30, 0x7e] <= b
    && forall i :: 0 <= i < |b| ==> !OccursAt(b, [0x1b, 0x5b, 0x32, 0x30, 0x31, 0x7e], i)
  }

  /** ESC ] 1 0 ; or ESC ] 1 1 ; without BEL or ESC \ behind it. */
  predicate IsOpenColorReply(b: bytes) {
    && ([0x1b, 0x5d, 0x31, 0x30, 0x3b] <= b || [0x1b, 0x5d, 0x31, 0x31, 0x3b] <= b)
    && HasNoBel(b) && HasNoSt(b)
  }

  /** The start of a character, perhaps behind ESC. */
  predicate IsOpenChar(b: bytes) {
    IsTruncatedChar(b) || (b != [] && b[0] == 0x1b && IsTruncatedChar(b[1..]))
  }

  predicate IsOpenMouse(b: bytes) {
    [0x1b, 0x5b, 0x3c] <= b && IsNumbers(b[3..])
  }

  lemma OpenPasteIs(b: bytes)
    ensures IsIncompletePaste(b) <==> IsOpenPaste(b)
  {}

  lemma OscPart(b: bytes)
    requires |b| >= 2 && b[0] == 0x1b && b[1] == 0x5d
    ensures HasNoBel(b) && HasNoSt(b) <==> HasNoBel(b[2..]) && HasNoSt(b[2..])
    ensures Terminator(b, Osc) == None <==> HasNoBel(b) && HasNoSt(b)
  {
    assert b == [0x1b, 0x5d] + b[2..];
    if HasNoBel(b[2..]) && HasNoSt(b[2..]) {
      OscHead(b[2..]);
      OpenHasNoEnd(b, Osc);
    } else if !HasNoBel(b) {
      var i :| 0 <= i < |b| && b[i] == 0x07;
      assert IsBel(b[i]);
    } else {
      var i :| 0 <= i < |b| - 1 && b[i] == 0x1b && b[i + 1] == 0x5c;
      StHere(b, i);
    }
  }

  lemma OpenColorReplyIs(b: bytes)
    ensures IsIncompleteDefaultColorResponse(b) <==> IsOpenColorReply(b)
  {
    hide Terminator;
    if |b| >= 5 && b[0] == 0x1b && b[1] == 0x5d {
      OscPart(b);
      assert b[2..4] == [b[2], b[3]];
    }
    hide HasNoBel;
    hide HasNoSt;
  }

  lemma OpenReportIs(b: bytes)
    ensures IsIncompleteColorSchemeReport(b) <==> IsOpen(b, HostColorSchemeCsi)
  {
    var dark: bytes := [0x1b, 0x5b, 0x3f, 0x39, 0x39, 0x37, 0x3b, 0x31];
    var light: bytes := [0x1b, 0x5b, 0x3f, 0x39, 0x39, 0x37, 0x3b, 0x32];
    assert DARK_REPORT[..8] == dark && LIGHT_REPORT[..8] == light;
    assert CSI + [0x3f] == dark[..3] == light[..3];
    if 3 <= |b| <= 8 {
      assert DARK_REPORT[..|b|] == dark[..|b|] && LIGHT_REPORT[..|b|] == light[..|b|];
    }
  }

  lemma OpenStringIs(b: bytes)
    requires !IsOpenColorReply(b)
    ensures ControlStringOf(b) == Some(Incomplete(Osc)) <==> IsOpen(b, Osc)
    ensures ControlStringOf(b) == Some(Incomplete(StTerminated)) <==> IsOpen(b, StTerminated)
    ensures ControlStringOf(b).Some? && ControlStringOf(b).value.Incomplete?
            ==> ControlStringOf(b).value.family in {Osc, StTerminated}
  {
    hide Terminator;
    if |b| >= 2 && b[0] == 0x1b {
      if b[1] == 0x5d {
        OscPart(b);
      } else if OpensString(b[1]) {
        StPart(b);
      }
    }
    hide HasNoBel;
    hide HasNoSt;
  }

  lemma StPart(b: bytes)
    requires |b| >= 2 && b[0] == 0x1b && OpensString(b[1])
    ensures Terminator(b, StTerminated) == None <==> HasNoSt(b[2..])
  {
    assert forall i :: 2 <= i < |b| ==> b[i] == b[2..][i - 2];
    assert HasNoSt(b) <==> HasNoSt(b[2..]);
    if HasNoSt(b) {
      OpenHasNoEnd(b, StTerminated);
    } else {
      var i :| 0 <= i < |b| - 1 && b[i] == 0x1b && b[i + 1] == 0x5c;
      StHere(b, i);
    }
  }

  // ----- The table -----

  predicate IsLate(b: bytes) {
    IsOpen(b, Osc) || IsOpen(b, StTerminated) || IsOpen(b, HostColorSchemeCsi)
  }

  predicate Waits(b: bytes) {
    b == [] || IsOpenPaste(b) || IsOpenColorReply(b) || IsOpenChar(b)
  }

  /** An open paste, an open colour reply and an open character are left alone; an open mouse report
      and any other open string begin to be discarded; a lone ESC is held or given out; and all else
      comes out if the parser knows it, or is gone. */
  predicate IsTimeoutOf(s: Framer, o: Outcome, key: KeyParser) {
    var b := s.buffer;
    var gone := s.(buffer := []);
    && (Waits(b) ==> o == Outcome([], s))
    && (IsOpen(b, Osc) ==> o == Outcome([], Discarding(s, Osc, [], 0)))
    && (IsOpen(b, StTerminated) ==> o == Outcome([], Discarding(s, StTerminated, [], 0)))
    && (IsOpen(b, HostColorSchemeCsi) ==> o == Outcome([], Discarding(s, HostColorSchemeCsi, [], 0)))
    && (IsOpenMouse(b) && |b| <= 128 ==> o == Outcome([], Swallowing(s, |b|)))
    && (IsOpenMouse(b) && |b| > 128 ==> o == Outcome([], gone.(discardedTailBytes := |b|)))
    && (b == [0x1b] ==>
          o == if s.hostColorRepliesAwaited > 0 && !s.heldPendingColorEsc
               then Outcome([], s.(heldPendingColorEsc := true))
               else Outcome([[0x1b]], gone.(hostColorRepliesAwaited := 0, heldPendingColorEsc := false,
                                            loneEscapeRecentlyFlushed := true)))
    && (!Waits(b) && !IsLate(b) && !IsOpenMouse(b) && b != [0x1b] ==>
          o == if IsUtf8(b) && key(b).Some? then Outcome([b], gone) else Outcome([], gone))
  }

  lemma TimeoutExactly(s: Framer, key: KeyParser)
    requires IsIdle(s) && ExtractOneEvent(s.buffer, key) == None
    ensures IsTimeoutOf(s, FlushTimeout(s, key), key)
  {
    hide ExtractOneEvent;
    hide TimeoutOnBuffer;
    LastTurn(s, s, key);
    BufferTimeout(s, key);
    var flushed := TimeoutOnBuffer(s, key);
    assert [] + flushed.chunks == flushed.chunks;
  }

  lemma BufferTimeout(s: Framer, key: KeyParser)
    requires IsIdle(s)
    ensures IsTimeoutOf(s, TimeoutOnBuffer(s, key), key)
  {
    hide IsOpen;
    hide IsOpenColorReply;
    hide IsOpenPaste;
    hide ControlStringOf;
    hide WaitsForUtf8;
    hide IsTruncatedChar;
    hide IsNumbers;
    hide IsUtf8;
    hide IsIncompletePaste;
    hide IsIncompleteColorSchemeReport;
    hide IsIncompleteDefaultColorResponse;
    hide AllTailBytes;
    var b := s.buffer;
    OpenPasteIs(b);
    OpenColorReplyIs(b);
    OpenReportIs(b);
    if |b| >= 3 {
      NumbersAreTail(b[3..]);
    }
    if !IsOpenColorReply(b) {
      OpenStringIs(b);
    }
    WaitsForUtf8Is(b);
    ShapesApart(b);
  }

  // ----- Events of a timeout -----

  lemma OneChunkEvents(c: bytes, key: KeyParser)
    ensures EventsFromChunks([], key) == []
    ensures EventsFromChunks([c], key) ==
            if c == [0x1b] then [Key(PlainEscape)]
            else
              match ExtractOneEvent(c, key)
              case Some(e) => [e.event]
              case None => []
  {
    hide ExtractOneEvent;
    assert [c][1..] == [];
    assert EventsFromChunks([], key) == [];
  }

  /** Of all that a timeout gives out behind the complete events, only a lone ESC is an event. A key that
      the parser knows only as what is left at a timeout comes out as a chunk and makes none: reading the
      chunk again finds it as incomplete as before. */
  lemma TimeoutEvents(s: Framer, key: KeyParser)
    requires IsIdle(s) && ExtractOneEvent(s.buffer, key) == None
    ensures EventsFromChunks(FlushTimeout(s, key).chunks, key) ==
            if s.buffer == [0x1b] && (s.hostColorRepliesAwaited == 0 || s.heldPendingColorEsc)
            then [Key(PlainEscape)] else []
  {
    hide ExtractOneEvent;
    hide FlushTimeout;
    hide EventsFromChunks;
    hide IsOpen;
    hide IsUtf8;
    TimeoutExactly(s, key);
    ShapesApart(s.buffer);
    hide Waits;
    hide IsOpenMouse;
    OneChunkEvents(s.buffer, key);
  }

  /** Alt and an open bracket, typed alone, for a parser that knows it. */
  lemma AltBracketIsLost(key: KeyParser)
    requires key([0x1b, 0x5b]).Some?
    ensures var o := Run(INITIAL, [PushBytes([0x1b, 0x5b]), Timeout], key);
            o == Outcome([[0x1b, 0x5b]], INITIAL) && EventsFromChunks(o.chunks, key) == []
  {
    var b: bytes := [0x1b, 0x5b];
    var fed := INITIAL.(buffer := b);
    assert ExtractOneEvent(b, key) == None by {
      CsiOpen([]);
      assert Csi([]) == b && |PASTE_START| == 6;
      hide CompleteEscapeSequenceLen;
    }
    hide ExtractOneEvent;
    LastTurn(fed, fed, key);
    assert Push(INITIAL, b, key) == Outcome([], fed) by {
      assert Feed(INITIAL, b) == fed;
    }
    hide Push;
    BracketIsNoShape();
    AsciiIsUtf8(b);
    TimeoutExactly(fed, key);
    TimeoutEvents(fed, key);
    hide FlushTimeout;
    RunFirst(INITIAL, PushBytes(b), [Timeout], key);
    RunFirst(fed, Timeout, [], key);
    assert [PushBytes(b)] + [Timeout] == [PushBytes(b), Timeout] && [Timeout] + [] == [Timeout];
    assert [] + [b] == [b] && [b] + [] == [b];
  }

  lemma BracketIsNoShape()
    ensures var b: bytes := [0x1b, 0x5b]; !Waits(b) && !IsLate(b) && !IsOpenMouse(b) && b != [0x1b]
  {}

  lemma OpenCharHead(b: bytes)
    requires IsOpenChar(b)
    ensures !IsUtf8(b) && b != [] && (b[0] >= 0x80 || (|b| > 1 && b[0] == 0x1b && b[1] >= 0x80))
  {
    if IsTruncatedChar(b) {
      IncompleteIsTruncated(b);
    } else {
      EscapedTruncated(b);
    }
    hide IsUtf8;
  }

  lemma OpenMouseHead(b: bytes)
    requires IsOpenMouse(b)
    ensures |b| > 2 && b[0] == 0x1b && b[1] == 0x5b && b[2] == 0x3c
  {
    assert [0x1b, 0x5b, 0x3c][2] == b[2] && [0x1b, 0x5b, 0x3c][1] == b[1] && [0x1b, 0x5b, 0x3c][0] == b[0];
  }

  lemma OpenPasteHead(b: bytes)
    requires IsOpenPaste(b)
    ensures |b| > 2 && b[0] == 0x1b && b[1] == 0x5b && b[2] == 0x32
  {
    var marker: bytes := [0x1b, 0x5b, 0x32, 0x30, 0x30, 0x7e];
    assert marker <= b && marker[2] == b[2] && marker[1] == b[1] && marker[0] == b[0];
  }

  predicate IsColorHead(b: bytes) {
    |b| >= 5 && b[0] == 0x1b && b[1] == 0x5d && b[2] == 0x31 && b[3] in {0x30, 0x31} && b[4] == 0x3b
  }

  lemma OpenColorReplyHead(b: bytes)
    requires IsOpenColorReply(b)
    ensures IsColorHead(b)
  {
    var ten: bytes, eleven: bytes := [0x1b, 0x5d, 0x31, 0x30, 0x3b], [0x1b, 0x5d, 0x31, 0x31, 0x3b];
    assert forall i :: 0 <= i < 5 ==> b[i] == if ten <= b then ten[i] else eleven[i];
    hide HasNoBel;
    hide HasNoSt;
  }

  lemma LateHead(b: bytes)
    requires IsLate(b)
    ensures |b| > 1 && b[0] == 0x1b && !IsColorHead(b)
    ensures b[1] == 0x5d || OpensString(b[1]) || (|b| > 2 && b[1] == 0x5b && b[2] == 0x3f)
  {
    if IsOpen(b, HostColorSchemeCsi) {
      ReportIsOpen(b);
    }
    hide HasNoBel;
    hide HasNoSt;
  }

  /** At most one of the shapes fits. */
  lemma ShapesApart(b: bytes)
    ensures IsOpenChar(b) ==> !IsUtf8(b) && !IsOpenPaste(b) && !IsOpenColorReply(b) && !IsLate(b) && !IsOpenMouse(b)
                              && b != [0x1b]
    ensures IsOpenMouse(b) ==> !IsOpenPaste(b) && !IsOpenColorReply(b) && !IsLate(b) && b != [0x1b]
    ensures IsOpenPaste(b) ==> !IsOpenColorReply(b) && !IsLate(b) && b != [0x1b]
    ensures IsOpenColorReply(b) ==> !IsLate(b) && b != [0x1b]
    ensures IsOpen(b, Osc) ==> !IsOpen(b, StTerminated) && !IsOpen(b, HostColorSchemeCsi)
    ensures IsOpen(b, StTerminated) ==> !IsOpen(b, HostColorSchemeCsi)
    ensures IsLate(b) ==> b != [] && b != [0x1b]
  {
    hide IsUtf8;
    hide IsOpenChar;
    hide IsOpenMouse;
    hide IsOpenPaste;
    hide IsOpenColorReply;
    hide IsLate;
    hide IsOpen;
    if IsOpenChar(b) {
      OpenCharHead(b);
    }
    if IsOpenMouse(b) {
      OpenMouseHead(b);
    }
    if IsOpenPaste(b) {
      OpenPasteHead(b);
    }
    if IsOpenColorReply(b) {
      OpenColorReplyHead(b);
    }
    if IsLate(b) {
      LateHead(b);
      OneFamily(b);
    }
    NotLate(b);
  }

  lemma NotLate(b: bytes)
    ensures IsOpen(b, Osc) || IsOpen(b, StTerminated) || IsOpen(b, HostColorSchemeCsi) <==> IsLate(b)
  {
    hide IsOpen;
  }

  lemma OneFamily(b: bytes)
    ensures IsOpen(b, Osc) ==> !IsOpen(b, StTerminated) && !IsOpen(b, HostColorSchemeCsi)
    ensures IsOpen(b, StTerminated) ==> !IsOpen(b, HostColorSchemeCsi)
  {
    if IsOpen(b, HostColorSchemeCsi) {
      ReportIsOpen(b);
    }
    hide HasNoBel;
    hide HasNoSt;
  }

  // ----- The moment after a lone ESC -----

  /** The start of a mouse report without its ESC: at most 32 bytes of [ < and numbers. */
  predicate IsShortOrphan(b: bytes) {
    && |b| <= 32
    && (b == [] || b == [0x5b] || ([0x5b, 0x3c] <= b && IsNumbers(b[2..])))
  }

  /** A mouse report without its ESC, in at most 32 bytes. */
  predicate IsOrphan(t: bytes) {
    && t != [] && |t| <= 32 && IsTailOf(t, OrphanedSgrMouseTail)
    && IsUtf8([0x1b] + t) && ParseSgrMouse([0x1b] + t).Some?
  }

  lemma ShortOrphanIs(b: bytes)
    ensures IsIncompleteOrphanedTail(b) <==> IsShortOrphan(b)
  {
    if |b| >= 2 {
      NumbersAreTail(b[2..]);
      assert b == [b[0], b[1]] + b[2..];
    }
    assert |b| == 1 && b <= ORPHAN_START ==> b[0] == ORPHAN_START[0];
    assert ORPHAN_START[..1] == [0x5b];
  }

  /** What is kept then never holds a whole report: a timeout that looks for one finds none. */
  lemma ShortOrphanIsOpen(b: bytes)
    requires IsShortOrphan(b)
    ensures CompleteOrphanedTail(b) == None
  {
    ShortOrphanIs(b);
    if |b| > 2 {
      assert forall i :: 2 <= i < |b| ==> b[i] == b[2..][i - 2];
    }
    OpenHasNoEnd(b, OrphanedSgrMouseTail);
    hide Terminator;
  }

  /** A read then is kept while it may still become such a report, is dropped up to the end of the
      report if it is one, and is otherwise read as ever. */
  lemma WindowExactly(s: Framer, data: bytes, key: KeyParser)
    requires IsWindow(s)
    ensures var b := s.buffer + data;
            && (IsShortOrphan(b) ==> Push(s, data, key) == Outcome([], s.(buffer := b)))
            && (forall n :: 0 < n <= |b| && IsOrphan(b[..n]) ==>
                  Push(s, data, key) == Push(CloseWindow(s).(buffer := []), b[n..], key))
            && (!IsShortOrphan(b) && (forall n :: 0 < n <= |b| ==> !IsOrphan(b[..n])) ==>
                  Push(s, data, key) == Push(CloseWindow(s), data, key))
  {
    hide DrainAvailableChunks;
    hide CompleteOrphanedTail;
    hide IsIncompleteOrphanedTail;
    hide IsShortOrphan;
    hide IsOrphan;
    var b := s.buffer + data;
    var fed := Feed(s, data);
    ShortOrphanIs(b);
    WindowDrain(fed, key);
    forall n | 0 < n <= |b| && IsOrphan(b[..n])
      ensures Push(s, data, key) == Push(CloseWindow(s).(buffer := []), b[n..], key)
    {
      OrphanFound(b, n);
      var closed := CloseWindow(s).(buffer := []);
      assert closed.buffer + b[n..] == b[n..];
      assert Feed(closed, b[n..]) == CloseWindow(fed).(buffer := b[n..]);
    }
    if CompleteOrphanedTail(b).Some? {
      OrphanThere(b);
    }
  }

  lemma OrphanFound(b: bytes, n: nat)
    requires 0 < n <= |b| && IsOrphan(b[..n])
    ensures CompleteOrphanedTail(b) == Some(n) && !IsIncompleteOrphanedTail(b)
  {
    hide ParseSgrMouse;
    hide IsUtf8;
    TailEnds(b[..n], b[n..], OrphanedSgrMouseTail);
    assert b == b[..n] + b[n..];
    hide Terminator;
    assert !IsIncompleteOrphanedTail(b) by {
      assert b[n - 1] in {0x4d, 0x6d};
      ShortOrphanIs(b);
      assert n > 2 ==> b[2..][n - 3] == b[n - 1];
    }
  }

  lemma OrphanThere(b: bytes)
    requires CompleteOrphanedTail(b).Some?
    ensures IsOrphan(b[..CompleteOrphanedTail(b).value])
  {
    hide ParseSgrMouse;
    hide IsUtf8;
  }

  /** A timeout then leaves the moment open only with nothing waiting, or when the parser knows the
      bracket that waits. */
  lemma WindowTimeoutExactly(s: Framer, key: KeyParser)
    requires IsWindow(s)
    ensures s.buffer == [] ==> FlushTimeout(s, key) == Outcome([], s)
    ensures s.buffer == [0x5b] ==>
              FlushTimeout(s, key) ==
              if key([0x5b]).Some? then Outcome([[0x5b]], s.(buffer := []))
              else Outcome([], CloseWindow(s).(buffer := []))
  {
    var b := s.buffer;
    WindowDrain(s, key);
    hide DrainAvailableChunks;
    if b == [0x5b] {
      AsciiIsUtf8(b);
      assert |CSI_LESS| == 3 && |PASTE_START| == 6 && |ORPHAN_START| == 2 && |CSI| == 2;
      assert ControlStringOf(b) == None;
      IncompleteIsTruncated(b);
      assert !WaitsForUtf8(b);
      hide IsUtf8;
      hide WaitsForUtf8;
      assert [] + [[0x5b]] == [[0x5b]];
    }
  }
}

/** Colour replies whose text is cut inside a character: reading one stops the program. */
module StoppingReplies {
  import opened Options
  import opened Bytes
  import opened Utf8
  import opened TerminalTheme
  import opened RawInput
  import opened ByteFramer
  import opened ReadBoundaries
  import opened SgrMouse
  import opened Splittings
  import opened KeySequences

  predicate IsTerminator(end: bytes) {
    end == ST || end == [BEL]
  }

  function ReplyText(kind: DefaultColorKind, value: bytes, end: bytes): bytes {
    OSC + (CommandDigits(kind) + [TerminalTheme.SEMICOLON] + value + end)
  }

  predicate IsStoppingReply(s: bytes, kind: DefaultColorKind, value: bytes, end: bytes) {
    IsTerminator(end) && s == ReplyText(kind, value, end) && ParseRgbColor(value).Stops?
  }

  /** Reading a sequence stops the program exactly when it is a colour reply whose value does. */
  lemma ReplyStopsExactly(s: bytes)
    ensures ParseDefaultColorResponse(s).Stops? <==> exists kind, value, end :: IsStoppingReply(s, kind, value, end)
  {
    if ParseDefaultColorResponse(s).Stops? {
      var kind, value, end := ReplyParts(s);
      assert IsStoppingReply(s, kind, value, end);
    } else {
      forall kind, value, end
        ensures !IsStoppingReply(s, kind, value, end)
      {
        if IsTerminator(end) && ParseRgbColor(value).Stops? {
          ReplyReads(kind, value, end);
        }
      }
    }
  }

  lemma ReplyParts(s: bytes) returns (kind: DefaultColorKind, value: bytes, end: bytes)
    requires ParseDefaultColorResponse(s) != Nothing
    ensures IsTerminator(end) && s == ReplyText(kind, value, end)
    ensures ParseDefaultColorResponse(s).Stops? ==> ParseRgbColor(value).Stops?
    ensures ParseDefaultColorResponse(s).Value? ==>
              ParseDefaultColorResponse(s).value.kind == kind
              && ParseRgbColor(value) == Value(ParseDefaultColorResponse(s).value.color)
  {
    hide ParseRgbColor;
    hide FirstWhere;
    hide CommandDigits;
    var rest := s[2..];
    end := if EndsWith(rest, ST) then ST else [BEL];
    EndIsLast(rest, end);
    hide EndsWith;
    var body := rest[..|rest| - |end|];
    var at := FirstWhere(body, b => b == TerminalTheme.SEMICOLON).value;
    kind := if body[..at] == CommandDigits(Foreground) then Foreground else Background;
    value := body[at + 1..];
    CutAtSeparator(body, at);
    assert s == OSC + rest;
  }

  lemma EndIsLast(rest: bytes, end: bytes)
    requires EndsWith(rest, end)
    ensures rest == rest[..|rest| - |end|] + end
  {}

  lemma CutAtSeparator(body: bytes, at: nat)
    requires at < |body| && body[at] == TerminalTheme.SEMICOLON
    ensures body == body[..at] + [TerminalTheme.SEMICOLON] + body[at + 1..]
  {}

  /** A reply is read as its value is, whichever way it ends. */
  lemma ReplyReads(kind: DefaultColorKind, value: bytes, end: bytes)
    requires IsTerminator(end)
    ensures ParseDefaultColorResponse(ReplyText(kind, value, end))
            == match ParseRgbColor(value)
               case Nothing => Nothing
               case Stops => Stops
               case Value(color) => Value(DefaultColor(kind, color))
  {
    hide ParseRgbColor;
    hide FirstWhere;
    var s := ReplyText(kind, value, end);
    var body := CommandDigits(kind) + [TerminalTheme.SEMICOLON] + value;
    var rest := body + end;
    assert s[..2] == OSC && s[2..] == rest;
    EndIsFound(body, end);
    FirstWhereIs(body, b => b == TerminalTheme.SEMICOLON, 2);
    assert body[..2] == CommandDigits(kind) && body[3..] == value;
    assert CommandDigits(Foreground) != CommandDigits(Background) by {
      assert CommandDigits(Foreground)[1] != CommandDigits(Background)[1];
    }
    hide EndsWith;
    hide CommandDigits;
  }

  lemma EndIsFound(body: bytes, end: bytes)
    requires IsTerminator(end)
    ensures EndsWith(body + end, end) && (body + end)[..|body|] == body
    ensures end == [BEL] ==> !EndsWith(body + end, ST)
  {
    if end == [BEL] && |body| > 0 {
      var rest := body + end;
      assert rest[|rest| - 2..][1] == BEL;
    }
  }

  /** Any idle framer reaches the stop: pushing the sample reply reads it. */
  lemma StopIsReached(s: Framer, key: KeyParser)
    requires IsIdle(s) && s.buffer == []
    ensures ExtractOneEvent(Feed(s, STOPPING_REPLY).buffer, key) == Some(Extracted(Stopped, |STOPPING_REPLY|))
    ensures DrainTurn(Feed(s, STOPPING_REPLY), key).Again?
    ensures DrainTurn(Feed(s, STOPPING_REPLY), key).chunks == [STOPPING_REPLY]
  {
    var reply := STOPPING_REPLY;
    StoppingReplyStops();
    hide ParseDefaultColorResponse;
    assert [] + reply == reply;
    StoppingReplyLength();
    assert !(PASTE_START <= reply) by {
      assert reply[1] == 0x5d;
    }
    assert IsUtf8(reply) by {
      StoppingReplyIsText();
    }
    assert reply[..|reply|] == reply;
  }

  lemma StoppingReplyLength()
    ensures CompleteEscapeSequenceLen(STOPPING_REPLY) == Some(|STOPPING_REPLY|)
  {
    hide CompleteEscapeSequenceLen;
    var p: bytes, end: bytes := [0x31, 0x30, 0x3b, 0x23, 0x61, 0xc3, 0xa9], [0x1b, 0x5c];
    assert HasNoBel(p) && HasNoSt(p);
    OscEnds(p, end, []);
    assert STOPPING_REPLY == [0x1b, 0x5d] + p + end + [];
  }

  lemma StoppingReplyIsText()
    ensures IsUtf8(STOPPING_REPLY)
  {
    var reply := STOPPING_REPLY;
    assert reply == [0x1b, 0x5d, 0x31, 0x30, 0x3b, 0x23, 0x61, 0xc3, 0xa9, 0x1b, 0x5c];
    var accent: bytes := [0xc3, 0xa9];
    AsciiIsUtf8(reply[9..]);
    assert reply[7..][..2] == accent && reply[7..][2..] == reply[9..];
    assert IsChar(accent);
    assert IsUtf8(reply[7..]);
    AsciiThenText(reply[..7], reply[7..]);
    assert reply[..7] + reply[7..] == reply;
  }

  lemma {:induction false} AsciiThenText(a: bytes, b: bytes)
    requires IsUtf8(b) && forall i :: 0 <= i < |a| ==> a[i] < 0x80
    ensures IsUtf8(a + b)
    decreases |a|
  {
    if a == [] {
      assert a + b == b;
    } else {
      AsciiThenText(a[1..], b);
      assert (a + b)[1..] == a[1..] + b;
      assert IsChar((a + b)[..1]);
    }
  }

  // ----- The framer with its stops -----

  predicate IsStoppingChunk(c: bytes) {
    ParseDefaultColorResponse(c).Stops?
  }

  predicate HasStop(chunks: seq<bytes>) {
    exists i :: 0 <= i < |chunks| && IsStoppingChunk(chunks[i])
  }

  lemma HasStopAppend(a: seq<bytes>, b: seq<bytes>)
    ensures HasStop(a + b) <==> HasStop(a) || HasStop(b)
  {
    hide IsStoppingChunk;
    if HasStop(a) {
      var i :| 0 <= i < |a| && IsStoppingChunk(a[i]);
      assert IsStoppingChunk((a + b)[i]);
    }
    if HasStop(b) {
      var i :| 0 <= i < |b| && IsStoppingChunk(b[i]);
      assert IsStoppingChunk((a + b)[|a| + i]);
    }
  }

  /** Only a colour reply can stop the program. */
  lemma StopsStartAsReplies(c: bytes)
    requires IsStoppingChunk(c)
    ensures OSC <= c
  {}

  lemma ExtractStopsExactly(b: bytes, key: KeyParser)
    requires ExtractOneEvent(b, key).Some?
    ensures ExtractStops(b, key) <==> IsStoppingChunk(b[..ExtractOneEvent(b, key).value.consumed])
  {
    var chunk := b[..ExtractOneEvent(b, key).value.consumed];
    if PASTE_START <= b {
      assert b[1] == PASTE_START[1];
    }
    if IsStoppingChunk(chunk) {
      StopsStartAsReplies(chunk);
      assert chunk[0] == OSC[0] && chunk[1] == OSC[1];
    }
    hide IsStoppingChunk;
    hide CompleteEscapeSequenceLen;
    hide FirstCompleteCharLen;
    hide ParseSgrMouse;
  }

  lemma TurnStopsExactly(s: Framer, key: KeyParser)
    ensures TurnStops(s, key) <==> DrainTurn(s, key).Again? && HasStop(DrainTurn(s, key).chunks)
  {
    hide ExtractOneEvent;
    hide CompleteOrphanedTail;
    hide IsIncompleteOrphanedTail;
    hide Terminator;
    hide ScanOrphanedTail;
    hide IsStoppingChunk;
    if ExtractOneEvent(s.buffer, key).Some? {
      ExtractStopsExactly(s.buffer, key);
      var chunk := s.buffer[..ExtractOneEvent(s.buffer, key).value.consumed];
      assert [chunk][0] == chunk;
    }
  }

  /** A drain stops the program exactly when some chunk it would hand out does. */
  lemma {:induction false} DrainStopsExactly(s: Framer, key: KeyParser)
    ensures DrainStops(s, key) <==> HasStop(DrainAvailableChunks(s, key).chunks)
    decreases Work(s)
  {
    hide DrainTurn;
    hide TurnStops;
    hide HasStop;
    TurnStopsExactly(s, key);
    match DrainTurn(s, key)
    case Stop(_) =>
      NothingStops();
    case Again(chunks, t) =>
      TurnMakesProgress(s, key);
      DrainStopsExactly(t, key);
      HasStopAppend(chunks, DrainAvailableChunks(t, key).chunks);
  }

  lemma NothingStops()
    ensures !HasStop([])
  {}

  /** What a caller sees: chunks and a framer, or a program that is gone. */
  datatype Machine = Running(outcome: Outcome) | Gone

  function LivePush(s: Framer, data: bytes, key: KeyParser): Machine {
    if DrainStops(Feed(s, data), key) then Gone else Running(Push(s, data, key))
  }

  function LivePushAll(s: Framer, pieces: seq<bytes>, key: KeyParser): Machine
    decreases |pieces|
  {
    if pieces == [] then Running(Outcome([], s))
    else
      match LivePush(s, pieces[0], key)
      case Gone => Gone
      case Running(first) =>
        match LivePushAll(first.framer, pieces[1..], key)
        case Gone => Gone
        case Running(rest) => Running(Outcome(first.chunks + rest.chunks, rest.framer))
  }

  /** Pushes stop the program exactly when some chunk among all they would hand out does. */
  lemma {:induction false} LivePushAllIs(s: Framer, pieces: seq<bytes>, key: KeyParser)
    ensures var o := PushAll(s, pieces, key);
            LivePushAll(s, pieces, key) == if HasStop(o.chunks) then Gone else Running(o)
    decreases |pieces|
  {
    hide DrainAvailableChunks;
    hide DrainStops;
    hide HasStop;
    if pieces == [] {
      NothingStops();
    } else {
      var first := Push(s, pieces[0], key);
      DrainStopsExactly(Feed(s, pieces[0]), key);
      LivePushAllIs(first.framer, pieces[1..], key);
      HasStopAppend(first.chunks, PushAll(first.framer, pieces[1..], key).chunks);
    }
  }

  /** With its stops, too, the framer does not see read boundaries: reads that split freely leave
      the same chunks and framer, or stop the program alike. */
  lemma LiveSplitting(s: Framer, pieces: seq<bytes>, key: KeyParser)
    requires s.loneEscapeRecentlyFlushed ==> s.discardUntil.None?
    requires pieces != [] && SplitsFreely(s, pieces)
    ensures LivePushAll(s, pieces, key) == LivePush(s, Concat(pieces), key)
  {
    hide DrainAvailableChunks;
    hide DrainStops;
    hide HasStop;
    hide SplitsFreely;
    SplittingExactly(s, pieces, key);
    LivePushAllIs(s, pieces, key);
    DrainStopsExactly(Feed(s, Concat(pieces)), key);
  }
}

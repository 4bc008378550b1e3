/** Streams of complete events: each kind is recognised as what it is, and any stream of them,
    cut anywhere, comes out as exactly those events. */
module EventStreams {
  import opened Options
  import opened Bytes
  import opened Utf8
  import opened SgrMouse
  import opened TerminalTheme
  import opened RawInput
  import opened ByteFramer
  import opened ExtractionStability
  import opened ReadBoundaries
  import opened TextAndPaste

  /** The bytes are one complete event, no more and no less. */
  predicate IsToken(token: bytes, event: RawInputEvent, key: KeyParser) {
    event != Stopped && ExtractOneEvent(token, key) == Some(Extracted(event, |token|))
  }

  // ----- The kinds of tokens -----

  lemma EscapeToken(token: bytes, key: KeyParser)
    requires |token| > 1 && token[0] == ESC && !(PASTE_START <= token)
    requires CompleteEscapeSequenceLen(token) == Some(|token|)
    requires forall i :: 0 <= i < |token| ==> token[i] < 0x80
    requires ClassifySequence(token, key) != Stopped
    ensures IsToken(token, ClassifySequence(token, key), key)
  {
    AsciiIsUtf8(token);
    assert token[..|token|] == token;
    hide CompleteEscapeSequenceLen;
    hide ClassifySequence;
  }

  lemma MouseReportIsToken(cb: byte, column: nat, row: nat, final: byte, key: KeyParser)
    requires 1 <= column <= 65535 && 1 <= row <= 65535 && IsSgrFinal(final) && ParseMouseKind(cb).Some?
    ensures IsToken(MouseReport(cb, column, row, final),
                    Mouse(ReportedEvent(ParseMouseKind(cb).value, cb, column, row, final)), key)
  {
    hide MouseBody;
    hide ParseSgrMouse;
    hide ParseMouseKind;
    hide ParseDefaultColorResponse;
    hide SplitOn;
    hide CompleteEscapeSequenceLen;
    var report := MouseReport(cb, column, row, final);
    MouseReportRoundTrip(cb, column, row, final);
    MouseBodyBytes(cb, column, row);
    FramedParts(MouseBody(cb, column, row), final);
    MouseReportLength(MouseBody(cb, column, row), final);
    MouseReportIsOnlyMouse(report);
    hide IsToken;
    EscapeToken(report, key);
  }

  /** Nothing that starts as a mouse report is any other host report. */
  lemma MouseReportIsOnlyMouse(s: bytes)
    requires CSI_LESS <= s && |s| > 6
    ensures s[0] == ESC && !(PASTE_START <= s) && ParseDefaultColorResponse(s) == Nothing
    ensures s != FOCUS_IN && s != FOCUS_OUT && ParseHostColorSchemeReport(s) == None
  {
    assert s[1] == CSI_LESS[1] && s[2] == CSI_LESS[2];
  }

  /** Behind the introducer the first final byte is the last one of the report. */
  lemma MouseReportLength(body: bytes, final: byte)
    requires IsSgrFinal(final) && AllTailBytes(body)
    ensures var report := CSI_LESS + (body + [final]);
            && CompleteEscapeSequenceLen(report) == Some(|report|)
            && (forall i :: 0 <= i < |report| ==> report[i] < 0x80)
  {
    var report := CSI_LESS + (body + [final]);
    assert report[2..] == [0x3c] + body + [final];
    FirstWhereIs(report[2..], IsSgrFinal, |body| + 1);
    assert report[1] == BRACKET && report[..3] == CSI_LESS;
  }

  lemma FocusReportsAreTokens(key: KeyParser)
    ensures IsToken([0x1b, 0x5b, 0x49], OuterFocusGained, key)
    ensures IsToken([0x1b, 0x5b, 0x4f], OuterFocusLost, key)
  {
    hide CompleteEscapeSequenceLen;
    hide ParseDefaultColorResponse;
    hide ParseSgrMouse;
    hide IsToken;
    FocusReportLength(FOCUS_IN);
    FocusReportLength(FOCUS_OUT);
    assert FOCUS_IN[2] != FOCUS_OUT[2];
    EscapeToken(FOCUS_IN, key);
    EscapeToken(FOCUS_OUT, key);
  }

  lemma FocusReportLength(report: bytes)
    requires report == FOCUS_IN || report == FOCUS_OUT
    ensures CompleteEscapeSequenceLen(report) == Some(3) && ParseDefaultColorResponse(report) == Nothing
    ensures |report| == 3 && report[0] == ESC && !(PASTE_START <= report)
    ensures forall i :: 0 <= i < |report| ==> report[i] < 0x80
  {
    assert |report| == 3 && report[1] == BRACKET;
    assert report[1] != OSC[1];
    FirstByteIsFinal(report[2..]);
    hide FirstWhere;
    hide ParseRgbColor;
  }

  lemma FirstByteIsFinal(s: bytes)
    requires s != [] && IsCsiFinal(s[0])
    ensures FirstWhere(s, IsCsiFinal) == Some(0)
  {
    FirstWhereIs(s, IsCsiFinal, 0);
  }

  /** ESC [ ? 9 9 7 ; 1 n is dark and ESC [ ? 9 9 7 ; 2 n is light. */
  lemma SchemeReportIsToken(key: KeyParser)
    ensures IsToken([0x1b, 0x5b, 0x3f, 0x39, 0x39, 0x37, 0x3b, 0x31, 0x6e], HostColorSchemeChanged(Dark), key)
    ensures IsToken([0x1b, 0x5b, 0x3f, 0x39, 0x39, 0x37, 0x3b, 0x32, 0x6e], HostColorSchemeChanged(Light), key)
  {
    hide IsToken;
    assert DARK_REPORT[7] != LIGHT_REPORT[7];
    SchemeReportEvent(DARK_REPORT, Dark, key);
    SchemeReportEvent(LIGHT_REPORT, Light, key);
  }

  lemma SchemeReportEvent(report: bytes, appearance: HostAppearance, key: KeyParser)
    requires ParseHostColorSchemeReport(report) == Some(appearance)
    ensures IsToken(report, HostColorSchemeChanged(appearance), key)
  {
    SchemeReportLength(report);
    SchemeReportIsOnlyThat(report);
    hide CompleteEscapeSequenceLen;
    hide ParseSgrMouse;
    hide ParseDefaultColorResponse;
    hide IsToken;
    EscapeToken(report, key);
  }

  lemma SchemeReportIsOnlyThat(report: bytes)
    requires report == DARK_REPORT || report == LIGHT_REPORT
    ensures ParseDefaultColorResponse(report) == Nothing && report != FOCUS_IN && report != FOCUS_OUT
    ensures |report| > 1 && report[0] == ESC && !(PASTE_START <= report)
    ensures forall i :: 0 <= i < |report| ==> report[i] < 0x80
  {
    assert report[1] != OSC[1] && report[2] != PASTE_START[2];
    assert |report| == 9 && |FOCUS_IN| == 3 && |FOCUS_OUT| == 3;
  }

  lemma SchemeReportLength(report: bytes)
    requires report == DARK_REPORT || report == LIGHT_REPORT
    ensures CompleteEscapeSequenceLen(report) == Some(9)
  {
    var tail := report[2..];
    assert tail[6] == 0x6e;
    FirstWhereIs(tail, IsCsiFinal, 6);
    hide FirstWhere;
  }

  lemma ColorReplyIsToken(kind: DefaultColorKind, color: RgbColor, key: KeyParser)
    ensures IsToken(OscSetDefaultColorSequence(kind, color), HostDefaultColor(DefaultColor(kind, color)), key)
  {
    var reply := OscSetDefaultColorSequence(kind, color);
    SetDefaultColorRoundTrip(kind, color);
    ReplyBytes(kind, color);
    hide OscSetDefaultColorSequence;
    hide ParseDefaultColorResponse;
    var st := |reply| - 2;
    forall i | 0 <= i < st
      ensures !OccursAt(reply, ST, i)
    {
      assert reply[i..i + 2][1] == reply[i + 1];
    }
    assert reply[st..st + 2] == ST;
    FindSubsequenceIs(reply, ST, st);
    assert FirstWhere(reply, IsBel).None?;
    assert CompleteEscapeSequenceLen(reply) == Some(|reply|);
    EscapeToken(reply, key);
  }

  /** A printed colour has its only backslash at the very end and no BEL at all. */
  lemma ReplyBytes(kind: DefaultColorKind, color: RgbColor)
    ensures var reply := OscSetDefaultColorSequence(kind, color);
            && |reply| > 6 && reply[0] == ESC && reply[1] == 0x5d
            && reply[|reply| - 2..] == ST
            && (forall i :: 0 <= i < |reply| ==> reply[i] < 0x80 && !IsBel(reply[i]))
            && (forall i :: 0 <= i < |reply| - 1 ==> reply[i] != 0x5c)
  {
    var text := RgbText(color);
    HexTextBytes(TwoHexDigits(color.r));
    HexTextBytes(TwoHexDigits(color.g));
    HexTextBytes(TwoHexDigits(color.b));
    hide TwoHexDigits;
    var r, g, b := TwoHexDigits(color.r), TwoHexDigits(color.g), TwoHexDigits(color.b);
    assert text == RGB_PREFIX + (r + [SLASH] + (g + [SLASH] + b));
    assert forall i :: 0 <= i < |text| ==> 0x20 <= text[i] < 0x80 && text[i] != 0x5c;
    hide RgbText;
    var reply := OscSetDefaultColorSequence(kind, color);
    assert reply == (OSC + CommandDigits(kind) + [TerminalTheme.SEMICOLON]) + text + ST;
  }

  lemma HexTextBytes(s: bytes)
    requires IsHex(s)
    ensures forall i :: 0 <= i < |s| ==> 0x20 <= s[i] < 0x80 && s[i] != 0x5c
  {}

  lemma CharIsToken(c: bytes, key: KeyParser)
    requires IsChar(c) && c != [ESC] && key(c).Some?
    ensures IsToken(c, Key(key(c).value), key)
  {
    CharFound(c, []);
    assert c + [] == c && c[..|c|] == c;
    assert c[0] == ESC ==> c == [ESC];
    hide FirstCompleteCharLen;
  }

  lemma PasteIsToken(payload: bytes, key: KeyParser)
    requires IsPayload(payload)
    ensures IsToken([0x1b, 0x5b, 0x32, 0x30, 0x30, 0x7e] + payload + [0x1b, 0x5b, 0x32, 0x30, 0x31, 0x7e],
                    Paste(payload), key)
  {
    ClosedPaste(payload, key);
  }

  /** One complete mouse report. */
  predicate IsMouseReport(report: bytes) {
    && CSI_LESS <= report && IsUtf8(report) && ParseSgrMouse(report).Some?
    && FindCsiFinal(report, IsSgrFinal) == Some(|report|)
  }

  /** Whatever a terminal writes as a mouse report is one. */
  lemma WrittenReportIsOne(cb: byte, column: nat, row: nat, final: byte)
    requires 1 <= column <= 65535 && 1 <= row <= 65535 && IsSgrFinal(final) && ParseMouseKind(cb).Some?
    ensures IsMouseReport(MouseReport(cb, column, row, final))
  {
    hide MouseBody;
    hide ParseSgrMouse;
    hide ParseMouseKind;
    var report := MouseReport(cb, column, row, final);
    MouseReportRoundTrip(cb, column, row, final);
    MouseBodyBytes(cb, column, row);
    FramedParts(MouseBody(cb, column, row), final);
    MouseReportLength(MouseBody(cb, column, row), final);
    AsciiIsUtf8(report);
    hide FindCsiFinal;
    assert CompleteEscapeSequenceLen(report) == FindCsiFinal(report, IsSgrFinal) by {
      MouseLength(report);
    }
  }

  lemma MouseLength(report: bytes)
    requires CSI_LESS <= report
    ensures CompleteEscapeSequenceLen(report) == FindCsiFinal(report, IsSgrFinal)
  {
    hide FindCsiFinal;
    assert report[..3] == CSI_LESS;
    assert report[1] == BRACKET;
  }

  /** An ESC in front of a complete mouse report is cut off on its own, whatever follows. */
  lemma EscapeBeforeMouseReport(report: bytes, rest: bytes, key: KeyParser)
    requires IsMouseReport(report)
    ensures CompleteEscapeSequenceLen([ESC] + report + rest) == Some(1)
    ensures ExtractOneEvent([ESC] + report + rest, key) == Some(Extracted(ClassifySequence([ESC], key), 1))
  {
    hide ParseSgrMouse;
    hide ClassifySequence;
    hide IsUtf8;
    var all := [ESC] + report + rest;
    assert all[1..] == report + rest;
    FindCsiFinalExtend(report, IsSgrFinal, rest);
    assert all[1..1 + |report|] == report;
    assert ESC_CSI_LESS <= all by {
      assert all[1..4] == report[..3] == CSI_LESS;
    }
    assert EscBeforeMouse(all) && !EscBeforeBrokenMouse(all);
    hide EscBeforeMouse;
    hide EscBeforeBrokenMouse;
    assert !(PASTE_START <= all) by {
      assert all[1] == ESC;
    }
    assert all[..1] == [ESC];
    AsciiIsUtf8([ESC]);
  }

  // ----- Streams -----

  /** The Escape key pressed right before the mouse moves. */
  predicate IsEscapeAt(tokens: seq<bytes>, events: seq<RawInputEvent>, i: int) {
    && 0 <= i < |tokens| - 1 && |events| == |tokens|
    && tokens[i] == [ESC] && events[i] == Key(PlainEscape) && IsMouseReport(tokens[i + 1])
  }

  /** Each token is one complete event, or an Escape key in front of a mouse report. */
  predicate AreTokens(tokens: seq<bytes>, events: seq<RawInputEvent>, key: KeyParser) {
    && |tokens| == |events|
    && forall i :: 0 <= i < |tokens| ==> IsToken(tokens[i], events[i], key) || IsEscapeAt(tokens, events, i)
  }

  lemma TokenTurn(s: Framer, token: bytes, event: RawInputEvent, rest: bytes, key: KeyParser)
    requires IsIdle(s) && IsToken(token, event, key) && s.buffer == token + rest
    ensures DrainTurn(s, key) == Again([token], NoteEvent(s, event).(buffer := rest))
    ensures IsIdle(NoteEvent(s, event).(buffer := rest))
  {
    hide ExtractOneEvent;
    ExtractOneEventExtend(token, rest, key);
    assert s.buffer[..|token|] == token && s.buffer[|token|..] == rest;
  }

  lemma EscapeTurn(s: Framer, report: bytes, rest: bytes, key: KeyParser)
    requires IsIdle(s) && IsMouseReport(report) && s.buffer == [ESC] + (report + rest)
    ensures var t := NoteEvent(s, ClassifySequence([ESC], key)).(buffer := report + rest);
            DrainTurn(s, key) == Again([[ESC]], t) && IsIdle(t)
  {
    hide IsMouseReport;
    hide ExtractOneEvent;
    hide ClassifySequence;
    assert s.buffer == [ESC] + report + rest;
    EscapeBeforeMouseReport(report, rest, key);
    assert s.buffer[..1] == [ESC] && s.buffer[1..] == report + rest;
  }

  lemma TokensRest(tokens: seq<bytes>, events: seq<RawInputEvent>, key: KeyParser)
    requires tokens != [] && AreTokens(tokens, events, key)
    ensures AreTokens(tokens[1..], events[1..], key)
  {
    hide IsToken;
    hide IsMouseReport;
    forall i | 0 <= i < |tokens| - 1
      ensures IsToken(tokens[1..][i], events[1..][i], key) || IsEscapeAt(tokens[1..], events[1..], i)
    {
      assert IsToken(tokens[i + 1], events[i + 1], key) || IsEscapeAt(tokens, events, i + 1);
    }
  }

  /** The first token comes out alone and leaves an idle framer with the rest. */
  lemma FirstTurn(s: Framer, tokens: seq<bytes>, events: seq<RawInputEvent>, key: KeyParser) returns (t: Framer)
    requires IsIdle(s) && tokens != [] && AreTokens(tokens, events, key) && s.buffer == Concat(tokens)
    ensures DrainTurn(s, key) == Again([tokens[0]], t) && IsIdle(t) && t.buffer == Concat(tokens[1..])
  {
    hide DrainTurn;
    hide IsToken;
    hide IsMouseReport;
    hide ClassifySequence;
    var rest := Concat(tokens[1..]);
    if IsToken(tokens[0], events[0], key) {
      TokenTurn(s, tokens[0], events[0], rest, key);
      t := NoteEvent(s, events[0]).(buffer := rest);
    } else {
      assert IsEscapeAt(tokens, events, 0);
      assert rest == tokens[1] + Concat(tokens[1..][1..]);
      EscapeTurn(s, tokens[1], Concat(tokens[1..][1..]), key);
      t := NoteEvent(s, ClassifySequence([ESC], key)).(buffer := rest);
    }
  }

  lemma {:induction false} TokensDrain(s: Framer, tokens: seq<bytes>, events: seq<RawInputEvent>, key: KeyParser)
    requires IsIdle(s) && AreTokens(tokens, events, key) && s.buffer == Concat(tokens)
    ensures var o := DrainAvailableChunks(s, key); o.chunks == tokens && o.framer.buffer == [] && IsIdle(o.framer)
    decreases |tokens|
  {
    hide DrainTurn;
    hide IsToken;
    hide IsEscapeAt;
    if tokens == [] {
      EmptyStops(s, key);
      LastTurn(s, s, key);
    } else {
      var t := FirstTurn(s, tokens, events, key);
      TokensRest(tokens, events, key);
      TokensDrain(t, tokens[1..], events[1..], key);
      assert [tokens[0]] + tokens[1..] == tokens;
    }
  }

  /** Any stream of complete events, with Escape keys in front of mouse reports, cut into reads
      anywhere, comes out one chunk per event and as exactly those events. */
  lemma StreamsComeThrough(s: Framer, pieces: seq<bytes>, tokens: seq<bytes>,
                           events: seq<RawInputEvent>, key: KeyParser)
    requires IsIdle(s) && s.buffer == [] && pieces != []
    requires AreTokens(tokens, events, key) && Concat(pieces) == Concat(tokens)
    ensures var o := PushAll(s, pieces, key);
            o.chunks == tokens && o.framer.buffer == [] && EventsFromChunks(o.chunks, key) == events
  {
    hide DrainTurn;
    hide AreTokens;
    AnySplitting(s, pieces, key);
    var fed := Feed(s, Concat(pieces));
    assert fed.buffer == Concat(tokens);
    TokensDrain(fed, tokens, events, key);
    TokensAreEvents(tokens, events, key);
    hide DrainAvailableChunks;
  }

  lemma TokenIsNotEscape(event: RawInputEvent, key: KeyParser)
    ensures !IsToken([ESC], event, key)
  {}

  lemma {:induction false} TokensAreEvents(tokens: seq<bytes>, events: seq<RawInputEvent>, key: KeyParser)
    requires AreTokens(tokens, events, key)
    ensures EventsFromChunks(tokens, key) == events
    decreases |tokens|
  {
    hide ExtractOneEvent;
    if tokens != [] {
      TokensRest(tokens, events, key);
      TokensAreEvents(tokens[1..], events[1..], key);
      TokenIsNotEscape(events[0], key);
      assert IsToken(tokens[0], events[0], key) || IsEscapeAt(tokens, events, 0);
      assert [events[0]] + events[1..] == events;
    }
  }

  // ----- Colour replies split at their ESC -----

  /** With nothing else waiting, a timeout holds a lone ESC exactly when a colour reply is
      awaited and it has not been held already. */
  lemma LoneEscapeHeldExactly(s: Framer, key: KeyParser)
    requires IsIdle(s) && s.buffer == [ESC]
    ensures var o := FlushTimeout(s, key);
            if s.hostColorRepliesAwaited > 0 && !s.heldPendingColorEsc then
              o == Outcome([], s.(heldPendingColorEsc := true))
            else o.chunks == [[ESC]] && o.framer.buffer == [] && IsWindow(o.framer)
  {
    assert DrainTurn(s, key) == Stop(s);
    hide DrainTurn;
    LastTurn(s, s, key);
    assert [] + [[ESC]] == [[ESC]];
  }

  lemma EscapeWaits(s: Framer, key: KeyParser)
    requires IsIdle(s) && s.buffer == []
    ensures Push(s, [ESC], key) == Outcome([], s.(buffer := [ESC]))
  {
    var waiting := s.(buffer := [ESC]);
    assert Feed(s, [ESC]) == waiting;
    assert DrainTurn(waiting, key) == Stop(waiting);
    LastTurn(waiting, waiting, key);
  }

  /** A token whose first byte was waiting comes out when the rest arrives. */
  lemma TokenCompletes(s: Framer, token: bytes, event: RawInputEvent, key: KeyParser)
    requires IsIdle(s) && IsToken(token, event, key) && token != [] && s.buffer == token[..1]
    ensures Push(s, token[1..], key) == Outcome([token], NoteEvent(s, event).(buffer := []))
  {
    hide IsToken;
    hide DrainTurn;
    hide NoteEvent;
    var fed := Feed(s, token[1..]);
    assert fed.buffer == token + [] by {
      assert token[..1] + token[1..] == token;
    }
    TokenTurn(fed, token, event, [], key);
    var done := NoteEvent(fed, event).(buffer := []);
    EmptyStops(done, key);
    LastTurn(done, done, key);
    assert [token] + [] == [token];
    NoteIgnoresBuffer(s, fed, event);
  }

  lemma NoteIgnoresBuffer(s: Framer, t: Framer, event: RawInputEvent)
    requires s.(buffer := []) == t.(buffer := [])
    ensures NoteEvent(s, event).(buffer := []) == NoteEvent(t, event).(buffer := [])
  {}

  lemma RunThree(s: Framer, a: Op, b: Op, c: Op, key: KeyParser)
    ensures var x := Apply(s, a, key);
            var y := Apply(x.framer, b, key);
            var z := Apply(y.framer, c, key);
            Run(s, [a, b, c], key) == Outcome(x.chunks + (y.chunks + z.chunks), z.framer)
  {
    hide Apply;
    var x := Apply(s, a, key);
    var y := Apply(x.framer, b, key);
    var z := Apply(y.framer, c, key);
    assert [a, b, c][1..] == [b, c] && [b, c][1..] == [c] && [c][1..] == [];
    assert z.chunks + [] == z.chunks;
    assert Run(y.framer, [c], key) == z;
  }

  /** A reply cut behind its ESC is put together again although a timeout came in between, and
      counts as one of the awaited replies. */
  lemma SplitColorReplyStitches(s: Framer, kind: DefaultColorKind, color: RgbColor, key: KeyParser)
    requires IsIdle(s) && s.buffer == [] && s.hostColorRepliesAwaited > 0 && !s.heldPendingColorEsc
    ensures var reply := OscSetDefaultColorSequence(kind, color);
            var o := Run(s, [PushBytes([ESC]), Timeout, PushBytes(reply[1..])], key);
            && o.chunks == [reply]
            && o.framer == s.(hostColorRepliesAwaited := s.hostColorRepliesAwaited - 1)
  {
    var reply := OscSetDefaultColorSequence(kind, color);
    ReplyBytes(kind, color);
    ColorReplyIsToken(kind, color, key);
    hide OscSetDefaultColorSequence;
    hide IsToken;
    var waiting := s.(buffer := [ESC]);
    EscapeWaits(s, key);
    LoneEscapeHeldExactly(waiting, key);
    var held := waiting.(heldPendingColorEsc := true);
    assert reply[..1] == [ESC];
    TokenCompletes(held, reply, HostDefaultColor(DefaultColor(kind, color)), key);
    hide Push;
    hide FlushTimeout;
    RunThree(s, PushBytes([ESC]), Timeout, PushBytes(reply[1..]), key);
    hide Run;
  }
}

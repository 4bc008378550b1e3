/** Both exceptions to read-boundary independence happen, in states that a run reaches. */
module BoundaryExamples {
  import opened Options
  import opened Bytes
  import opened Utf8
  import opened SgrMouse
  import opened RawInput
  import opened ByteFramer
  import opened ReadBoundaries

  lemma RunTwo(s: Framer, first: Op, second: Op, key: KeyParser)
    ensures Run(s, [first, second], key).framer == Apply(Apply(s, first, key).framer, second, key).framer
  {
    hide Apply;
    var ops := [first, second];
    var t := Apply(s, first, key).framer;
    assert ops[1..] == [second] && [second][1..] == [];
    assert Run(t, [second], key).framer == Apply(t, second, key).framer;
  }

  /** A timeout on input that draining leaves alone. */
  lemma PushThenTimeout(data: bytes, key: KeyParser)
    requires DrainTurn(INITIAL.(buffer := data), key) == Stop(INITIAL.(buffer := data))
    ensures Run(INITIAL, [PushBytes(data), Timeout], key).framer
            == TimeoutOnBuffer(INITIAL.(buffer := data), key).framer
  {
    hide DrainTurn;
    hide TimeoutOnBuffer;
    var s := INITIAL.(buffer := data);
    assert Feed(INITIAL, data) == s by {
      assert [] + data == data;
    }
    LastTurn(s, s, key);
    hide DrainAvailableChunks;
    RunTwo(INITIAL, PushBytes(data), Timeout, key);
    hide Run;
  }

  /** An open mouse report as long as the allowance: everything counted, nothing dropped. */
  const LONG_REPORT: bytes := CSI_LESS + seq(125, _ => 0x30)

  lemma LongReportReached(key: KeyParser)
    ensures Run(INITIAL, [PushBytes(LONG_REPORT), Timeout], key).framer
            == INITIAL.(discardUntil := Some(OrphanedSgrMouseTail), discardedTailBytes := MAX_DISCARDED_TAIL)
  {
    var s := INITIAL.(buffer := LONG_REPORT);
    assert LONG_REPORT[..3] == CSI_LESS && |LONG_REPORT| == 128;
    assert forall i :: 3 <= i < 128 ==> LONG_REPORT[i] == 0x30;
    assert LONG_REPORT[1] == 0x5b && LONG_REPORT[2] == 0x3c;
    assert FirstWhere(LONG_REPORT[2..], IsSgrFinal).None?;
    assert CompleteEscapeSequenceLen(LONG_REPORT).None?;
    assert !(PASTE_START <= LONG_REPORT);
    PushThenTimeout(LONG_REPORT, key);
    hide CompleteEscapeSequenceLen;
    assert AllTailBytes(LONG_REPORT[3..]);
  }

  lemma LoneEscapeReached(key: KeyParser)
    ensures Run(INITIAL, [PushBytes([ESC]), Timeout], key).framer == INITIAL.(loneEscapeRecentlyFlushed := true)
  {
    assert DrainTurn(INITIAL.(buffer := [ESC]), key) == Stop(INITIAL.(buffer := [ESC]));
    PushThenTimeout([ESC], key);
    hide DrainTurn;
  }

  /** After an open mouse report of 128 bytes and a timeout, a digit and a letter read together are
      both dropped; read apart the letter survives. */
  lemma OverflowExample(key: KeyParser)
    ensures var s := Run(INITIAL, [PushBytes(LONG_REPORT), Timeout], key).framer;
            PushAll(s, [[0x30], [0x78]], key) != Push(s, [0x30] + [0x78], key)
  {
    LongReportReached(key);
    hide Run;
    var s := INITIAL.(discardUntil := Some(OrphanedSgrMouseTail), discardedTailBytes := MAX_DISCARDED_TAIL);
    assert s.buffer + [0x30] == [0x30];
    assert TailOverflows(s, [0x30]);
    ReadBoundaryExact(s, [0x30], [0x78], key);
  }

  /** After a lone ESC and a timeout the mouse parser takes a plus sign that the kept window does
      not, so the report "[<+0;1;1M" is dropped only when it is read in one piece. */
  lemma PlusSignExample(key: KeyParser)
    ensures var s := Run(INITIAL, [PushBytes([ESC]), Timeout], key).framer;
            var a, b: bytes := [0x5b, 0x3c, 0x2b], [0x30, 0x3b, 0x31, 0x3b, 0x31, 0x4d];
            PushAll(s, [a, b], key) != Push(s, a + b, key)
  {
    LoneEscapeReached(key);
    hide Run;
    hide CompleteOrphanedTail;
    hide IsIncompleteOrphanedTail;
    hide DrainAvailableChunks;
    hide FirstWhere;
    var s := INITIAL.(loneEscapeRecentlyFlushed := true);
    var a, b: bytes := [0x5b, 0x3c, 0x2b], [0x30, 0x3b, 0x31, 0x3b, 0x31, 0x4d];
    assert s.buffer + a == a && a + b == PLUS_REPORT;
    PlusReportIsComplete();
    PlusLeavesWindow();
    ReadBoundaryExact(s, a, b, key);
  }

  lemma PlusLeavesWindow()
    ensures !IsIncompleteOrphanedTail([0x5b, 0x3c, 0x2b]) && FirstWhere([0x5b, 0x3c, 0x2b], IsSgrFinal).None?
  {
    var a: bytes := [0x5b, 0x3c, 0x2b];
    assert a[2..][0] == 0x2b;
  }

  lemma PlusReportIsComplete()
    ensures CompleteOrphanedTail(PLUS_REPORT) == Some(9)
  {
    hide ParseSgrMouse;
    hide IsUtf8;
    PlusReportParses();
    FirstWhereIs(PLUS_REPORT, IsSgrFinal, 8);
    assert PLUS_REPORT[..9] == PLUS_REPORT;
  }

  const PLUS_REPORT: bytes := [0x5b, 0x3c, 0x2b, 0x30, 0x3b, 0x31, 0x3b, 0x31, 0x4d]

  lemma PlusReportParses()
    ensures IsUtf8([ESC] + PLUS_REPORT) && ParseSgrMouse([ESC] + PLUS_REPORT).Some?
  {
    hide SplitOn;
    hide FromUtf8;
    var sequence := [ESC] + PLUS_REPORT;
    AsciiIsUtf8(sequence);
    var plus, one: bytes := [0x2b, 0x30], [0x31];
    assert sequence[..3] == CSI_LESS;
    assert sequence[3..9] == plus + [SgrMouse.SEMICOLON] + (one + [SgrMouse.SEMICOLON] + one);
    PlusReportSplits();
    PlusReportNumbers();
    hide ParseUnsigned;
  }

  lemma PlusReportSplits()
    ensures var plus, one: bytes := [0x2b, 0x30], [0x31];
            SplitOn(plus + [SgrMouse.SEMICOLON] + (one + [SgrMouse.SEMICOLON] + one), SgrMouse.SEMICOLON)
                == [plus, one, one]
  {
    hide SplitOn;
    var plus, one: bytes := [0x2b, 0x30], [0x31];
    SplitAtSeparator(plus, SgrMouse.SEMICOLON, one + [SgrMouse.SEMICOLON] + one);
    SplitAtSeparator(one, SgrMouse.SEMICOLON, one);
    SplitAtSeparator(one, SgrMouse.SEMICOLON, []);
  }

  lemma PlusReportNumbers()
    ensures ParseUnsigned([0x2b, 0x30], 255) == Some(0) && ParseUnsigned([0x31], 65535) == Some(1)
  {
    var plus, zero, one: bytes := [0x2b, 0x30], [0x30], [0x31];
    assert plus[1..] == zero;
    assert zero[..0] == [] && one[..0] == [];
    assert DecimalValue([]) == 0;
    assert DecimalValue(zero) == 0;
    assert DecimalValue(one) == 1;
  }
}

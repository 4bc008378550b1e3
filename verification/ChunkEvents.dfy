/** Chunks are read a second time to make events: which events survive that, exactly. */
module ChunkEvents {
  import opened Options
  import opened Bytes
  import opened Utf8
  import opened SgrMouse
  import opened TerminalTheme
  import opened RawInput
  import opened ByteFramer
  import opened ExtractionStability
  import opened EventStreams
  import opened TimeoutShapes

  /** One ESC after another. */
  predicate AreEscapes(c: bytes) {
    forall i :: 0 <= i < |c| ==> c[i] == 0x1b
  }

  // ----- Sequences stand alone -----

  lemma FinalStandsAlone(b: bytes, isFinal: byte -> bool)
    requires FindCsiFinal(b, isFinal).Some?
    ensures FindCsiFinal(b[..FindCsiFinal(b, isFinal).value], isFinal).Some?
  {
    var n := FindCsiFinal(b, isFinal).value;
    var c := b[..n];
    assert c[2..][n - 3] == b[2..][n - 3];
  }

  lemma StStandsAlone(b: bytes, n: nat)
    requires 2 <= n <= |b| && FindSubsequence(b, ST) == Some(n - 2)
    ensures FindSubsequence(b[..n], ST).Some?
    ensures |b| > 1 && b[0] == ESC && b[1] != 0x5c && b[1] != ESC ==> n > 2
  {
    assert b == b[..n] + b[n..];
    OccursAtExtend(b[..n], ST, b[n..], n - 2);
    assert b[n - 2..n] == [b[n - 2], b[n - 1]];
  }

  lemma BelStandsAlone(b: bytes, n: nat)
    requires 1 <= n <= |b| && FirstWhere(b, IsBel) == Some(n - 1)
    ensures FirstWhere(b[..n], IsBel).Some?
    ensures |b| > 1 && b[0] != BEL && b[1] != BEL ==> n > 2
  {
    assert IsBel(b[n - 1]) && b[..n][n - 1] == b[n - 1];
  }

  lemma TerminatorStandsAlone(b: bytes, family: ControlStringFamily)
    requires FamilyOf(b) == Some(family) && Terminator(b, family).Some?
    ensures var n := Terminator(b, family).value; n > 2 && Terminator(b[..n], family).Some?
  {
    var n := Terminator(b, family).value;
    if After(FindSubsequence(b, ST), 2) == Some(n) {
      StStandsAlone(b, n);
    } else {
      BelStandsAlone(b, n);
    }
    hide FirstWhere;
    hide FindSubsequence;
  }

  lemma SingleStandsAlone(b: bytes)
    requires |b| > 1 && b[0] == ESC && b[1] != ESC
    requires CompleteEscapeSequenceLen(b).Some?
    ensures var c := b[..CompleteEscapeSequenceLen(b).value]; |c| > 1 && CompleteEscapeSequenceLen(c) == Some(|c|)
  {
    hide CompleteEscapeSequenceLen;
    var n := CompleteEscapeSequenceLen(b).value;
    var c := b[..n];
    assert b == c + b[n..];
    SingleHasLength(b);
    SingleEscLenExtend(c, b[n..]);
  }

  lemma SingleHasLength(b: bytes)
    requires |b| > 1 && b[0] == ESC && b[1] != ESC
    requires CompleteEscapeSequenceLen(b).Some?
    ensures var c := b[..CompleteEscapeSequenceLen(b).value]; |c| > 1 && CompleteEscapeSequenceLen(c).Some?
  {
    hide FindCsiFinal;
    hide Terminator;
    hide IsUtf8;
    var n := CompleteEscapeSequenceLen(b).value;
    var c := b[..n];
    if b[1] == BRACKET {
      assert n >= 3 && c[..3] == b[..3];
      FinalStandsAlone(b, if CSI_LESS <= b then IsSgrFinal else IsCsiFinal);
    } else if FamilyOf(b).Some? {
      TerminatorStandsAlone(b, FamilyOf(b).value);
      assert c[0] == b[0] && c[1] == b[1];
    } else if SS3 <= b {
      assert n == 3 && c[..2] == b[..2] == SS3;
    } else {
      assert c[1..n] == b[1..n];
    }
  }

  /** A sequence cut off where it ends has the same length, unless it is nothing but ESCs. */
  lemma {:induction false} SequencesStandAlone(b: bytes)
    requires b != [] && b[0] == ESC && CompleteEscapeSequenceLen(b).Some?
    ensures var c := b[..CompleteEscapeSequenceLen(b).value];
            AreEscapes(c) || CompleteEscapeSequenceLen(c) == Some(|c|)
    decreases |b|
  {
    hide CompleteEscapeSequenceLen;
    hide EscBeforeMouse;
    hide EscBeforeBrokenMouse;
    var n := CompleteEscapeSequenceLen(b).value;
    var c := b[..n];
    if |b| > 1 && b[1] == ESC {
      DoubledEscLen(b);
      if !EscBeforeMouse(b) {
        SequencesStandAlone(b[1..]);
        assert c[1..] == b[1..][..n - 1] && c[1] == ESC;
        if !AreEscapes(c[1..]) {
          assert b == c + b[n..];
          DoubledStandsAlone(b, c, b[n..]);
        } else {
          assert forall i :: 1 <= i < |c| ==> c[i] == c[1..][i - 1];
        }
      }
    } else {
      OneEscIsOpen(b);
      SingleStandsAlone(b);
    }
  }

  lemma OneEscIsOpen(b: bytes)
    requires b != [] && b[0] == ESC && CompleteEscapeSequenceLen(b).Some?
    ensures |b| > 1
  {}

  lemma NoMouseAhead(c: bytes)
    requires !(ESC_CSI_LESS <= c)
    ensures !EscBeforeMouse(c) && !EscBeforeBrokenMouse(c)
  {}

  lemma MouseAhead(c: bytes)
    requires ESC_CSI_LESS <= c
    ensures |c| > 1 && CSI_LESS <= c[1..]
  {
    assert c[1..][..3] == c[1..4] == CSI_LESS;
  }

  lemma DoubledStandsAlone(b: bytes, c: bytes, rest: bytes)
    requires |c| > 1 && b == c + rest && c[0] == c[1] == ESC
    requires !EscBeforeMouse(b) && !EscBeforeBrokenMouse(b)
    requires CompleteEscapeSequenceLen(c[1..]) == Some(|c| - 1)
    ensures CompleteEscapeSequenceLen(c) == Some(|c|)
  {
    hide CompleteEscapeSequenceLen;
    hide FindCsiFinal;
    hide EscBeforeMouse;
    hide EscBeforeBrokenMouse;
    DoubledEscLen(c);
    if ESC_CSI_LESS <= c {
      MouseAhead(c);
      MouseLength(c[1..]);
      MouseAheadExtend(c, rest);
    } else {
      NoMouseAhead(c);
    }
  }

  // ----- Events read again -----

  /** Whatever event the buffer yields, its chunk yields again, but for a chunk of ESCs: one alone is the
      Escape key, more than one are no event. */
  lemma ChunksReadAgain(b: bytes, key: KeyParser)
    requires ExtractOneEvent(b, key).Some?
    ensures var e := ExtractOneEvent(b, key).value;
            var c := b[..e.consumed];
            EventsFromChunks([c], key) ==
            if c == [0x1b] then [Key(PlainEscape)] else if AreEscapes(c) then [] else [e.event]
  {
    var e := ExtractOneEvent(b, key).value;
    var c := b[..e.consumed];
    OneChunkEvents(c, key);
    if PASTE_START <= b {
      PasteReadsAgain(b, key);
    } else if b[0] == ESC {
      SequenceReadsAgain(b, key);
    } else {
      CharReadsAgain(b, key);
    }
    hide ExtractOneEvent;
  }

  lemma PasteReadsAgain(b: bytes, key: KeyParser)
    requires PASTE_START <= b && ExtractOneEvent(b, key).Some?
    ensures var e := ExtractOneEvent(b, key).value;
            ExtractOneEvent(b[..e.consumed], key) == Some(e) && !AreEscapes(b[..e.consumed])
  {
    var e := ExtractOneEvent(b, key).value;
    var c, rest := b[..e.consumed], b[e.consumed..];
    assert b == c + rest;
    var end := FindSubsequence(b, PASTE_END).value;
    PasteEndAfterStart(b);
    OccursAtExtend(c, PASTE_END, rest, end);
    assert FindSubsequence(c, PASTE_END).Some?;
    FindSubsequenceExtend(c, PASTE_END, rest);
    assert c[..6] == b[..6] == PASTE_START && c[6..end] == b[6..end];
    assert c[1] == PASTE_START[1];
    hide IsUtf8;
  }

  lemma SequenceReadsAgain(b: bytes, key: KeyParser)
    requires b != [] && b[0] == ESC && !(PASTE_START <= b) && ExtractOneEvent(b, key).Some?
    ensures var e := ExtractOneEvent(b, key).value;
            var c := b[..e.consumed];
            if AreEscapes(c) then ExtractOneEvent(c, key) == None else ExtractOneEvent(c, key) == Some(e)
  {
    SequencesStandAlone(b);
    var n := CompleteEscapeSequenceLen(b).value;
    var c := b[..n];
    assert c[..n] == c;
    assert !(PASTE_START <= c) by {
      if |c| >= 6 {
        assert c[..6] == b[..6];
      }
    }
    if AreEscapes(c) {
      EscapesAreOpen(c);
    }
    hide CompleteEscapeSequenceLen;
    hide IsUtf8;
    hide ClassifySequence;
  }

  lemma {:induction false} EscapesAreOpen(c: bytes)
    requires c != [] && AreEscapes(c)
    ensures CompleteEscapeSequenceLen(c) == None
    decreases |c|
  {
    if |c| > 1 {
      EscapesAreOpen(c[1..]);
      assert |c| >= 4 ==> c[2] == ESC && ESC_CSI_LESS[2] == 0x5b;
    }
  }

  lemma CharReadsAgain(b: bytes, key: KeyParser)
    requires b != [] && b[0] != ESC && ExtractOneEvent(b, key).Some?
    ensures var e := ExtractOneEvent(b, key).value;
            ExtractOneEvent(b[..e.consumed], key) == Some(e) && !AreEscapes(b[..e.consumed])
  {
    var n := FirstCompleteCharLen(b).value;
    var c := b[..n];
    CharFound(c, []);
    assert c + [] == c && c[..n] == c && c[0] == b[0];
    hide FirstCompleteCharLen;
  }

  lemma TwoEscapesBytes(report: bytes, rest: bytes)
    requires report != [] && report[0] == 0x1b
    ensures var b := [0x1b, 0x1b] + report + rest;
            && |b| > 2 && b[0] == b[1] == 0x1b && b[1..] == [0x1b] + report + rest && b[..2] == [0x1b, 0x1b]
            && !(PASTE_START <= b) && !(ESC_CSI_LESS <= b)
  {
    var b := [0x1b, 0x1b] + report + rest;
    assert b[2] == 0x1b && ESC_CSI_LESS[2] == 0x5b && PASTE_START[1] == 0x5b;
  }

  lemma TwoEscapesLength(report: bytes, rest: bytes, key: KeyParser)
    requires IsMouseReport(report)
    ensures var b := [0x1b, 0x1b] + report + rest;
            CompleteEscapeSequenceLen(b) == Some(2) && !(PASTE_START <= b) && b[..2] == [0x1b, 0x1b]
  {
    assert report[0] == 0x1b;
    hide IsMouseReport;
    hide CompleteEscapeSequenceLen;
    hide EscBeforeMouse;
    hide EscBeforeBrokenMouse;
    hide ExtractOneEvent;
    TwoEscapesBytes(report, rest);
    EscapeBeforeMouseReport(report, rest, key);
    NoMouseAhead([0x1b, 0x1b] + report + rest);
    DoubledEscLen([0x1b, 0x1b] + report + rest);
  }

  /** Two ESCs right before a mouse report come out together, and make no event. */
  lemma TwoEscapesAreLost(report: bytes, rest: bytes, key: KeyParser)
    requires IsMouseReport(report)
    ensures ExtractOneEvent([0x1b, 0x1b] + report + rest, key)
            == Some(Extracted(ClassifySequence([0x1b, 0x1b], key), 2))
    ensures EventsFromChunks([[0x1b, 0x1b]], key) == []
  {
    hide CompleteEscapeSequenceLen;
    hide ClassifySequence;
    hide IsMouseReport;
    hide EventsFromChunks;
    TwoEscapesLength(report, rest, key);
    AsciiIsUtf8([0x1b, 0x1b]);
    hide IsUtf8;
    ChunksReadAgain([0x1b, 0x1b] + report + rest, key);
  }
}

/** An event that is complete stays the same event when more bytes arrive behind it. */
module ExtractionStability {
  import opened Options
  import opened Bytes
  import opened Utf8
  import opened SgrMouse
  import opened TerminalTheme
  import opened RawInput

  lemma FindCsiFinalExtend(b: bytes, isFinal: byte -> bool, more: bytes)
    requires FindCsiFinal(b, isFinal).Some?
    ensures FindCsiFinal(b + more, isFinal) == FindCsiFinal(b, isFinal)
  {
    assert (b + more)[2..] == b[2..] + more;
    FirstWhereExtend(b[2..], isFinal, more);
  }

  lemma FindSubsequenceNotLater(b: bytes, needle: bytes, more: bytes)
    requires |needle| > 0
    requires FindSubsequence(b, needle).None? && FindSubsequence(b + more, needle).Some?
    ensures FindSubsequence(b + more, needle).value + |needle| > |b|
  {
    var i := FindSubsequence(b + more, needle).value;
    if i + |needle| <= |b| {
      OccursAtExtend(b, needle, more, i);
    }
  }

  lemma TerminatorExtend(b: bytes, family: ControlStringFamily, more: bytes)
    requires Terminator(b, family).Some?
    ensures Terminator(b + more, family) == Terminator(b, family)
  {
    match family
    case StTerminated => FindSubsequenceExtend(b, ST, more);
    case HostColorSchemeCsi => FirstWhereExtend(b, IsReportEnd, more);
    case OrphanedSgrMouseTail => FirstWhereExtend(b, IsSgrFinal, more);
    case Osc =>
      if FindSubsequence(b, ST).Some? {
        FindSubsequenceExtend(b, ST, more);
      } else if FindSubsequence(b + more, ST).Some? {
        FindSubsequenceNotLater(b, ST, more);
      }
      if FirstWhere(b, IsBel).Some? {
        FirstWhereExtend(b, IsBel, more);
      } else {
        assert forall i :: 0 <= i < |b| ==> b[i] == (b + more)[i];
      }
  }

  lemma SingleEscLenExtend(b: bytes, more: bytes)
    requires |b| > 1 && b[0] == ESC && b[1] != ESC
    requires CompleteEscapeSequenceLen(b).Some?
    ensures CompleteEscapeSequenceLen(b + more) == CompleteEscapeSequenceLen(b)
  {
    hide FindCsiFinal;
    hide Terminator;
    hide IsUtf8;
    var all := b + more;
    assert all[1] == b[1];
    if b[1] == BRACKET {
      assert all[..3] == b[..3];
      FindCsiFinalExtend(b, if CSI_LESS <= b then IsSgrFinal else IsCsiFinal, more);
    } else if ControlStringOf(b).Some? {
      TerminatorExtend(b, FamilyOf(b).value, more);
    } else if !(SS3 <= b) {
      var w := LeadingBitsWidth(b[1]).value;
      assert all[1..1 + w] == b[1..1 + w];
    }
  }

  lemma {:induction false} CompleteEscapeSequenceLenExtend(b: bytes, more: bytes)
    requires b != [] && b[0] == ESC
    requires CompleteEscapeSequenceLen(b).Some?
    ensures CompleteEscapeSequenceLen(b + more) == CompleteEscapeSequenceLen(b)
    decreases |b|
  {
    if b[1] == ESC {
      DoubledEscExtend(b, more);
      assert (b + more)[1..] == b[1..] + more;
      DoubledEscLen(b);
      DoubledEscLen(b + more);
      hide CompleteEscapeSequenceLen;
      if !EscBeforeMouse(b) {
        CompleteEscapeSequenceLenExtend(b[1..], more);
      }
    } else {
      SingleEscLenExtend(b, more);
    }
  }

  lemma DoubledEscLen(b: bytes)
    requires |b| > 1 && b[0] == b[1] == ESC
    ensures CompleteEscapeSequenceLen(b) ==
            if EscBeforeBrokenMouse(b) then None
            else if EscBeforeMouse(b) then Some(1)
            else After(CompleteEscapeSequenceLen(b[1..]), 1)
  {
    hide EscBeforeMouse;
    hide EscBeforeBrokenMouse;
  }

  lemma MouseAheadExtend(b: bytes, more: bytes)
    requires ESC_CSI_LESS <= b && FindCsiFinal(b[1..], IsSgrFinal).Some?
    ensures EscBeforeMouse(b + more) == EscBeforeMouse(b)
    ensures EscBeforeBrokenMouse(b + more) == EscBeforeBrokenMouse(b)
  {
    hide FindCsiFinal;
    hide ParseSgrMouse;
    hide IsUtf8;
    var all := b + more;
    assert all[..4] == b[..4];
    assert all[1..] == b[1..] + more;
    FindCsiFinalExtend(b[1..], IsSgrFinal, more);
    var n := FindCsiFinal(b[1..], IsSgrFinal).value;
    assert all[1..1 + n] == b[1..1 + n];
  }

  lemma NoMouseAheadExtend(b: bytes, more: bytes)
    requires !(ESC_CSI_LESS <= b) && !(b <= ESC_CSI_LESS)
    ensures !(ESC_CSI_LESS <= b + more)
  {
    var all := b + more;
    if |b| < 4 {
      assert all[..|b|] == b;
    } else {
      assert all[..4] == b[..4];
    }
  }

  /** The look-ahead past a doubled ESC is settled once the buffer yields a length. */
  lemma DoubledEscExtend(b: bytes, more: bytes)
    requires |b| > 1 && b[0] == b[1] == ESC
    requires CompleteEscapeSequenceLen(b).Some?
    ensures EscBeforeMouse(b + more) == EscBeforeMouse(b)
    ensures EscBeforeBrokenMouse(b + more) == EscBeforeBrokenMouse(b)
  {
    hide CompleteEscapeSequenceLen;
    hide FindCsiFinal;
    hide IsUtf8;
    hide ParseSgrMouse;
    DoubledEscOpen(b);
    if ESC_CSI_LESS <= b {
      MouseAheadExtend(b, more);
    } else {
      NoMouseAheadExtend(b, more);
    }
  }

  lemma DoubledEscOpen(b: bytes)
    requires |b| > 1 && b[0] == b[1] == ESC
    ensures |b| < 4 && b <= ESC_CSI_LESS ==> CompleteEscapeSequenceLen(b).None?
    ensures ESC_CSI_LESS <= b && FindCsiFinal(b[1..], IsSgrFinal).None? ==> CompleteEscapeSequenceLen(b).None?
  {
    var tail := b[1..];
    if |b| < 4 && b <= ESC_CSI_LESS {
      assert |tail| > 1 ==> b[2] == (ESC_CSI_LESS)[2] == BRACKET;
      assert CompleteEscapeSequenceLen(tail).None?;
    } else if ESC_CSI_LESS <= b {
      assert tail[..3] == CSI_LESS;
      assert tail[1] == BRACKET;
    }
  }

  lemma PastePrefixIsOpen(b: bytes)
    requires b != [] && b < PASTE_START
    ensures CompleteEscapeSequenceLen(b).None?
  {
    assert forall i :: 0 <= i < |b| ==> b[i] == PASTE_START[i];
    if |b| > 2 {
      assert FindCsiFinal(b, IsCsiFinal).None?;
    }
  }

  lemma PasteStartNotLater(b: bytes, more: bytes)
    requires b != [] && b[0] == ESC && CompleteEscapeSequenceLen(b).Some?
    ensures PASTE_START <= b + more ==> PASTE_START <= b
  {
    if PASTE_START <= b + more {
      if |b| < 6 {
        assert b == (b + more)[..|b|] == PASTE_START[..|b|];
        PastePrefixIsOpen(b);
      } else {
        assert (b + more)[..6] == b[..6];
      }
    }
  }

  lemma ExtractOneEventExtend(b: bytes, more: bytes, key: KeyParser)
    requires ExtractOneEvent(b, key).Some?
    ensures ExtractOneEvent(b + more, key) == ExtractOneEvent(b, key)
  {
    var all := b + more;
    if PASTE_START <= b {
      assert all[..6] == b[..6];
      FindSubsequenceExtend(b, PASTE_END, more);
      var end := FindSubsequence(b, PASTE_END).value;
      PasteEndAfterStart(b);
      assert all[6..end] == b[6..end];
    } else if b[0] == ESC {
      PasteStartNotLater(b, more);
      CompleteEscapeSequenceLenExtend(b, more);
      var n := CompleteEscapeSequenceLen(b).value;
      assert all[..n] == b[..n];
    } else {
      FirstCompleteCharLenExtend(b, more);
      var n := FirstCompleteCharLen(b).value;
      assert all[..n] == b[..n];
    }
  }
}

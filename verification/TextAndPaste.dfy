/** Typed text and bracketed pastes come through any interleaving of reads and timeouts. */
module TextAndPaste {
  import opened Options
  import opened Bytes
  import opened Utf8
  import opened RawInput
  import opened ByteFramer
  import opened ReadBoundaries

  // ----- Text -----

  /** Characters other than ESC that the key parser knows. */
  predicate IsRecognisedText(chars: seq<bytes>, key: KeyParser) {
    forall i :: 0 <= i < |chars| ==> IsChar(chars[i]) && chars[i] != [ESC] && key(chars[i]).Some?
  }

  /** `b` is the unfinished start of the text `chars`. */
  predicate IsPartialChar(b: bytes, chars: seq<bytes>) {
    if chars == [] then b == [] else |b| < |chars[0]| && b == chars[0][..|b|]
  }

  predicate IsPrefixOf(a: bytes, b: bytes) {
    |a| <= |b| && a == b[..|a|]
  }

  lemma CompleteCharTurn(s: Framer, c: bytes, key: KeyParser)
    requires IsIdle(s) && IsChar(c) && c != [ESC] && key(c).Some?
    requires IsPrefixOf(c, s.buffer)
    ensures DrainTurn(s, key) == Again([c], s.(buffer := s.buffer[|c|..], heldPendingColorEsc := false))
  {
    assert s.buffer == c + s.buffer[|c|..];
    CharFound(c, s.buffer[|c|..]);
    assert s.buffer[0] == c[0];
    assert c[0] == ESC ==> c == [ESC];
    assert !(PASTE_START <= s.buffer);
    hide FirstCompleteCharLen;
    hide CompleteEscapeSequenceLen;
  }

  lemma PartialCharStops(s: Framer, c: bytes, key: KeyParser)
    requires IsIdle(s) && IsChar(c) && c != [ESC]
    requires IsPrefixOf(s.buffer, c) && s.buffer != c
    ensures DrainTurn(s, key) == Stop(s)
    ensures TimeoutOnBuffer(s, key) == Outcome([], s)
  {
    var b := s.buffer;
    if b != [] {
      assert b[0] == c[0];
      assert c[0] == ESC ==> c == [ESC];
      ProperPrefixIsTruncated(c, |b|);
      TruncatedNotFound(b);
      IncompleteIsTruncated(b);
      hide FirstCompleteCharLen;
      hide StartsWithIncompleteChar;
      hide FromUtf8;
    }
  }

  lemma {:induction false} TextDrain(s: Framer, chars: seq<bytes>, key: KeyParser) returns (k: nat)
    requires IsIdle(s) && IsRecognisedText(chars, key)
    requires IsPrefixOf(s.buffer, Concat(chars))
    ensures k <= |chars|
    ensures var o := DrainAvailableChunks(s, key);
            && IsIdle(o.framer)
            && o.chunks == chars[..k]
            && IsPartialChar(o.framer.buffer, chars[k..])
    decreases |chars|
  {
    hide DrainTurn;
    k := 0;
    if chars == [] {
      assert s.buffer == [];
      EmptyStops(s, key);
      LastTurn(s, s, key);
    } else if |s.buffer| < |chars[0]| {
      assert Concat(chars)[..|s.buffer|] == chars[0][..|s.buffer|];
      PartialCharStops(s, chars[0], key);
      LastTurn(s, s, key);
    } else {
      var c := chars[0];
      assert s.buffer[..|c|] == Concat(chars)[..|s.buffer|][..|c|] == c;
      CompleteCharTurn(s, c, key);
      var next := s.(buffer := s.buffer[|c|..], heldPendingColorEsc := false);
      assert next.buffer == Concat(chars[1..])[..|next.buffer|];
      var j := TextDrain(next, chars[1..], key);
      k := j + 1;
      assert [c] + chars[1..][..j] == chars[..k];
      assert chars[1..][j..] == chars[k..];
    }
  }

  lemma EmptyStops(s: Framer, key: KeyParser)
    requires IsIdle(s) && s.buffer == []
    ensures DrainTurn(s, key) == Stop(s)
    ensures TimeoutOnBuffer(s, key) == Outcome([], s)
  {}

  lemma PartialTimeout(s: Framer, chars: seq<bytes>, key: KeyParser)
    requires IsIdle(s) && IsRecognisedText(chars, key) && IsPartialChar(s.buffer, chars)
    ensures FlushTimeout(s, key) == Outcome([], s)
  {
    hide DrainTurn;
    hide TimeoutOnBuffer;
    if chars == [] {
      EmptyStops(s, key);
    } else {
      PartialCharStops(s, chars[0], key);
    }
    LastTurn(s, s, key);
  }

  /** What is still to come after `i` whole characters begins the remaining text. */
  lemma PendingBeginsRest(chars: seq<bytes>, i: nat, before: bytes, data: bytes, after: bytes, rest: bytes)
    requires i <= |chars| && IsPrefixOf(before + (data + rest), Concat(chars))
    requires Concat(chars[..i]) + after == before + data
    ensures IsPrefixOf(after + rest, Concat(chars[i..]))
  {
    var done := Concat(chars[..i]);
    assert before + (data + rest) == done + (after + rest) by {
      assert before + (data + rest) == (before + data) + rest;
      assert done + (after + rest) == (done + after) + rest;
    }
    SplitChars(chars, i);
    CancelPrefix(done, after + rest, Concat(chars[i..]));
  }

  lemma JoinChars(chars: seq<bytes>, i: nat, j: nat)
    requires i + j <= |chars|
    ensures chars[..i] + chars[i..][..j] == chars[..i + j]
    ensures chars[i..][j..] == chars[i + j..]
  {}

  function DataOf(op: Op): bytes {
    if op.PushBytes? then op.data else []
  }

  /** A run whose first operation gives out the first `i` of the characters. */
  lemma GlueRuns(s: Framer, ops: seq<Op>, chars: seq<bytes>, i: nat, j: nat, key: KeyParser)
    requires ops != [] && i + j <= |chars|
    requires var first := Apply(s, ops[0], key);
             var later := Run(first.framer, ops[1..], key);
             && first.chunks == chars[..i] && later.chunks == chars[i..][..j]
             && Concat(first.chunks) + first.framer.buffer == s.buffer + DataOf(ops[0])
             && Concat(later.chunks) + later.framer.buffer == first.framer.buffer + Input(ops[1..])
    ensures var o := Run(s, ops, key);
            && o.chunks == chars[..i + j]
            && Concat(o.chunks) + o.framer.buffer == s.buffer + Input(ops)
  {
    hide Apply;
    hide Concat;
    var first := Apply(s, ops[0], key);
    var later := Run(first.framer, ops[1..], key);
    JoinChars(chars, i, j);
    ConcatAppend(first.chunks, later.chunks);
    Reassociate(Concat(first.chunks), first.framer.buffer, Concat(later.chunks), later.framer.buffer,
                s.buffer, DataOf(ops[0]), Input(ops[1..]));
  }

  /** Two steps that each account for their bytes account for all of them together. */
  lemma Reassociate(out1: bytes, kept1: bytes, out2: bytes, kept2: bytes, before: bytes, data: bytes, rest: bytes)
    requires out1 + kept1 == before + data && out2 + kept2 == kept1 + rest
    ensures (out1 + out2) + kept2 == before + (data + rest)
  {
    calc {
      (out1 + out2) + kept2;
      out1 + (out2 + kept2);
      (out1 + kept1) + rest;
      before + (data + rest);
    }
  }

  lemma InputFirst(before: bytes, ops: seq<Op>, text: bytes)
    requires ops != [] && IsPrefixOf(before + Input(ops), text)
    ensures Input(ops) == DataOf(ops[0]) + Input(ops[1..])
    ensures IsPrefixOf(before + DataOf(ops[0]), text)
  {
    var n := |before + DataOf(ops[0])|;
    assert (before + Input(ops))[..n] == before + DataOf(ops[0]);
    assert text[..|before + Input(ops)|][..n] == text[..n];
  }

  /** From the start of some character on, any run gives out whole characters and keeps the rest. */
  lemma {:induction false} TextRun(s: Framer, ops: seq<Op>, chars: seq<bytes>, key: KeyParser) returns (k: nat)
    requires IsIdle(s) && IsRecognisedText(chars, key) && IsPartialChar(s.buffer, chars)
    requires IsPrefixOf(s.buffer + Input(ops), Concat(chars))
    ensures k <= |chars|
    ensures var o := Run(s, ops, key);
            && IsIdle(o.framer)
            && o.chunks == chars[..k]
            && IsPartialChar(o.framer.buffer, chars[k..])
            && Concat(o.chunks) + o.framer.buffer == s.buffer + Input(ops)
    decreases |ops|
  {
    hide Apply;
    hide IsRecognisedText;
    hide IsPartialChar;
    if ops == [] {
      k := 0;
      assert chars[0..] == chars;
    } else {
      InputFirst(s.buffer, ops, Concat(chars));
      var i := TextStep(s, ops[0], chars, key);
      var first := Apply(s, ops[0], key);
      var rest := ops[1..];
      PendingBeginsRest(chars, i, s.buffer, DataOf(ops[0]), first.framer.buffer, Input(rest));
      RestIsRecognised(chars, i, key);
      var j := TextRun(first.framer, rest, chars[i..], key);
      k := i + j;
      JoinChars(chars, i, j);
      GlueRuns(s, ops, chars, i, j, key);
    }
  }

  lemma RestIsRecognised(chars: seq<bytes>, i: nat, key: KeyParser)
    requires i <= |chars| && IsRecognisedText(chars, key)
    ensures IsRecognisedText(chars[i..], key)
  {}

  lemma SplitChars(chars: seq<bytes>, i: nat)
    requires i <= |chars|
    ensures Concat(chars) == Concat(chars[..i]) + Concat(chars[i..])
  {
    hide Concat;
    assert chars == chars[..i] + chars[i..];
    ConcatAppend(chars[..i], chars[i..]);
  }

  lemma CancelPrefix(done: bytes, x: bytes, y: bytes)
    requires IsPrefixOf(done + x, done + y)
    ensures IsPrefixOf(x, y)
  {
    assert (done + x)[|done|..] == x;
    assert (done + y)[..|done + x|][|done|..] == y[..|x|];
  }

  lemma TextStep(s: Framer, op: Op, chars: seq<bytes>, key: KeyParser) returns (k: nat)
    requires IsIdle(s) && IsRecognisedText(chars, key) && IsPartialChar(s.buffer, chars)
    requires IsPrefixOf(s.buffer + DataOf(op), Concat(chars))
    ensures k <= |chars|
    ensures var o := Apply(s, op, key);
            && IsIdle(o.framer)
            && o.chunks == chars[..k]
            && IsPartialChar(o.framer.buffer, chars[k..])
            && Concat(chars[..k]) + o.framer.buffer == s.buffer + DataOf(op)
  {
    hide DrainTurn;
    hide TimeoutOnBuffer;
    if op.PushBytes? {
      k := TextDrain(Feed(s, op.data), chars, key);
      IdleDrainConserves(Feed(s, op.data), key);
    } else {
      k := 0;
      assert chars[0..] == chars;
      assert Concat(chars[..0]) == [];
      assert s.buffer + [] == s.buffer;
      if op.Timeout? {
        PartialTimeout(s, chars, key);
      }
    }
  }

  /** Text survives timeouts: at every moment of every run the chunks given out are the whole
      characters received, one chunk each, and the buffer is the start of the next one. */
  lemma TextSurvivesTimeouts(s: Framer, ops: seq<Op>, chars: seq<bytes>, key: KeyParser) returns (k: nat)
    requires IsIdle(s) && s.buffer == []
    requires IsRecognisedText(chars, key) && IsPrefixOf(Input(ops), Concat(chars))
    ensures k <= |chars|
    ensures var o := Run(s, ops, key);
            && o.chunks == chars[..k]
            && IsPartialChar(o.framer.buffer, chars[k..])
            && Concat(o.chunks) + o.framer.buffer == Input(ops)
    ensures Input(ops) == Concat(chars) ==> Run(s, ops, key).chunks == chars && Run(s, ops, key).framer.buffer == []
  {
    assert [] + Input(ops) == Input(ops);
    assert IsPartialChar([], chars);
    k := TextRun(s, ops, chars, key);
    var o := Run(s, ops, key);
    SplitChars(chars, k);
    assert Input(ops) == Concat(chars) ==> o.framer.buffer == Concat(chars[k..]);
    PartialIsShorter(o.framer.buffer, chars[k..]);
    assert chars[..|chars|] == chars;
  }

  lemma PartialIsShorter(b: bytes, chars: seq<bytes>)
    requires IsPartialChar(b, chars)
    ensures chars != [] ==> |b| < |Concat(chars)|
  {}

  // ----- Pastes -----

  predicate IsPayload(payload: bytes) {
    IsUtf8(payload) && FindSubsequence(payload, PASTE_END).None?
  }

  function PasteBytes(payload: bytes): bytes {
    PASTE_START + payload + PASTE_END
  }

  /** Neither marker overlaps the end marker, so its first occurrence is the real one. */
  lemma PasteEndIsFirst(payload: bytes)
    requires FindSubsequence(payload, PASTE_END).None?
    ensures FindSubsequence(PasteBytes(payload), PASTE_END) == Some(6 + |payload|)
  {
    var all := PasteBytes(payload);
    var end := 6 + |payload|;
    PasteEndAfterStart(all);
    forall i | 6 <= i < end
      ensures !OccursAt(all, PASTE_END, i)
    {
      if i + 6 <= end {
        assert all[i..i + 6] == payload[i - 6..i];
        assert !OccursAt(payload, PASTE_END, i - 6);
      } else if i + 6 <= |all| {
        assert all[i..i + 6][end - i] == all[end] == PASTE_END[0];
      }
    }
    assert all[end..end + 6] == PASTE_END;
    FindSubsequenceIs(all, PASTE_END, end);
  }

  lemma OpenPaste(s: Framer, payload: bytes, key: KeyParser)
    requires IsIdle(s) && FindSubsequence(payload, PASTE_END).None?
    requires 6 <= |s.buffer| < |PasteBytes(payload)| && IsPrefixOf(s.buffer, PasteBytes(payload))
    ensures DrainTurn(s, key) == Stop(s)
    ensures TimeoutOnBuffer(s, key) == Outcome([], s)
  {
    var all := PasteBytes(payload);
    var b := s.buffer;
    assert b[..6] == all[..6] == PASTE_START;
    PasteEndIsFirst(payload);
    assert FindSubsequence(b, PASTE_END).None? by {
      assert b + all[|b|..] == all;
      if FindSubsequence(b, PASTE_END).Some? {
        FindSubsequenceExtend(b, PASTE_END, all[|b|..]);
      }
    }
    assert b[2] == 0x32 && b[1] == BRACKET;
    hide CompleteEscapeSequenceLen;
  }

  lemma ClosedPaste(payload: bytes, key: KeyParser)
    requires IsPayload(payload)
    ensures ExtractOneEvent(PasteBytes(payload), key) == Some(Extracted(Paste(payload), |PasteBytes(payload)|))
  {
    var all := PasteBytes(payload);
    PasteEndIsFirst(payload);
    assert all[..6] == PASTE_START;
    assert all[6..6 + |payload|] == payload;
  }

  lemma ClosedPasteTurn(s: Framer, payload: bytes, key: KeyParser)
    requires IsIdle(s) && IsPayload(payload) && s.buffer == PasteBytes(payload)
    ensures DrainTurn(s, key) == Again([PasteBytes(payload)], s.(buffer := [], heldPendingColorEsc := false))
  {
    ClosedPaste(payload, key);
    hide ExtractOneEvent;
    assert s.buffer[..|s.buffer|] == s.buffer;
  }

  lemma {:induction false} NothingRun(s: Framer, ops: seq<Op>, key: KeyParser)
    requires IsIdle(s) && s.buffer == [] && Input(ops) == []
    ensures var o := Run(s, ops, key); o.chunks == [] && o.framer.buffer == [] && IsIdle(o.framer)
    decreases |ops|
  {
    hide DrainTurn;
    hide TimeoutOnBuffer;
    if ops != [] {
      EmptyStops(s, key);
      LastTurn(s, s, key);
      assert ops[0].PushBytes? ==> ops[0].data == [];
      NothingRun(Apply(s, ops[0], key).framer, ops[1..], key);
    }
  }

  /** One operation on an open paste: it stays open and untouched, or it closes as one chunk. */
  lemma PasteStep(s: Framer, op: Op, payload: bytes, key: KeyParser)
    requires IsIdle(s) && IsPayload(payload)
    requires 6 <= |s.buffer| < |PasteBytes(payload)|
    requires var fed := s.buffer + DataOf(op); IsPrefixOf(fed, PasteBytes(payload))
    ensures var fed := s.buffer + DataOf(op);
            var o := Apply(s, op, key);
            && IsIdle(o.framer)
            && (fed != PasteBytes(payload) ==> o.chunks == [] && o.framer.buffer == fed)
            && (fed == PasteBytes(payload) ==> o.chunks == [fed] && o.framer.buffer == [])
  {
    hide DrainTurn;
    hide TimeoutOnBuffer;
    var all := PasteBytes(payload);
    var fed := Feed(s, DataOf(op));
    if !op.PushBytes? {
      assert fed == s;
    }
    if fed.buffer != all {
      OpenPaste(fed, payload, key);
      LastTurn(fed, fed, key);
    } else {
      var closed := fed.(buffer := [], heldPendingColorEsc := false);
      ClosedPasteTurn(fed, payload, key);
      EmptyStops(closed, key);
      LastTurn(closed, closed, key);
    }
  }

  lemma {:induction false} PasteRun(s: Framer, ops: seq<Op>, payload: bytes, key: KeyParser)
    requires IsIdle(s) && IsPayload(payload)
    requires 6 <= |s.buffer| < |PasteBytes(payload)| && s.buffer + Input(ops) == PasteBytes(payload)
    ensures var o := Run(s, ops, key); o.chunks == [PasteBytes(payload)] && o.framer.buffer == [] && IsIdle(o.framer)
    decreases |ops|
  {
    hide Apply;
    hide IsPayload;
    var all := PasteBytes(payload);
    assert s.buffer + [] == s.buffer;
    if ops != [] {
      var fed := s.buffer + DataOf(ops[0]);
      assert fed + Input(ops[1..]) == all;
      assert fed == all[..|fed|];
      PasteStep(s, ops[0], payload, key);
      var next := Apply(s, ops[0], key).framer;
      if fed != all {
        PasteRun(next, ops[1..], payload, key);
      } else {
        NothingRun(next, ops[1..], key);
      }
    }
  }

  /** Pastes are never torn: once the start marker is in, any interleaving of payload pieces and
      timeouts that ends in the end marker gives one chunk, and it reads back as the payload. */
  lemma PastesAreNeverTorn(s: Framer, ops: seq<Op>, payload: bytes, key: KeyParser)
    requires IsIdle(s) && s.buffer == []
    requires IsPayload(payload) && Input(ops) == payload + PASTE_END
    ensures var started := Push(s, PASTE_START, key);
            var o := Run(started.framer, ops, key);
            && started.chunks + o.chunks == [PasteBytes(payload)]
            && o.framer.buffer == []
            && EventsFromChunks(started.chunks + o.chunks, key) == [Paste(payload)]
  {
    hide Push;
    hide Run;
    StartMarkerWaits(s, key);
    var fed := Feed(s, PASTE_START);
    assert fed.buffer == PASTE_START;
    assert PASTE_START + (payload + PASTE_END) == PasteBytes(payload);
    PasteRun(fed, ops, payload, key);
    assert [] + [PasteBytes(payload)] == [PasteBytes(payload)];
    PasteEvents(payload, key);
  }

  lemma StartMarkerWaits(s: Framer, key: KeyParser)
    requires IsIdle(s) && s.buffer == []
    ensures Push(s, PASTE_START, key) == Outcome([], Feed(s, PASTE_START))
  {
    hide DrainTurn;
    var fed := Feed(s, PASTE_START);
    var all := PasteBytes([]);
    assert fed.buffer == PASTE_START == all[..6];
    OpenPaste(fed, [], key);
    LastTurn(fed, fed, key);
  }

  lemma PasteEvents(payload: bytes, key: KeyParser)
    requires IsPayload(payload)
    ensures EventsFromChunks([PasteBytes(payload)], key) == [Paste(payload)]
  {
    hide ExtractOneEvent;
    ClosedPaste(payload, key);
    assert [PasteBytes(payload)][1..] == [];
  }
}

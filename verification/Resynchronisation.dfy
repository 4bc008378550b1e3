/** A mouse report whose ESC was flushed alone is swallowed exactly, however it is cut. */
module Resynchronisation {
  import opened Options
  import opened Bytes
  import opened Utf8
  import opened SgrMouse
  import opened RawInput
  import opened ByteFramer
  import opened ReadBoundaries

  /** "[<", digits and semicolons, M or m; at most 32 bytes; a report once ESC is put back. */
  predicate IsValidMouseTail(tail: bytes) {
    && 3 <= |tail| <= 32
    && tail[..2] == [0x5b, 0x3c]
    && AllTailBytes(tail[2..|tail| - 1])
    && IsSgrFinal(tail[|tail| - 1])
    && ParseSgrMouse([ESC] + tail).Some?
  }

  lemma ValidTailIsComplete(tail: bytes, rest: bytes)
    requires IsValidMouseTail(tail)
    ensures CompleteOrphanedTail(tail + rest) == Some(|tail|)
    ensures !IsIncompleteOrphanedTail(tail + rest)
  {
    hide ParseSgrMouse;
    hide IsUtf8;
    var all := tail + rest;
    var last := |tail| - 1;
    assert forall i :: 2 <= i < last ==> tail[i] == tail[2..last][i - 2];
    assert tail[0] == tail[..2][0] && tail[1] == tail[..2][1];
    FirstWhereIs(all, IsSgrFinal, last);
    assert all[..|tail|] == tail;
    AsciiIsUtf8([ESC] + tail);
    assert all[2..][last - 2] == tail[last];
  }

  lemma PrefixStaysInWindow(tail: bytes, n: nat)
    requires IsValidMouseTail(tail) && n < |tail|
    ensures IsIncompleteOrphanedTail(tail[..n])
  {
    if n < 3 {
      assert tail[..n] == tail[..2][..if n < 2 then n else 2];
    } else {
      assert tail[..n][..2] == ORPHAN_START;
      assert forall i :: 0 <= i < n - 2 ==> tail[..n][2..][i] == tail[2..|tail| - 1][i];
    }
  }

  /** A read that ends inside the tail is kept for the next one. */
  lemma PushInsideTail(s: Framer, data: bytes, tail: bytes, key: KeyParser)
    requires IsWindow(s) && IsValidMouseTail(tail)
    requires |s.buffer + data| < |tail| && s.buffer + data == tail[..|s.buffer + data|]
    ensures Push(s, data, key) == Outcome([], Feed(s, data))
  {
    hide DrainTurn;
    PrefixStaysInWindow(tail, |s.buffer + data|);
    WindowDrain(Feed(s, data), key);
  }

  /** The read that completes the tail drops it and goes on with what follows. */
  lemma PushThroughTail(s: Framer, data: bytes, tail: bytes, more: bytes, key: KeyParser)
    requires IsWindow(s) && IsValidMouseTail(tail)
    requires s.buffer + data == tail + more
    ensures Push(s, data, key) == Push(CloseWindow(s).(buffer := []), more, key)
  {
    hide DrainTurn;
    hide CompleteOrphanedTail;
    hide IsIncompleteOrphanedTail;
    ValidTailIsComplete(tail, more);
    var fed := Feed(s, data);
    WindowDrain(fed, key);
    assert (tail + more)[|tail|..] == more;
    assert Feed(CloseWindow(s).(buffer := []), more) == CloseWindow(fed).(buffer := more);
  }

  lemma {:induction false} ResyncFrom(s: Framer, pieces: seq<bytes>, tail: bytes, rest: bytes, key: KeyParser)
    requires IsWindow(s) && IsValidMouseTail(tail)
    requires |s.buffer| < |tail| && s.buffer + Concat(pieces) == tail + rest
    ensures PushAll(s, pieces, key) == Push(CloseWindow(s).(buffer := []), rest, key)
    decreases |pieces|
  {
    hide DrainAvailableChunks;
    hide IsValidMouseTail;
    var all := tail + rest;
    assert pieces != [] by {
      assert |all| >= |tail|;
    }
    var x := s.buffer + pieces[0];
    var more := Concat(pieces[1..]);
    assert x + more == all;
    assert x == all[..|x|];
    if |x| < |tail| {
      assert x == tail[..|x|];
      PushInsideTail(s, pieces[0], tail, key);
      var fed := Feed(s, pieces[0]);
      ResyncFrom(fed, pieces[1..], tail, rest, key);
      var later := PushAll(fed, pieces[1..], key);
      assert [] + later.chunks == later.chunks;
    } else {
      var r := x[|tail|..];
      assert x == tail + r && r + more == rest;
      PushThroughTail(s, pieces[0], tail, r, key);
      var closed := CloseWindow(s).(buffer := []);
      AnySplitting(closed, [r] + pieces[1..], key);
      assert ([r] + pieces[1..])[1..] == pieces[1..];
    }
  }

  /** Pushing the tail and then the rest, cut anywhere, is pushing the rest with the window shut. */
  lemma Resynchronises(s: Framer, pieces: seq<bytes>, tail: bytes, rest: bytes, key: KeyParser)
    requires IsWindow(s) && s.buffer == []
    requires IsValidMouseTail(tail) && Concat(pieces) == tail + rest
    ensures PushAll(s, pieces, key) == Push(CloseWindow(s), rest, key)
  {
    assert s.buffer + Concat(pieces) == tail + rest;
    ResyncFrom(s, pieces, tail, rest, key);
    assert CloseWindow(s).(buffer := []) == CloseWindow(s);
  }

  /** Every report a terminal writes leaves a valid tail when its ESC is taken off. */
  lemma ReportTailIsValid(cb: byte, column: nat, row: nat, final: byte)
    requires 1 <= column <= 65535 && 1 <= row <= 65535 && IsSgrFinal(final) && ParseMouseKind(cb).Some?
    ensures IsValidMouseTail([0x5b, 0x3c] + MouseTail(cb, column, row, final))
  {
    hide MouseBody;
    hide ParseSgrMouse;
    hide ParseMouseKind;
    hide SplitOn;
    MouseReportRoundTrip(cb, column, row, final);
    MouseBodyBytes(cb, column, row);
    var body := MouseBody(cb, column, row);
    var tail := ORPHAN_START + (body + [final]);
    OrphanParts(body, final);
    assert [ESC] + tail == CSI_LESS + (body + [final]) by {
      assert [ESC] + ORPHAN_START == CSI_LESS;
      assert [ESC] + tail == [ESC] + ORPHAN_START + (body + [final]);
    }
  }

  lemma OrphanParts(body: bytes, final: byte)
    ensures var tail := ORPHAN_START + (body + [final]);
            && |tail| == |body| + 3
            && tail[..2] == ORPHAN_START && tail[2..|tail| - 1] == body && tail[|tail| - 1] == final
  {}
}

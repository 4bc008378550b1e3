/** Mouse reports that a timeout cut off: the tail is thrown away, within 128 bytes, and nothing
    behind it. */
module LateMouse {
  import opened Options
  import opened Bytes
  import opened SgrMouse
  import opened RawInput
  import opened ByteFramer
  import opened ReadBoundaries
  import opened KeySequences
  import opened LateStrings
  import opened Runs

  /** Digits and semicolons. */
  predicate IsNumbers(b: bytes) {
    forall i :: 0 <= i < |b| ==> 0x30 <= b[i] <= 0x39 || b[i] == 0x3b
  }

  lemma NumbersAreTail(b: bytes)
    ensures IsNumbers(b) <==> AllTailBytes(b)
  {}

  function Swallowing(s: Framer, counted: nat): Framer {
    Discarding(s, OrphanedSgrMouseTail, [], counted)
  }

  // ----- The timeout -----

  /** ESC [ <, digits and semicolons. */
  lemma OpenMouseWaits(p: bytes, key: KeyParser)
    requires IsNumbers(p)
    ensures ExtractOneEvent(Csi([0x3c] + p), key) == None
  {
    var b := Csi([0x3c] + p);
    MouseOpen(p);
    assert b[2] == 0x3c && PASTE_START[2] == 0x32;
    hide CompleteEscapeSequenceLen;
  }

  /** Up to 128 bytes of an open report are counted against what may be thrown away later; a longer
      one is given up. */
  lemma OpenMouseTimeout(s: Framer, p: bytes, key: KeyParser)
    requires IsIdle(s) && IsNumbers(p) && s.buffer == Csi([0x3c] + p)
    ensures FlushTimeout(s, key) ==
            Outcome([], if |p| + 3 <= 128 then Swallowing(s, |p| + 3)
                        else s.(buffer := [], discardUntil := None, discardedTailBytes := |p| + 3))
  {
    var b := s.buffer;
    OpenMouseWaits(p, key);
    hide ExtractOneEvent;
    LastTurn(s, s, key);
    assert b[..3] == CSI_LESS && b[3..] == p;
    NumbersAreTail(p);
  }

  // ----- What comes after it -----

  /** Where the tail ends: behind M or m, or in front of any byte no tail has. */
  predicate IsCutTail(tail: bytes, rest: bytes) {
    || (tail != [] && IsNumbers(tail[..|tail| - 1]) && tail[|tail| - 1] in {0x4d, 0x6d})
    || (IsNumbers(tail) && rest != []
        && !(0x30 <= rest[0] <= 0x39) && rest[0] !in {0x3b, 0x4d, 0x6d})
  }

  /** Bytes up to the one that settles it. */
  function Needed(tail: bytes): nat {
    if tail != [] && tail[|tail| - 1] in {0x4d, 0x6d} then |tail| else |tail| + 1
  }

  lemma TailScanned(tail: bytes, rest: bytes, counted: nat)
    requires IsCutTail(tail, rest) && counted + Needed(tail) <= 128
    ensures var scan := ScanOrphanedTail(tail + rest, counted); scan.done && scan.rest == rest
  {
    var all := tail + rest;
    var n := InspectedTailBytes(all, counted);
    var at := Needed(tail) - 1;
    assert at < n;
    assert IsNumbers(tail[..at]) by {
      assert |tail| == at ==> tail[..at] == tail;
    }
    assert forall i :: 0 <= i < at ==> all[..n][i] == tail[..at][i];
    assert all[at] == if |tail| == at then rest[0] else tail[at];
    FirstWhereIs(all[..n], IsNotTailByte, at);
    assert all[|tail|..] == rest;
    hide FirstWhere;
  }

  /** The read that settles it drops the tail and goes on with what follows. */
  lemma SwallowFinishes(s: Framer, data: bytes, tail: bytes, rest: bytes, counted: nat, key: KeyParser)
    requires IsIdle(s) && IsCutTail(tail, rest) && counted + Needed(tail) <= 128 && data == tail + rest
    ensures Push(Swallowing(s, counted), data, key) == Push(Recovered(s), rest, key)
  {
    TailScanned(tail, rest, counted);
    hide ScanOrphanedTail;
    hide IsCutTail;
    hide Needed;
    hide ExtractTurn;
    var fed := Feed(Swallowing(s, counted), data);
    var next := Feed(Recovered(s), rest);
    assert fed.buffer == data && next.buffer == rest;
    assert DrainTurn(fed, key) == Again([], next);
    SilentTurn(fed, next, key);
  }

  /** A read of digits and semicolons within the allowance is counted and gone. */
  lemma SwallowMore(s: Framer, data: bytes, counted: nat, key: KeyParser)
    requires IsIdle(s) && IsNumbers(data) && counted + |data| <= 128
    ensures Push(Swallowing(s, counted), data, key) == Outcome([], Swallowing(s, counted + |data|))
  {
    hide ExtractTurn;
    var fed := Feed(Swallowing(s, counted), data);
    assert fed.buffer == data;
    NumbersAreTail(data);
    assert data[..|data|] == data;
    LastTurn(fed, Swallowing(s, counted + |data|), key);
  }

  lemma CutTailRest(tail: bytes, rest: bytes, n: nat)
    requires IsCutTail(tail, rest) && n < Needed(tail)
    ensures n <= |tail| && IsNumbers(tail[..n]) && IsCutTail(tail[n..], rest)
    ensures Needed(tail[n..]) == Needed(tail) - n
  {
    var later := tail[n..];
    assert forall i :: 0 <= i < |later| ==> later[i] == tail[n + i];
    if tail != [] && tail[|tail| - 1] in {0x4d, 0x6d} {
      assert forall i :: 0 <= i < |tail| - 1 ==> tail[i] == tail[..|tail| - 1][i];
      assert later[|later| - 1] == tail[|tail| - 1];
    }
  }

  lemma {:induction false} SwallowPieces(s: Framer, pieces: seq<bytes>, tail: bytes, rest: bytes, counted: nat,
                                         key: KeyParser)
    requires IsIdle(s) && IsCutTail(tail, rest) && counted + Needed(tail) <= 128 && Concat(pieces) == tail + rest
    ensures PushAll(Swallowing(s, counted), pieces, key) == Push(Recovered(s), rest, key)
    decreases |pieces|
  {
    hide DrainAvailableChunks;
    hide IsCutTail;
    hide Needed;
    NeededIsThere(tail, rest);
    var x, more := pieces[0], Concat(pieces[1..]);
    assert x + more == tail + rest;
    if |x| < Needed(tail) {
      CutTailRest(tail, rest, |x|);
      assert x == tail[..|x|] && more == tail[|x|..] + rest by {
        PrefixOfSum(x, more, tail, rest);
      }
      SwallowMore(s, x, counted, key);
      SwallowPieces(s, pieces[1..], tail[|x|..], rest, counted + |x|, key);
      var later := PushAll(Swallowing(s, counted + |x|), pieces[1..], key);
      assert [] + later.chunks == later.chunks;
    } else {
      var r := x[|tail|..];
      assert x == tail + r && r + more == rest by {
        PrefixOfSum(tail, rest, x, more);
      }
      CutTailShort(tail, r, rest);
      SwallowFinishes(s, x, tail, r, counted, key);
      AnySplitting(Recovered(s), [r] + pieces[1..], key);
      assert ([r] + pieces[1..])[1..] == pieces[1..];
    }
  }

  lemma PrefixOfSum(x: bytes, more: bytes, a: bytes, b: bytes)
    requires x + more == a + b && |x| <= |a|
    ensures x == a[..|x|] && more == a[|x|..] + b && a == x + a[|x|..]
  {
    assert (x + more)[..|x|] == x && (a + b)[..|x|] == a[..|x|];
    assert (x + more)[|x|..] == more && (a + b)[|x|..] == a[|x|..] + b;
  }

  lemma NeededIsThere(tail: bytes, rest: bytes)
    requires IsCutTail(tail, rest)
    ensures |tail| <= Needed(tail) <= |tail + rest| && 0 < Needed(tail)
  {}

  /** The byte that settles it is all that matters of what follows. */
  lemma CutTailShort(tail: bytes, r: bytes, rest: bytes)
    requires IsCutTail(tail, rest) && |r| <= |rest| && r == rest[..|r|] && |tail| + |r| >= Needed(tail)
    ensures IsCutTail(tail, r)
  {}

  // ----- Reports cut off by a timeout -----

  /** A mouse report cut off by a timeout leaves no trace: however its tail and what follows are cut
      into reads, what follows is read as if there had been no report. */
  lemma LateMouseVanishes(s: Framer, p: bytes, opening: seq<bytes>, last: seq<bytes>, tail: bytes, rest: bytes,
                          key: KeyParser)
    requires IsIdle(s) && s.buffer == []
    requires IsNumbers(p) && Concat(opening) == [0x1b, 0x5b, 0x3c] + p
    requires IsCutTail(tail, rest) && |p| + 3 + Needed(tail) <= 128 && Concat(last) == tail + rest
    ensures Run(s, Pushes(opening) + [Timeout] + Pushes(last), key) == Push(Recovered(s), rest, key)
  {
    hide Run;
    hide IsCutTail;
    var t := Swallowing(s, |p| + 3);
    MouseOpening(s, p, opening, key);
    SilentStart(s, Pushes(opening) + [Timeout], t, Pushes(last), key);
    RunPushes(t, last, key);
    SwallowPieces(s, last, tail, rest, |p| + 3, key);
  }

  lemma MouseOpening(s: Framer, p: bytes, opening: seq<bytes>, key: KeyParser)
    requires IsIdle(s) && s.buffer == []
    requires IsNumbers(p) && Concat(opening) == [0x1b, 0x5b, 0x3c] + p
    ensures Run(s, Pushes(opening) + [Timeout], key) ==
            Outcome([], if |p| + 3 <= 128 then Swallowing(s, |p| + 3)
                        else s.(buffer := [], discardUntil := None, discardedTailBytes := |p| + 3))
  {
    hide ExtractOneEvent;
    hide FlushTimeout;
    var fed := Feed(s, Concat(opening));
    assert fed.buffer == Csi([0x3c] + p);
    OpenMouseWaits(p, key);
    LastTurn(fed, fed, key);
    AnySplitting(s, opening, key);
    RunPushes(s, opening, key);
    SilentStart(s, Pushes(opening), fed, [Timeout], key);
    OpenMouseTimeout(fed, p, key);
    RunFirst(fed, Timeout, [], key);
    assert [Timeout] + [] == [Timeout];
  }

  /** A second timeout gives the tail up, whatever part of it has come. */
  lemma SecondTimeoutGivesUp(s: Framer, data: bytes, counted: nat, key: KeyParser)
    requires IsIdle(s) && IsNumbers(data) && counted + |data| <= 128
    ensures Run(Swallowing(s, counted), [PushBytes(data), Timeout], key) == Outcome([], Recovered(s))
  {
    hide Push;
    SwallowMore(s, data, counted, key);
    var t := Swallowing(s, counted + |data|);
    SwallowMore(s, [], counted + |data|, key);
    assert t.buffer + [] == t.buffer;
    assert DrainAvailableChunks(t, key) == Outcome([], t) by {
      DrainIsPush(t, key);
    }
    hide DrainAvailableChunks;
    RunFirst(Swallowing(s, counted), PushBytes(data), [Timeout], key);
    RunFirst(t, Timeout, [], key);
    assert [PushBytes(data)] + [Timeout] == [PushBytes(data), Timeout] && [Timeout] + [] == [Timeout];
  }

  lemma DrainIsPush(s: Framer, key: KeyParser)
    ensures Push(s, [], key) == DrainAvailableChunks(s, key)
  {
    assert Feed(s, []) == s;
    hide DrainAvailableChunks;
  }

  /** More digits and semicolons than 128 bytes allow, in one read, take the rest of that read with
      them. */
  lemma TooMuchIsDropped(s: Framer, data: bytes, counted: nat, key: KeyParser)
    requires IsIdle(s) && counted <= 128 && |data| > 128 - counted && IsNumbers(data[..128 - counted])
    ensures Push(Swallowing(s, counted), data, key) == Outcome([], Recovered(s))
  {
    var t := Swallowing(s, counted);
    assert t.buffer + data == data;
    NumbersAreTail(data[..128 - counted]);
    OverflowClears(t, data, key);
  }

  // ----- A report whose ESC came out alone -----

  /** [ <, digits and semicolons behind a lone ESC: kept without a chunk while they are no longer
      than 32 bytes, then counted like an open report. */
  lemma WindowTimesOut(s: Framer, p: bytes, opening: seq<bytes>, key: KeyParser)
    requires IsWindow(s) && s.buffer == []
    requires IsNumbers(p) && |p| + 2 <= 32 && Concat(opening) == [0x5b, 0x3c] + p
    ensures Run(s, Pushes(opening) + [Timeout], key) == Outcome([], Swallowing(CloseWindow(s), |p| + 2))
  {
    hide FlushTimeout;
    var b := Concat(opening);
    assert b[..2] == ORPHAN_START && b[2..] == p;
    NumbersAreTail(p);
    assert IsIncompleteOrphanedTail(b);
    assert s.buffer + b == b;
    WindowWaits(s, opening, key);
    RunPushes(s, opening, key);
    var fed := s.(buffer := b);
    SilentStart(s, Pushes(opening), fed, [Timeout], key);
    WindowTimeoutCounts(fed, p, key);
    RunFirst(fed, Timeout, [], key);
    assert [Timeout] + [] == [Timeout];
  }

  lemma {:induction false} WindowWaits(s: Framer, pieces: seq<bytes>, key: KeyParser)
    requires IsWindow(s) && IsIncompleteOrphanedTail(s.buffer + Concat(pieces))
    ensures PushAll(s, pieces, key) == Outcome([], s.(buffer := s.buffer + Concat(pieces)))
    decreases |pieces|
  {
    hide DrainTurn;
    hide IsIncompleteOrphanedTail;
    if pieces == [] {
      assert s.buffer + [] == s.buffer;
    } else {
      var x := s.buffer + pieces[0];
      assert x + Concat(pieces[1..]) == s.buffer + Concat(pieces);
      WindowIsPrefixClosed(x, Concat(pieces[1..]));
      WindowDrain(Feed(s, pieces[0]), key);
      WindowWaits(Feed(s, pieces[0]), pieces[1..], key);
    }
  }

  lemma WindowTimeoutCounts(s: Framer, p: bytes, key: KeyParser)
    requires IsWindow(s) && IsNumbers(p) && |p| + 2 <= 32 && s.buffer == [0x5b, 0x3c] + p
    ensures FlushTimeout(s, key) == Outcome([], Swallowing(CloseWindow(s), |p| + 2))
  {
    var b := s.buffer;
    assert b[..2] == ORPHAN_START && b[2..] == p;
    NumbersAreTail(p);
    WindowDrain(s, key);
    OpenHasNoEnd(b, OrphanedSgrMouseTail);
    hide DrainAvailableChunks;
    hide Terminator;
  }

  /** After a lone ESC and two timeouts the late rest of a mouse report still leaves no trace. */
  lemma LateOrphanVanishes(s: Framer, p: bytes, opening: seq<bytes>, last: seq<bytes>, tail: bytes, rest: bytes,
                           key: KeyParser)
    requires IsWindow(s) && s.buffer == []
    requires IsNumbers(p) && |p| + 2 <= 32 && Concat(opening) == [0x5b, 0x3c] + p
    requires IsCutTail(tail, rest) && |p| + 2 + Needed(tail) <= 128 && Concat(last) == tail + rest
    ensures Run(s, Pushes(opening) + [Timeout] + Pushes(last), key) == Push(Recovered(CloseWindow(s)), rest, key)
  {
    hide Run;
    hide IsCutTail;
    var t := Swallowing(CloseWindow(s), |p| + 2);
    WindowTimesOut(s, p, opening, key);
    SilentStart(s, Pushes(opening) + [Timeout], t, Pushes(last), key);
    RunPushes(t, last, key);
    SwallowPieces(CloseWindow(s), last, tail, rest, |p| + 2, key);
  }
}

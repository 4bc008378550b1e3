/** Where reads are cut does not matter: exactly when two pushes do what one push does. */
module ReadBoundaries {
  import opened Options
  import opened Bytes
  import opened SgrMouse
  import opened RawInput
  import opened ByteFramer
  import opened ExtractionStability

  /** No window after a lone ESC, and no mouse tail being counted away. */
  predicate IsSteady(s: Framer) {
    !s.loneEscapeRecentlyFlushed && s.discardUntil != Some(OrphanedSgrMouseTail)
  }

  predicate IsIdle(s: Framer) {
    !s.loneEscapeRecentlyFlushed && s.discardUntil.None?
  }

  /** Push more bytes after an outcome. */
  function Then(o: Outcome, more: bytes, key: KeyParser): Outcome {
    var next := Push(o.framer, more, key);
    Outcome(o.chunks + next.chunks, next.framer)
  }

  lemma SilentTurn(s: Framer, t: Framer, key: KeyParser)
    requires DrainTurn(s, key) == Again([], t)
    ensures DrainAvailableChunks(s, key) == DrainAvailableChunks(t, key)
  {
    hide DrainTurn;
  }

  lemma LastTurn(s: Framer, t: Framer, key: KeyParser)
    requires DrainTurn(s, key) == Stop(t)
    ensures DrainAvailableChunks(s, key) == Outcome([], t)
  {
    hide DrainTurn;
  }

  lemma SameTurn(s: Framer, t: Framer, key: KeyParser)
    requires DrainTurn(s, key) == DrainTurn(t, key)
    ensures DrainAvailableChunks(s, key) == DrainAvailableChunks(t, key)
  {
    hide DrainTurn;
  }

  lemma FeedTwice(s: Framer, a: bytes, b: bytes)
    ensures Feed(Feed(s, a), b) == Feed(s, a + b)
  {
    assert s.buffer + a + b == s.buffer + (a + b);
  }

  // ----- Steady states -----

  lemma ExtractTurnExtend(s: Framer, more: bytes, key: KeyParser)
    ensures var turn := ExtractTurn(s, key);
            && turn.framer.discardUntil == s.discardUntil
            && turn.framer.loneEscapeRecentlyFlushed == s.loneEscapeRecentlyFlushed
            && (turn.Stop? ==> turn.framer == s)
            && (turn.Again? ==>
                  && |turn.chunks| == 1 && turn.chunks[0] + turn.framer.buffer == s.buffer
                  && ExtractTurn(Feed(s, more), key) == Again(turn.chunks, Feed(turn.framer, more)))
  {
    hide ExtractOneEvent;
    var b := s.buffer;
    if ExtractOneEvent(b, key).Some? {
      ExtractOneEventExtend(b, more, key);
      var n := ExtractOneEvent(b, key).value.consumed;
      assert (b + more)[..n] == b[..n] && (b + more)[n..] == b[n..] + more;
    }
  }

  lemma TerminatedTurnExtend(s: Framer, family: ControlStringFamily, more: bytes)
    requires family != OrphanedSgrMouseTail
    ensures var turn := DiscardTurn(s, family);
            && turn.framer.discardUntil == (if turn.Stop? then s.discardUntil else None)
            && turn.framer.loneEscapeRecentlyFlushed == s.loneEscapeRecentlyFlushed
            && (turn.Stop? ==> turn.framer == s)
            && (turn.Again? ==> DiscardTurn(Feed(s, more), family) == Again(turn.chunks, Feed(turn.framer, more)))
  {
    hide Terminator;
    var b := s.buffer;
    if Terminator(b, family).Some? {
      TerminatorExtend(b, family, more);
      var n := Terminator(b, family).value;
      assert (b + more)[n..] == b[n..] + more;
    }
  }

  lemma SteadyTurnExtend(s: Framer, more: bytes, key: KeyParser)
    requires IsSteady(s)
    ensures var turn := DrainTurn(s, key);
            && IsSteady(turn.framer)
            && (IsIdle(s) ==> IsIdle(turn.framer))
            && (turn.Stop? ==> turn.framer == s)
            && (IsIdle(s) && turn.Again? ==> |turn.chunks| == 1 && turn.chunks[0] + turn.framer.buffer == s.buffer)
            && (turn.Again? ==> DrainTurn(Feed(s, more), key) == Again(turn.chunks, Feed(turn.framer, more)))
  {
    hide ExtractTurn;
    hide DiscardTurn;
    match s.discardUntil
    case Some(family) => TerminatedTurnExtend(s, family, more);
    case None => ExtractTurnExtend(s, more, key);
  }

  lemma {:induction false} SteadyDrainThenMore(s: Framer, more: bytes, key: KeyParser)
    requires IsSteady(s)
    ensures IsSteady(DrainAvailableChunks(s, key).framer)
    ensures IsIdle(s) ==> IsIdle(DrainAvailableChunks(s, key).framer)
    ensures DrainAvailableChunks(Feed(s, more), key) == Then(DrainAvailableChunks(s, key), more, key)
    decreases Work(s)
  {
    hide DrainTurn;
    SteadyTurnExtend(s, more, key);
    match DrainTurn(s, key)
    case Stop(_) =>
    case Again(chunks, t) =>
      TurnMakesProgress(s, key);
      SteadyDrainThenMore(t, more, key);
      var tail := DrainAvailableChunks(t, key);
      var next := Push(tail.framer, more, key);
      assert chunks + (tail.chunks + next.chunks) == (chunks + tail.chunks) + next.chunks;
  }

  lemma SteadySplit(s: Framer, a: bytes, b: bytes, key: KeyParser)
    requires IsSteady(s)
    ensures IsSteady(Push(s, a, key).framer)
    ensures IsIdle(s) ==> IsIdle(Push(s, a, key).framer)
    ensures Push(s, a + b, key) == Then(Push(s, a, key), b, key)
  {
    hide DrainTurn;
    SteadyDrainThenMore(Feed(s, a), b, key);
    FeedTwice(s, a, b);
  }

  /** From a steady state every way of cutting the bytes into reads gives one result. */
  lemma {:induction false} AnySplitting(s: Framer, pieces: seq<bytes>, key: KeyParser)
    requires IsSteady(s) && pieces != []
    ensures PushAll(s, pieces, key) == Push(s, Concat(pieces), key)
    decreases |pieces|
  {
    var first := Push(s, pieces[0], key);
    if |pieces| == 1 {
      assert Concat(pieces[1..]) == [];
      assert Concat(pieces) == pieces[0];
      assert PushAll(first.framer, pieces[1..], key) == Outcome([], first.framer);
      assert first.chunks + [] == first.chunks;
    } else {
      SteadySplit(s, pieces[0], Concat(pieces[1..]), key);
      AnySplitting(first.framer, pieces[1..], key);
    }
  }

  /** While nothing is discarded no byte is lost, added or reordered. */
  lemma {:induction false} IdleDrainConserves(s: Framer, key: KeyParser)
    requires IsIdle(s)
    ensures var o := DrainAvailableChunks(s, key); Concat(o.chunks) + o.framer.buffer == s.buffer
    decreases Work(s)
  {
    hide DrainTurn;
    SteadyTurnExtend(s, [], key);
    match DrainTurn(s, key)
    case Stop(_) =>
    case Again(chunks, t) =>
      TurnMakesProgress(s, key);
      IdleDrainConserves(t, key);
      var rest := DrainAvailableChunks(t, key);
      ConcatAppend(chunks, rest.chunks);
      assert Concat(chunks) == chunks[0] by {
        assert chunks[1..] == [];
      }
      assert chunks[0] + t.buffer == s.buffer;
      assert chunks[0] + (Concat(rest.chunks) + rest.framer.buffer)
             == (chunks[0] + Concat(rest.chunks)) + rest.framer.buffer;
  }

  lemma PushConserves(s: Framer, pieces: seq<bytes>, key: KeyParser)
    requires IsIdle(s) && pieces != []
    ensures var o := PushAll(s, pieces, key); Concat(o.chunks) + o.framer.buffer == s.buffer + Concat(pieces)
  {
    AnySplitting(s, pieces, key);
    IdleDrainConserves(Feed(s, Concat(pieces)), key);
  }

  // ----- The two states in which a boundary can show -----

  /** The allowance for a discarded mouse tail runs out inside the first read. */
  predicate TailOverflows(s: Framer, a: bytes) {
    var b := s.buffer + a;
    var n := InspectedTailBytes(b, s.discardedTailBytes);
    !s.loneEscapeRecentlyFlushed && s.discardUntil == Some(OrphanedSgrMouseTail) && n < |b| && AllTailBytes(b[..n])
  }

  /** After a lone ESC, the first read ends outside the kept window and before any final
      byte, yet together with the second one the mouse parser accepts what they start with. */
  predicate LeavesMouseWindow(s: Framer, a: bytes, b: bytes) {
    && s.loneEscapeRecentlyFlushed
    && !IsIncompleteOrphanedTail(s.buffer + a)
    && FirstWhere(s.buffer + a, IsSgrFinal).None?
    && CompleteOrphanedTail(s.buffer + a + b).Some?
  }

  lemma ScanSplit(a: bytes, b: bytes, counted: nat)
    requires InspectedTailBytes(a, counted) == |a| && AllTailBytes(a)
    ensures ScanOrphanedTail(a, counted) == TailScan([], counted + |a|, false)
    ensures SameScan(ScanOrphanedTail(b, counted + |a|), ScanOrphanedTail(a + b, counted))
  {
    hide FirstWhere;
    var n := InspectedTailBytes(a + b, counted);
    var m := InspectedTailBytes(b, counted + |a|);
    assert n == |a| + m;
    TailPrefixSkipped(a, b, n, m);
    assert a[..|a|] == a && FirstWhere(a, IsNotTailByte).None?;
    hide InspectedTailBytes;
    if FirstWhere(b[..m], IsNotTailByte).Some? {
      var i := FirstWhere(b[..m], IsNotTailByte).value;
      SuffixBehind(a, b, i);
      SuffixBehind(a, b, i + 1);
    }
  }

  lemma SuffixBehind(a: bytes, b: bytes, i: nat)
    requires i <= |b|
    ensures (a + b)[|a| + i..] == b[i..]
    ensures i < |b| ==> (a + b)[|a| + i] == b[i]
  {}

  lemma TailPrefixSkipped(a: bytes, b: bytes, n: nat, m: nat)
    requires AllTailBytes(a) && m <= |b| && n == |a| + m
    ensures FirstWhere((a + b)[..n], IsNotTailByte) == After(FirstWhere(b[..m], IsNotTailByte), |a|)
  {
    var all := (a + b)[..n];
    assert all == a + b[..m];
    match FirstWhere(b[..m], IsNotTailByte)
    case Some(i) => FirstWhereIs(all, IsNotTailByte, |a| + i);
    case None => assert forall j :: 0 <= j < n ==> IsSgrTailByte(all[j]);
  }

  lemma ScanDone(a: bytes, b: bytes, counted: nat)
    requires !AllTailBytes(a[..InspectedTailBytes(a, counted)])
    ensures ScanOrphanedTail(a, counted).done && ScanOrphanedTail(a + b, counted).done
    ensures ScanOrphanedTail(a + b, counted).rest == ScanOrphanedTail(a, counted).rest + b
  {
    var n := InspectedTailBytes(a, counted);
    var m := InspectedTailBytes(a + b, counted);
    var i := FirstWhere(a[..n], IsNotTailByte).value;
    assert (a + b)[..m][..n] == a[..n];
    FirstWhereIs((a + b)[..m], IsNotTailByte, i);
    DropInFront(a, b, i);
    DropInFront(a, b, i + 1);
  }

  lemma DropInFront(a: bytes, b: bytes, i: nat)
    requires i <= |a|
    ensures (a + b)[i..] == a[i..] + b
  {}

  /** Once a tail is done its count no longer matters. */
  predicate SameScan(a: TailScan, b: TailScan) {
    a == b || (a.done && b.done && a.rest == b.rest)
  }

  /** Inside the allowance, the first read either is counted away whole or ends the tail. */
  lemma ScanTwice(x: bytes, b: bytes, counted: nat)
    requires InspectedTailBytes(x, counted) < |x| ==> !AllTailBytes(x[..InspectedTailBytes(x, counted)])
    ensures var scan, both := ScanOrphanedTail(x, counted), ScanOrphanedTail(x + b, counted);
            if scan.done then both.done && both.rest == scan.rest + b
            else scan.rest == [] && SameScan(ScanOrphanedTail(b, scan.counted), both)
  {
    hide ScanOrphanedTail;
    var n := InspectedTailBytes(x, counted);
    if AllTailBytes(x[..n]) {
      assert n == |x| && x[..n] == x;
      ScanSplit(x, b, counted);
    } else {
      ScanDone(x, b, counted);
    }
  }

  lemma DiscardTurnSplit(s: Framer, b: bytes, key: KeyParser)
    requires !s.loneEscapeRecentlyFlushed && s.discardUntil == Some(OrphanedSgrMouseTail)
    requires !TailOverflows(s, [])
    ensures var turn := DrainTurn(s, key);
            if turn.Stop? then DrainTurn(Feed(turn.framer, b), key) == DrainTurn(Feed(s, b), key)
            else
              && turn.chunks == [] && IsIdle(turn.framer)
              && DrainTurn(Feed(s, b), key) == Again([], Feed(turn.framer, b))
  {
    assert s.buffer + [] == s.buffer;
    ScanTwice(s.buffer, b, s.discardedTailBytes);
    assert [] + b == b;
    hide ExtractTurn;
    hide ScanOrphanedTail;
    hide TailOverflows;
  }

  lemma DiscardSplit(s: Framer, a: bytes, b: bytes, key: KeyParser)
    requires !s.loneEscapeRecentlyFlushed && s.discardUntil == Some(OrphanedSgrMouseTail)
    requires !TailOverflows(s, a)
    ensures Push(s, a + b, key) == Then(Push(s, a, key), b, key)
  {
    hide DrainTurn;
    var fed := Feed(s, a);
    FeedTwice(s, a, b);
    assert !TailOverflows(fed, []) by {
      assert fed.buffer + [] == s.buffer + a;
    }
    DiscardTurnSplit(fed, b, key);
    match DrainTurn(fed, key)
    case Stop(t) =>
      LastTurn(fed, t, key);
      SameTurn(Feed(t, b), Feed(fed, b), key);
    case Again(_, t) =>
      SilentTurn(fed, t, key);
      SilentTurn(Feed(fed, b), Feed(t, b), key);
      SteadyDrainThenMore(t, b, key);
  }

  lemma OverflowLosesTheRest(s: Framer, a: bytes, b: bytes, key: KeyParser)
    requires TailOverflows(s, a)
    ensures var clear := StopDiscarding(s.(buffer := []));
            && Push(s, a, key) == Outcome([], clear)
            && Push(s, a + b, key) == Outcome([], clear)
  {
    hide DrainTurn;
    OverflowClears(s, a, key);
    var x, y := s.buffer + a, s.buffer + (a + b);
    var n := InspectedTailBytes(x, s.discardedTailBytes);
    assert InspectedTailBytes(y, s.discardedTailBytes) == n;
    assert y[..n] == x[..n];
    OverflowClears(s, a + b, key);
  }

  lemma OverflowClears(s: Framer, a: bytes, key: KeyParser)
    requires TailOverflows(s, a)
    ensures Push(s, a, key) == Outcome([], StopDiscarding(s.(buffer := [])))
  {
    var clear := StopDiscarding(s.(buffer := []));
    assert DrainTurn(Feed(s, a), key) == Again([], clear) by {
      hide ExtractTurn;
      assert StopDiscarding(Feed(s, a).(buffer := [])) == clear;
    }
    assert DrainTurn(clear, key) == Stop(clear);
    SilentTurn(Feed(s, a), clear, key);
    LastTurn(clear, clear, key);
  }

  lemma WindowIsPrefixClosed(b: bytes, more: bytes)
    requires IsIncompleteOrphanedTail(b + more)
    ensures IsIncompleteOrphanedTail(b)
  {
    var all := b + more;
    if |b| < 3 {
      assert all[..|b|] == b;
      if |all| < 3 {
        assert all <= ORPHAN_START;
      }
      assert |b| == 2 ==> b == ORPHAN_START;
    } else {
      assert all[..2] == b[..2];
      assert forall i :: 0 <= i < |b[2..]| ==> b[2..][i] == all[2..][i];
    }
  }

  lemma CompleteOrphanedTailExtend(b: bytes, more: bytes)
    requires Terminator(b, OrphanedSgrMouseTail).Some?
    ensures CompleteOrphanedTail(b + more) == CompleteOrphanedTail(b)
  {
    TerminatorExtend(b, OrphanedSgrMouseTail, more);
    var n := Terminator(b, OrphanedSgrMouseTail).value;
    assert (b + more)[..n] == b[..n];
  }

  predicate IsWindow(s: Framer) {
    s.loneEscapeRecentlyFlushed && s.discardUntil.None?
  }

  function CloseWindow(s: Framer): Framer {
    s.(loneEscapeRecentlyFlushed := false)
  }

  /** Leaving the window drops a complete mouse report, or nothing. */
  lemma WindowTurn(s: Framer, key: KeyParser)
    requires IsWindow(s)
    ensures IsIncompleteOrphanedTail(s.buffer) ==> DrainTurn(s, key) == Stop(s)
    ensures !IsIncompleteOrphanedTail(s.buffer) && CompleteOrphanedTail(s.buffer).Some? ==>
              DrainTurn(s, key) == Again([],
                  CloseWindow(s).(buffer := s.buffer[CompleteOrphanedTail(s.buffer).value..]))
    ensures !IsIncompleteOrphanedTail(s.buffer) && CompleteOrphanedTail(s.buffer).None? ==>
              DrainTurn(s, key) == DrainTurn(CloseWindow(s), key)
  {
    hide SteadyTurn;
    hide CompleteOrphanedTail;
    hide IsIncompleteOrphanedTail;
  }

  lemma WindowDrain(s: Framer, key: KeyParser)
    requires IsWindow(s)
    ensures DrainAvailableChunks(s, key) ==
            if IsIncompleteOrphanedTail(s.buffer) then Outcome([], s)
            else if CompleteOrphanedTail(s.buffer).Some? then
              DrainAvailableChunks(CloseWindow(s).(buffer := s.buffer[CompleteOrphanedTail(s.buffer).value..]), key)
            else DrainAvailableChunks(CloseWindow(s), key)
  {
    hide DrainTurn;
    hide CompleteOrphanedTail;
    hide IsIncompleteOrphanedTail;
    WindowTurn(s, key);
    if IsIncompleteOrphanedTail(s.buffer) {
      LastTurn(s, s, key);
    } else if CompleteOrphanedTail(s.buffer).Some? {
      SilentTurn(s, CloseWindow(s).(buffer := s.buffer[CompleteOrphanedTail(s.buffer).value..]), key);
    } else {
      SameTurn(s, CloseWindow(s), key);
    }
  }

  lemma WindowVerdictExtend(x: bytes, b: bytes)
    requires !IsIncompleteOrphanedTail(x)
    requires FirstWhere(x, IsSgrFinal).None? ==> CompleteOrphanedTail(x + b).None?
    ensures !IsIncompleteOrphanedTail(x + b) && CompleteOrphanedTail(x + b) == CompleteOrphanedTail(x)
  {
    if IsIncompleteOrphanedTail(x + b) {
      WindowIsPrefixClosed(x, b);
    }
    if Terminator(x, OrphanedSgrMouseTail).Some? {
      CompleteOrphanedTailExtend(x, b);
    }
  }

  /** After a lone ESC: either the first read stays in the window, or both ways agree on it. */
  lemma WindowSplit(s: Framer, a: bytes, b: bytes, key: KeyParser)
    requires IsWindow(s)
    requires !LeavesMouseWindow(s, a, b)
    ensures Push(s, a + b, key) == Then(Push(s, a, key), b, key)
  {
    hide DrainAvailableChunks;
    hide CompleteOrphanedTail;
    hide IsIncompleteOrphanedTail;
    var fed := Feed(s, a);
    var x := fed.buffer;
    FeedTwice(s, a, b);
    WindowDrain(fed, key);
    if !IsIncompleteOrphanedTail(x) {
      WindowVerdictExtend(x, b);
      WindowDrain(Feed(fed, b), key);
      var closed := CloseWindow(fed);
      match CompleteOrphanedTail(x)
      case Some(n) =>
        assert (x + b)[n..] == x[n..] + b;
        SteadyDrainThenMore(closed.(buffer := x[n..]), b, key);
      case None =>
        SteadyDrainThenMore(closed, b, key);
    }
  }

  /** Bytes an outcome still accounts for. */
  function Kept(o: Outcome): nat {
    |Concat(o.chunks) + o.framer.buffer|
  }

  lemma WindowLostDiffers(s: Framer, a: bytes, b: bytes, key: KeyParser)
    requires IsWindow(s) && LeavesMouseWindow(s, a, b)
    ensures Push(s, a + b, key) != Then(Push(s, a, key), b, key)
  {
    hide DrainTurn;
    var fed := Feed(s, a);
    var x := fed.buffer;
    FeedTwice(s, a, b);
    if IsIncompleteOrphanedTail(x + b) {
      WindowIsPrefixClosed(x, b);
    }
    WindowDrain(fed, key);
    WindowDrain(Feed(fed, b), key);
    assert CompleteOrphanedTail(x).None?;
    var n := CompleteOrphanedTail(x + b).value;
    hide CompleteOrphanedTail;
    hide IsIncompleteOrphanedTail;
    var dropped := CloseWindow(Feed(fed, b)).(buffer := (x + b)[n..]);
    IdleDrainConserves(dropped, key);
    assert Kept(Push(s, a + b, key)) == |x + b| - n;
    SteadyDrainThenMore(CloseWindow(fed), b, key);
    IdleDrainConserves(Feed(CloseWindow(fed), b), key);
    assert Kept(Then(Push(s, a, key), b, key)) == |x + b|;
  }

  lemma OverflowDiffers(s: Framer, a: bytes, b: bytes, key: KeyParser)
    requires TailOverflows(s, a) && b != []
    ensures Push(s, a + b, key) != Then(Push(s, a, key), b, key)
  {
    hide DrainTurn;
    OverflowLosesTheRest(s, a, b, key);
    hide TailOverflows;
    var clear := StopDiscarding(s.(buffer := []));
    assert Kept(Push(s, a + b, key)) == 0;
    IdleDrainConserves(Feed(clear, b), key);
    var next := Push(clear, b, key);
    assert [] + next.chunks == next.chunks;
    assert Then(Push(s, a, key), b, key) == next;
    assert Kept(next) == |b|;
  }

  lemma OverflowThenNothing(s: Framer, a: bytes, key: KeyParser)
    requires TailOverflows(s, a)
    ensures Push(s, a + [], key) == Then(Push(s, a, key), [], key)
  {
    var clear := StopDiscarding(s.(buffer := []));
    assert a + [] == a && Feed(clear, []) == clear;
    OverflowClears(s, a, key);
    assert DrainTurn(clear, key) == Stop(clear);
    LastTurn(clear, clear, key);
  }

  lemma TwoPushes(s: Framer, a: bytes, b: bytes, key: KeyParser)
    ensures PushAll(s, [a, b], key) == Then(Push(s, a, key), b, key)
  {
    hide DrainAvailableChunks;
    var first := Push(s, a, key);
    var second := Push(first.framer, b, key);
    assert [a, b][1..] == [b] && [b][1..] == [];
    assert PushAll(second.framer, [], key) == Outcome([], second.framer);
    assert second.chunks + [] == second.chunks;
    assert PushAll(first.framer, [b], key) == second;
  }

  /** For every state in which an open ESC window excludes a discard, two reads act as one
      if and only if neither exception applies. */
  lemma ReadBoundaryExact(s: Framer, a: bytes, b: bytes, key: KeyParser)
    requires s.loneEscapeRecentlyFlushed ==> s.discardUntil.None?
    ensures PushAll(s, [a, b], key) == Push(s, a + b, key)
            <==> !(TailOverflows(s, a) && b != []) && !LeavesMouseWindow(s, a, b)
  {
    hide DrainAvailableChunks;
    hide InspectedTailBytes;
    hide IsIncompleteOrphanedTail;
    hide CompleteOrphanedTail;
    TwoPushes(s, a, b, key);
    if IsSteady(s) {
      SteadySplit(s, a, b, key);
    } else if s.loneEscapeRecentlyFlushed {
      if LeavesMouseWindow(s, a, b) {
        WindowLostDiffers(s, a, b, key);
      } else {
        WindowSplit(s, a, b, key);
      }
    } else if TailOverflows(s, a) {
      if b != [] {
        OverflowDiffers(s, a, b, key);
      } else {
        OverflowThenNothing(s, a, key);
      }
    } else {
      DiscardSplit(s, a, b, key);
    }
  }
}

/** Over any run the framer invents, repeats and reorders nothing. */
module Conservation {
  import opened Bytes
  import opened Utf8
  import opened RawInput
  import opened ByteFramer
  import opened Runs

  /** The first string is the second with some bytes left out. */
  predicate IsSubsequence(a: bytes, b: bytes)
    decreases |b|
  {
    || a == []
    || (b != [] && ((a[0] == b[0] && IsSubsequence(a[1..], b[1..])) || IsSubsequence(a, b[1..])))
  }

  lemma {:induction false} Whole(a: bytes)
    ensures IsSubsequence(a, a)
    decreases |a|
  {
    if a != [] {
      Whole(a[1..]);
    }
  }

  lemma {:induction false} Skip(skipped: bytes, a: bytes, b: bytes)
    requires IsSubsequence(a, b)
    ensures IsSubsequence(a, skipped + b)
    decreases |skipped|
  {
    if skipped == [] {
      assert skipped + b == b;
    } else {
      Skip(skipped[1..], a, b);
      assert (skipped + b)[1..] == skipped[1..] + b;
    }
  }

  lemma {:induction false} Join(a: bytes, b: bytes, c: bytes, d: bytes)
    requires IsSubsequence(a, b) && IsSubsequence(c, d)
    ensures IsSubsequence(a + c, b + d)
    decreases |b|
  {
    if a == [] {
      assert a + c == c;
      Skip(b, c, d);
    } else {
      assert (b + d)[0] == b[0] && (b + d)[1..] == b[1..] + d;
      if a[0] == b[0] && IsSubsequence(a[1..], b[1..]) {
        Join(a[1..], b[1..], c, d);
        assert (a + c)[0] == a[0] && (a + c)[1..] == a[1..] + c;
      } else {
        Join(a, b[1..], c, d);
      }
    }
  }

  lemma {:induction false} Chain(a: bytes, b: bytes, c: bytes)
    requires IsSubsequence(a, b) && IsSubsequence(b, c)
    ensures IsSubsequence(a, c)
    decreases |c|
  {
    if a != [] {
      if b[0] == c[0] && IsSubsequence(b[1..], c[1..]) {
        if a[0] == b[0] && IsSubsequence(a[1..], b[1..]) {
          Chain(a[1..], b[1..], c[1..]);
        } else {
          Chain(a, b[1..], c[1..]);
        }
      } else {
        Chain(a, b, c[1..]);
      }
    }
  }

  lemma Suffix(b: bytes, i: nat)
    requires i <= |b|
    ensures IsSubsequence(b[i..], b)
  {
    Whole(b[i..]);
    Skip(b[..i], b[i..], b[i..]);
    assert b[..i] + b[i..] == b;
  }

  // ----- The framer -----

  /** Everything an outcome accounts for: what came out and what is kept. */
  function Accounted(o: Outcome): bytes {
    Concat(o.chunks) + o.framer.buffer
  }

  function TurnOutcome(turn: Turn): Outcome {
    match turn
    case Stop(t) => Outcome([], t)
    case Again(chunks, t) => Outcome(chunks, t)
  }

  lemma NothingOut(s: Framer)
    ensures Accounted(Outcome([], s)) == s.buffer
  {
    assert [] + s.buffer == s.buffer;
  }

  lemma OneOut(chunk: bytes, s: Framer)
    ensures Accounted(Outcome([chunk], s)) == chunk + s.buffer
  {
    assert [chunk][1..] == [] && Concat([]) == [];
    assert Concat([chunk]) == chunk + Concat([chunk][1..]);
    assert chunk + [] == chunk;
  }

  lemma ExtractTurnAccounts(s: Framer, key: KeyParser)
    ensures Accounted(TurnOutcome(ExtractTurn(s, key))) == s.buffer
  {
    hide ExtractOneEvent;
    match ExtractOneEvent(s.buffer, key)
    case None =>
      NothingOut(s);
    case Some(e) =>
      OneOut(s.buffer[..e.consumed], ExtractTurn(s, key).framer);
      assert s.buffer[..e.consumed] + s.buffer[e.consumed..] == s.buffer;
  }

  lemma DiscardTurnAccounts(s: Framer, family: ControlStringFamily)
    ensures IsSubsequence(Accounted(TurnOutcome(DiscardTurn(s, family))), s.buffer)
  {
    hide Terminator;
    hide InspectedTailBytes;
    hide FirstWhere;
    NothingOut(DiscardTurn(s, family).framer);
    Whole(s.buffer);
    if family == OrphanedSgrMouseTail {
      var inspected := InspectedTailBytes(s.buffer, s.discardedTailBytes);
      match FirstWhere(s.buffer[..inspected], IsNotTailByte)
      case Some(i) =>
        Suffix(s.buffer, i);
        Suffix(s.buffer, i + 1);
      case None =>
    } else {
      match Terminator(s.buffer, family)
      case Some(n) => Suffix(s.buffer, n);
      case None =>
    }
  }

  lemma TurnAccounts(s: Framer, key: KeyParser)
    ensures IsSubsequence(Accounted(TurnOutcome(DrainTurn(s, key))), s.buffer)
  {
    hide ExtractTurn;
    hide DiscardTurn;
    hide IsIncompleteOrphanedTail;
    hide CompleteOrphanedTail;
    hide Accounted;
    Whole(s.buffer);
    NothingOut(s);
    var t := if s.loneEscapeRecentlyFlushed then s.(loneEscapeRecentlyFlushed := false) else s;
    ExtractTurnAccounts(t, key);
    if s.discardUntil.Some? {
      DiscardTurnAccounts(t, s.discardUntil.value);
    }
    match CompleteOrphanedTail(s.buffer)
    case Some(n) =>
      NothingOut(s.(buffer := s.buffer[n..], loneEscapeRecentlyFlushed := false));
      Suffix(s.buffer, n);
    case None =>
  }

  /** What one step accounts for, put behind what came out before it. */
  lemma Follow(chunks: seq<bytes>, t: Framer, next: Outcome, input: bytes)
    requires IsSubsequence(Concat(chunks) + t.buffer, input)
    requires IsSubsequence(Accounted(next), t.buffer)
    ensures IsSubsequence(Accounted(Outcome(chunks + next.chunks, next.framer)), input)
  {
    hide IsSubsequence;
    Whole(Concat(chunks));
    Join(Concat(chunks), Concat(chunks), Accounted(next), t.buffer);
    ConcatAppend(chunks, next.chunks);
    var x, y, z := Concat(chunks), Concat(next.chunks), next.framer.buffer;
    assert x + (y + z) == (x + y) + z;
    Chain(x + Accounted(next), x + t.buffer, input);
  }

  lemma {:induction false} DrainAccounts(s: Framer, key: KeyParser)
    ensures IsSubsequence(Accounted(DrainAvailableChunks(s, key)), s.buffer)
    decreases Work(s)
  {
    hide DrainTurn;
    hide IsSubsequence;
    TurnAccounts(s, key);
    match DrainTurn(s, key)
    case Stop(_) =>
    case Again(chunks, t) =>
      TurnMakesProgress(s, key);
      DrainAccounts(t, key);
      Follow(chunks, t, DrainAvailableChunks(t, key), s.buffer);
  }

  lemma TimeoutAccounts(s: Framer, key: KeyParser)
    ensures IsSubsequence(Accounted(TimeoutOnBuffer(s, key)), s.buffer)
  {
    hide TimeoutOnBuffer;
    hide Accounted;
    hide IsSubsequence;
    hide CompleteOrphanedTail;
    KeptOrOut(s, key);
    Whole(s.buffer);
    Empty(s.buffer);
    if EndsInEsc(s.buffer) {
      Suffix(s.buffer, |s.buffer| - 1);
      assert s.buffer[|s.buffer| - 1..] == [ESC];
    }
    if CompleteOrphanedTail(s.buffer).Some? {
      Suffix(s.buffer, CompleteOrphanedTail(s.buffer).value);
    }
  }

  lemma Empty(b: bytes)
    ensures IsSubsequence([], b)
  {}

  /** A timeout keeps the buffer, a last ESC, what is behind an orphaned tail, or nothing, or hands
      the buffer out whole. */
  lemma KeptOrOut(s: Framer, key: KeyParser)
    ensures var o, b := TimeoutOnBuffer(s, key), s.buffer;
            || Accounted(o) == b || Accounted(o) == []
            || (Accounted(o) == [ESC] && EndsInEsc(b))
            || (CompleteOrphanedTail(b).Some? && Accounted(o) == b[CompleteOrphanedTail(b).value..])
  {
    hide IsIncompleteSgrMouse;
    hide IsIncompletePaste;
    hide IsIncompleteDefaultColorResponse;
    hide IsIncompleteColorSchemeReport;
    hide ControlStringOf;
    hide IsPlausibleTail;
    hide CompleteOrphanedTail;
    hide WaitsForUtf8;
    hide IsUtf8;
    var o := TimeoutOnBuffer(s, key);
    hide Accounted;
    if o.chunks == [] {
      NothingOut(o.framer);
    } else {
      OneOut(s.buffer, o.framer);
      assert s.buffer + [] == s.buffer;
    }
  }

  lemma ApplyAccounts(s: Framer, op: Op, key: KeyParser)
    ensures IsSubsequence(Accounted(Apply(s, op, key)), s.buffer + Input([op]))
  {
    hide IsSubsequence;
    hide DrainAvailableChunks;
    hide TimeoutOnBuffer;
    OneInput(op);
    Whole(s.buffer);
    match op
    case PushBytes(data) =>
      DrainAccounts(Feed(s, data), key);
    case Timeout =>
      var drained := DrainAvailableChunks(s, key);
      DrainAccounts(s, key);
      TimeoutAccounts(drained.framer, key);
      Follow(drained.chunks, drained.framer, TimeoutOnBuffer(drained.framer, key), s.buffer);
      assert s.buffer + [] == s.buffer;
    case QuerySent =>
      NothingOut(HostColorQuerySent(s));
      assert s.buffer + [] == s.buffer;
    case TrackScheme =>
      NothingOut(EnableTracking(s));
      assert s.buffer + [] == s.buffer;
  }

  lemma OneInput(op: Op)
    ensures Input([op]) == if op.PushBytes? then op.data else []
  {
    assert [op][1..] == [];
    assert op.PushBytes? ==> op.data + [] == op.data;
  }

  lemma NoInput()
    ensures Input([]) == []
  {}

  lemma InputSplits(ops: seq<Op>)
    requires ops != []
    ensures Input(ops) == Input([ops[0]]) + Input(ops[1..])
  {
    OneInput(ops[0]);
  }

  /** Whatever is pushed, timed out and asked, in any order and from any state: what came out and
      what is kept is the input with some bytes left out. */
  lemma {:induction false} NothingInvented(s: Framer, ops: seq<Op>, key: KeyParser)
    ensures IsSubsequence(Accounted(Run(s, ops, key)), s.buffer + Input(ops))
    decreases |ops|
  {
    hide IsSubsequence;
    hide Apply;
    hide Run;
    hide Input;
    hide Accounted;
    if ops == [] {
      NoOps(s, [], key);
      NoInput();
      NothingOut(s);
      Whole(s.buffer);
      assert s.buffer + [] == s.buffer;
    } else {
      var first := Apply(s, ops[0], key);
      var later := Input(ops[1..]);
      ApplyAccounts(s, ops[0], key);
      NothingInvented(first.framer, ops[1..], key);
      InputSplits(ops);
      OneInput(ops[0]);
      RunFirst(s, ops[0], ops[1..], key);
      assert ops == [ops[0]] + ops[1..];
      FirstThenRest(first, Run(first.framer, ops[1..], key), s.buffer + Input([ops[0]]), later);
      assert (s.buffer + Input([ops[0]])) + later == s.buffer + (Input([ops[0]]) + later);
    }
  }

  lemma FirstThenRest(first: Outcome, rest: Outcome, before: bytes, later: bytes)
    requires IsSubsequence(Accounted(first), before)
    requires IsSubsequence(Accounted(rest), first.framer.buffer + later)
    ensures IsSubsequence(Accounted(Outcome(first.chunks + rest.chunks, rest.framer)), before + later)
  {
    hide IsSubsequence;
    Whole(later);
    Join(Accounted(first), before, later, later);
    var t := first.framer.(buffer := first.framer.buffer + later);
    assert Accounted(first) + later == Concat(first.chunks) + t.buffer;
    Follow(first.chunks, t, rest, before + later);
  }
}

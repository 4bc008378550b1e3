/** Control strings that a timeout cut off: what arrives of them later is thrown away, up to their
    own end and not beyond. */
module LateStrings {
  import opened Options
  import opened Bytes
  import opened TerminalTheme
  import opened RawInput
  import opened ByteFramer
  import opened ReadBoundaries
  import opened KeySequences
  import opened Runs

  // ----- Open strings and their ends, in bytes -----

  /** ESC ] but no reply to a colour query; ESC P, ESC X, ESC ^ or ESC _; or the first bytes of a
      colour scheme report, ESC [ ? 9 9 7 ; 1 or 2. The end has not come. */
  predicate IsOpen(b: bytes, family: ControlStringFamily) {
    match family
    case Osc =>
      && |b| >= 2 && b[0] == 0x1b && b[1] == 0x5d && HasNoBel(b[2..]) && HasNoSt(b[2..])
      && !(|b| >= 5 && b[2] == 0x31 && b[3] in {0x30, 0x31} && b[4] == 0x3b)
    case StTerminated => |b| >= 2 && b[0] == 0x1b && OpensString(b[1]) && HasNoSt(b[2..])
    case HostColorSchemeCsi =>
      && 3 <= |b| <= 8
      && (b == [0x1b, 0x5b, 0x3f, 0x39, 0x39, 0x37, 0x3b, 0x31][..|b|]
          || b == [0x1b, 0x5b, 0x3f, 0x39, 0x39, 0x37, 0x3b, 0x32][..|b|])
    case OrphanedSgrMouseTail => false
  }

  /** BEL or ESC \ for ESC ]; ESC \ for the other strings; n for a colour scheme report. */
  predicate HasNoEnd(b: bytes, family: ControlStringFamily) {
    match family
    case Osc => HasNoBel(b) && HasNoSt(b)
    case StTerminated => HasNoSt(b)
    case HostColorSchemeCsi => forall i :: 0 <= i < |b| ==> b[i] != 0x6e
    case OrphanedSgrMouseTail => forall i :: 0 <= i < |b| ==> b[i] != 0x4d && b[i] != 0x6d
  }

  /** The text up to and including its first end. */
  predicate IsTailOf(tail: bytes, family: ControlStringFamily) {
    && tail != [] && HasNoEnd(tail[..|tail| - 1], family)
    && var last := tail[|tail| - 1];
       match family
       case Osc => last == 0x07 || (|tail| >= 2 && tail[|tail| - 2] == 0x1b && last == 0x5c)
       case StTerminated => |tail| >= 2 && tail[|tail| - 2] == 0x1b && last == 0x5c
       case HostColorSchemeCsi => last == 0x6e
       case OrphanedSgrMouseTail => last == 0x4d || last == 0x6d
  }

  /** The tail of such a string as one expects it to look. */
  predicate LooksRight(b: bytes, family: ControlStringFamily) {
    match family
    case Osc =>
      forall i :: 0 <= i < |b| ==>
        0x30 <= b[i] <= 0x39 || b[i] in {0x3b, 0x3a, 0x2f, 0x23, 0x3f, 0x2e, 0x5f, 0x2d, 0x2b,
                                         0x72, 0x67, 0x62, 0x52, 0x47, 0x42, 0x1b}
    case StTerminated => b != [] && b[|b| - 1] == 0x1b
    case HostColorSchemeCsi => forall i :: 0 <= i < |b| ==> 0x30 <= b[i] <= 0x39 || b[i] in {0x3b, 0x3f, 0x6e}
    case OrphanedSgrMouseTail => false
  }

  lemma OpenHasNoEnd(x: bytes, family: ControlStringFamily)
    requires HasNoEnd(x, family)
    ensures Terminator(x, family) == None
  {
    match family
    case Osc => NoStFound(x);
    case StTerminated => NoStFound(x);
    case HostColorSchemeCsi =>
    case OrphanedSgrMouseTail =>
  }

  /** The end is found where it is, whatever follows. */
  lemma TailEnds(tail: bytes, rest: bytes, family: ControlStringFamily)
    requires IsTailOf(tail, family)
    ensures Terminator(tail + rest, family) == Some(|tail|)
  {
    match family
    case Osc => OscTailEnds(tail, rest);
    case StTerminated => StTailEnds(tail, rest);
    case HostColorSchemeCsi => FirstWhereIs(tail + rest, IsReportEnd, |tail| - 1);
    case OrphanedSgrMouseTail => FirstWhereIs(tail + rest, SgrMouse.IsSgrFinal, |tail| - 1);
  }

  lemma OscTailEnds(tail: bytes, rest: bytes)
    requires IsTailOf(tail, Osc)
    ensures Terminator(tail + rest, Osc) == Some(|tail|)
  {
    hide Terminator;
    var p := tail[..|tail| - 1];
    if tail[|tail| - 1] == 0x07 {
      assert tail == p + [0x07];
      OscTerminates(p, [0x07], rest);
    } else {
      var q := tail[..|tail| - 2];
      assert tail == q + [0x1b, 0x5c] && p[..|p| - 1] == q;
      ShorterHasNoEnd(p, Osc);
      OscTerminates(q, [0x1b, 0x5c], rest);
    }
  }

  lemma StTailEnds(tail: bytes, rest: bytes)
    requires IsTailOf(tail, StTerminated)
    ensures Terminator(tail + rest, StTerminated) == Some(|tail|)
  {
    var p, q := tail[..|tail| - 1], tail[..|tail| - 2];
    assert tail == q + [0x1b, 0x5c] && p[..|p| - 1] == q;
    ShorterHasNoEnd(p, StTerminated);
    StFound(q, rest);
    hide FindSubsequence;
  }

  lemma ShorterHasNoEnd(p: bytes, family: ControlStringFamily)
    requires p != [] && HasNoEnd(p, family)
    ensures HasNoEnd(p[..|p| - 1], family)
  {}

  lemma OpenIsWaiting(b: bytes, family: ControlStringFamily, key: KeyParser)
    requires IsOpen(b, family)
    ensures ExtractOneEvent(b, key) == None
  {
    hide CompleteEscapeSequenceLen;
    assert PASTE_START[0] == 0x1b && PASTE_START[1] == 0x5b && PASTE_START[2] == 0x32;
    match family
    case Osc =>
      OscOpen(b[2..]);
      assert b == [0x1b, 0x5d] + b[2..];
    case StTerminated =>
      StringOpen(b[1], b[2..]);
      assert b == [0x1b, b[1]] + b[2..];
    case HostColorSchemeCsi =>
      ReportIsOpen(b);
      CsiOpen(b[2..]);
      assert b == Csi(b[2..]);
  }

  lemma ReportIsOpen(b: bytes)
    requires IsOpen(b, HostColorSchemeCsi)
    ensures b[0] == 0x1b && b[1] == 0x5b && b[2] == 0x3f && HasNoFinal(b[2..]) && !StartsWith(b[2..], 0x3c)
  {
    var dark: bytes := [0x1b, 0x5b, 0x3f, 0x39, 0x39, 0x37, 0x3b, 0x31];
    var light: bytes := [0x1b, 0x5b, 0x3f, 0x39, 0x39, 0x37, 0x3b, 0x32];
    var full := if b == dark[..|b|] then dark else light;
    assert forall i :: 0 <= i < |b| ==> b[i] == full[i];
    assert forall i :: 2 <= i < 8 ==> 0x31 <= full[i] < 0x40;
    assert forall i :: 0 <= i < |b| - 2 ==> b[2..][i] == b[i + 2];
  }

  // ----- One timeout -----

  function Discarding(s: Framer, family: ControlStringFamily, carried: bytes, counted: nat): Framer {
    s.(buffer := carried, discardUntil := Some(family), discardedTailBytes := counted)
  }

  /** The state in which nothing of the string is left. */
  function Recovered(s: Framer): Framer {
    s.(buffer := [], discardUntil := None, discardedTailBytes := 0)
  }

  lemma OpenTimeout(s: Framer, family: ControlStringFamily, key: KeyParser)
    requires IsIdle(s) && IsOpen(s.buffer, family)
    ensures FlushTimeout(s, key) == Outcome([], Discarding(s, family, [], 0))
  {
    hide ExtractOneEvent;
    var b := s.buffer;
    OpenIsWaiting(b, family, key);
    LastTurn(s, s, key);
    match family
    case Osc => OpenOscTimeout(s, key);
    case StTerminated => OpenStTimeout(s, key);
    case HostColorSchemeCsi => OpenReportTimeout(s, key);
  }

  lemma OpenOscTimeout(s: Framer, key: KeyParser)
    requires IsIdle(s) && IsOpen(s.buffer, Osc)
    ensures TimeoutOnBuffer(s, key) == Outcome([], Discarding(s, Osc, [], 0))
  {
    var b := s.buffer;
    OscHead(b[2..]);
    assert b == [0x1b, 0x5d] + b[2..];
    OpenHasNoEnd(b, Osc);
    assert SgrMouse.CSI_LESS[1] == PASTE_START[1] == CSI[1] == 0x5b;
    assert |b| >= 5 ==> b[2..4] == [b[2], b[3]];
    hide Terminator;
  }

  lemma OpenStTimeout(s: Framer, key: KeyParser)
    requires IsIdle(s) && IsOpen(s.buffer, StTerminated)
    ensures TimeoutOnBuffer(s, key) == Outcome([], Discarding(s, StTerminated, [], 0))
  {
    var b := s.buffer;
    assert HasNoSt(b) by {
      assert forall i :: 2 <= i < |b| ==> b[i] == b[2..][i - 2];
    }
    OpenHasNoEnd(b, StTerminated);
    assert SgrMouse.CSI_LESS[1] == PASTE_START[1] == CSI[1] == 0x5b;
    hide Terminator;
  }

  lemma OpenReportTimeout(s: Framer, key: KeyParser)
    requires IsIdle(s) && IsOpen(s.buffer, HostColorSchemeCsi)
    ensures TimeoutOnBuffer(s, key) == Outcome([], Discarding(s, HostColorSchemeCsi, [], 0))
  {
    var b := s.buffer;
    assert b[2] == 0x3f && SgrMouse.CSI_LESS[2] == 0x3c && PASTE_START[2] == 0x32;
    assert b <= DARK_REPORT || b <= LIGHT_REPORT;
    assert CSI + [0x3f] <= b;
    assert ControlStringOf(b) == None;
  }

  // ----- While the string is discarded -----

  /** A discard that has not found the end yet. */
  predicate IsDiscarding(s: Framer, family: ControlStringFamily) {
    && !s.loneEscapeRecentlyFlushed && family != OrphanedSgrMouseTail
    && s.discardUntil == Some(family) && HasNoEnd(s.buffer, family)
  }

  lemma DiscardWaits(s: Framer, family: ControlStringFamily, key: KeyParser)
    requires IsDiscarding(s, family)
    ensures DrainAvailableChunks(s, key) == Outcome([], s)
  {
    hide Terminator;
    OpenHasNoEnd(s.buffer, family);
    LastTurn(s, s, key);
  }

  /** Reads without the end only lengthen what waits. */
  lemma DiscardGrows(s: Framer, family: ControlStringFamily, pieces: seq<bytes>, key: KeyParser)
    requires IsDiscarding(s, family) && HasNoEnd(s.buffer + Concat(pieces), family)
    ensures PushAll(s, pieces, key) == Outcome([], Feed(s, Concat(pieces)))
  {
    hide HasNoEnd;
    hide DrainTurn;
    if pieces == [] {
      assert s.buffer + [] == s.buffer;
    } else {
      AnySplitting(s, pieces, key);
      DiscardWaits(Feed(s, Concat(pieces)), family, key);
    }
  }

  /** Reads with the end in them: what follows it is read as if there had been no string. */
  lemma DiscardFinishes(s: Framer, family: ControlStringFamily, pieces: seq<bytes>, tail: bytes, rest: bytes,
                        key: KeyParser)
    requires IsDiscarding(s, family) && IsTailOf(tail, family) && s.buffer + Concat(pieces) == tail + rest
    ensures PushAll(s, pieces, key) == Push(Recovered(s), rest, key)
  {
    TailEnds(tail, rest, family);
    assert pieces != [] by {
      OpenHasNoEnd(s.buffer, family);
      assert s.buffer + [] == s.buffer;
    }
    hide Terminator;
    hide IsTailOf;
    AnySplitting(s, pieces, key);
    var fed := Feed(s, Concat(pieces));
    var next := Feed(Recovered(s), rest);
    assert (tail + rest)[|tail|..] == rest && next.buffer == rest;
    assert DrainTurn(fed, key) == Again([], next);
    hide DrainTurn;
    SilentTurn(fed, next, key);
  }

  function Carry(x: bytes): bytes {
    if x != [] && x[|x| - 1] == 0x1b then [0x1b] else []
  }

  /** A further timeout goes on discarding exactly while what came looks right and, with what came
      before, is no longer than 128 bytes; a last ESC may be half an end and stays. */
  lemma DiscardTimesOut(s: Framer, family: ControlStringFamily, key: KeyParser)
    requires IsDiscarding(s, family)
    ensures var counted := s.discardedTailBytes + |s.buffer|;
            FlushTimeout(s, key) ==
            Outcome([], if LooksRight(s.buffer, family) && counted <= 128
                        then Discarding(s, family, Carry(s.buffer), counted) else Recovered(s))
  {
    hide Terminator;
    hide HasNoEnd;
    DiscardWaits(s, family, key);
    assert LooksRight(s.buffer, family) <==> IsPlausibleTail(family, s.buffer);
  }

  // ----- Any number of timeouts -----

  /** Reads in pieces with a timeout behind each group of them. */
  function WithTimeouts(groups: seq<seq<bytes>>): seq<Op> {
    if groups == [] then [] else Pushes(groups[0]) + [Timeout] + WithTimeouts(groups[1..])
  }

  /** What one timeout finds: half an end from before, and the group of reads. */
  function Found(carried: bytes, group: seq<bytes>): bytes {
    carried + Concat(group)
  }

  /** The discard goes on through all the timeouts: each finds no end, and what it finds looks right
      and keeps the count within 128 bytes. */
  predicate GoesOn(family: ControlStringFamily, carried: bytes, counted: nat, groups: seq<seq<bytes>>)
    decreases |groups|
  {
    groups == []
    || (var x := Found(carried, groups[0]);
        && HasNoEnd(x, family) && LooksRight(x, family) && counted + |x| <= 128
        && GoesOn(family, Carry(x), counted + |x|, groups[1..]))
  }

  function CarriedAfter(carried: bytes, groups: seq<seq<bytes>>): bytes
    decreases |groups|
  {
    if groups == [] then carried else CarriedAfter(Carry(Found(carried, groups[0])), groups[1..])
  }

  function CountedAfter(carried: bytes, counted: nat, groups: seq<seq<bytes>>): nat
    decreases |groups|
  {
    if groups == [] then counted
    else
      var x := Found(carried, groups[0]);
      CountedAfter(Carry(x), counted + |x|, groups[1..])
  }

  lemma OneGroup(s: Framer, family: ControlStringFamily, group: seq<bytes>, key: KeyParser)
    requires IsDiscarding(s, family) && HasNoEnd(Found(s.buffer, group), family)
    ensures var x := Found(s.buffer, group);
            var counted := s.discardedTailBytes + |x|;
            Run(s, Pushes(group) + [Timeout], key) ==
            Outcome([], if LooksRight(x, family) && counted <= 128
                        then Discarding(s, family, Carry(x), counted) else Recovered(s))
  {
    hide FlushTimeout;
    hide HasNoEnd;
    hide LooksRight;
    var fed := Feed(s, Concat(group));
    DiscardGrows(s, family, group, key);
    RunPushes(s, group, key);
    SilentStart(s, Pushes(group), fed, [Timeout], key);
    DiscardTimesOut(fed, family, key);
    RunFirst(fed, Timeout, [], key);
    assert [Timeout] + [] == [Timeout];
  }

  lemma CarryIsOpen(x: bytes, family: ControlStringFamily)
    ensures family != OrphanedSgrMouseTail ==> HasNoEnd(Carry(x), family)
  {}

  lemma {:induction false} Groups(s: Framer, family: ControlStringFamily, groups: seq<seq<bytes>>, key: KeyParser)
    requires IsDiscarding(s, family) && GoesOn(family, s.buffer, s.discardedTailBytes, groups)
    ensures var t := Discarding(s, family, CarriedAfter(s.buffer, groups),
                                CountedAfter(s.buffer, s.discardedTailBytes, groups));
            Run(s, WithTimeouts(groups), key) == Outcome([], t) && IsDiscarding(t, family)
    decreases |groups|
  {
    hide Run;
    hide HasNoEnd;
    hide LooksRight;
    if groups == [] {
      NoOps(s, [], key);
    } else {
      var x := Found(s.buffer, groups[0]);
      OneGroup(s, family, groups[0], key);
      CarryIsOpen(x, family);
      var t := Discarding(s, family, Carry(x), s.discardedTailBytes + |x|);
      Groups(t, family, groups[1..], key);
      SilentStart(s, Pushes(groups[0]) + [Timeout], t, WithTimeouts(groups[1..]), key);
    }
  }

  lemma OpenIsThere(b: bytes, family: ControlStringFamily)
    requires IsOpen(b, family)
    ensures b != [] && family != OrphanedSgrMouseTail && HasNoEnd([], family)
  {}

  /** An open string in any pieces, and a timeout: nothing comes out. */
  lemma Opening(s: Framer, b: bytes, opening: seq<bytes>, family: ControlStringFamily, key: KeyParser)
    requires IsIdle(s) && s.buffer == [] && IsOpen(b, family) && Concat(opening) == b
    ensures var t := Discarding(s, family, [], 0);
            Run(s, Pushes(opening) + [Timeout], key) == Outcome([], t) && IsDiscarding(t, family)
  {
    hide ExtractOneEvent;
    hide FlushTimeout;
    hide Run;
    hide Pushes;
    hide IsOpen;
    OpenIsThere(b, family);
    var fed := Feed(s, b);
    assert fed.buffer == b;
    OpenIsWaiting(b, family, key);
    LastTurn(fed, fed, key);
    AnySplitting(s, opening, key);
    RunPushes(s, opening, key);
    SilentStart(s, Pushes(opening), fed, [Timeout], key);
    OpenTimeout(fed, family, key);
    NoOps(Discarding(s, family, [], 0), [], key);
    RunFirst(fed, Timeout, [], key);
    assert [Timeout] + [] == [Timeout];
  }

  /** A string cut off by a timeout leaves no trace. Nothing of it comes out, and however its tail
      and what follows are cut into reads, and whatever further timeouts come while the tail still
      looks right and is short, what follows is read exactly as if there had been no string. */
  lemma LateStringsVanish(s: Framer, b: bytes, opening: seq<bytes>, family: ControlStringFamily,
                          groups: seq<seq<bytes>>, last: seq<bytes>, tail: bytes, rest: bytes, key: KeyParser)
    requires IsIdle(s) && s.buffer == [] && IsOpen(b, family) && Concat(opening) == b
    requires GoesOn(family, [], 0, groups)
    requires IsTailOf(tail, family) && Found(CarriedAfter([], groups), last) == tail + rest
    ensures Run(s, Pushes(opening) + [Timeout] + WithTimeouts(groups) + Pushes(last), key)
            == Push(Recovered(s), rest, key)
  {
    hide Run;
    hide HasNoEnd;
    hide IsTailOf;
    hide IsOpen;
    hide GoesOn;
    var t := Discarding(s, family, [], 0);
    Opening(s, b, opening, family, key);
    Groups(t, family, groups, key);
    var u := Discarding(t, family, CarriedAfter([], groups), CountedAfter([], 0, groups));
    SilentStart(s, Pushes(opening) + [Timeout], t, WithTimeouts(groups), key);
    SilentStart(s, Pushes(opening) + [Timeout] + WithTimeouts(groups), u, Pushes(last), key);
    RunPushes(u, last, key);
    DiscardFinishes(u, family, last, tail, rest, key);
  }

  /** The other way a discard ends: at the first timeout that finds no end and something that does
      not look right, or too much. All it found is gone, and what comes later is read as ever. */
  lemma LateStringsGiveUp(s: Framer, b: bytes, opening: seq<bytes>, family: ControlStringFamily,
                          groups: seq<seq<bytes>>, last: seq<bytes>, later: seq<Op>, key: KeyParser)
    requires IsIdle(s) && s.buffer == [] && IsOpen(b, family) && Concat(opening) == b
    requires GoesOn(family, [], 0, groups)
    requires var x := Found(CarriedAfter([], groups), last);
             && HasNoEnd(x, family)
             && !(LooksRight(x, family) && CountedAfter([], 0, groups) + |x| <= 128)
    ensures Run(s, Pushes(opening) + [Timeout] + WithTimeouts(groups) + (Pushes(last) + [Timeout]) + later, key)
            == Run(Recovered(s), later, key)
  {
    hide Run;
    hide HasNoEnd;
    hide LooksRight;
    hide IsOpen;
    hide GoesOn;
    var t := Discarding(s, family, [], 0);
    Opening(s, b, opening, family, key);
    Groups(t, family, groups, key);
    var u := Discarding(t, family, CarriedAfter([], groups), CountedAfter([], 0, groups));
    var before := Pushes(opening) + [Timeout];
    SilentStart(s, before, t, WithTimeouts(groups), key);
    OneGroup(u, family, last, key);
    SilentStart(s, before + WithTimeouts(groups), u, Pushes(last) + [Timeout], key);
    SilentStart(s, before + WithTimeouts(groups) + (Pushes(last) + [Timeout]), Recovered(s), later, key);
  }

  /** While neither happens nothing comes out and the string is still waited for. */
  lemma LateStringsWait(s: Framer, b: bytes, opening: seq<bytes>, family: ControlStringFamily,
                        groups: seq<seq<bytes>>, last: seq<bytes>, key: KeyParser)
    requires IsIdle(s) && s.buffer == [] && IsOpen(b, family) && Concat(opening) == b
    requires GoesOn(family, [], 0, groups)
    requires HasNoEnd(Found(CarriedAfter([], groups), last), family)
    ensures Run(s, Pushes(opening) + [Timeout] + WithTimeouts(groups) + Pushes(last), key)
            == Outcome([], Discarding(s, family, Found(CarriedAfter([], groups), last), CountedAfter([], 0, groups)))
  {
    hide Run;
    hide HasNoEnd;
    hide IsOpen;
    hide GoesOn;
    var t := Discarding(s, family, [], 0);
    Opening(s, b, opening, family, key);
    Groups(t, family, groups, key);
    var u := Discarding(t, family, CarriedAfter([], groups), CountedAfter([], 0, groups));
    SilentStart(s, Pushes(opening) + [Timeout], t, WithTimeouts(groups), key);
    SilentStart(s, Pushes(opening) + [Timeout] + WithTimeouts(groups), u, Pushes(last), key);
    RunPushes(u, last, key);
    DiscardGrows(u, family, last, key);
  }

  /** The first timeout keeps no half end: a string whose ESC \ is cut there does not end at the
      backslash, and what is typed next is taken for more of it. */
  lemma SplitEndIsMissed(key: KeyParser)
    ensures Run(INITIAL, [PushBytes([0x1b, 0x50, 0x31, 0x1b]), Timeout, PushBytes([0x5c, 0x61])], key)
            == Outcome([], Discarding(INITIAL, StTerminated, [0x5c, 0x61], 0))
  {
    hide Run;
    var b: bytes, late: bytes := [0x1b, 0x50, 0x31, 0x1b], [0x5c, 0x61];
    One(b);
    One(late);
    assert [] + late == late;
    LateStringsWait(INITIAL, b, [b], StTerminated, [], [late], key);
    assert Pushes([b]) + [Timeout] + WithTimeouts([]) + Pushes([late]) == [PushBytes(b), Timeout, PushBytes(late)];
  }

  lemma One(b: bytes)
    ensures Concat([b]) == b && Pushes([b]) == [PushBytes(b)]
  {
    assert [b][1..] == [];
  }
}

/** The framer object: fields updated in place, each method doing exactly one step of the state machine. */
module RawInputByteFramer {
  import opened Options
  import opened Bytes
  import opened Utf8
  import opened SgrMouse
  import opened RawInput
  import Spec = ByteFramer

  class RawInputByteFramer {
    const key: KeyParser
    var buffer: bytes
    var discardUntil: Option<ControlStringFamily>
    var discardedTailBytes: nat
    var loneEscapeRecentlyFlushed: bool
    var hostColorRepliesAwaited: nat
    var heldPendingColorEsc: bool
    var hostColorSchemeChangeTracking: bool

    function State(): Spec.Framer
      reads this
    {
      Spec.Framer(buffer, discardUntil, discardedTailBytes, loneEscapeRecentlyFlushed,
                  hostColorRepliesAwaited, heldPendingColorEsc, hostColorSchemeChangeTracking)
    }

    constructor (key: KeyParser)
      ensures this.key == key && State() == Spec.INITIAL
    {
      this.key := key;
      buffer, discardUntil, discardedTailBytes := [], None, 0;
      loneEscapeRecentlyFlushed, hostColorRepliesAwaited := false, 0;
      heldPendingColorEsc, hostColorSchemeChangeTracking := false, false;
    }

    method HostColorQuerySent()
      modifies this
      ensures State() == Spec.HostColorQuerySent(old(State()))
    {
      hostColorRepliesAwaited := Spec.HOST_COLOR_QUERY_REPLIES;
      heldPendingColorEsc := false;
    }

    method EnableHostColorSchemeChangeTracking()
      modifies this
      ensures State() == Spec.EnableTracking(old(State()))
    {
      hostColorSchemeChangeTracking := true;
    }

    /** `stops` reports that the program stopped inside the call, where it hands out nothing. */
    method Push(data: bytes) returns (stops: bool, chunks: seq<bytes>)
      modifies this
      ensures stops == Spec.DrainStops(Spec.Feed(old(State()), data), key)
      ensures !stops ==> Spec.Outcome(chunks, State()) == Spec.Push(old(State()), data, key)
    {
      hide Spec.DrainAvailableChunks;
      hide Spec.DrainStops;
      buffer := buffer + data;
      stops, chunks := DrainAvailableChunks();
    }

    /** Swallow mouse-tail bytes up to the allowance; true once the tail is over. */
    method DiscardOrphanedSgrMouseTail() returns (done: bool)
      modifies this
      ensures var scan := Spec.ScanOrphanedTail(old(buffer), old(discardedTailBytes));
              && done == scan.done
              && State() == old(State()).(buffer := scan.rest, discardedTailBytes := scan.counted)
    {
      var inspected := Spec.InspectedTailBytes(buffer, discardedTailBytes);
      for index := 0 to inspected
        invariant State() == old(State())
        invariant forall j :: 0 <= j < index ==> IsSgrTailByte(buffer[j])
      {
        if !IsSgrTailByte(buffer[index]) {
          FirstWhereIs(buffer[..inspected], Spec.IsNotTailByte, index);
          buffer := if IsSgrFinal(buffer[index]) then buffer[index + 1..] else buffer[index..];
          return true;
        }
      }
      assert FirstWhere(buffer[..inspected], Spec.IsNotTailByte).None?;
      discardedTailBytes := discardedTailBytes + inspected;
      done := |buffer| > inspected;
      buffer := [];
    }

    /** Drop a complete mouse report that lost its ESC from the front of the buffer. */
    method DiscardCompleteOrphanedSgrMouseTail() returns (found: bool)
      modifies this
      ensures found == CompleteOrphanedTail(old(buffer)).Some?
      ensures State() == if found then old(State()).(buffer := old(buffer)[CompleteOrphanedTail(old(buffer)).value..])
                         else old(State())
    {
      var terminatorLen := CompleteOrphanedTail(buffer);
      if terminatorLen.None? {
        return false;
      }
      buffer := buffer[terminatorLen.value..];
      found := true;
    }

    /** Take one event off the buffer, if one is complete. */
    method TakeOneEvent() returns (stops: bool, chunks: seq<bytes>)
      modifies this
      ensures stops == Spec.ExtractStops(old(buffer), key)
      ensures !stops ==>
                Spec.ExtractTurn(old(State()), key)
                == if chunks == [] then Spec.Stop(State()) else Spec.Again(chunks, State())
    {
      hide ExtractOneEvent;
      stops, chunks := false, [];
      var extracted := ExtractOneEvent(buffer, key);
      if extracted.None? {
        return;
      }
      var Extracted(event, consumed) := extracted.value;
      if event == Stopped {
        return true, [];
      }
      if event.HostDefaultColor? {
        if hostColorRepliesAwaited > 0 {
          hostColorRepliesAwaited := hostColorRepliesAwaited - 1;
        }
      } else if hostColorSchemeChangeTracking && event.HostColorSchemeChanged? {
        HostColorQuerySent();
      }
      heldPendingColorEsc := false;
      chunks := [buffer[..consumed]];
      buffer := buffer[consumed..];
    }

    /** The steps of one discard turn; true when the loop goes round again. */
    method ContinueDiscarding(family: ControlStringFamily) returns (again: bool)
      requires discardUntil == Some(family)
      modifies this
      ensures Spec.DiscardTurn(old(State()), family) == if again then Spec.Again([], State()) else Spec.Stop(State())
    {
      hide Spec.ScanOrphanedTail;
      hide Terminator;
      if family == OrphanedSgrMouseTail {
        again := DiscardOrphanedSgrMouseTail();
      } else {
        var terminatorLen := Terminator(buffer, family);
        again := terminatorLen.Some?;
        if again {
          buffer := buffer[terminatorLen.value..];
        }
      }
      if again {
        discardUntil, discardedTailBytes := None, 0;
      }
    }

    method DrainAvailableChunks() returns (stops: bool, chunks: seq<bytes>)
      modifies this
      ensures stops == Spec.DrainStops(old(State()), key)
      ensures !stops ==> Spec.Outcome(chunks, State()) == Spec.DrainAvailableChunks(old(State()), key)
    {
      hide Spec.DrainAvailableChunks;
      hide Spec.DrainStops;
      hide Spec.DrainTurn;
      hide Spec.TurnStops;
      stops, chunks := false, [];
      var again := true;
      ghost var start := State();
      while again
        invariant stops ==> !again && Spec.DrainStops(start, key)
        invariant !stops ==> Spec.DrainAvailableChunks(start, key) == Rest(chunks, again, State())
        invariant !stops ==> Spec.DrainStops(start, key) == (again && Spec.DrainStops(State(), key))
        decreases again, if again then Spec.Work(State()) else 0
      {
        ghost var before, given := State(), chunks;
        Spec.TurnMakesProgress(before, key);
        StopsUnfold(before);
        var found: seq<bytes>;
        stops, again, found := DrainOnce();
        if stops {
          return;
        }
        chunks := chunks + found;
        TurnUnfolds(given, before, again, found, State());
      }
    }

    lemma StopsUnfold(s: Spec.Framer)
      ensures Spec.DrainStops(s, key)
              <==> || Spec.TurnStops(s, key)
                   || (Spec.DrainTurn(s, key).Again? && Spec.DrainStops(Spec.DrainTurn(s, key).framer, key))
    {
      hide Spec.DrainTurn;
      hide Spec.TurnStops;
    }

    /** What the whole drain gives when this much is out and the loop is here. */
    ghost function Rest(chunks: seq<bytes>, again: bool, s: Spec.Framer): Spec.Outcome {
      if !again then Spec.Outcome(chunks, s)
      else
        var rest := Spec.DrainAvailableChunks(s, key);
        Spec.Outcome(chunks + rest.chunks, rest.framer)
    }

    lemma TurnUnfolds(chunks: seq<bytes>, s: Spec.Framer, again: bool, found: seq<bytes>, t: Spec.Framer)
      requires Spec.DrainTurn(s, key) == if again then Spec.Again(found, t) else Spec.Stop(t)
      requires !again ==> found == []
      ensures Rest(chunks, true, s) == Rest(chunks + found, again, t)
    {
      hide Spec.DrainTurn;
      var rest := Spec.DrainAvailableChunks(t, key);
      assert chunks + (found + rest.chunks) == (chunks + found) + rest.chunks;
      assert chunks + [] == chunks;
    }

    /** One turn of the loop. */
    method DrainOnce() returns (stops: bool, again: bool, found: seq<bytes>)
      modifies this
      ensures stops == Spec.TurnStops(old(State()), key)
      ensures !stops ==>
                Spec.DrainTurn(old(State()), key) == if again then Spec.Again(found, State()) else Spec.Stop(State())
      ensures stops || !again ==> !again && found == []
    {
      hide Spec.DiscardTurn;
      hide Spec.ExtractTurn;
      hide CompleteOrphanedTail;
      hide IsIncompleteOrphanedTail;
      hide Spec.ExtractStops;
      stops, again, found := false, false, [];
      if loneEscapeRecentlyFlushed {
        if IsIncompleteOrphanedTail(buffer) {
          return;
        }
        again := DiscardCompleteOrphanedSgrMouseTail();
        loneEscapeRecentlyFlushed := false;
        if again {
          return;
        }
      }
      if discardUntil.Some? {
        again := ContinueDiscarding(discardUntil.value);
      } else {
        stops, found := TakeOneEvent();
        if stops {
          return true, false, [];
        }
        again := found != [];
      }
    }

    method StartDiscarding(family: ControlStringFamily)
      modifies this
      ensures State() == Spec.StartDiscarding(old(State()), family)
    {
      discardUntil, discardedTailBytes, buffer := Some(family), 0, [];
    }

    method StartDiscardingMouse()
      modifies this
      ensures State() == Spec.StartDiscardingMouse(old(State()))
    {
      discardedTailBytes := |buffer|;
      discardUntil := if discardedTailBytes <= MAX_DISCARDED_TAIL then Some(OrphanedSgrMouseTail) else None;
      buffer := [];
    }

    method TimeoutWhileDiscarding(family: ControlStringFamily)
      requires discardUntil == Some(family)
      modifies this
      ensures State() == Spec.TimeoutWhileDiscarding(old(State()), family)
    {
      if family == OrphanedSgrMouseTail {
        buffer, discardUntil, discardedTailBytes := [], None, 0;
        return;
      }
      var keepSplitSt := EndsInEsc(buffer);
      var keepDiscarding := IsPlausibleTail(family, buffer);
      discardedTailBytes := discardedTailBytes + |buffer|;
      buffer := [];
      if keepDiscarding && discardedTailBytes <= MAX_DISCARDED_TAIL {
        if keepSplitSt {
          buffer := [ESC];
        }
      } else {
        discardUntil, discardedTailBytes := None, 0;
      }
    }

    method FlushTimeout() returns (stops: bool, chunks: seq<bytes>)
      modifies this
      ensures stops == Spec.DrainStops(old(State()), key)
      ensures !stops ==> Spec.Outcome(chunks, State()) == Spec.FlushTimeout(old(State()), key)
    {
      hide Spec.DrainAvailableChunks;
      hide Spec.DrainStops;
      hide Spec.TimeoutOnBuffer;
      stops, chunks := DrainAvailableChunks();
      if stops {
        return;
      }
      var last := TimeoutOnBuffer();
      chunks := chunks + last;
    }

    method TimeoutOnBuffer() returns (chunks: seq<bytes>)
      modifies this
      ensures Spec.Outcome(chunks, State()) == Spec.TimeoutOnBuffer(old(State()), key)
    {
      hide CompleteOrphanedTail;
      hide IsIncompleteSgrMouse;
      hide IsIncompletePaste;
      hide IsIncompleteDefaultColorResponse;
      hide IsIncompleteColorSchemeReport;
      hide ControlStringOf;
      hide IsUtf8;
      hide Spec.WaitsForUtf8;
      chunks := [];
      if discardUntil.Some? {
        TimeoutWhileDiscarding(discardUntil.value);
      } else if buffer == [] {
      } else if loneEscapeRecentlyFlushed && ORPHAN_START <= buffer {
        var found := DiscardCompleteOrphanedSgrMouseTail();
        if !found {
          StartDiscardingMouse();
        }
        loneEscapeRecentlyFlushed := false;
      } else if IsIncompleteSgrMouse(buffer) {
        StartDiscardingMouse();
      } else if IsIncompletePaste(buffer) || IsIncompleteDefaultColorResponse(buffer) {
      } else if IsIncompleteColorSchemeReport(buffer) {
        StartDiscarding(HostColorSchemeCsi);
      } else if ControlStringOf(buffer).Some? && ControlStringOf(buffer).value.Incomplete? {
        StartDiscarding(ControlStringOf(buffer).value.family);
      } else if buffer == [ESC] {
        if hostColorRepliesAwaited > 0 && !heldPendingColorEsc {
          heldPendingColorEsc := true;
        } else {
          hostColorRepliesAwaited, heldPendingColorEsc := 0, false;
          loneEscapeRecentlyFlushed := true;
          chunks, buffer := [buffer], [];
        }
      } else if IsUtf8(buffer) && key(buffer).Some? {
        chunks, buffer := [buffer], [];
      } else if Spec.WaitsForUtf8(buffer) {
      } else {
        loneEscapeRecentlyFlushed, buffer := false, [];
      }
    }
  }
}

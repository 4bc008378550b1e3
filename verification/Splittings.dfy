/** Any list of reads, from any state: when it acts as one read. */
module Splittings {
  import opened Bytes
  import opened RawInput
  import opened ByteFramer
  import opened ReadBoundaries

  /** Cutting the input here, after `a` and before `b`, makes a difference. */
  predicate IsBadCut(s: Framer, a: bytes, b: bytes) {
    (TailOverflows(s, a) && b != []) || LeavesMouseWindow(s, a, b)
  }

  predicate IsBadCutAt(s: Framer, pieces: seq<bytes>, i: int) {
    0 < i < |pieces| && IsBadCut(s, Concat(pieces[..i]), Concat(pieces[i..]))
  }

  ghost predicate SplitsFreely(s: Framer, pieces: seq<bytes>) {
    forall i :: !IsBadCutAt(s, pieces, i)
  }

  lemma ConcatCut(pieces: seq<bytes>, i: nat)
    requires i <= |pieces|
    ensures Concat(pieces) == Concat(pieces[..i]) + Concat(pieces[i..])
  {
    assert pieces == pieces[..i] + pieces[i..];
    ConcatAppend(pieces[..i], pieces[i..]);
  }

  /** A cut that is bad in front of some bytes is bad in front of more. */
  lemma BadCutGrows(s: Framer, a: bytes, b: bytes, more: bytes)
    requires IsBadCut(s, a, b)
    ensures IsBadCut(s, a, b + more)
  {
    hide TailOverflows;
    hide IsIncompleteOrphanedTail;
    hide CompleteOrphanedTail;
    if LeavesMouseWindow(s, a, b) {
      OrphanedTailStays(s.buffer + a + b, more);
      assert s.buffer + a + b + more == s.buffer + a + (b + more);
    }
  }

  lemma OrphanedTailStays(b: bytes, more: bytes)
    requires CompleteOrphanedTail(b).Some?
    ensures CompleteOrphanedTail(b + more).Some?
  {
    CompleteOrphanedTailExtend(b, more);
  }

  lemma {:induction false} PushAllAppend(s: Framer, x: seq<bytes>, y: seq<bytes>, key: KeyParser)
    ensures var first := PushAll(s, x, key);
            var rest := PushAll(first.framer, y, key);
            PushAll(s, x + y, key) == Outcome(first.chunks + rest.chunks, rest.framer)
    decreases |x|
  {
    hide Push;
    if x == [] {
      assert x + y == y;
      var rest := PushAll(s, y, key);
      assert [] + rest.chunks == rest.chunks;
    } else {
      var head := Push(s, x[0], key);
      assert (x + y)[0] == x[0] && (x + y)[1..] == x[1..] + y;
      PushAllAppend(head.framer, x[1..], y, key);
      var first := PushAll(head.framer, x[1..], key);
      var rest := PushAll(first.framer, y, key);
      assert head.chunks + (first.chunks + rest.chunks) == (head.chunks + first.chunks) + rest.chunks;
    }
  }

  /** The reads before a cut form a list of their own, free where the whole list is. */
  lemma BadCutBefore(s: Framer, pieces: seq<bytes>, n: nat, i: nat)
    requires n <= |pieces| && IsBadCutAt(s, pieces[..n], i)
    ensures IsBadCutAt(s, pieces, i)
  {
    hide IsBadCut;
    assert pieces[..n][..i] == pieces[..i];
    assert pieces[i..][..n - i] == pieces[..n][i..];
    assert pieces[i..][n - i..] == pieces[n..];
    ConcatCut(pieces[i..], n - i);
    BadCutGrows(s, Concat(pieces[..i]), Concat(pieces[..n][i..]), Concat(pieces[n..]));
  }

  lemma CutIsFine(s: Framer, pieces: seq<bytes>, i: nat)
    requires 0 < i < |pieces| && !IsBadCutAt(s, pieces, i)
    ensures !IsBadCut(s, Concat(pieces[..i]), pieces[i])
  {
    hide IsBadCut;
    FirstOfRest(pieces, i);
    if IsBadCut(s, Concat(pieces[..i]), pieces[i]) {
      BadCutGrows(s, Concat(pieces[..i]), pieces[i], Concat(pieces[i + 1..]));
    }
  }

  lemma {:induction false} FreeReadsActAsOne(s: Framer, pieces: seq<bytes>, n: nat, key: KeyParser)
    requires s.loneEscapeRecentlyFlushed ==> s.discardUntil.None?
    requires 0 < n <= |pieces| && forall i :: 0 <= i < n ==> !IsBadCutAt(s, pieces, i)
    ensures PushAll(s, pieces[..n], key) == Push(s, Concat(pieces[..n]), key)
  {
    hide Push;
    hide IsBadCut;
    if n == 1 {
      OneRead(s, pieces[0], key);
      assert pieces[..1] == [pieces[0]];
    } else {
      FreeReadsActAsOne(s, pieces, n - 1, key);
      var a, b := Concat(pieces[..n - 1]), pieces[n - 1];
      assert pieces[..n] == pieces[..n - 1] + [b];
      ConcatAppend(pieces[..n - 1], [b]);
      OneRead(s, b, key);
      PushAllAppend(s, pieces[..n - 1], [b], key);
      CutIsFine(s, pieces, n - 1);
      CutExactly(s, a, b, key);
      OneRead(Push(s, a, key).framer, b, key);
    }
  }

  lemma FirstOfRest(pieces: seq<bytes>, i: nat)
    requires i < |pieces|
    ensures Concat(pieces[i..]) == pieces[i] + Concat(pieces[i + 1..])
  {
    assert pieces[i..][0] == pieces[i] && pieces[i..][1..] == pieces[i + 1..];
  }

  lemma OneRead(s: Framer, data: bytes, key: KeyParser)
    ensures PushAll(s, [data], key) == Push(s, data, key) && Concat([data]) == data
  {
    hide Push;
    var o := Push(s, data, key);
    assert [data][1..] == [];
    assert PushAll(o.framer, [], key) == Outcome([], o.framer);
    assert o.chunks + [] == o.chunks && data + [] == data && Concat([]) == [];
  }

  lemma CutExactly(s: Framer, a: bytes, b: bytes, key: KeyParser)
    requires s.loneEscapeRecentlyFlushed ==> s.discardUntil.None?
    ensures Then(Push(s, a, key), b, key) == Push(s, a + b, key) <==> !IsBadCut(s, a, b)
  {
    hide Push;
    hide TailOverflows;
    hide LeavesMouseWindow;
    ReadBoundaryExact(s, a, b, key);
    TwoPushes(s, a, b, key);
  }

  /** A read that ends at a bad cut leaves an idle framer. */
  lemma BadCutLeavesIdle(s: Framer, a: bytes, b: bytes, key: KeyParser)
    requires s.loneEscapeRecentlyFlushed ==> s.discardUntil.None?
    requires IsBadCut(s, a, b)
    ensures IsIdle(Push(s, a, key).framer)
  {
    hide DrainAvailableChunks;
    hide IsIncompleteOrphanedTail;
    if TailOverflows(s, a) {
      OverflowClears(s, a, key);
    } else {
      assert CompleteOrphanedTail(s.buffer + a).None?;
      hide CompleteOrphanedTail;
      WindowDrain(Feed(s, a), key);
      SteadyDrainThenMore(CloseWindow(Feed(s, a)), [], key);
    }
  }

  /** A list of reads acts as one read if and only if none of its cuts is bad. */
  lemma SplittingExactly(s: Framer, pieces: seq<bytes>, key: KeyParser)
    requires s.loneEscapeRecentlyFlushed ==> s.discardUntil.None?
    requires pieces != []
    ensures PushAll(s, pieces, key) == Push(s, Concat(pieces), key) <==> SplitsFreely(s, pieces)
  {
    hide Push;
    hide IsBadCutAt;
    if SplitsFreely(s, pieces) {
      FreeReadsActAsOne(s, pieces, |pieces|, key);
      assert pieces[..|pieces|] == pieces;
    } else {
      var i := FirstBadCut(s, pieces, 0);
      BadCutTells(s, pieces, i, key);
    }
  }

  lemma FirstBadCut(s: Framer, pieces: seq<bytes>, from: nat) returns (i: nat)
    requires exists k :: IsBadCutAt(s, pieces, k)
    requires forall k :: 0 <= k < from ==> !IsBadCutAt(s, pieces, k)
    requires from <= |pieces|
    ensures IsBadCutAt(s, pieces, i) && forall k :: 0 <= k < i ==> !IsBadCutAt(s, pieces, k)
    decreases |pieces| - from
  {
    hide IsBadCut;
    if IsBadCutAt(s, pieces, from) {
      i := from;
    } else {
      var k :| IsBadCutAt(s, pieces, k);
      assert from < k;
      i := FirstBadCut(s, pieces, from + 1);
    }
  }

  /** The first bad cut is noticed whatever follows it. */
  lemma BadCutTells(s: Framer, pieces: seq<bytes>, i: nat, key: KeyParser)
    requires s.loneEscapeRecentlyFlushed ==> s.discardUntil.None?
    requires IsBadCutAt(s, pieces, i) && forall k :: 0 <= k < i ==> !IsBadCutAt(s, pieces, k)
    ensures PushAll(s, pieces, key) != Push(s, Concat(pieces), key)
  {
    hide Push;
    hide IsBadCut;
    var a, b := Concat(pieces[..i]), Concat(pieces[i..]);
    FreeReadsActAsOne(s, pieces, i, key);
    BadCutLeavesIdle(s, a, b, key);
    AnySplitting(Push(s, a, key).framer, pieces[i..], key);
    PushAllAppend(s, pieces[..i], pieces[i..], key);
    assert pieces[..i] + pieces[i..] == pieces;
    ConcatCut(pieces, i);
    CutExactly(s, a, b, key);
  }
}

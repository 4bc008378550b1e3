/** Cutting terminal history down to whole lines that fit. */
module HandoffHistory {
  import opened Bytes
  import opened Utf8

  const NEWLINE: byte := 0x0a

  /** Whether a character could begin at this index. */
  predicate IsCharBoundary(s: bytes, i: nat) {
    i == 0 || i == |s| || (i < |s| && !IsTail(s[i]))
  }

  /** The last `n` bytes of the text start right behind a newline. */
  predicate EndsInWholeLines(text: bytes, n: nat) {
    n < |text| && text[|text| - n - 1] == 0x0a
  }

  predicate IsNewline(b: byte) {
    b == NEWLINE
  }

  /** Text that fits is kept whole. Otherwise the result is the longest run of whole lines at its
      end that is strictly shorter than the limit, or nothing when no newline is near enough. */
  method TruncateHandoffHistory(history: bytes, maxBytes: nat) returns (kept: bytes)
    ensures |history| <= maxBytes ==> kept == history
    ensures |history| > maxBytes ==>
              && |kept| <= |history| && kept == history[|history| - |kept|..]
              && (kept != [] ==> EndsInWholeLines(history, |kept|) && |kept| < maxBytes)
              && (forall n :: 0 <= n < maxBytes && EndsInWholeLines(history, n) ==> n <= |kept|)
    ensures IsUtf8(history) ==> IsUtf8(kept)
  {
    hide FromUtf8;
    if |history| <= maxBytes {
      return history;
    }
    var start := |history| - maxBytes;
    while !IsCharBoundary(history, start)
      invariant |history| - maxBytes <= start <= |history|
      invariant forall i :: |history| - maxBytes <= i < start ==> history[i] != NEWLINE
      decreases |history| - start
    {
      start := start + 1;
    }
    var offset := FirstWhere(history[start..], IsNewline);
    forall n | 0 <= n < maxBytes && EndsInWholeLines(history, n)
      ensures offset.Some? && n <= |history| - (start + offset.value + 1)
    {
      var at := |history| - n - 1;
      assert history[start..][at - start] == history[at] == NEWLINE;
    }
    if offset.None? {
      AsciiIsUtf8([]);
      return [];
    }
    if IsUtf8(history) {
      BehindAsciiIsUtf8(history, start + offset.value);
    }
    start := start + offset.value + 1;
    kept := history[start..];
  }

  /** Behind an ASCII byte a new character begins. */
  lemma {:induction false} BehindAsciiIsUtf8(s: bytes, i: nat)
    requires IsUtf8(s) && i < |s| && s[i] < 0x80
    ensures IsUtf8(s[i + 1..])
    decreases |s|
  {
    var w := CharWidth(s[0]);
    assert IsChar(s[..w]) && IsUtf8(s[w..]);
    assert forall j :: 0 <= j < w ==> s[..w][j] == s[j];
    if w <= i {
      BehindAsciiIsUtf8(s[w..], i - w);
      assert s[w..][i - w + 1..] == s[i + 1..];
    }
  }
}

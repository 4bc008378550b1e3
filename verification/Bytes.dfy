/** Options, bytes, and the slice searches shared by the byte-level modules. */
module Options {
  datatype Option<+T> = None | Some(value: T)
}

module Bytes {
  import opened Options

  type byte = b: int | 0 <= b < 256
  type bytes = seq<byte>

  const ESC: byte := 0x1b

  predicate OccursAt(haystack: bytes, needle: bytes, i: int) {
    0 <= i && i + |needle| <= |haystack| && haystack[i..i + |needle|] == needle
  }

  function FindFrom(haystack: bytes, needle: bytes, i: nat): (r: Option<nat>)
    requires |needle| > 0
    requires i <= |haystack|
    ensures r.Some? ==> i <= r.value && OccursAt(haystack, needle, r.value)
    ensures forall j :: i <= j < (if r.Some? then r.value else |haystack|) ==> !OccursAt(haystack, needle, j)
    decreases |haystack| - i
  {
    if OccursAt(haystack, needle, i) then Some(i)
    else if i == |haystack| then None
    else FindFrom(haystack, needle, i + 1)
  }

  /** Index of the first window of the haystack that equals the needle. */
  function FindSubsequence(haystack: bytes, needle: bytes): (r: Option<nat>)
    requires |needle| > 0
    ensures r.Some? ==> OccursAt(haystack, needle, r.value)
    ensures forall j :: 0 <= j < (if r.Some? then r.value else |haystack|) ==> !OccursAt(haystack, needle, j)
  {
    FindFrom(haystack, needle, 0)
  }

  /** An occurrence with none before it is the one the search reports. */
  lemma FindSubsequenceIs(haystack: bytes, needle: bytes, i: nat)
    requires |needle| > 0
    requires OccursAt(haystack, needle, i)
    requires forall j :: 0 <= j < i ==> !OccursAt(haystack, needle, j)
    ensures FindSubsequence(haystack, needle) == Some(i)
  {
    assert i < |haystack|;
  }

  lemma OccursAtExtend(haystack: bytes, needle: bytes, more: bytes, i: int)
    requires i + |needle| <= |haystack|
    ensures OccursAt(haystack + more, needle, i) == OccursAt(haystack, needle, i)
  {
    if 0 <= i {
      assert (haystack + more)[i..i + |needle|] == haystack[i..i + |needle|];
    }
  }

  /** A match stays the first match when bytes are appended. */
  lemma FindSubsequenceExtend(haystack: bytes, needle: bytes, more: bytes)
    requires |needle| > 0
    requires FindSubsequence(haystack, needle).Some?
    ensures FindSubsequence(haystack + more, needle) == FindSubsequence(haystack, needle)
  {
    var i := FindSubsequence(haystack, needle).value;
    forall j | 0 <= j <= i
      ensures OccursAt(haystack + more, needle, j) == OccursAt(haystack, needle, j)
    {
      OccursAtExtend(haystack, needle, more, j);
    }
    FindSubsequenceIs(haystack + more, needle, i);
  }

  /** Index of the first byte that satisfies `p`. */
  function FirstWhere(s: bytes, p: byte -> bool): (r: Option<nat>)
    ensures r.Some? ==> r.value < |s| && p(s[r.value])
    ensures forall j :: 0 <= j < (if r.Some? then r.value else |s|) ==> !p(s[j])
  {
    if s == [] then None
    else if p(s[0]) then Some(0)
    else
      var r := FirstWhere(s[1..], p);
      if r.None? then
        assert forall j :: 1 <= j < |s| ==> s[j] == s[1..][j - 1];
        None
      else
        assert forall j :: 1 <= j <= r.value + 1 ==> s[j] == s[1..][j - 1];
        Some(r.value + 1)
  }

  lemma FirstWhereIs(s: bytes, p: byte -> bool, i: nat)
    requires i < |s| && p(s[i])
    requires forall j :: 0 <= j < i ==> !p(s[j])
    ensures FirstWhere(s, p) == Some(i)
  {
    assert p(s[i]);
  }

  lemma FirstWhereExtend(s: bytes, p: byte -> bool, more: bytes)
    requires FirstWhere(s, p).Some?
    ensures FirstWhere(s + more, p) == FirstWhere(s, p)
  {
    FirstWhereIs(s + more, p, FirstWhere(s, p).value);
  }

  /** Concatenation of a list of byte strings. */
  function Concat(parts: seq<bytes>): bytes {
    if parts == [] then [] else parts[0] + Concat(parts[1..])
  }

  lemma ConcatCons(head: bytes, tail: seq<bytes>)
    ensures Concat([head] + tail) == head + Concat(tail)
  {
    assert ([head] + tail)[1..] == tail;
  }

  lemma Regroup(a: bytes, b: bytes, c: bytes)
    ensures a + (b + c) == (a + b) + c
  {}

  lemma {:induction false} ConcatAppend(a: seq<bytes>, b: seq<bytes>)
    ensures Concat(a + b) == Concat(a) + Concat(b)
  {
    if a == [] {
      assert a + b == b;
    } else {
      hide Concat;
      var head, tail := a[0], a[1..];
      ConcatAppend(tail, b);
      ConcatCons(head, tail);
      ConcatCons(head, tail + b);
      Regroup(head, Concat(tail), Concat(b));
      assert a == [head] + tail && a + b == [head] + (tail + b);
    }
  }

  predicate IsDigit(b: byte) {
    0x30 <= b <= 0x39
  }

  /** The slices between separators, as `split` yields them; never empty. */
  function SplitOn(s: bytes, separator: byte): (parts: seq<bytes>)
    ensures |parts| >= 1
  {
    var i := FirstWhere(s, b => b == separator);
    if i.None? then [s]
    else [s[..i.value]] + SplitOn(s[i.value + 1..], separator)
  }

  lemma SplitAtSeparator(s: bytes, separator: byte, rest: bytes)
    requires separator !in s
    ensures SplitOn(s + [separator] + rest, separator) == [s] + SplitOn(rest, separator)
    ensures SplitOn(s, separator) == [s]
  {
    var all := s + [separator] + rest;
    FirstWhereIs(all, b => b == separator, |s|);
    assert all[..|s|] == s && all[|s| + 1..] == rest;
  }
}

/** UTF-8 as section 4 of RFC 3629 defines it, and the checks the framer makes on it. */
module Utf8 {
  import opened Options
  import opened Bytes

  /** Length announced by a first byte; 0 when no character starts with it. */
  function CharWidth(first: byte): nat {
    if first < 0x80 then 1
    else if 0xC2 <= first <= 0xDF then 2
    else if 0xE0 <= first <= 0xEF then 3
    else if 0xF0 <= first <= 0xF4 then 4
    else 0
  }

  predicate IsTail(b: byte) {
    0x80 <= b <= 0xBF
  }

  predicate SecondFits(first: byte, second: byte) {
    if first == 0xE0 then 0xA0 <= second <= 0xBF
    else if first == 0xED then 0x80 <= second <= 0x9F
    else if first == 0xF0 then 0x90 <= second <= 0xBF
    else if first == 0xF4 then 0x80 <= second <= 0x8F
    else IsTail(second)
  }

  predicate FitsSoFar(s: bytes) {
    && |s| > 0
    && (|s| > 1 ==> SecondFits(s[0], s[1]))
    && (|s| > 2 ==> IsTail(s[2]))
    && (|s| > 3 ==> IsTail(s[3]))
  }

  /** One complete character. */
  predicate IsChar(s: bytes) {
    FitsSoFar(s) && |s| == CharWidth(s[0])
  }

  /** A proper, non-empty prefix of a character. */
  predicate IsTruncatedChar(s: bytes) {
    FitsSoFar(s) && |s| < CharWidth(s[0])
  }

  /** Verdict of a whole-slice check: where it failed and whether input merely ran out. */
  datatype Verdict = Valid | Invalid(validUpTo: nat, ranOut: bool)

  function FromUtf8(s: bytes): Verdict {
    if s == [] then Valid
    else
      var w := CharWidth(s[0]);
      if 0 < w <= |s| && IsChar(s[..w]) then
        match FromUtf8(s[w..])
        case Valid => Valid
        case Invalid(at, ranOut) => Invalid(w + at, ranOut)
      else Invalid(0, IsTruncatedChar(s))
  }

  predicate IsUtf8(s: bytes) {
    FromUtf8(s) == Valid
  }

  predicate StartsWithIncompleteChar(s: bytes) {
    match FromUtf8(s)
    case Valid => false
    case Invalid(at, ranOut) => at == 0 && ranOut
  }

  /** Width read off the leading bits alone, before the bytes are validated. */
  function LeadingBitsWidth(first: byte): Option<nat> {
    if first < 0x80 then Some(1)
    else if 0xC0 <= first < 0xE0 then Some(2)
    else if 0xE0 <= first < 0xF0 then Some(3)
    else if 0xF0 <= first < 0xF8 then Some(4)
    else None
  }

  function FirstCompleteCharLen(s: bytes): (r: Option<nat>)
    ensures r.Some? ==> 0 < r.value <= |s| && IsChar(s[..r.value])
  {
    if s == [] then None
    else
      var width := LeadingBitsWidth(s[0]);
      if width.None? || |s| < width.value || !IsUtf8(s[..width.value]) then None
      else
        LeadingBitsChar(s[..width.value]);
        width
  }

  lemma LeadingBitsChar(s: bytes)
    requires s != [] && LeadingBitsWidth(s[0]) == Some(|s|)
    ensures IsUtf8(s) <==> IsChar(s)
  {
    var w := CharWidth(s[0]);
    if w != 0 {
      assert s[..w] == s && s[w..] == [] && FromUtf8(s[w..]) == Valid;
    } else {
      assert !IsUtf8(s);
    }
  }

  lemma CharIsUtf8(s: bytes)
    requires IsChar(s)
    ensures IsUtf8(s) && LeadingBitsWidth(s[0]) == Some(|s|)
  {
    assert s[..|s|] == s && s[|s|..] == [];
  }

  lemma IncompleteIsTruncated(s: bytes)
    ensures StartsWithIncompleteChar(s) <==> IsTruncatedChar(s)
    ensures IsTruncatedChar(s) ==> !IsUtf8(s)
  {
    if s != [] {
      var w := CharWidth(s[0]);
      if 0 < w <= |s| && IsChar(s[..w]) {
        assert !IsTruncatedChar(s);
      }
    }
  }

  lemma ProperPrefixIsTruncated(c: bytes, n: nat)
    requires IsChar(c) && 0 < n < |c|
    ensures IsTruncatedChar(c[..n])
  {}

  /** Complete characters are found whatever follows them. */
  lemma CharFound(c: bytes, rest: bytes)
    requires IsChar(c)
    ensures FirstCompleteCharLen(c + rest) == Some(|c|)
  {
    CharIsUtf8(c);
    assert (c + rest)[..|c|] == c;
  }

  lemma TruncatedNotFound(s: bytes)
    requires IsTruncatedChar(s)
    ensures FirstCompleteCharLen(s) == None
  {}

  lemma FirstCompleteCharLenExtend(s: bytes, more: bytes)
    requires FirstCompleteCharLen(s).Some?
    ensures FirstCompleteCharLen(s + more) == FirstCompleteCharLen(s)
  {
    var n := FirstCompleteCharLen(s).value;
    CharFound(s[..n], s[n..] + more);
    assert s[..n] + (s[n..] + more) == s + more;
  }

  lemma {:induction false} AsciiIsUtf8(s: bytes)
    requires forall i :: 0 <= i < |s| ==> s[i] < 0x80
    ensures IsUtf8(s)
  {
    if s != [] {
      AsciiIsUtf8(s[1..]);
      assert IsChar(s[..1]);
    }
  }

  /** A Unicode scalar value. */
  type Scalar = v: int | 0 <= v < 0xD800 || 0xE000 <= v < 0x110000

  function EncodeScalar(v: Scalar): bytes {
    var q1 := v / 64;
    var q2 := q1 / 64;
    if v < 0x80 then [v]
    else if v < 0x800 then [0xC0 + q1, 0x80 + v % 64]
    else if v < 0x10000 then [0xE0 + q2, 0x80 + q1 % 64, 0x80 + v % 64]
    else [0xF0 + q2 / 64, 0x80 + q2 % 64, 0x80 + q1 % 64, 0x80 + v % 64]
  }

  function Payload(b: byte, marker: int): int {
    b - marker
  }

  function DecodeChar(s: bytes): (v: Scalar)
    requires IsChar(s)
  {
    if |s| == 1 then s[0]
    else if |s| == 2 then Payload(s[0], 0xC0) * 64 + Payload(s[1], 0x80)
    else if |s| == 3 then (Payload(s[0], 0xE0) * 64 + Payload(s[1], 0x80)) * 64 + Payload(s[2], 0x80)
    else ((Payload(s[0], 0xF0) * 64 + Payload(s[1], 0x80)) * 64 + Payload(s[2], 0x80)) * 64 + Payload(s[3], 0x80)
  }

  /** The byte patterns above are exactly the encodings of scalar values. */
  lemma CharsEncodeScalars(v: Scalar)
    ensures IsChar(EncodeScalar(v)) && DecodeChar(EncodeScalar(v)) == v
  {
    var q1 := v / 64;
    var q2 := q1 / 64;
    assert v == 64 * q1 + v % 64 && q1 == 64 * q2 + q1 % 64 && q2 == 64 * (q2 / 64) + q2 % 64;
  }

  lemma ScalarsEncodeChars(s: bytes)
    requires IsChar(s)
    ensures EncodeScalar(DecodeChar(s)) == s
  {
    if |s| == 2 {
      SplitSextet(Payload(s[0], 0xC0), Payload(s[1], 0x80));
    } else if |s| == 3 {
      var q1 := Payload(s[0], 0xE0) * 64 + Payload(s[1], 0x80);
      SplitSextet(Payload(s[0], 0xE0), Payload(s[1], 0x80));
      SplitSextet(q1, Payload(s[2], 0x80));
    } else if |s| == 4 {
      var q2 := Payload(s[0], 0xF0) * 64 + Payload(s[1], 0x80);
      var q1 := q2 * 64 + Payload(s[2], 0x80);
      SplitSextet(Payload(s[0], 0xF0), Payload(s[1], 0x80));
      SplitSextet(q2, Payload(s[2], 0x80));
      SplitSextet(q1, Payload(s[3], 0x80));
    }
  }

  lemma SplitSextet(q: int, r: int)
    requires 0 <= r < 64
    ensures (q * 64 + r) / 64 == q && (q * 64 + r) % 64 == r
  {}
}

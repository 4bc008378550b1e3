/** Where every kind of escape sequence ends, in bytes, and what it then is: keys among them. */
module KeySequences {
  import opened Options
  import opened Bytes
  import opened Utf8
  import opened SgrMouse
  import opened TerminalTheme
  import opened RawInput
  import opened ExtractionStability
  import opened EventStreams

  // ----- ESC [ -----

  /** No byte from @ to ~. */
  predicate HasNoFinal(p: bytes) {
    forall i :: 0 <= i < |p| ==> !(0x40 <= p[i] <= 0x7e)
  }

  predicate StartsWith(s: bytes, b: byte) {
    s != [] && s[0] == b
  }

  function Csi(p: bytes): bytes {
    [0x1b, 0x5b] + p
  }

  lemma CsiTail(p: bytes)
    ensures Csi(p)[2..] == p && Csi(p)[0] == 0x1b && Csi(p)[1] == 0x5b && |Csi(p)| == |p| + 2
    ensures CSI_LESS <= Csi(p) <==> StartsWith(p, 0x3c)
  {
    var b := Csi(p);
    if StartsWith(p, 0x3c) {
      assert b[..3] == CSI_LESS;
    }
  }

  lemma CsiLength(p: bytes)
    requires !StartsWith(p, 0x3c)
    ensures CompleteEscapeSequenceLen(Csi(p)) == After(FirstWhere(p, IsCsiFinal), 3)
  {
    CsiTail(p);
    hide FirstWhere;
  }

  /** A CSI sequence ends at its first byte from @ to ~, whatever follows. */
  lemma CsiEnds(p: bytes, f: byte, rest: bytes)
    requires HasNoFinal(p) && 0x40 <= f <= 0x7e && !StartsWith(p, 0x3c)
    ensures CompleteEscapeSequenceLen(Csi(p + [f]) + rest) == Some(|p| + 3)
  {
    hide CompleteEscapeSequenceLen;
    var body := p + [f] + rest;
    assert Csi(p + [f]) + rest == Csi(body);
    FirstWhereIs(body, IsCsiFinal, |p|);
    assert body[0] == if p == [] then f else p[0];
    CsiLength(body);
  }

  /** Without such a byte it is still open. */
  lemma CsiOpen(p: bytes)
    requires HasNoFinal(p) && !StartsWith(p, 0x3c)
    ensures CompleteEscapeSequenceLen(Csi(p)) == None
  {
    CsiLength(p);
  }

  // ----- ESC [ < -----

  predicate HasNoMouseFinal(p: bytes) {
    forall i :: 0 <= i < |p| ==> p[i] != 0x4d && p[i] != 0x6d
  }

  lemma MouseTailLength(p: bytes)
    ensures CompleteEscapeSequenceLen(Csi([0x3c] + p)) == After(FirstWhere([0x3c] + p, IsSgrFinal), 3)
  {
    CsiTail([0x3c] + p);
    hide FirstWhere;
  }

  /** A mouse sequence ends at its first M or m and nowhere else. */
  lemma MouseEnds(p: bytes, f: byte, rest: bytes)
    requires HasNoMouseFinal(p) && (f == 0x4d || f == 0x6d)
    ensures CompleteEscapeSequenceLen(Csi([0x3c] + p + [f]) + rest) == Some(|p| + 4)
  {
    var body := [0x3c] + (p + [f] + rest);
    assert Csi([0x3c] + p + [f]) + rest == Csi(body);
    FirstWhereIs(body, IsSgrFinal, |p| + 1);
    MouseTailLength(p + [f] + rest);
  }

  lemma MouseOpen(p: bytes)
    requires HasNoMouseFinal(p)
    ensures CompleteEscapeSequenceLen(Csi([0x3c] + p)) == None
  {
    MouseTailLength(p);
  }

  // ----- ESC O -----

  /** ESC O takes exactly one more byte. */
  lemma Ss3Ends(x: byte, rest: bytes)
    ensures CompleteEscapeSequenceLen([0x1b, 0x4f, x] + rest) == Some(3)
    ensures CompleteEscapeSequenceLen([0x1b, 0x4f]) == None
  {
    var b := [0x1b, 0x4f, x] + rest;
    assert b[..2] == SS3 && b[1] == 0x4f;
    assert ControlStringOf(b) == None;
    assert ControlStringOf([0x1b, 0x4f]) == None;
  }

  // ----- ESC and a character -----

  /** The bytes that open a longer sequence behind ESC: [ ] O P X ^ _ and ESC. */
  predicate IsIntroducer(b: byte) {
    b in {0x5b, 0x5d, 0x4f, 0x50, 0x58, 0x5e, 0x5f, 0x1b}
  }

  lemma AltLength(c: bytes)
    requires c != [] && !IsIntroducer(c[0])
    ensures var width := LeadingBitsWidth(c[0]);
            CompleteEscapeSequenceLen([0x1b] + c)
            == if width.None? || |c| < width.value || !IsUtf8(c[..width.value]) then None else Some(1 + width.value)
  {
    hide IsUtf8;
    hide FindCsiFinal;
    hide ParseSgrMouse;
    hide Terminator;
    hide LeadingBitsWidth;
    var b := [0x1b] + c;
    assert b[1] == c[0] && ESC_CSI_LESS[1] == 0x1b && SS3[1] == 0x4f;
    assert FamilyOf(b) == None;
    var width := LeadingBitsWidth(b[1]);
    assert width.Some? && |c| >= width.value ==> b[1..1 + width.value] == c[..width.value];
  }

  /** ESC and any other character are one sequence, whatever follows. */
  lemma AltEnds(c: bytes, rest: bytes)
    requires IsChar(c) && !IsIntroducer(c[0])
    ensures CompleteEscapeSequenceLen([0x1b] + c + rest) == Some(1 + |c|)
  {
    hide CompleteEscapeSequenceLen;
    hide IsUtf8;
    CharIsUtf8(c);
    AltLength(c + rest);
    assert [0x1b] + c + rest == [0x1b] + (c + rest);
    assert (c + rest)[..|c|] == c;
  }

  /** Behind ESC alone, or a character cut short, more is waited for. */
  lemma AltOpen(c: bytes)
    requires c == [] || IsTruncatedChar(c)
    ensures CompleteEscapeSequenceLen([0x1b] + c) == None
  {
    if c != [] {
      AltLength(c);
    }
  }

  // ----- Strings -----

  predicate HasNoSt(b: bytes) {
    forall i :: 0 <= i < |b| - 1 ==> !(b[i] == 0x1b && b[i + 1] == 0x5c)
  }

  predicate HasNoBel(b: bytes) {
    forall i :: 0 <= i < |b| ==> b[i] != 0x07
  }

  lemma NoStFound(b: bytes)
    requires HasNoSt(b)
    ensures FindSubsequence(b, ST) == None
  {
    if FindSubsequence(b, ST).Some? {
      StHere(b, FindSubsequence(b, ST).value);
    }
  }

  lemma StHere(b: bytes, i: int)
    ensures OccursAt(b, ST, i) <==> 0 <= i < |b| - 1 && b[i] == 0x1b && b[i + 1] == 0x5c
  {
    if 0 <= i < |b| - 1 {
      assert b[i..i + 2] == [b[i], b[i + 1]];
    }
  }

  /** The first ST of a text is the one right behind a text that has none. */
  lemma StFound(p: bytes, rest: bytes)
    requires HasNoSt(p)
    ensures FindSubsequence(p + [0x1b, 0x5c] + rest, ST) == Some(|p|)
  {
    var b := p + [0x1b, 0x5c] + rest;
    forall i | 0 <= i < |p|
      ensures !OccursAt(b, ST, i)
    {
      StHere(b, i);
      assert b[i] == p[i] && (i < |p| - 1 ==> b[i + 1] == p[i + 1]);
    }
    StHere(b, |p|);
    FindSubsequenceIs(b, ST, |p|);
  }

  lemma BelFound(p: bytes, rest: bytes)
    requires HasNoBel(p)
    ensures FirstWhere(p + [0x07] + rest, IsBel) == Some(|p|)
  {
    FirstWhereIs(p + [0x07] + rest, IsBel, |p|);
  }

  lemma StringLength(b: bytes, family: ControlStringFamily)
    requires FamilyOf(b) == Some(family)
    ensures CompleteEscapeSequenceLen(b) == Terminator(b, family)
  {
    hide Terminator;
    assert b[1] != 0x5b && b[1] != 0x1b;
  }

  /** ESC ] runs to its first BEL or ST. */
  lemma OscEnds(p: bytes, end: bytes, rest: bytes)
    requires HasNoBel(p) && HasNoSt(p) && (end == [0x07] || end == [0x1b, 0x5c])
    ensures CompleteEscapeSequenceLen([0x1b, 0x5d] + p + end + rest) == Some(2 + |p| + |end|)
  {
    hide Terminator;
    var head := [0x1b, 0x5d] + p;
    OscHead(p);
    StringLength(head + end + rest, Osc);
    OscTerminates(head, end, rest);
  }

  lemma OscHead(p: bytes)
    requires HasNoBel(p) && HasNoSt(p)
    ensures HasNoBel([0x1b, 0x5d] + p) && HasNoSt([0x1b, 0x5d] + p)
  {
    var head := [0x1b, 0x5d] + p;
    assert forall i :: 0 <= i < |head| ==> head[i] == if i == 0 then 0x1b else if i == 1 then 0x5d else p[i - 2];
  }

  lemma OscTerminates(head: bytes, end: bytes, rest: bytes)
    requires HasNoBel(head) && HasNoSt(head) && (end == [0x07] || end == [0x1b, 0x5c])
    ensures Terminator(head + end + rest, Osc) == Some(|head| + |end|)
  {
    hide HasNoSt;
    hide HasNoBel;
    var b := head + end + rest;
    if end == [0x07] {
      BelFound(head, rest);
      assert b == head + ([0x07] + rest);
      StNotBefore(head, [0x07] + rest);
    } else {
      StFound(head, rest);
      BelNotInSt(head);
      assert b == (head + [0x1b, 0x5c]) + rest;
      BelNotBefore(head + [0x1b, 0x5c], rest);
    }
  }

  lemma BelNotInSt(head: bytes)
    requires HasNoBel(head)
    ensures HasNoBel(head + [0x1b, 0x5c])
  {}

  lemma StNotBefore(p: bytes, rest: bytes)
    requires HasNoSt(p) && rest != [] && rest[0] != 0x5c
    ensures FindSubsequence(p + rest, ST).Some? ==> FindSubsequence(p + rest, ST).value >= |p|
  {
    var b := p + rest;
    forall i | 0 <= i < |p|
      ensures !OccursAt(b, ST, i)
    {
      StHere(b, i);
      assert b[i] == p[i] && b[i + 1] == if i + 1 < |p| then p[i + 1] else rest[0];
    }
  }

  lemma BelNotBefore(p: bytes, rest: bytes)
    requires HasNoBel(p)
    ensures FirstWhere(p + rest, IsBel).Some? ==> FirstWhere(p + rest, IsBel).value >= |p|
  {
    assert forall i :: 0 <= i < |p| ==> (p + rest)[i] == p[i];
  }

  lemma OscOpen(p: bytes)
    requires HasNoBel(p) && HasNoSt(p)
    ensures CompleteEscapeSequenceLen([0x1b, 0x5d] + p) == None
  {
    var b := [0x1b, 0x5d] + p;
    assert forall i :: 0 <= i < |b| ==> b[i] == if i == 0 then 0x1b else if i == 1 then 0x5d else p[i - 2];
    StringLength(b, Osc);
    NoStFound(b);
    assert FirstWhere(b, IsBel).None?;
  }

  /** ESC P, ESC X, ESC ^ and ESC _ open strings that only ST ends. */
  predicate OpensString(b: byte) {
    b in {0x50, 0x58, 0x5e, 0x5f}
  }

  lemma StringEnds(introducer: byte, p: bytes, rest: bytes)
    requires OpensString(introducer) && HasNoSt(p)
    ensures CompleteEscapeSequenceLen([0x1b, introducer] + p + [0x1b, 0x5c] + rest) == Some(4 + |p|)
  {
    var head := [0x1b, introducer] + p;
    var b := head + [0x1b, 0x5c] + rest;
    assert forall i :: 0 <= i < |head| ==> head[i] == if i == 0 then 0x1b else if i == 1 then introducer else p[i - 2];
    assert HasNoSt(head);
    StringLength(b, StTerminated);
    StFound(head, rest);
  }

  lemma StringOpen(introducer: byte, p: bytes)
    requires OpensString(introducer) && HasNoSt(p)
    ensures CompleteEscapeSequenceLen([0x1b, introducer] + p) == None
  {
    var b := [0x1b, introducer] + p;
    assert forall i :: 0 <= i < |b| ==> b[i] == if i == 0 then 0x1b else if i == 1 then introducer else p[i - 2];
    StringLength(b, StTerminated);
    NoStFound(b);
  }

  // ----- One ESC more -----

  /** In front of a sequence that is no mouse report an ESC makes it one byte longer. */
  lemma EscEnds(s: bytes, rest: bytes)
    requires |s| > 1 && s[0] == 0x1b && IsUtf8(s) && ParseSgrMouse(s) == None
    requires CompleteEscapeSequenceLen(s) == Some(|s|) && CompleteEscapeSequenceLen(s + rest) == Some(|s|)
    ensures CompleteEscapeSequenceLen([0x1b] + s + rest) == Some(1 + |s|)
  {
    hide CompleteEscapeSequenceLen;
    hide IsUtf8;
    hide ParseSgrMouse;
    var b := [0x1b] + s + rest;
    assert b[1..] == s + rest && b[1] == 0x1b;
    if |s| == 2 {
      ShortSequence(s);
    }
    BehindDoubledEsc(s + rest);
    DoubledEscLen(b);
    if CSI_LESS <= s {
      assert (s + rest)[..3] == s[..3] == CSI_LESS;
      MouseLength(s + rest);
      assert b[1..1 + |s|] == s;
    } else {
      NotAMouse(s, rest);
    }
  }

  lemma NotAMouse(s: bytes, rest: bytes)
    requires |s| > 1 && !(CSI_LESS <= s) && (|s| == 2 ==> s[1] != 0x5b)
    ensures !(CSI_LESS <= s + rest)
  {
    var all := s + rest;
    assert CSI_LESS[1] == 0x5b && all[1] == s[1] && all[0] == s[0];
    assert |s| >= 3 ==> all[2] == s[2];
  }

  /** ESC [ alone is no sequence. */
  lemma ShortSequence(s: bytes)
    requires |s| == 2 && s[0] == 0x1b && CompleteEscapeSequenceLen(s) == Some(2)
    ensures s[1] != 0x5b
  {
    CsiOpen([]);
    assert s[1] == 0x5b ==> s == Csi([]);
  }

  lemma BehindDoubledEsc(s: bytes)
    ensures ESC_CSI_LESS <= [0x1b] + s <==> CSI_LESS <= s
  {
    var b := [0x1b] + s;
    assert ESC_CSI_LESS[0] == 0x1b && ESC_CSI_LESS[1] == CSI_LESS[0] && ESC_CSI_LESS[2] == CSI_LESS[1]
           && ESC_CSI_LESS[3] == CSI_LESS[2];
    if |s| >= 3 {
      assert b[0] == 0x1b && b[1] == s[0] && b[2] == s[1] && b[3] == s[2];
    }
  }

  /** In front of a mouse sequence that is not text the ESC waits with it. */
  lemma BrokenMouseWaits(p: bytes, f: byte, rest: bytes)
    requires HasNoMouseFinal(p) && (f == 0x4d || f == 0x6d) && !IsUtf8(Csi([0x3c] + p + [f]))
    ensures CompleteEscapeSequenceLen([0x1b] + Csi([0x3c] + p + [f]) + rest) == None
  {
    hide CompleteEscapeSequenceLen;
    hide IsUtf8;
    var mouse := Csi([0x3c] + p + [f]);
    var b := [0x1b] + mouse + rest;
    assert b[1..] == mouse + rest && b[1..4] == CSI_LESS && b[..4] == ESC_CSI_LESS;
    var body := [0x3c] + (p + [f] + rest);
    assert mouse + rest == Csi(body);
    FirstWhereIs(body, IsSgrFinal, |p| + 1);
    CsiTail(body);
    assert FindCsiFinal(b[1..], IsSgrFinal) == Some(|mouse|);
    assert b[1..1 + |mouse|] == mouse;
    assert EscBeforeBrokenMouse(b);
    DoubledEscLen(b);
  }

  // ----- What the sequences are -----

  /** One whole sequence, none of the reports a terminal sends of itself. */
  predicate IsPlainSequence(s: bytes) {
    && |s| > 1 && s[0] == 0x1b && IsUtf8(s)
    && CompleteEscapeSequenceLen(s) == Some(|s|)
    && ParseDefaultColorResponse(s) == Nothing && ParseSgrMouse(s) == None
    && s !in {[0x1b, 0x5b, 0x49], [0x1b, 0x5b, 0x4f],
              [0x1b, 0x5b, 0x3f, 0x39, 0x39, 0x37, 0x3b, 0x31, 0x6e],
              [0x1b, 0x5b, 0x3f, 0x39, 0x39, 0x37, 0x3b, 0x32, 0x6e]}
    && !([0x1b, 0x5b, 0x32, 0x30, 0x30, 0x7e] <= s)
  }

  function KeyOrNothing(s: bytes, key: KeyParser): RawInputEvent {
    match key(s)
    case Some(k) => Key(k)
    case None => Unsupported
  }

  /** Such a sequence is the key the parser makes of it, or unsupported; so key sequences may stand
      in any stream of tokens. */
  lemma PlainSequenceIsToken(s: bytes, key: KeyParser)
    requires IsPlainSequence(s)
    ensures IsToken(s, KeyOrNothing(s, key), key)
  {
    hide CompleteEscapeSequenceLen;
    hide ParseDefaultColorResponse;
    hide ParseSgrMouse;
    hide IsUtf8;
    assert s[..|s|] == s;
    assert !(PASTE_START <= s);
  }

  lemma NoReport(s: bytes)
    requires |s| > 1 && s[0] == 0x1b && s[1] != 0x5d && !(CSI_LESS <= s)
    ensures ParseDefaultColorResponse(s) == Nothing && ParseSgrMouse(s) == None
  {
    assert OSC[1] == 0x5d;
    hide ParseRgbColor;
    hide SplitOn;
  }

  /** ESC [ p f: cursor, editing and function keys. */
  lemma CsiIsPlain(p: bytes, f: byte)
    requires HasNoFinal(p) && 0x40 <= f <= 0x7e && !StartsWith(p, 0x3c)
    requires IsUtf8(Csi(p + [f]))
    requires var s := Csi(p + [f]);
             s !in {[0x1b, 0x5b, 0x49], [0x1b, 0x5b, 0x4f], [0x1b, 0x5b, 0x32, 0x30, 0x30, 0x7e],
                    [0x1b, 0x5b, 0x3f, 0x39, 0x39, 0x37, 0x3b, 0x31, 0x6e],
                    [0x1b, 0x5b, 0x3f, 0x39, 0x39, 0x37, 0x3b, 0x32, 0x6e]}
    ensures IsPlainSequence(Csi(p + [f]))
  {
    var s := Csi(p + [f]);
    CsiEnds(p, f, []);
    assert s + [] == s;
    CsiTail(p + [f]);
    assert (p + [f])[0] == if p == [] then f else p[0];
    NoReport(s);
    hide IsUtf8;
    if [0x1b, 0x5b, 0x32, 0x30, 0x30, 0x7e] <= s {
      PasteStartIsWhole(p, f);
    }
  }

  /** The paste marker ends in a final byte, so it is no proper prefix of a CSI sequence. */
  lemma PasteStartIsWhole(p: bytes, f: byte)
    requires HasNoFinal(p)
    requires [0x1b, 0x5b, 0x32, 0x30, 0x30, 0x7e] <= Csi(p + [f])
    ensures Csi(p + [f]) == [0x1b, 0x5b, 0x32, 0x30, 0x30, 0x7e]
  {
    var s := Csi(p + [f]);
    assert s[5] == 0x7e && |s| >= 6;
    assert s[5] == (p + [f])[3];
    assert s == s[..6];
  }

  /** A mouse sequence that names no event: a wrong number of parts, or a number out of range. */
  lemma OtherMouseIsPlain(p: bytes, f: byte)
    requires HasNoMouseFinal(p) && (f == 0x4d || f == 0x6d)
    requires var s := Csi([0x3c] + p + [f]); IsUtf8(s) && ParseSgrMouse(s) == None
    ensures var s := Csi([0x3c] + p + [f]); IsPlainSequence(s)
  {
    hide CompleteEscapeSequenceLen;
    hide ParseDefaultColorResponse;
    hide IsUtf8;
    hide ParseSgrMouse;
    var s := Csi([0x3c] + p + [f]);
    MouseEnds(p, f, []);
    assert s + [] == s;
    assert s[1] == 0x5b && s[2] == 0x3c;
    NoReply(s);
  }

  lemma NoReply(s: bytes)
    requires |s| > 1 && s[1] != 0x5d
    ensures ParseDefaultColorResponse(s) == Nothing
  {
    assert OSC[1] == 0x5d;
    hide ParseRgbColor;
  }

  /** ESC O x: keypad and function keys. */
  lemma Ss3IsPlain(x: byte)
    requires x < 0x80
    ensures IsPlainSequence([0x1b, 0x4f, x])
  {
    var s: bytes := [0x1b, 0x4f, x];
    Ss3Ends(x, []);
    assert s + [] == s && s[1] == 0x4f;
    NoReport(s);
    AsciiIsUtf8(s);
  }

  /** ESC and a character: a key with Alt held. */
  lemma AltIsPlain(c: bytes)
    requires IsChar(c) && !IsIntroducer(c[0])
    ensures IsPlainSequence([0x1b] + c)
  {
    var s := [0x1b] + c;
    AltEnds(c, []);
    assert s + [] == s && s[1] == c[0];
    NoReport(s);
    EscIsUtf8(c);
  }

  lemma EscIsUtf8(c: bytes)
    requires IsUtf8(c)
    ensures IsUtf8([0x1b] + c)
  {
    var s := [0x1b] + c;
    assert s[..1] == [0x1b] && s[1..] == c;
    assert IsChar(s[..1]);
  }

  /** Any other terminated string: a terminal's answer the parser may or may not know. */
  lemma StringIsPlain(introducer: byte, p: bytes)
    requires OpensString(introducer) && HasNoSt(p) && IsUtf8([0x1b, introducer] + p + [0x1b, 0x5c])
    ensures var s := [0x1b, introducer] + p + [0x1b, 0x5c]; IsPlainSequence(s)
  {
    hide IsUtf8;
    var s := [0x1b, introducer] + p + [0x1b, 0x5c];
    StringEnds(introducer, p, []);
    assert s + [] == s && s[1] == introducer;
    NoReport(s);
  }

  lemma OscIsPlain(p: bytes, end: bytes)
    requires HasNoBel(p) && HasNoSt(p) && (end == [0x07] || end == [0x1b, 0x5c])
    requires var s := [0x1b, 0x5d] + p + end; IsUtf8(s) && ParseDefaultColorResponse(s) == Nothing
    ensures var s := [0x1b, 0x5d] + p + end; IsPlainSequence(s)
  {
    hide CompleteEscapeSequenceLen;
    hide IsUtf8;
    hide ParseDefaultColorResponse;
    var s := [0x1b, 0x5d] + p + end;
    OscEnds(p, end, []);
    assert s + [] == s && s[1] == 0x5d;
    assert ParseSgrMouse(s) == None;
  }

  /** One ESC more in front of such a sequence: the same key with Alt held, as far as the parser
      knows it. */
  lemma EscIsPlain(s: bytes)
    requires IsPlainSequence(s)
    ensures IsPlainSequence([0x1b] + s)
  {
    hide IsUtf8;
    hide CompleteEscapeSequenceLen;
    hide ParseDefaultColorResponse;
    hide ParseSgrMouse;
    assert s + [] == s && [0x1b] + s + [] == [0x1b] + s;
    EscIsUtf8(s);
    EscEnds(s, []);
    var t := [0x1b] + s;
    assert t[1] == 0x1b && CSI_LESS[1] == 0x5b;
    NoReport(t);
  }

  // ----- Every shape at once -----

  datatype Shape =
    | CsiKey(p: bytes, f: byte)            // ESC [ p f
    | OtherMouse(p: bytes, f: byte)        // ESC [ < p M or m
    | Ss3Key(x: byte)                      // ESC O x
    | AltKey(c: bytes)                     // ESC c
    | StringAnswer(introducer: byte, p: bytes)  // ESC P p ESC \, and with X ^ _
    | OscAnswer(p: bytes, end: bytes)      // ESC ] p BEL or ESC ] p ESC \
    | WithEsc(inner: Shape)                // ESC and one of these

  function SequenceOf(shape: Shape): bytes {
    match shape
    case CsiKey(p, f) => Csi(p + [f])
    case OtherMouse(p, f) => Csi([0x3c] + p + [f])
    case Ss3Key(x) => [0x1b, 0x4f, x]
    case AltKey(c) => [0x1b] + c
    case StringAnswer(introducer, p) => [0x1b, introducer] + p + [0x1b, 0x5c]
    case OscAnswer(p, end) => [0x1b, 0x5d] + p + end
    case WithEsc(inner) => [0x1b] + SequenceOf(inner)
  }

  /** Text, and none of the reports that have events of their own. */
  predicate IsShape(shape: Shape) {
    match shape
    case CsiKey(p, f) =>
      && HasNoFinal(p) && 0x40 <= f <= 0x7e && !StartsWith(p, 0x3c) && IsUtf8(Csi(p + [f]))
      && Csi(p + [f]) !in {[0x1b, 0x5b, 0x49], [0x1b, 0x5b, 0x4f], [0x1b, 0x5b, 0x32, 0x30, 0x30, 0x7e],
                           [0x1b, 0x5b, 0x3f, 0x39, 0x39, 0x37, 0x3b, 0x31, 0x6e],
                           [0x1b, 0x5b, 0x3f, 0x39, 0x39, 0x37, 0x3b, 0x32, 0x6e]}
    case OtherMouse(p, f) =>
      && HasNoMouseFinal(p) && (f == 0x4d || f == 0x6d)
      && IsUtf8(Csi([0x3c] + p + [f])) && ParseSgrMouse(Csi([0x3c] + p + [f])) == None
    case Ss3Key(x) => x < 0x80
    case AltKey(c) => IsChar(c) && !IsIntroducer(c[0])
    case StringAnswer(introducer, p) =>
      OpensString(introducer) && HasNoSt(p) && IsUtf8([0x1b, introducer] + p + [0x1b, 0x5c])
    case OscAnswer(p, end) =>
      && HasNoBel(p) && HasNoSt(p) && (end == [0x07] || end == [0x1b, 0x5c])
      && IsUtf8([0x1b, 0x5d] + p + end) && ParseDefaultColorResponse([0x1b, 0x5d] + p + end) == Nothing
    case WithEsc(inner) => IsShape(inner)
  }

  lemma {:induction false} ShapeIsPlain(shape: Shape)
    requires IsShape(shape)
    ensures IsPlainSequence(SequenceOf(shape))
  {
    hide IsPlainSequence;
    match shape
    case CsiKey(p, f) => CsiIsPlain(p, f);
    case OtherMouse(p, f) => OtherMouseIsPlain(p, f);
    case Ss3Key(x) => Ss3IsPlain(x);
    case AltKey(c) => AltIsPlain(c);
    case StringAnswer(introducer, p) => StringIsPlain(introducer, p);
    case OscAnswer(p, end) => OscIsPlain(p, end);
    case WithEsc(inner) =>
      ShapeIsPlain(inner);
      EscIsPlain(SequenceOf(inner));
  }

  lemma {:induction false} ShapeEnds(shape: Shape, rest: bytes)
    requires IsShape(shape)
    ensures var s := SequenceOf(shape);
            s != [] && s[0] == 0x1b && CompleteEscapeSequenceLen(s + rest) == Some(|s|)
  {
    hide CompleteEscapeSequenceLen;
    hide IsUtf8;
    hide ParseSgrMouse;
    hide ParseDefaultColorResponse;
    match shape
    case CsiKey(p, f) => CsiEnds(p, f, rest);
    case OtherMouse(p, f) => MouseEnds(p, f, rest);
    case Ss3Key(x) => Ss3Ends(x, rest);
    case AltKey(c) => AltEnds(c, rest);
    case StringAnswer(introducer, p) => StringEnds(introducer, p, rest);
    case OscAnswer(p, end) => OscEnds(p, end, rest);
    case WithEsc(inner) =>
      ShapeIsPlain(inner);
      ShapeEnds(inner, rest);
      EscEnds(SequenceOf(inner), rest);
  }

  /** Every such sequence ends where its shape says, whatever follows it, and is the key the parser
      makes of it, or unsupported. */
  lemma ShapesAreTokens(shape: Shape, rest: bytes, key: KeyParser)
    requires IsShape(shape)
    ensures var s := SequenceOf(shape);
            && s != [] && s[0] == 0x1b
            && CompleteEscapeSequenceLen(s + rest) == Some(|s|)
            && IsToken(s, KeyOrNothing(s, key), key)
  {
    hide CompleteEscapeSequenceLen;
    hide IsToken;
    ShapeIsPlain(shape);
    ShapeEnds(shape, rest);
    PlainSequenceIsToken(SequenceOf(shape), key);
  }
}

/** Cutting raw terminal input into events: the slice-level functions. */
module RawInput {
  import opened Options
  import opened Bytes
  import opened Utf8
  import opened SgrMouse
  import opened TerminalTheme

  /** A decoded key; what the key parser makes of a slice is left open. */
  datatype TerminalKey = PlainEscape | Parsed(code: int)
  type KeyParser = bytes -> Option<TerminalKey>

  datatype HostAppearance = Dark | Light

  datatype RawInputEvent =
    | Key(key: TerminalKey)
    | Paste(content: bytes)
    | Mouse(mouse: MouseEvent)
    | OuterFocusGained
    | OuterFocusLost
    | HostDefaultColor(color: DefaultColor)
    | HostColorSchemeChanged(appearance: HostAppearance)
    | Unsupported
    | Stopped  // not an event: reading this sequence stops the program

  const BRACKET: byte := 0x5b
  const PASTE_START: bytes := [ESC, 0x5b, 0x32, 0x30, 0x30, 0x7e]   // ESC [ 2 0 0 ~
  const PASTE_END: bytes := [ESC, 0x5b, 0x32, 0x30, 0x31, 0x7e]     // ESC [ 2 0 1 ~
  const DARK_REPORT: bytes := [ESC, 0x5b, 0x3f, 0x39, 0x39, 0x37, 0x3b, 0x31, 0x6e]   // ESC [ ? 9 9 7 ; 1 n
  const LIGHT_REPORT: bytes := [ESC, 0x5b, 0x3f, 0x39, 0x39, 0x37, 0x3b, 0x32, 0x6e]  // ESC [ ? 9 9 7 ; 2 n
  const CSI: bytes := [ESC, 0x5b]                                    // ESC [
  const ESC_CSI_LESS: bytes := [ESC, ESC, 0x5b, 0x3c]                // ESC ESC [ <
  const SS3: bytes := [ESC, 0x4f]                                    // ESC O
  const FOCUS_IN: bytes := [ESC, 0x5b, 0x49]                         // ESC [ I
  const FOCUS_OUT: bytes := [ESC, 0x5b, 0x4f]                        // ESC [ O
  const ORPHAN_START: bytes := [0x5b, 0x3c]                          // [ <
  const MAX_ORPHANED_TAIL: nat := 32
  const MAX_DISCARDED_TAIL: nat := 128

  // ----- Control strings -----

  datatype ControlStringFamily = Osc | StTerminated | HostColorSchemeCsi | OrphanedSgrMouseTail
  datatype ControlString = Complete(len: nat, family: ControlStringFamily) | Incomplete(family: ControlStringFamily)

  predicate IsBel(b: byte) {
    b == BEL
  }

  predicate IsReportEnd(b: byte) {
    b == 0x6e  // n
  }

  function After(at: Option<nat>, len: nat): Option<nat> {
    match at
    case Some(i) => Some(i + len)
    case None => None
  }

  function OscTerminator(b: bytes): (r: Option<nat>)
    ensures r.Some? ==> 0 < r.value <= |b|
  {
    var st := After(FindSubsequence(b, ST), 2);
    var bel := After(FirstWhere(b, IsBel), 1);
    if st.Some? && bel.Some? then Some(if st.value < bel.value then st.value else bel.value)
    else if st.Some? then st
    else bel
  }

  /** Length up to and including the terminator of an open control string. */
  function Terminator(b: bytes, family: ControlStringFamily): (r: Option<nat>)
    ensures r.Some? ==> 0 < r.value <= |b|
  {
    match family
    case Osc => OscTerminator(b)
    case StTerminated => After(FindSubsequence(b, ST), 2)
    case HostColorSchemeCsi => After(FirstWhere(b, IsReportEnd), 1)
    case OrphanedSgrMouseTail => After(FirstWhere(b, IsSgrFinal), 1)
  }

  function FamilyOf(b: bytes): Option<ControlStringFamily> {
    if |b| < 2 || b[0] != ESC then None
    else if b[1] == 0x5d then Some(Osc)                                // ]
    else if b[1] in {0x50, 0x5f, 0x5e, 0x58} then Some(StTerminated)   // P _ ^ X
    else None
  }

  function ControlStringOf(b: bytes): Option<ControlString> {
    match FamilyOf(b)
    case None => None
    case Some(family) =>
      match Terminator(b, family)
      case Some(len) => Some(Complete(len, family))
      case None => Some(Incomplete(family))
  }

  // ----- Escape sequences -----

  predicate IsCsiFinal(b: byte) {
    0x40 <= b <= 0x7e
  }

  /** Length of a CSI sequence up to its first final byte after the introducer. */
  function FindCsiFinal(b: bytes, isFinal: byte -> bool): (r: Option<nat>)
    ensures r.Some? ==> 3 <= r.value <= |b|
  {
    if |b| < 2 then None else After(FirstWhere(b[2..], isFinal), 3)
  }

  /** A doubled ESC in front of a complete mouse report is cut off as a sequence of its own. */
  predicate EscBeforeMouse(b: bytes) {
    && ESC_CSI_LESS <= b
    && FindCsiFinal(b[1..], IsSgrFinal).Some?
    && var mouse := b[1..1 + FindCsiFinal(b[1..], IsSgrFinal).value];
      IsUtf8(mouse) && ParseSgrMouse(mouse).Some?
  }

  predicate EscBeforeBrokenMouse(b: bytes) {
    && ESC_CSI_LESS <= b
    && FindCsiFinal(b[1..], IsSgrFinal).Some?
    && !IsUtf8(b[1..1 + FindCsiFinal(b[1..], IsSgrFinal).value])
  }

  function CompleteEscapeSequenceLen(b: bytes): (r: Option<nat>)
    requires b != [] && b[0] == ESC
    ensures r.Some? ==> 0 < r.value <= |b|
  {
    if |b| == 1 then None
    else if EscBeforeBrokenMouse(b) then None
    else if EscBeforeMouse(b) then Some(1)
    else if b[1] == ESC then After(CompleteEscapeSequenceLen(b[1..]), 1)
    else if b[1] == BRACKET then FindCsiFinal(b, if CSI_LESS <= b then IsSgrFinal else IsCsiFinal)
    else if ControlStringOf(b).Some? then
      match ControlStringOf(b).value
      case Complete(len, _) => Some(len)
      case Incomplete(_) => None
    else if SS3 <= b then (if |b| >= 3 then Some(3) else None)
    else
      var width := LeadingBitsWidth(b[1]);
      if width.None? || |b| < 1 + width.value || !IsUtf8(b[1..1 + width.value]) then None
      else Some(1 + width.value)
  }

  function ParseHostColorSchemeReport(s: bytes): Option<HostAppearance> {
    if s == DARK_REPORT then Some(Dark)
    else if s == LIGHT_REPORT then Some(Light)
    else None
  }

  /** What a complete escape sequence means. */
  function ClassifySequence(s: bytes, key: KeyParser): RawInputEvent {
    var color := ParseDefaultColorResponse(s);
    if color.Stops? then Stopped
    else if color.Value? then HostDefaultColor(color.value)
    else if s == FOCUS_IN then OuterFocusGained
    else if s == FOCUS_OUT then OuterFocusLost
    else if ParseHostColorSchemeReport(s).Some? then HostColorSchemeChanged(ParseHostColorSchemeReport(s).value)
    else if ParseSgrMouse(s).Some? then Mouse(ParseSgrMouse(s).value)
    else if key(s).Some? then Key(key(s).value)
    else Unsupported
  }

  datatype Extracted = Extracted(event: RawInputEvent, consumed: nat)

  function ExtractPaste(b: bytes): (r: Option<Extracted>)
    requires PASTE_START <= b
    ensures r.Some? ==> 0 < r.value.consumed <= |b|
  {
    var end := FindSubsequence(b, PASTE_END);
    if end.None? then None
    else
      PasteEndAfterStart(b);
      var content := b[|PASTE_START|..end.value];
      if IsUtf8(content) then Some(Extracted(Paste(content), end.value + |PASTE_END|)) else None
  }

  /** The first event of the buffer and the number of bytes it takes, if one is complete. */
  function ExtractOneEvent(b: bytes, key: KeyParser): (r: Option<Extracted>)
    ensures r.Some? ==> 0 < r.value.consumed <= |b|
  {
    if b == [] then None
    else if PASTE_START <= b then ExtractPaste(b)
    else if b[0] == ESC then
      var n := CompleteEscapeSequenceLen(b);
      if n.None? || !IsUtf8(b[..n.value]) then None
      else Some(Extracted(ClassifySequence(b[..n.value], key), n.value))
    else
      var n := FirstCompleteCharLen(b);
      if n.None? || key(b[..n.value]).None? then None
      else Some(Extracted(Key(key(b[..n.value]).value), n.value))
  }

  /** The end marker cannot overlap a start marker in front of it. */
  lemma PasteEndAfterStart(b: bytes)
    requires PASTE_START <= b
    ensures forall i :: 0 <= i < |PASTE_START| ==> !OccursAt(b, PASTE_END, i)
  {
    forall i | 0 <= i < |PASTE_START|
      ensures !OccursAt(b, PASTE_END, i)
    {
      if i + 6 <= |b| {
        assert b[i..i + 6][0] == b[i] == PASTE_START[i] && b[i..i + 6][4] == b[i + 4];
      }
    }
  }

  // ----- Incomplete shapes the timeout cares about -----

  predicate AllTailBytes(s: bytes) {
    forall i :: 0 <= i < |s| ==> IsSgrTailByte(s[i])
  }

  predicate IsIncompleteSgrMouse(b: bytes) {
    CSI_LESS <= b && AllTailBytes(b[3..])
  }

  predicate IsIncompletePaste(b: bytes) {
    PASTE_START <= b && FindSubsequence(b, PASTE_END).None?
  }

  predicate IsIncompleteDefaultColorResponse(b: bytes) {
    && ControlStringOf(b) == Some(Incomplete(Osc))
    && |b| >= 5
    && OSC <= b
    && (b[2..4] == CommandDigits(Foreground) || b[2..4] == CommandDigits(Background))
    && b[4] == SgrMouse.SEMICOLON
  }

  predicate IsIncompleteColorSchemeReport(b: bytes) {
    CSI + [0x3f] <= b && (b <= DARK_REPORT || b <= LIGHT_REPORT) && |b| < |DARK_REPORT|
  }

  /** A mouse report that lost its ESC and is still open: the window kept after a lone ESC. */
  predicate IsIncompleteOrphanedTail(b: bytes) {
    && |b| <= MAX_ORPHANED_TAIL
    && ((|b| < 3 && b <= ORPHAN_START) || (ORPHAN_START <= b && AllTailBytes(b[2..])))
  }

  /** Length of a complete mouse report that lost its ESC, at the front of the buffer. */
  function CompleteOrphanedTail(b: bytes): (r: Option<nat>)
    ensures r.Some? ==> 0 < r.value <= |b|
  {
    var n := Terminator(b, OrphanedSgrMouseTail);
    if n.None? || n.value > MAX_ORPHANED_TAIL then None
    else if !IsUtf8([ESC] + b[..n.value]) || ParseSgrMouse([ESC] + b[..n.value]).None? then None
    else n
  }

  predicate IsPlausibleOscByte(b: byte) {
    IsDigit(b) || b in {0x3b, 0x3a, 0x2f, 0x23, 0x3f, 0x2e, 0x5f, 0x2d, 0x2b, 0x72, 0x67, 0x62, 0x52, 0x47, 0x42, ESC}
  }

  predicate IsPlausibleReportByte(b: byte) {
    IsDigit(b) || b == 0x3b || b == 0x3f || b == 0x6e
  }

  predicate EndsInEsc(b: bytes) {
    b != [] && b[|b| - 1] == ESC
  }

  predicate IsPlausibleTail(family: ControlStringFamily, b: bytes) {
    match family
    case Osc => forall i :: 0 <= i < |b| ==> IsPlausibleOscByte(b[i])
    case StTerminated => EndsInEsc(b)
    case HostColorSchemeCsi => forall i :: 0 <= i < |b| ==> IsPlausibleReportByte(b[i])
    case OrphanedSgrMouseTail => forall i :: 0 <= i < |b| ==> IsSgrTailByte(b[i]) || IsSgrFinal(b[i])
  }
}

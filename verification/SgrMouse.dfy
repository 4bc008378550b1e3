/** Mouse reports in the SGR encoding: ESC [ < button ; column ; row (M | m). */
module SgrMouse {
  import opened Options
  import opened Bytes

  datatype MouseButton = Left | Middle | Right
  datatype MouseEventKind =
    | Down(button: MouseButton)
    | Up(button: MouseButton)
    | Drag(button: MouseButton)
    | Moved
    | ScrollUp
    | ScrollDown
    | ScrollLeft
    | ScrollRight
  datatype MouseEvent = MouseEvent(kind: MouseEventKind, column: nat, row: nat,
                                   shift: bool, alt: bool, control: bool)

  const CSI_LESS: bytes := [ESC, 0x5b, 0x3c]   // ESC [ <
  const SEMICOLON: byte := 0x3b
  const PRESS: byte := 0x4d                     // M
  const RELEASE: byte := 0x6d                   // m

  predicate IsSgrFinal(b: byte) {
    b == PRESS || b == RELEASE
  }

  predicate IsSgrTailByte(b: byte) {
    IsDigit(b) || b == SEMICOLON
  }

  predicate AllDigits(s: bytes) {
    forall i :: 0 <= i < |s| ==> IsDigit(s[i])
  }

  function DecimalValue(s: bytes): nat
    requires AllDigits(s)
  {
    if s == [] then 0 else DecimalValue(s[..|s| - 1]) * 10 + (s[|s| - 1] - 0x30)
  }

  /** Unsigned decimal with an optional plus sign, rejected when it exceeds `max`. */
  function ParseUnsigned(s: bytes, max: nat): (r: Option<nat>)
    ensures r.Some? ==> r.value <= max
  {
    var digits := if [0x2b] <= s then s[1..] else s;
    if digits == [] || !AllDigits(digits) || DecimalValue(digits) > max then None
    else Some(DecimalValue(digits))
  }

  function CheckedDecrement(n: Option<nat>): (r: Option<nat>)
  {
    match n
    case Some(v) => if v == 0 then None else Some(v - 1)
    case None => None
  }

  function ParseMouseKind(cb: byte): Option<MouseEventKind> {
    var buttonNumber := cb % 4 + cb / 64 * 4;
    var dragging := cb / 32 % 2 == 1;
    match (buttonNumber, dragging)
    case (0, false) => Some(Down(Left))
    case (1, false) => Some(Down(Middle))
    case (2, false) => Some(Down(Right))
    case (0, true) => Some(Drag(Left))
    case (1, true) => Some(Drag(Middle))
    case (2, true) => Some(Drag(Right))
    case (3, false) => Some(Up(Left))
    case (3, true) => Some(Moved)
    case (4, true) => Some(Moved)
    case (5, true) => Some(Moved)
    case (4, false) => Some(ScrollUp)
    case (5, false) => Some(ScrollDown)
    case (6, false) => Some(ScrollLeft)
    case (7, false) => Some(ScrollRight)
    case _ => None
  }

  /** The event behind the parts of a report; parts after the third are ignored. */
  function ParseBody(parts: seq<bytes>, final: byte): Option<MouseEvent> {
    if |parts| < 3 then None
    else
      var cb := ParseUnsigned(parts[0], 255);
      var column := CheckedDecrement(ParseUnsigned(parts[1], 65535));
      var row := CheckedDecrement(ParseUnsigned(parts[2], 65535));
      if cb.None? || column.None? || row.None? then None
      else
        var b: byte := cb.value;
        match ParseMouseKind(b)
        case None => None
        case Some(kind) =>
          var kind' := if final == RELEASE && kind.Down? then Up(kind.button) else kind;
          Some(MouseEvent(kind', column.value, row.value, b / 4 % 2 == 1, b / 8 % 2 == 1, b / 16 % 2 == 1))
  }

  function ParseSgrMouse(sequence: bytes): Option<MouseEvent> {
    if !(CSI_LESS <= sequence) || |sequence| == 3 then None
    else
      var final := sequence[|sequence| - 1];
      if !IsSgrFinal(final) then None
      else ParseBody(SplitOn(sequence[3..|sequence| - 1], SEMICOLON), final)
  }

  // ----- Reports as terminals write them -----

  function Decimal(n: nat): (s: bytes)
    ensures s != []
  {
    if n < 10 then [0x30 + n] else Decimal(n / 10) + [0x30 + n % 10]
  }

  function MouseBody(cb: byte, column: nat, row: nat): bytes {
    Decimal(cb) + [SEMICOLON] + (Decimal(column) + [SEMICOLON] + Decimal(row))
  }

  function MouseTail(cb: byte, column: nat, row: nat, final: byte): bytes {
    MouseBody(cb, column, row) + [final]
  }

  function MouseReport(cb: byte, column: nat, row: nat, final: byte): bytes {
    CSI_LESS + MouseTail(cb, column, row, final)
  }

  /** What a report with 1-based column and row means. */
  function ReportedEvent(kind: MouseEventKind, cb: byte, column: nat, row: nat, final: byte): MouseEvent
    requires 1 <= column && 1 <= row
  {
    MouseEvent(if final == RELEASE && kind.Down? then Up(kind.button) else kind,
               column - 1, row - 1, cb / 4 % 2 == 1, cb / 8 % 2 == 1, cb / 16 % 2 == 1)
  }

  lemma {:induction false} DecimalRoundTrip(n: nat)
    ensures AllDigits(Decimal(n)) && DecimalValue(Decimal(n)) == n
    decreases n
  {
    if n >= 10 {
      DecimalRoundTrip(n / 10);
      assert Decimal(n)[..|Decimal(n)| - 1] == Decimal(n / 10);
    } else {
      assert Decimal(n)[..0] == [] && DecimalValue([]) == 0;
    }
  }

  function PowerOfTen(k: nat): nat {
    if k == 0 then 1 else 10 * PowerOfTen(k - 1)
  }

  lemma {:induction false} DecimalIsShort(n: nat, digits: nat)
    requires 0 < digits && n < PowerOfTen(digits)
    ensures |Decimal(n)| <= digits
    decreases n
  {
    if n >= 10 {
      assert digits > 1 by {
        assert PowerOfTen(1) == 10;
      }
      DecimalIsShort(n / 10, digits - 1);
    }
  }

  lemma DecimalParses(n: nat, max: nat)
    requires n <= max
    ensures ParseUnsigned(Decimal(n), max) == Some(n) && SEMICOLON !in Decimal(n)
  {
    DecimalRoundTrip(n);
    assert IsDigit(Decimal(n)[0]);
  }

  lemma ReportSplits(a: bytes, b: bytes, c: bytes)
    requires SEMICOLON !in a && SEMICOLON !in b && SEMICOLON !in c
    ensures SplitOn(a + [SEMICOLON] + (b + [SEMICOLON] + c), SEMICOLON) == [a, b, c]
  {
    hide SplitOn;
    SplitAtSeparator(a, SEMICOLON, b + [SEMICOLON] + c);
    SplitAtSeparator(b, SEMICOLON, c);
    SplitAtSeparator(c, SEMICOLON, []);
  }

  lemma ThreeNumbersBytes(a: bytes, b: bytes, c: bytes)
    requires AllDigits(a) && AllDigits(b) && AllDigits(c)
    ensures var body := a + [SEMICOLON] + (b + [SEMICOLON] + c); forall i :: 0 <= i < |body| ==> IsSgrTailByte(body[i])
  {}

  /** The body of a report has three numbers, at most fifteen bytes in all. */
  lemma MouseBodyBytes(cb: byte, column: nat, row: nat)
    ensures var body := MouseBody(cb, column, row);
            && 5 <= |body| && (column <= 65535 && row <= 65535 ==> |body| <= 15)
            && (forall i :: 0 <= i < |body| ==> IsSgrTailByte(body[i]))
            && SplitOn(body, SEMICOLON) == [Decimal(cb), Decimal(column), Decimal(row)]
  {
    hide Decimal;
    hide DecimalValue;
    hide SplitOn;
    hide AllDigits;
    var a, b, c := Decimal(cb), Decimal(column), Decimal(row);
    DecimalRoundTrip(cb);
    DecimalRoundTrip(column);
    DecimalRoundTrip(row);
    ThreeNumbersBytes(a, b, c);
    NumbersHaveNoSemicolon(a);
    NumbersHaveNoSemicolon(b);
    NumbersHaveNoSemicolon(c);
    ReportSplits(a, b, c);
    SmallPowers();
    DecimalIsShort(cb, 3);
    if column <= 65535 && row <= 65535 {
      DecimalIsShort(column, 5);
      DecimalIsShort(row, 5);
    }
  }

  lemma NumbersHaveNoSemicolon(s: bytes)
    requires AllDigits(s)
    ensures SEMICOLON !in s
  {}

  lemma SmallPowers()
    ensures PowerOfTen(3) == 1000 && PowerOfTen(5) == 100000
  {
    assert PowerOfTen(2) == 100;
    assert PowerOfTen(4) == 10000;
  }

  lemma FramedParts(body: bytes, final: byte)
    ensures var report := CSI_LESS + (body + [final]);
            && CSI_LESS <= report && |report| == |body| + 4
            && report[3..|report| - 1] == body && report[|report| - 1] == final
  {}

  /** A report reads back as the event it was written for. */
  lemma MouseReportRoundTrip(cb: byte, column: nat, row: nat, final: byte)
    requires 1 <= column <= 65535 && 1 <= row <= 65535 && IsSgrFinal(final)
    ensures ParseSgrMouse(MouseReport(cb, column, row, final))
            == match ParseMouseKind(cb)
               case None => None
               case Some(kind) => Some(ReportedEvent(kind, cb, column, row, final))
  {
    hide MouseBody;
    hide Decimal;
    hide SplitOn;
    hide ParseUnsigned;
    hide ParseMouseKind;
    DecimalParses(cb, 255);
    DecimalParses(column, 65535);
    DecimalParses(row, 65535);
    MouseBodyBytes(cb, column, row);
    var body := MouseBody(cb, column, row);
    FramedParts(body, final);
    assert ParseSgrMouse(CSI_LESS + (body + [final])) == ParseBody(SplitOn(body, SEMICOLON), final);
  }

  // ----- Events as terminals report them -----

  function ButtonCode(button: MouseButton): nat {
    match button
    case Left => 0
    case Middle => 1
    case Right => 2
  }

  /** The button number a terminal writes: 32 marks motion, 64 the wheel. */
  function KindCode(kind: MouseEventKind): nat {
    match kind
    case Down(button) => ButtonCode(button)
    case Up(button) => ButtonCode(button)
    case Drag(button) => 32 + ButtonCode(button)
    case Moved => 35
    case ScrollUp => 64
    case ScrollDown => 65
    case ScrollLeft => 66
    case ScrollRight => 67
  }

  function EventCode(e: MouseEvent): byte {
    KindCode(e.kind) + (if e.shift then 4 else 0) + (if e.alt then 8 else 0) + (if e.control then 16 else 0)
  }

  function ReportOf(e: MouseEvent): bytes {
    MouseReport(EventCode(e), e.column + 1, e.row + 1, if e.kind.Up? then RELEASE else PRESS)
  }

  /** The fields of a button number: wheel, motion, three modifiers, two button bits. */
  lemma CodeFields(wheel: nat, motion: nat, control: nat, alt: nat, shift: nat, button: nat)
    requires wheel < 4 && motion < 2 && control < 2 && alt < 2 && shift < 2 && button < 4
    ensures var cb := 64 * wheel + 32 * motion + 16 * control + 8 * alt + 4 * shift + button;
            && cb % 4 == button && cb / 4 % 2 == shift && cb / 8 % 2 == alt && cb / 16 % 2 == control
            && cb / 32 % 2 == motion && cb / 64 == wheel
  {
    var cb := 64 * wheel + 32 * motion + 16 * control + 8 * alt + 4 * shift + button;
    assert cb / 4 == 16 * wheel + 8 * motion + 4 * control + 2 * alt + shift;
    assert cb / 8 == 8 * wheel + 4 * motion + 2 * control + alt;
    assert cb / 16 == 4 * wheel + 2 * motion + control;
    assert cb / 32 == 2 * wheel + motion;
  }

  lemma EventCodeBits(e: MouseEvent)
    ensures var cb := EventCode(e);
            && ParseMouseKind(cb) == Some(if e.kind.Up? then Down(e.kind.button) else e.kind)
            && (cb / 4 % 2 == 1 <==> e.shift) && (cb / 8 % 2 == 1 <==> e.alt) && (cb / 16 % 2 == 1 <==> e.control)
  {
    var k := KindCode(e.kind);
    var wheel := if k < 64 then 0 else 1;
    var motion := if 32 <= k < 64 then 1 else 0;
    CodeFields(wheel, motion, if e.control then 1 else 0, if e.alt then 1 else 0, if e.shift then 1 else 0,
               k - 64 * wheel - 32 * motion);
  }

  /** Every event whose coordinates fit the protocol is read back from its report. */
  lemma MouseEventRoundTrip(e: MouseEvent)
    requires e.column < 65535 && e.row < 65535
    ensures ParseSgrMouse(ReportOf(e)) == Some(e)
  {
    hide ParseSgrMouse;
    hide MouseReport;
    hide ParseMouseKind;
    hide EventCode;
    EventCodeBits(e);
    MouseReportRoundTrip(EventCode(e), e.column + 1, e.row + 1, if e.kind.Up? then RELEASE else PRESS);
  }
}

/** The reports a terminal sends, byte by byte: which bytes are read as what, and which are not. */
module HostReports {
  import opened Options
  import opened Bytes
  import opened Utf8
  import opened SgrMouse
  import opened TerminalTheme
  import opened RawInput
  import opened ByteFramer
  import opened ReadBoundaries
  import opened EventStreams
  import opened StoppingReplies
  import opened KeySequences
  import TextAndPaste

  // ----- Mouse reports -----

  /** Shift adds 4, Alt 8 and Control 16 to a button number. */
  function Modifiers(shift: bool, alt: bool, control: bool): nat {
    (if shift then 4 else 0) + (if alt then 8 else 0) + (if control then 16 else 0)
  }

  /** Every button number without its modifiers, and the event it names. */
  function NamedBy(button: nat): Option<MouseEventKind> {
    match button
    case 0 => Some(Down(Left))
    case 1 => Some(Down(Middle))
    case 2 => Some(Down(Right))
    case 3 => Some(Up(Left))
    case 32 => Some(Drag(Left))
    case 33 => Some(Drag(Middle))
    case 34 => Some(Drag(Right))
    case 35 => Some(Moved)
    case 64 => Some(ScrollUp)
    case 65 => Some(ScrollDown)
    case 66 => Some(ScrollLeft)
    case 67 => Some(ScrollRight)
    case 96 => Some(Moved)
    case 97 => Some(Moved)
    case _ => None
  }

  /** A number below 256 is a multiple of 32, two button bits, and three modifiers. */
  lemma ButtonParts(wheel: nat, motion: nat, low: nat, shift: bool, alt: bool, control: bool)
    requires wheel < 4 && motion < 2 && low < 4
    ensures var cb := 64 * wheel + 32 * motion + low + Modifiers(shift, alt, control);
            && cb < 256
            && ParseMouseKind(cb) == NamedBy(64 * wheel + 32 * motion + low)
            && (cb / 4 % 2 == 1 <==> shift) && (cb / 8 % 2 == 1 <==> alt) && (cb / 16 % 2 == 1 <==> control)
  {
    var m := Modifiers(shift, alt, control);
    CodeFields(wheel, motion, if control then 1 else 0, if alt then 1 else 0, if shift then 1 else 0, low);
    assert m == 16 * (if control then 1 else 0) + 8 * (if alt then 1 else 0) + 4 * (if shift then 1 else 0);
    hide ParseMouseKind;
    hide NamedBy;
    KindFields(64 * wheel + 32 * motion + low + m, wheel, motion, low);
  }

  lemma KindFields(cb: byte, wheel: nat, motion: nat, low: nat)
    requires wheel < 4 && motion < 2 && low < 4
    requires cb / 64 == wheel && cb / 32 % 2 == motion && cb % 4 == low
    ensures ParseMouseKind(cb) == NamedBy(64 * wheel + 32 * motion + low)
  {
    if motion == 0 {
      assert cb / 32 % 2 != 1;
    }
    var button := cb % 4 + cb / 64 * 4;
    assert button == low + wheel * 4;
  }

  function WrittenReport(cb: nat, column: nat, row: nat, f: byte): bytes {
    [0x1b, 0x5b, 0x3c] + (Decimal(cb) + [0x3b] + (Decimal(column) + [0x3b] + Decimal(row)) + [f])
  }

  lemma NumberReads(n: nat, max: nat)
    ensures ParseUnsigned(Decimal(n), max) == if n <= max then Some(n) else None
  {
    DecimalRoundTrip(n);
    assert IsDigit(Decimal(n)[0]);
  }

  /** The report has the three numbers as its parts. */
  lemma WrittenParts(cb: nat, column: nat, row: nat, f: byte)
    requires f == 0x4d || f == 0x6d
    ensures ParseSgrMouse(WrittenReport(cb, column, row, f))
            == ParseBody([Decimal(cb), Decimal(column), Decimal(row)], f)
  {
    hide Decimal;
    hide ParseBody;
    hide SplitOn;
    hide DecimalValue;
    DecimalRoundTrip(cb);
    DecimalRoundTrip(column);
    DecimalRoundTrip(row);
    NumbersHaveNoSemicolon(Decimal(cb));
    NumbersHaveNoSemicolon(Decimal(column));
    NumbersHaveNoSemicolon(Decimal(row));
    ReportSplits(Decimal(cb), Decimal(column), Decimal(row));
    FramedParts(Decimal(cb) + [0x3b] + (Decimal(column) + [0x3b] + Decimal(row)), f);
  }

  /** Numbers out of range are no report: a button above 255, a column or row of 0 or above 65535. */
  lemma MouseReportRejects(cb: nat, column: nat, row: nat, f: byte)
    requires f == 0x4d || f == 0x6d
    requires cb > 255 || column == 0 || column > 65535 || row == 0 || row > 65535
    ensures ParseSgrMouse(WrittenReport(cb, column, row, f)) == None
  {
    hide ParseUnsigned;
    hide ParseMouseKind;
    WrittenParts(cb, column, row, f);
    NumberReads(cb, 255);
    NumberReads(column, 65535);
    NumberReads(row, 65535);
    hide Decimal;
    hide ParseSgrMouse;
  }

  /** All other reports are the event their button names, at the cell above and to the left, with the
      modifiers in the number; m releases a button. They are tokens for it, or name nothing. */
  lemma MouseReportReads(wheel: nat, motion: nat, low: nat, shift: bool, alt: bool, control: bool,
                         column: nat, row: nat, f: byte, key: KeyParser)
    requires wheel < 4 && motion < 2 && low < 4 && (f == 0x4d || f == 0x6d)
    requires 1 <= column <= 65535 && 1 <= row <= 65535
    ensures var button := 64 * wheel + 32 * motion + low;
            var report := WrittenReport(button + Modifiers(shift, alt, control), column, row, f);
            match NamedBy(button)
            case None => ParseSgrMouse(report) == None
            case Some(kind) =>
              var kind' := if f == 0x6d && kind.Down? then Up(kind.button) else kind;
              && ParseSgrMouse(report) == Some(MouseEvent(kind', column - 1, row - 1, shift, alt, control))
              && IsToken(report, Mouse(MouseEvent(kind', column - 1, row - 1, shift, alt, control)), key)
  {
    hide ParseMouseKind;
    hide NamedBy;
    hide Modifiers;
    hide IsToken;
    hide MouseBody;
    hide ParseSgrMouse;
    ButtonParts(wheel, motion, low, shift, alt, control);
    var button := 64 * wheel + 32 * motion + low;
    var cb := button + Modifiers(shift, alt, control);
    assert WrittenReport(cb, column, row, f) == MouseReport(cb, column, row, f) by {
      ReportBytes(cb, column, row, f);
    }
    MouseReportRoundTrip(cb, column, row, f);
    if NamedBy(button).Some? {
      MouseReportIsToken(cb, column, row, f, key);
    }
  }

  lemma ReportBytes(cb: byte, column: nat, row: nat, f: byte)
    ensures WrittenReport(cb, column, row, f) == MouseReport(cb, column, row, f)
  {
    hide Decimal;
    assert [0x1b, 0x5b, 0x3c] == CSI_LESS;
  }

  // ----- Every text that is read as a mouse report -----

  /** Decimal digits, at least one. */
  predicate IsDecimal(s: bytes) {
    s != [] && forall i :: 0 <= i < |s| ==> 0x30 <= s[i] <= 0x39
  }

  /** The number a text stands for: decimal digits, perhaps behind one plus sign. */
  function NumberIn(s: bytes): Option<nat> {
    if IsDecimal(s) then Some(DecimalValue(s))
    else if s != [] && s[0] == 0x2b && IsDecimal(s[1..]) then Some(DecimalValue(s[1..]))
    else None
  }

  lemma NumbersExactly(s: bytes, max: nat)
    ensures ParseUnsigned(s, max)
            == if NumberIn(s).Some? && NumberIn(s).value <= max then NumberIn(s) else None
  {
    DecimalIs(s);
    if [0x2b] <= s {
      DecimalIs(s[1..]);
      assert s[0] == 0x2b;
      assert !IsDecimal(s);
    }
    hide IsDecimal;
    hide AllDigits;
  }

  lemma DecimalIs(s: bytes)
    ensures IsDecimal(s) <==> s != [] && AllDigits(s)
  {}

  lemma NumberUnfolds(s: bytes)
    requires AllDigits(s) && s != []
    ensures DecimalValue(s) == DecimalValue(s[..|s| - 1]) * 10 + (s[|s| - 1] - 0x30)
  {}

  /** Zeros in front of a number do not count. */
  lemma {:induction false} ZeroInFront(s: bytes)
    requires AllDigits(s)
    ensures AllDigits([0x30] + s) && DecimalValue([0x30] + s) == DecimalValue(s)
    decreases |s|
  {
    var t: bytes := [0x30] + s;
    assert AllDigits(t);
    NumberUnfolds(t);
    if s == [] {
      assert t[..0] == [] && DecimalValue([]) == 0 && DecimalValue(t) == 0;
    } else {
      var init := s[..|s| - 1];
      ZeroInFront(init);
      NumberUnfolds(s);
      assert t[..|t| - 1] == [0x30] + init && t[|t| - 1] == s[|s| - 1];
    }
  }

  datatype MouseText = MouseText(a: bytes, b: bytes, c: bytes, more: bytes, f: byte)

  /** ESC [ < and three parts between semicolons, perhaps more behind another one, then M or m. */
  predicate IsMouseText(s: bytes, t: MouseText) {
    && s == [0x1b, 0x5b, 0x3c] + ((t.a + [0x3b] + (t.b + [0x3b] + (t.c + t.more))) + [t.f])
    && (t.f == 0x4d || t.f == 0x6d)
    && 0x3b !in t.a && 0x3b !in t.b && 0x3b !in t.c && (t.more == [] || t.more[0] == 0x3b)
  }

  predicate HasNumbers(t: MouseText) {
    NumberIn(t.a).Some? && NumberIn(t.b).Some? && NumberIn(t.c).Some?
  }

  lemma LastPart(c: bytes, more: bytes)
    requires 0x3b !in c && (more == [] || more[0] == 0x3b)
    ensures SplitOn(c + more, 0x3b)[0] == c
  {
    hide SplitOn;
    if more == [] {
      assert c + more == c;
      SplitAtSeparator(c, 0x3b, []);
    } else {
      SplitAtSeparator(c, 0x3b, more[1..]);
      assert c + more == c + [0x3b] + more[1..];
    }
  }

  lemma MouseTextParts(s: bytes, t: MouseText)
    requires IsMouseText(s, t)
    ensures ParseSgrMouse(s) == ParseBody([t.a, t.b, t.c], t.f) && (t.f == 0x4d || t.f == 0x6d)
  {
    hide SplitOn;
    var body := t.a + [0x3b] + (t.b + [0x3b] + (t.c + t.more));
    FramedParts(body, t.f);
    SplitAtSeparator(t.a, 0x3b, t.b + [0x3b] + (t.c + t.more));
    SplitAtSeparator(t.b, 0x3b, t.c + t.more);
    LastPart(t.c, t.more);
    var parts := SplitOn(body, 0x3b);
    assert |parts| >= 3 && parts[0] == t.a && parts[1] == t.b && parts[2] == t.c;
    ThreePartsDecide(parts, t.a, t.b, t.c, t.f);
  }

  lemma ThreePartsDecide(parts: seq<bytes>, a: bytes, b: bytes, c: bytes, f: byte)
    requires |parts| >= 3 && parts[0] == a && parts[1] == b && parts[2] == c
    ensures ParseBody(parts, f) == ParseBody([a, b, c], f)
  {
    hide ParseUnsigned;
    hide ParseMouseKind;
  }

  /** Such a text is read as the plain report with its three numbers, and is nothing if one of the parts is
      no number. */
  lemma MouseTextReads(s: bytes, t: MouseText)
    requires IsMouseText(s, t)
    ensures ParseSgrMouse(s) ==
            if HasNumbers(t)
            then ParseSgrMouse(WrittenReport(NumberIn(t.a).value, NumberIn(t.b).value, NumberIn(t.c).value, t.f))
            else None
  {
    hide IsMouseText;
    hide NumberIn;
    hide ParseMouseKind;
    hide ParseUnsigned;
    hide ParseSgrMouse;
    hide Decimal;
    hide WrittenReport;
    MouseTextParts(s, t);
    NumbersExactly(t.a, 255);
    NumbersExactly(t.b, 65535);
    NumbersExactly(t.c, 65535);
    if HasNumbers(t) {
      WrittenParts(NumberIn(t.a).value, NumberIn(t.b).value, NumberIn(t.c).value, t.f);
      NumberReads(NumberIn(t.a).value, 255);
      NumberReads(NumberIn(t.b).value, 65535);
      NumberReads(NumberIn(t.c).value, 65535);
    }
  }

  /** And nothing else is read as a mouse report. */
  lemma OnlyMouseTexts(s: bytes) returns (t: MouseText)
    requires ParseSgrMouse(s).Some?
    ensures IsMouseText(s, t)
  {
    hide ParseUnsigned;
    hide ParseMouseKind;
    hide SplitOn;
    var body, f := s[3..|s| - 1], s[|s| - 1];
    assert |SplitOn(body, 0x3b)| >= 3;
    assert s == CSI_LESS + (body + [f]);
    hide ParseSgrMouse;
    var a, b, c, more := ThreePartsOf(body);
    t := MouseText(a, b, c, more, f);
  }

  lemma ThreePartsOf(body: bytes) returns (a: bytes, b: bytes, c: bytes, more: bytes)
    requires |SplitOn(body, 0x3b)| >= 3
    ensures body == a + [0x3b] + (b + [0x3b] + (c + more))
    ensures 0x3b !in a && 0x3b !in b && 0x3b !in c && (more == [] || more[0] == 0x3b)
  {
    hide SplitOn;
    var later, last;
    a, later := CutPart(body);
    b, last := CutPart(later);
    c, more := EndPart(last);
  }

  /** The part in front of the first separator, and what follows it. */
  lemma CutPart(text: bytes) returns (part: bytes, rest: bytes)
    requires |SplitOn(text, 0x3b)| > 1
    ensures text == part + [0x3b] + rest && 0x3b !in part
    ensures |SplitOn(rest, 0x3b)| == |SplitOn(text, 0x3b)| - 1
  {
    hide SplitOn;
    FirstCut(text);
    var i :| IsFirstCut(text, i) && SplitOn(text, 0x3b) == [text[..i]] + SplitOn(text[i + 1..], 0x3b);
    part, rest := text[..i], text[i + 1..];
  }

  lemma EndPart(text: bytes) returns (part: bytes, more: bytes)
    ensures text == part + more && 0x3b !in part && (more == [] || more[0] == 0x3b)
  {
    hide SplitOn;
    FirstCut(text);
    if 0x3b !in text {
      part, more := text, [];
    } else {
      var i :| IsFirstCut(text, i) && SplitOn(text, 0x3b) == [text[..i]] + SplitOn(text[i + 1..], 0x3b);
      part, more := text[..i], text[i..];
    }
  }

  lemma FirstCut(text: bytes)
    ensures (0x3b !in text && SplitOn(text, 0x3b) == [text])
            || exists i :: IsFirstCut(text, i) && SplitOn(text, 0x3b) == [text[..i]] + SplitOn(text[i + 1..], 0x3b)
  {
    hide SplitOn;
    match FirstWhere(text, b => b == 0x3b)
    case None =>
      assert forall j :: 0 <= j < |text| ==> text[j] != 0x3b;
      SplitAtSeparator(text, 0x3b, []);
    case Some(i) =>
      assert IsFirstCut(text, i) by {
        assert forall j :: 0 <= j < i ==> text[j] != 0x3b;
      }
      SplitAtSeparator(text[..i], 0x3b, text[i + 1..]);
      assert text == text[..i] + [0x3b] + text[i + 1..];
  }

  predicate IsFirstCut(text: bytes, i: int) {
    0 <= i < |text| && text[i] == 0x3b && 0x3b !in text[..i]
  }

  // ----- Colours -----

  const LOWER_HEX: bytes := [0x30, 0x31, 0x32, 0x33, 0x34, 0x35, 0x36, 0x37, 0x38, 0x39,
                             0x61, 0x62, 0x63, 0x64, 0x65, 0x66]   // 0 to 9, a to f
  const UPPER_HEX: bytes := [0x30, 0x31, 0x32, 0x33, 0x34, 0x35, 0x36, 0x37, 0x38, 0x39,
                             0x41, 0x42, 0x43, 0x44, 0x45, 0x46]   // 0 to 9, A to F

  /** The digits are these and no others. */
  lemma HexDigitsExactly(b: byte)
    ensures IsHexDigit(b) <==> b in LOWER_HEX || b in UPPER_HEX
  {
    assert |LOWER_HEX| == |UPPER_HEX| == 16;
    if 0x30 <= b <= 0x39 {
      assert LOWER_HEX[b - 0x30] == b;
    } else if 0x61 <= b <= 0x66 {
      assert LOWER_HEX[b - 0x57] == b;
    } else if 0x41 <= b <= 0x46 {
      assert UPPER_HEX[b - 0x37] == b;
    }
  }

  /** And they count 0 to 15 in either case. */
  lemma HexDigitsCount(v: nat)
    requires v < 16
    ensures IsHexDigit(LOWER_HEX[v]) && HexDigitValue(LOWER_HEX[v]) == v
    ensures IsHexDigit(UPPER_HEX[v]) && HexDigitValue(UPPER_HEX[v]) == v
  {}

  /** A component is one to four such digits and nothing else. */
  lemma ComponentsExactly(component: bytes)
    ensures ParseHexComponent(component).Some?
            <==> 1 <= |component| <= 4 && forall i :: 0 <= i < |component| ==> component[i] in LOWER_HEX + UPPER_HEX
  {
    forall i | 0 <= i < |component|
      ensures IsHexDigit(component[i]) <==> component[i] in LOWER_HEX + UPPER_HEX
    {
      HexDigitsExactly(component[i]);
    }
    DigitMaxima();
    hide HexValue;
  }

  /** rgb: and three components with slashes between, or # and three of one length. */
  predicate IsColorText(value: bytes, r: bytes, g: bytes, b: bytes) {
    || value == [0x72, 0x67, 0x62, 0x3a] + (r + [0x2f] + (g + [0x2f] + b))
    || (value == [0x23] + (r + g + b) && |r| == |g| == |b|)
  }

  predicate AreComponents(r: bytes, g: bytes, b: bytes, color: RgbColor) {
    && ParseHexComponent(r) == Some(color.r)
    && ParseHexComponent(g) == Some(color.g)
    && ParseHexComponent(b) == Some(color.b)
  }

  /** Components in either form are read as the colour they make. */
  lemma ColorReads(value: bytes, r: bytes, g: bytes, b: bytes, color: RgbColor)
    requires IsColorText(value, r, g, b) && AreComponents(r, g, b, color)
    ensures ParseRgbColor(value) == Value(color)
  {
    hide ParseHashColor;
    hide SplitOn;
    ComponentIsHex(r);
    ComponentIsHex(g);
    ComponentIsHex(b);
    if value == [0x72, 0x67, 0x62, 0x3a] + (r + [0x2f] + (g + [0x2f] + b)) {
      HexHasNoSlash(r);
      HexHasNoSlash(g);
      HexHasNoSlash(b);
      SlashedSplits(r, g, b);
      assert value[4..] == Slashed(r, g, b);
      assert value[..4] == RGB_PREFIX;
      hide ParseHexComponent;
    } else {
      HashUnfolds(r + g + b);
      ThirdsRead(r, g, b, color);
    }
  }

  lemma ComponentIsHex(s: bytes)
    requires ParseHexComponent(s).Some?
    ensures IsHex(s) && 1 <= |s| <= 4
  {
    hide HexValue;
  }

  lemma ThirdsRead(r: bytes, g: bytes, b: bytes, color: RgbColor)
    requires |r| == |g| == |b| && AreComponents(r, g, b, color)
    ensures ParseHashColor(r + g + b) == Value(color)
  {
    ComponentIsHex(r);
    ComponentIsHex(g);
    ComponentIsHex(b);
    hide ParseHexComponent;
    var hex, n := r + g + b, |r|;
    assert |hex| / 3 == n;
    assert hex[0..n] == r && hex[n..n * 2] == g && hex[n * 2..|hex|] == b;
    assert hex[n] == g[0] && hex[n * 2] == b[0];
    HexIsNoTail(g);
    HexIsNoTail(b);
  }

  /** And nothing else is read as a colour. */
  lemma ColorParts(value: bytes, color: RgbColor) returns (r: bytes, g: bytes, b: bytes)
    requires ParseRgbColor(value) == Value(color)
    ensures IsColorText(value, r, g, b) && AreComponents(r, g, b, color)
  {
    hide ParseHexComponent;
    if RGB_PREFIX <= value {
      var text := value[4..];
      var parts := SplitOn(text, SLASH);
      r, g, b := parts[0], parts[1], parts[2];
      ThreeParts(text);
      assert value == RGB_PREFIX + text;
    } else {
      var hex := value[1..];
      var n := |hex| / 3;
      r, g, b := hex[0..n], hex[n..n * 2], hex[n * 2..|hex|];
      assert hex == r + g + b;
      assert value == [0x23] + hex;
      hide SplitOn;
    }
  }

  lemma ThreeParts(text: bytes)
    requires |SplitOn(text, SLASH)| == 3
    ensures var parts := SplitOn(text, SLASH); text == parts[0] + [SLASH] + (parts[1] + [SLASH] + parts[2])
  {
    var parts := SplitOn(text, SLASH);
    FirstPart(text);
    var rest := text[|parts[0]| + 1..];
    FirstPart(rest);
    var last := rest[|parts[1]| + 1..];
    hide FirstWhere;
    assert SplitOn(last, SLASH) == [parts[2]];
    OnePart(last);
  }

  lemma FirstPart(text: bytes)
    requires |SplitOn(text, SLASH)| > 1
    ensures var parts := SplitOn(text, SLASH);
            && |parts[0]| < |text| && text == parts[0] + [SLASH] + text[|parts[0]| + 1..]
            && parts[1..] == SplitOn(text[|parts[0]| + 1..], SLASH)
  {}

  lemma OnePart(text: bytes)
    requires |SplitOn(text, SLASH)| == 1
    ensures SplitOn(text, SLASH) == [text]
  {}

  /** A value is read as a colour if and only if it is its components in one of the two forms. */
  lemma ColorsExactly(value: bytes, color: RgbColor)
    ensures ParseRgbColor(value) == Value(color)
            <==> exists r, g, b :: IsColorText(value, r, g, b) && AreComponents(r, g, b, color)
  {
    hide ParseRgbColor;
    hide IsColorText;
    hide AreComponents;
    if ParseRgbColor(value) == Value(color) {
      var r, g, b := ColorParts(value, color);
    }
    forall r, g, b | IsColorText(value, r, g, b) && AreComponents(r, g, b, color)
      ensures ParseRgbColor(value) == Value(color)
    {
      ColorReads(value, r, g, b, color);
    }
  }

  // ----- Colour replies -----

  /** ESC ] 1 0 ; or ESC ] 1 1 ; and a value, ended by BEL or ESC \ . */
  function AnswerBytes(kind: DefaultColorKind, value: bytes, end: bytes): bytes {
    [0x1b, 0x5d, 0x31, if kind.Foreground? then 0x30 else 0x31, 0x3b] + value + end
  }

  predicate IsAnswer(s: bytes, kind: DefaultColorKind, color: RgbColor, value: bytes, end: bytes) {
    && (end == [0x07] || end == [0x1b, 0x5c])
    && s == AnswerBytes(kind, value, end) && ParseRgbColor(value) == Value(color)
  }

  lemma AnswerIsReply(kind: DefaultColorKind, value: bytes, end: bytes)
    ensures AnswerBytes(kind, value, end) == ReplyText(kind, value, end)
  {
    assert OSC + CommandDigits(kind) + [0x3b]
           == [0x1b, 0x5d, 0x31, if kind.Foreground? then 0x30 else 0x31, 0x3b];
  }

  /** A sequence is read as a colour reply if and only if it is those bytes around a colour. */
  lemma AnswersExactly(s: bytes, kind: DefaultColorKind, color: RgbColor)
    ensures ParseDefaultColorResponse(s) == Value(DefaultColor(kind, color))
            <==> exists value, end :: IsAnswer(s, kind, color, value, end)
  {
    hide ParseDefaultColorResponse;
    hide ParseRgbColor;
    hide AnswerBytes;
    if ParseDefaultColorResponse(s) == Value(DefaultColor(kind, color)) {
      var k, value, end := ReplyParts(s);
      AnswerIsReply(kind, value, end);
      assert IsAnswer(s, kind, color, value, end);
    }
    forall value, end | IsAnswer(s, kind, color, value, end)
      ensures ParseDefaultColorResponse(s) == Value(DefaultColor(kind, color))
    {
      AnswerIsReply(kind, value, end);
      ReplyReads(kind, value, end);
    }
  }

  /** The bytes of a colour: from # to z, none of them a backslash. */
  lemma ColorTextBytes(value: bytes, r: bytes, g: bytes, b: bytes)
    requires IsColorText(value, r, g, b) && IsHex(r) && IsHex(g) && IsHex(b)
    ensures forall i :: 0 <= i < |value| ==> 0x20 <= value[i] < 0x80 && value[i] != 0x5c
  {
    HexTextBytes(r);
    HexTextBytes(g);
    HexTextBytes(b);
    hide IsHex;
  }

  /** Every reply with components of one to four digits, in either form and ended either way, is a
      token for the colour. */
  lemma AnswerIsToken(kind: DefaultColorKind, color: RgbColor, r: bytes, g: bytes, b: bytes,
                      value: bytes, end: bytes, key: KeyParser)
    requires IsColorText(value, r, g, b) && AreComponents(r, g, b, color)
    requires end == [0x07] || end == [0x1b, 0x5c]
    ensures IsToken(AnswerBytes(kind, value, end), HostDefaultColor(DefaultColor(kind, color)), key)
  {
    hide IsToken;
    hide ParseRgbColor;
    hide ParseDefaultColorResponse;
    var s := AnswerBytes(kind, value, end);
    ColorReads(value, r, g, b, color);
    AnswerIsReply(kind, value, end);
    ReplyReads(kind, value, end);
    hide ReplyText;
    ComponentIsHex(r);
    ComponentIsHex(g);
    ComponentIsHex(b);
    ColorTextBytes(value, r, g, b);
    hide IsColorText;
    hide AreComponents;
    AnswerEnds(kind, value, end);
    hide CompleteEscapeSequenceLen;
    EscapeToken(s, key);
  }

  lemma AnswerEnds(kind: DefaultColorKind, value: bytes, end: bytes)
    requires forall i :: 0 <= i < |value| ==> 0x20 <= value[i] < 0x80 && value[i] != 0x5c
    requires end == [0x07] || end == [0x1b, 0x5c]
    ensures var s := AnswerBytes(kind, value, end);
            && |s| > 1 && s[0] == 0x1b && !(PASTE_START <= s)
            && CompleteEscapeSequenceLen(s) == Some(|s|)
            && (forall i :: 0 <= i < |s| ==> s[i] < 0x80)
  {
    hide CompleteEscapeSequenceLen;
    var s := AnswerBytes(kind, value, end);
    var p := [0x31, if kind.Foreground? then 0x30 else 0x31, 0x3b] + value;
    assert forall i :: 0 <= i < |p| ==> 0x20 <= p[i] < 0x80 && p[i] != 0x5c;
    PlainTextOnly(p);
    OscEnds(p, end, []);
    assert [0x1b, 0x5d] + p + end + [] == s;
    assert s[1] == 0x5d && PASTE_START[1] == 0x5b;
  }

  lemma PlainTextOnly(p: bytes)
    requires forall i :: 0 <= i < |p| ==> 0x20 <= p[i] < 0x80 && p[i] != 0x5c
    ensures HasNoBel(p) && HasNoSt(p)
  {}

  /** A byte as two lower-case hex digits. */
  function HexText(b: byte): bytes {
    [LOWER_HEX[b / 16], LOWER_HEX[b % 16]]
  }

  /** What is printed: rgb: and three such pairs, ended by ESC \ . */
  lemma PrintedColorBytes(kind: DefaultColorKind, color: RgbColor)
    ensures OscSetDefaultColorSequence(kind, color) ==
            AnswerBytes(kind, [0x72, 0x67, 0x62, 0x3a]
                              + (HexText(color.r) + [0x2f] + (HexText(color.g) + [0x2f] + HexText(color.b))),
                        [0x1b, 0x5c])
  {
    PrintedByte(color.r);
    PrintedByte(color.g);
    PrintedByte(color.b);
    hide TwoHexDigits;
    hide HexText;
    assert OSC + CommandDigits(kind) + [0x3b]
           == [0x1b, 0x5d, 0x31, if kind.Foreground? then 0x30 else 0x31, 0x3b];
  }

  lemma PrintedByte(b: byte)
    ensures TwoHexDigits(b) == HexText(b)
  {
    PrintedDigit(b / 16);
    PrintedDigit(b % 16);
  }

  lemma PrintedDigit(v: nat)
    requires v < 16
    ensures HexDigit(v) == LOWER_HEX[v]
  {}

  // ----- What a token changes in the framer -----

  /** A token that arrives at once comes out at once. A colour reply leaves one awaited reply less,
      a scheme report under tracking leaves two awaited, and any token ends the hold on a lone ESC. */
  lemma TokenArrives(s: Framer, token: bytes, event: RawInputEvent, key: KeyParser)
    requires IsIdle(s) && s.buffer == [] && IsToken(token, event, key)
    ensures var o := Push(s, token, key);
            var t := s.(heldPendingColorEsc := false);
            && o.chunks == [token]
            && o.framer ==
               if event.HostDefaultColor? && s.hostColorRepliesAwaited > 0
               then t.(hostColorRepliesAwaited := s.hostColorRepliesAwaited - 1)
               else if event.HostColorSchemeChanged? && s.hostColorSchemeChangeTracking
               then t.(hostColorRepliesAwaited := 2)
               else t
  {
    hide IsToken;
    hide DrainTurn;
    var fed := Feed(s, token);
    assert fed.buffer == token + [];
    TokenTurn(fed, token, event, [], key);
    var done := NoteEvent(fed, event).(buffer := []);
    TextAndPaste.EmptyStops(done, key);
    LastTurn(done, done, key);
    assert [token] + [] == [token];
  }

  /** Sending a query awaits two replies and ends the hold; tracking is remembered. */
  lemma QueriesAreNoted(s: Framer, key: KeyParser)
    ensures Run(s, [QuerySent, TrackScheme], key) ==
            Outcome([], s.(hostColorRepliesAwaited := 2, heldPendingColorEsc := false,
                           hostColorSchemeChangeTracking := true))
  {
    assert [QuerySent, TrackScheme][1..] == [TrackScheme] && [TrackScheme][1..] == [];
    assert Run(HostColorQuerySent(s), [TrackScheme], key) == Outcome([], EnableTracking(HostColorQuerySent(s)));
  }

  // ----- What is never read -----

  /** A sequence that is not text, a character the parser does not know, and a paste that is not text
      are no events, and keep what follows them waiting. */
  lemma UnreadableWaits(p: bytes, f: byte, c: bytes, payload: bytes, rest: bytes, key: KeyParser)
    ensures HasNoFinal(p) && 0x40 <= f <= 0x7e && !StartsWith(p, 0x3c) && !IsUtf8(Csi(p + [f])) ==>
              ExtractOneEvent(Csi(p + [f]) + rest, key) == None
    ensures IsChar(c) && c != [0x1b] && key(c) == None ==> ExtractOneEvent(c + rest, key) == None
    ensures FindSubsequence(payload, PASTE_END) == None && !IsUtf8(payload) ==>
              ExtractOneEvent(TextAndPaste.PasteBytes(payload) + rest, key) == None
  {
    if HasNoFinal(p) && 0x40 <= f <= 0x7e && !StartsWith(p, 0x3c) && !IsUtf8(Csi(p + [f])) {
      BrokenSequenceWaits(p, f, rest, key);
    }
    if IsChar(c) && c != [0x1b] && key(c) == None {
      UnknownCharWaits(c, rest, key);
    }
    if FindSubsequence(payload, PASTE_END) == None && !IsUtf8(payload) {
      BrokenPasteWaits(payload, rest, key);
    }
  }

  lemma BrokenSequenceWaits(p: bytes, f: byte, rest: bytes, key: KeyParser)
    requires HasNoFinal(p) && 0x40 <= f <= 0x7e && !StartsWith(p, 0x3c) && !IsUtf8(Csi(p + [f]))
    ensures ExtractOneEvent(Csi(p + [f]) + rest, key) == None
  {
    var s := Csi(p + [f]);
    var b := s + rest;
    CsiEnds(p, f, rest);
    assert b[..|s|] == s;
    hide CompleteEscapeSequenceLen;
    assert !(PASTE_START <= b) by {
      BrokenIsNoPaste(p, f, rest);
    }
    hide IsUtf8;
  }

  lemma BrokenIsNoPaste(p: bytes, f: byte, rest: bytes)
    requires HasNoFinal(p) && !IsUtf8(Csi(p + [f]))
    ensures !(PASTE_START <= Csi(p + [f]) + rest)
  {
    var s := Csi(p + [f]);
    var b := s + rest;
    var n := if |s| < 6 then |s| else 6;
    assert |b| > 5 ==> b[5] == (p + [f] + rest)[3];
    assert PASTE_START <= b ==> s[..n] == PASTE_START[..n];
    AsciiIsUtf8(PASTE_START[..n]);
    hide IsUtf8;
    assert |s| == n ==> s[..n] == s;
    assert PASTE_START[5] == 0x7e;
  }

  lemma UnknownCharWaits(c: bytes, rest: bytes, key: KeyParser)
    requires IsChar(c) && c != [0x1b] && key(c) == None
    ensures ExtractOneEvent(c + rest, key) == None
  {
    var b := c + rest;
    CharFound(c, rest);
    assert b[..|c|] == c && b[0] == c[0];
    assert c[0] == 0x1b ==> c == [0x1b];
    assert PASTE_START[0] == 0x1b;
    hide FirstCompleteCharLen;
    hide CompleteEscapeSequenceLen;
  }

  lemma BrokenPasteWaits(payload: bytes, rest: bytes, key: KeyParser)
    requires FindSubsequence(payload, PASTE_END) == None && !IsUtf8(payload)
    ensures ExtractOneEvent(TextAndPaste.PasteBytes(payload) + rest, key) == None
  {
    var all := TextAndPaste.PasteBytes(payload);
    TextAndPaste.PasteEndIsFirst(payload);
    FindSubsequenceExtend(all, PASTE_END, rest);
    var b := all + rest;
    assert b[..6] == all[..6] == PASTE_START;
    assert b[6..6 + |payload|] == payload;
    hide IsUtf8;
  }
}

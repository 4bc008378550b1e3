/** Default-colour control sequences: the printer, the reply parser, and their agreement. */
module TerminalTheme {
  import opened Options
  import opened Bytes
  import opened Utf8

  datatype RgbColor = RgbColor(r: byte, g: byte, b: byte)
  datatype DefaultColorKind = Foreground | Background
  datatype DefaultColor = DefaultColor(kind: DefaultColorKind, color: RgbColor)

  const BEL: byte := 0x07
  const SEMICOLON: byte := 0x3b
  const SLASH: byte := 0x2f
  const OSC: bytes := [ESC, 0x5d]        // ESC ]
  const ST: bytes := [ESC, 0x5c]         // ESC \
  const RGB_PREFIX: bytes := [0x72, 0x67, 0x62, 0x3a]  // rgb:
  const HASH: byte := 0x23

  function CommandDigits(kind: DefaultColorKind): bytes {
    match kind
    case Foreground => [0x31, 0x30]
    case Background => [0x31, 0x31]
  }

  // ----- Parsing -----

  predicate IsHexDigit(b: byte) {
    IsDigit(b) || 0x41 <= b <= 0x46 || 0x61 <= b <= 0x66
  }

  function HexDigitValue(b: byte): (v: nat)
    requires IsHexDigit(b)
    ensures v < 16
  {
    if IsDigit(b) then b - 0x30 else if b <= 0x46 then b - 0x37 else b - 0x57
  }

  predicate IsHex(s: bytes) {
    forall i :: 0 <= i < |s| ==> IsHexDigit(s[i])
  }

  function MaxOfDigits(n: nat): nat {
    if n == 0 then 0 else MaxOfDigits(n - 1) * 16 + 15
  }

  function HexValue(s: bytes): (v: nat)
    requires IsHex(s)
    ensures v <= MaxOfDigits(|s|)
  {
    if s == [] then 0
    else HexValue(s[..|s| - 1]) * 16 + HexDigitValue(s[|s| - 1])
  }

  function ScaleToByte(value: nat, max: nat): (b: byte)
    requires value <= max && 0 < max
  {
    ScaledInRange(value, max);
    (value * 255 + max / 2) / max
  }

  function ParseHexComponent(component: bytes): Option<byte> {
    if component == [] || |component| > 4 || !IsHex(component) then None
    else
      assert MaxOfDigits(|component|) > 0;
      Some(ScaleToByte(HexValue(component), MaxOfDigits(|component|)))
  }

  function ParseComponents(r: bytes, g: bytes, b: bytes): Option<RgbColor> {
    match (ParseHexComponent(r), ParseHexComponent(g), ParseHexComponent(b))
    case (Some(r), Some(g), Some(b)) => Some(RgbColor(r, g, b))
    case _ => None
  }

  /** A parse yields a value or nothing, or it stops the program. */
  datatype Parse<+T> = Value(value: T) | Nothing | Stops

  function FromOption<T>(o: Option<T>): Parse<T> {
    match o
    case Some(v) => Value(v)
    case None => Nothing
  }

  /** Text can be cut here: not inside a character. */
  predicate IsBoundary(s: bytes, i: int)
    requires 0 <= i <= |s|
  {
    i == 0 || i == |s| || !IsTail(s[i])
  }

  /** Reading a component off a slice of text; a cut inside a character stops the program. */
  function ParseSlice(s: bytes, from: nat, to: nat): Parse<byte>
    requires from <= to <= |s|
  {
    if !IsBoundary(s, from) || !IsBoundary(s, to) then Stops else FromOption(ParseHexComponent(s[from..to]))
  }

  function ParseHashColor(hex: bytes): Parse<RgbColor> {
    var digits := |hex| / 3;
    if !(1 <= digits <= 4) || |hex| != digits * 3 then Nothing
    else
      match ParseSlice(hex, 0, digits)
      case Nothing => Nothing
      case Stops => Stops
      case Value(r) =>
        match ParseSlice(hex, digits, digits * 2)
        case Nothing => Nothing
        case Stops => Stops
        case Value(g) =>
          match ParseSlice(hex, digits * 2, |hex|)
          case Nothing => Nothing
          case Stops => Stops
          case Value(b) => Value(RgbColor(r, g, b))
  }

  function ParseRgbColor(value: bytes): Parse<RgbColor> {
    if RGB_PREFIX <= value then
      var parts := SplitOn(value[4..], SLASH);
      if |parts| == 3 then FromOption(ParseComponents(parts[0], parts[1], parts[2])) else Nothing
    else if [HASH] <= value then ParseHashColor(value[1..])
    else Nothing
  }

  predicate EndsWith(s: bytes, suffix: bytes) {
    |suffix| <= |s| && s[|s| - |suffix|..] == suffix
  }

  function ParseDefaultColorResponse(sequence: bytes): Parse<DefaultColor> {
    if !(OSC <= sequence) then Nothing
    else
      var rest := sequence[2..];
      if !EndsWith(rest, ST) && !EndsWith(rest, [BEL]) then Nothing
      else
        var body := if EndsWith(rest, ST) then rest[..|rest| - 2] else rest[..|rest| - 1];
        var at := FirstWhere(body, b => b == SEMICOLON);
        if at.None? then Nothing
        else
          var command := body[..at.value];
          var value := body[at.value + 1..];
          if command != CommandDigits(Foreground) && command != CommandDigits(Background) then Nothing
          else
            var kind := if command == CommandDigits(Foreground) then Foreground else Background;
            match ParseRgbColor(value)
            case Nothing => Nothing
            case Stops => Stops
            case Value(color) => Value(DefaultColor(kind, color))
  }

  // ----- Printing -----

  function HexDigit(v: nat): (b: byte)
    requires v < 16
    ensures IsHexDigit(b) && HexDigitValue(b) == v
  {
    if v < 10 then 0x30 + v else 0x57 + v
  }

  function TwoHexDigits(b: byte): (s: bytes)
    ensures IsHex(s) && |s| == 2
  {
    [HexDigit(b / 16), HexDigit(b % 16)]
  }

  function Slashed(r: bytes, g: bytes, b: bytes): bytes {
    r + [SLASH] + (g + [SLASH] + b)
  }

  function RgbText(color: RgbColor): bytes {
    RGB_PREFIX + Slashed(TwoHexDigits(color.r), TwoHexDigits(color.g), TwoHexDigits(color.b))
  }

  function OscSetDefaultColorSequence(kind: DefaultColorKind, color: RgbColor): bytes {
    OSC + CommandDigits(kind) + [SEMICOLON] + RgbText(color) + ST
  }

  // ----- Scaling is rounding to the nearest byte -----

  lemma MulOrder(a: int, b: int, m: nat)
    requires a < b
    ensures a * m + m <= b * m
  {
    assert (a + 1) * m <= b * m;
  }

  /** The quotient is in range because the numerator lies between 0 and 256 times the maximum. */
  lemma ScaledInRange(value: nat, max: nat)
    requires value <= max && 0 < max
    ensures 0 <= (value * 255 + max / 2) / max < 256
  {
    var n := value * 255 + max / 2;
    var q := n / max;
    assert n == max * q + n % max;
    if q >= 256 {
      MulOrder(255, q, max);
      assert false;
    } else if q < 0 {
      MulOrder(q, 0, max);
      assert false;
    }
  }

  function Abs(x: int): nat {
    if x < 0 then -x else x
  }

  /** How far byte `b` on the scale 0..255 lies from `value` on the scale 0..max. */
  function ScaleError(value: nat, max: nat, b: int): nat {
    Abs(value * 255 - b * max)
  }

  /** No byte is nearer than the reported one, and for odd maxima no other is as near. */
  lemma ScaleIsNearest(value: nat, max: nat, other: byte)
    requires value <= max && max % 2 == 1
    requires other != ScaleToByte(value, max)
    ensures ScaleError(value, max, ScaleToByte(value, max)) < ScaleError(value, max, other)
  {
    var b: int := ScaleToByte(value, max);
    var n := value * 255 + max / 2;
    assert n == max * b + n % max;
    var error := value * 255 - b * max;
    assert -(max / 2) <= error <= max / 2;
    if other < b {
      MulOrder(other, b, max);
    } else {
      MulOrder(b, other, max);
    }
  }

  lemma DigitMaxima()
    ensures MaxOfDigits(1) == 15 && MaxOfDigits(2) == 255 && MaxOfDigits(3) == 4095 && MaxOfDigits(4) == 65535
  {
    assert MaxOfDigits(0) == 0;
    assert MaxOfDigits(2) == 255;
    assert MaxOfDigits(3) == 4095;
  }

  lemma DivMonotone(m: nat, n: nat, max: nat)
    requires m <= n && 0 < max
    ensures m / max <= n / max
  {
    var a, b := m / max, n / max;
    assert m == max * a + m % max && n == max * b + n % max;
    if a > b {
      MulOrder(b, a, max);
      assert false;
    }
  }

  lemma ScaleMonotone(v: nat, w: nat, max: nat)
    requires v <= w <= max && 0 < max
    ensures ScaleToByte(v, max) <= ScaleToByte(w, max)
  {
    DivMonotone(v * 255 + max / 2, w * 255 + max / 2, max);
  }

  lemma ScaleKeepsEnds(max: nat)
    requires 1 < max
    ensures ScaleToByte(0, max) == 0 && ScaleToByte(max, max) == 255
  {
    var n := max * 255 + max / 2;
    var b: int := ScaleToByte(max, max);
    assert n == max * b + n % max;
    if b < 255 {
      MulOrder(b, 255, max);
      assert false;
    }
  }

  /** Every accepted component, 1 to 4 hex digits long, becomes the one nearest byte,
      and the ends of the scale are kept. */
  lemma HexComponentIsNearestByte(component: bytes, other: byte)
    requires 1 <= |component| <= 4 && IsHex(component)
    ensures ParseHexComponent(component).Some?
    ensures var b := ParseHexComponent(component).value;
            var value, max := HexValue(component), MaxOfDigits(|component|);
            && (other != b ==> ScaleError(value, max, b) < ScaleError(value, max, other))
            && (value == 0 ==> b == 0)
            && (value == max ==> b == 255)
  {
    OddMaximum(|component|);
    ComponentIsScaled(component);
    hide *;
    var value, max := HexValue(component), MaxOfDigits(|component|);
    ScaleKeepsEnds(max);
    if other != ScaleToByte(value, max) {
      ScaleIsNearest(value, max, other);
    }
  }

  lemma OddMaximum(n: nat)
    requires 1 <= n <= 4
    ensures MaxOfDigits(n) % 2 == 1 && 1 < MaxOfDigits(n)
  {
    DigitMaxima();
  }

  lemma ComponentIsScaled(component: bytes)
    requires 1 <= |component| <= 4 && IsHex(component)
    requires 0 < MaxOfDigits(|component|)
    ensures ParseHexComponent(component) == Some(ScaleToByte(HexValue(component), MaxOfDigits(|component|)))
  {
    hide ScaleToByte;
  }

  lemma HexComponentMonotone(a: bytes, b: bytes)
    requires 1 <= |a| == |b| <= 4 && IsHex(a) && IsHex(b)
    requires HexValue(a) <= HexValue(b)
    ensures ParseHexComponent(a).Some? && ParseHexComponent(b).Some?
    ensures ParseHexComponent(a).value <= ParseHexComponent(b).value
  {
    DigitMaxima();
    ScaleMonotone(HexValue(a), HexValue(b), MaxOfDigits(|a|));
  }

  // ----- Round trips -----

  lemma HexValueAppend(s: bytes, digit: byte)
    requires IsHex(s) && IsHexDigit(digit)
    ensures IsHex(s + [digit]) && HexValue(s + [digit]) == HexValue(s) * 16 + HexDigitValue(digit)
  {
    assert (s + [digit])[..|s|] == s;
  }

  lemma HexValueAppendByte(s: bytes, b: byte)
    requires IsHex(s)
    ensures IsHex(s + TwoHexDigits(b)) && HexValue(s + TwoHexDigits(b)) == HexValue(s) * 256 + b
  {
    var hi, lo := HexDigit(b / 16), HexDigit(b % 16);
    HexValueAppend(s, hi);
    HexValueAppend(s + [hi], lo);
    assert s + [hi] + [lo] == s + TwoHexDigits(b);
  }

  lemma TwoHexDigitsParse(b: byte)
    ensures ParseHexComponent(TwoHexDigits(b)) == Some(b)
  {
    HexValueAppendByte([], b);
    assert [] + TwoHexDigits(b) == TwoHexDigits(b);
    DigitMaxima();
  }

  lemma EmptyHex()
    ensures IsHex([]) && HexValue([]) == 0
  {}

  /** Terminals answer with 16-bit components; a byte written twice reads back as that byte. */
  lemma RepeatedDigitsParse(b: byte)
    ensures ParseHexComponent(TwoHexDigits(b) + TwoHexDigits(b)) == Some(b)
  {
    EmptyHex();
    HexValueAppendByte([], b);
    assert [] + TwoHexDigits(b) == TwoHexDigits(b);
    HexValueAppendByte(TwoHexDigits(b), b);
    DigitMaxima();
    hide *;
    var s := TwoHexDigits(b) + TwoHexDigits(b);
    ComponentIsScaled(s);
    RepeatedScales(b);
  }

  lemma RepeatedScales(b: byte)
    ensures ScaleToByte(b * 256 + b, 65535) == b
  {
    var n := (b * 256 + b) * 255 + 32767;
    assert n == 65535 * b + 32767;
  }

  lemma RgbTextParses(color: RgbColor)
    ensures ParseRgbColor(RgbText(color)) == Value(color)
  {
    var r, g, b := TwoHexDigits(color.r), TwoHexDigits(color.g), TwoHexDigits(color.b);
    TwoHexDigitsParse(color.r);
    TwoHexDigitsParse(color.g);
    TwoHexDigitsParse(color.b);
    HexHasNoSlash(r);
    HexHasNoSlash(g);
    HexHasNoSlash(b);
    SlashedSplits(r, g, b);
    hide TwoHexDigits;
    hide ParseHexComponent;
    hide SplitOn;
    hide Slashed;
    assert (RGB_PREFIX + Slashed(r, g, b))[4..] == Slashed(r, g, b);
  }

  lemma HexHasNoSlash(s: bytes)
    requires IsHex(s)
    ensures SLASH !in s
  {}

  lemma SlashedSplits(r: bytes, g: bytes, b: bytes)
    requires SLASH !in r && SLASH !in g && SLASH !in b
    ensures SplitOn(Slashed(r, g, b), SLASH) == [r, g, b]
  {
    hide SplitOn;
    SplitAtSeparator(r, SLASH, g + [SLASH] + b);
    SplitAtSeparator(g, SLASH, b);
    SplitAtSeparator(b, SLASH, []);
  }

  lemma ThirdsOf(r: bytes, g: bytes, b: bytes)
    requires |r| == |g| == |b| == 2
    ensures var hex := r + g + b;
            && |hex| == 6 && hex[0..2] == r && hex[2..4] == g && hex[4..6] == b
            && hex[2] == g[0] && hex[4] == b[0]
  {}

  /** The short form with a hash names the same colour. */
  lemma HashTextParses(color: RgbColor)
    ensures ParseRgbColor([HASH] + TwoHexDigits(color.r) + TwoHexDigits(color.g) + TwoHexDigits(color.b))
            == Value(color)
  {
    var r, g, b := TwoHexDigits(color.r), TwoHexDigits(color.g), TwoHexDigits(color.b);
    TwoHexDigitsParse(color.r);
    TwoHexDigitsParse(color.g);
    TwoHexDigitsParse(color.b);
    ThirdsOf(r, g, b);
    HexIsNoTail(g);
    HexIsNoTail(b);
    HashUnfolds(r + g + b);
    assert [HASH] + r + g + b == [HASH] + (r + g + b);
    HashThirdsParse(r + g + b, color);
  }

  lemma HexIsNoTail(s: bytes)
    requires IsHex(s) && s != []
    ensures !IsTail(s[0])
  {}

  lemma HashUnfolds(hex: bytes)
    ensures ParseRgbColor([HASH] + hex) == ParseHashColor(hex)
  {
    hide ParseHashColor;
    hide SplitOn;
    var text := [HASH] + hex;
    assert text[..1] == [HASH] && text[1..] == hex && text[0] != RGB_PREFIX[0];
  }

  lemma HashThirdsParse(hex: bytes, color: RgbColor)
    requires |hex| == 6 && !IsTail(hex[2]) && !IsTail(hex[4])
    requires ParseHexComponent(hex[0..2]) == Some(color.r) && ParseHexComponent(hex[2..4]) == Some(color.g)
    requires ParseHexComponent(hex[4..6]) == Some(color.b)
    ensures ParseHashColor(hex) == Value(color)
  {
    hide ParseHexComponent;
  }

  lemma SetDefaultColorRoundTrip(kind: DefaultColorKind, color: RgbColor)
    ensures ParseDefaultColorResponse(OscSetDefaultColorSequence(kind, color)) == Value(DefaultColor(kind, color))
  {
    hide ParseRgbColor;
    hide TwoHexDigits;
    var sequence := OscSetDefaultColorSequence(kind, color);
    var rest := sequence[2..];
    var body := CommandDigits(kind) + [SEMICOLON] + RgbText(color);
    assert sequence[..2] == OSC;
    assert rest == body + ST;
    assert EndsWith(rest, ST) && rest[..|rest| - 2] == body;
    FirstWhereIs(body, b => b == SEMICOLON, 2);
    assert body[..2] == CommandDigits(kind) && body[3..] == RgbText(color);
    RgbTextParses(color);
  }

  // ----- Replies that stop the program -----

  /** Reading a colour stops the program exactly on hash values of a fitting length whose text is
      cut inside a character: behind the first third, or behind the second when the first is a
      component. */
  lemma ParsingStopsExactly(value: bytes)
    ensures ParseRgbColor(value).Stops?
            <==> && [HASH] <= value
                 && |value| - 1 in {3, 6, 9, 12}
                 && var hex, digits := value[1..], (|value| - 1) / 3;
                    || IsTail(hex[digits])
                    || (ParseHexComponent(hex[..digits]).Some? && IsTail(hex[digits * 2]))
  {
    hide SplitOn;
    if [HASH] <= value && |value| - 1 in {3, 6, 9, 12} {
      var hex, digits := value[1..], (|value| - 1) / 3;
      assert !(RGB_PREFIX <= value) by {
        assert value[0] == HASH;
      }
      assert hex[0..digits] == hex[..digits];
    }
  }

  /** ESC ] 10 ; # a é ST: the second third of the value ends inside its second character. */
  const STOPPING_REPLY: bytes := OSC + [0x31, 0x30, SEMICOLON] + [HASH, 0x61, 0xc3, 0xa9] + ST

  lemma StoppingReplyStops()
    ensures ParseDefaultColorResponse(STOPPING_REPLY).Stops?
  {
    var body: bytes := [0x31, 0x30, SEMICOLON, HASH, 0x61, 0xc3, 0xa9];
    var value: bytes := [HASH, 0x61, 0xc3, 0xa9];
    assert STOPPING_REPLY[..2] == OSC && STOPPING_REPLY[2..] == body + ST;
    assert EndsWith(body + ST, ST) && (body + ST)[..|body|] == body;
    FirstWhereIs(body, b => b == SEMICOLON, 2);
    assert body[..2] == CommandDigits(Foreground) && body[3..] == value;
    ParsingStopsExactly(value);
    assert value[1..][1] == 0xc3 && value[1..][2] == 0xa9;
  }
}

/** An upload command on the wire: a terminal that reads its bytes has the picture's format, size and
    id, and its data. */
module KittyUploads {
  import opened Options
  import opened Bytes
  import opened SgrMouse
  import opened HostPlacements
  import opened KittyCache
  import KittyData
  import KittyWire

  // ----- Writing -----

  /** a=t,t=d,f=..,s=..,v=..,i=..,q=2 */
  function UploadControl(formatCode: u32, width: u32, height: u32, id: u32): bytes {
    [0x61, 0x3d, 0x74] + [0x2c] + ([0x74, 0x3d, 0x64] + [0x2c] + (
      ([0x66, 0x3d] + Decimal(formatCode)) + [0x2c] + (
        ([0x73, 0x3d] + Decimal(width)) + [0x2c] + (
          ([0x76, 0x3d] + Decimal(height)) + [0x2c] + (
            ([0x69, 0x3d] + Decimal(id)) + [0x2c] + [0x71, 0x3d, 0x32])))))
  }

  /** The bytes of an upload command. */
  function UploadBytes(id: u32, signature: ImageSignature, data: bytes): bytes {
    var control := UploadControl(signature.formatCode, signature.width, signature.height, id);
    KittyWire.Wire(KittyData.ChunksFrom(control, KittyData.Slices(data), 0), true)
  }

  /** Appends the upload of a placement's picture, unless it brought no data. */
  method EncodeUploadImage(out: bytes, p: HostPlacement, formatCode: u32, hostId: u32)
    returns (out': bytes, uploaded: bool)
    requires formatCode == FormatCode(p.placement.format)
    ensures uploaded == (p.placement.data != [])
    ensures out' == if uploaded then out + UploadBytes(hostId, SignatureOf(p), p.placement.data) else out
  {
    if p.placement.data == [] {
      return out, false;
    }
    var control := UploadControl(formatCode, p.placement.imageWidth, p.placement.imageHeight, hostId);
    hide UploadControl;
    out' := KittyWire.EncodeKittyData(out, control, p.placement.data);
    uploaded := true;
  }

  // ----- Reading -----

  /** The value of the first key=value pair, between commas, with this key. */
  function ValueIn(pairs: seq<bytes>, key: byte): Option<bytes> {
    if pairs == [] then None
    else if [key, 0x3d] <= pairs[0] then Some(pairs[0][2..])
    else ValueIn(pairs[1..], key)
  }

  function ValueOf(control: bytes, key: byte): Option<bytes> {
    ValueIn(SplitOn(control, 0x2c), key)
  }

  function NumberOf(control: bytes, key: byte): Option<nat> {
    match ValueOf(control, key)
    case Some(text) => ParseUnsigned(text, 0xFFFF_FFFF)
    case None => None
  }

  // ----- The round trip -----

  lemma {:induction false} DecimalBytes(n: nat)
    ensures forall b :: b in Decimal(n) ==> 0x30 <= b <= 0x39
    decreases n
  {
    if n >= 10 {
      DecimalBytes(n / 10);
    }
  }

  /** One pair in front of the others. */
  lemma PairSplits(pair: bytes, rest: bytes)
    requires 0x2c !in pair
    ensures SplitOn(pair + [0x2c] + rest, 0x2c) == [pair] + SplitOn(rest, 0x2c)
    ensures SplitOn(pair, 0x2c) == [pair]
  {
    SplitAtSeparator(pair, 0x2c, rest);
  }

  lemma NumberPair(key: byte, n: nat)
    requires key != 0x2c
    ensures 0x2c !in [key, 0x3d] + Decimal(n)
  {
    DecimalBytes(n);
    hide Decimal;
  }

  lemma ControlPairs(formatCode: u32, width: u32, height: u32, id: u32)
    ensures SplitOn(UploadControl(formatCode, width, height, id), 0x2c) ==
            [[0x61, 0x3d, 0x74], [0x74, 0x3d, 0x64], [0x66, 0x3d] + Decimal(formatCode), [0x73, 0x3d] + Decimal(width),
             [0x76, 0x3d] + Decimal(height), [0x69, 0x3d] + Decimal(id), [0x71, 0x3d, 0x32]]
  {
    hide SplitOn;
    hide Decimal;
    NumberPair(0x66, formatCode);
    NumberPair(0x73, width);
    NumberPair(0x76, height);
    NumberPair(0x69, id);
    var i: bytes, v: bytes := [0x69, 0x3d] + Decimal(id), [0x76, 0x3d] + Decimal(height);
    var s: bytes, f: bytes := [0x73, 0x3d] + Decimal(width), [0x66, 0x3d] + Decimal(formatCode);
    var quiet: bytes := [0x71, 0x3d, 0x32];
    PairSplits(quiet, []);
    PairSplits(i, quiet);
    var tail := i + [0x2c] + quiet;
    PairSplits(v, tail);
    PairSplits(s, v + [0x2c] + tail);
    PairSplits(f, s + [0x2c] + (v + [0x2c] + tail));
    PairSplits([0x74, 0x3d, 0x64], f + [0x2c] + (s + [0x2c] + (v + [0x2c] + tail)));
    PairSplits([0x61, 0x3d, 0x74], [0x74, 0x3d, 0x64] + [0x2c] + (f + [0x2c] + (s + [0x2c] + (v + [0x2c] + tail))));
  }

  lemma NextPair(pairs: seq<bytes>, key: byte)
    requires pairs != [] && |pairs[0]| >= 2 && pairs[0][0] != key
    ensures ValueIn(pairs, key) == ValueIn(pairs[1..], key)
  {}

  lemma ThisPair(pairs: seq<bytes>, key: byte, value: bytes)
    requires pairs != [] && pairs[0] == [key, 0x3d] + value
    ensures ValueIn(pairs, key) == Some(value)
  {}

  /** The `k`-th pair, when no earlier one has its key. */
  lemma {:induction false} PairFound(pairs: seq<bytes>, k: nat, key: byte, value: bytes)
    requires k < |pairs| && pairs[k] == [key, 0x3d] + value
    requires forall j :: 0 <= j < k ==> |pairs[j]| >= 2 && pairs[j][0] != key
    ensures ValueIn(pairs, key) == Some(value)
    decreases k
  {
    if k == 0 {
      ThisPair(pairs, key, value);
    } else {
      NextPair(pairs, key);
      PairFound(pairs[1..], k - 1, key, value);
    }
  }

  lemma ControlReads(formatCode: u32, width: u32, height: u32, id: u32)
    ensures var control := UploadControl(formatCode, width, height, id);
            && ValueOf(control, 0x61) == Some([0x74]) && ValueOf(control, 0x74) == Some([0x64])
            && ValueOf(control, 0x71) == Some([0x32])
            && NumberOf(control, 0x66) == Some(formatCode) && NumberOf(control, 0x69) == Some(id)
            && NumberOf(control, 0x73) == Some(width) && NumberOf(control, 0x76) == Some(height)
  {
    hide SplitOn;
    hide Decimal;
    hide ParseUnsigned;
    hide UploadControl;
    ControlPairs(formatCode, width, height, id);
    DecimalParses(formatCode, 0xFFFF_FFFF);
    DecimalParses(width, 0xFFFF_FFFF);
    DecimalParses(height, 0xFFFF_FFFF);
    DecimalParses(id, 0xFFFF_FFFF);
    var pairs := SplitOn(UploadControl(formatCode, width, height, id), 0x2c);
    hide ValueIn;
    PairFound(pairs, 0, 0x61, [0x74]);
    PairFound(pairs, 1, 0x74, [0x64]);
    PairFound(pairs, 2, 0x66, Decimal(formatCode));
    PairFound(pairs, 3, 0x73, Decimal(width));
    PairFound(pairs, 4, 0x76, Decimal(height));
    PairFound(pairs, 5, 0x69, Decimal(id));
    PairFound(pairs, 6, 0x71, [0x32]);
  }

  lemma ControlIsKeyText(formatCode: u32, width: u32, height: u32, id: u32)
    ensures KittyWire.IsKeyText(UploadControl(formatCode, width, height, id))
  {
    DecimalBytes(formatCode);
    DecimalBytes(width);
    DecimalBytes(height);
    DecimalBytes(id);
    hide Decimal;
  }

  /** The bytes of a picture's upload, read by a terminal: a transmission of direct data in the
      picture's format and size under its id, without an answer asked for, and the very data. */
  lemma UploadReadsBack(p: HostPlacement, ids: Ids)
    requires p.placement.data != []
    ensures var read := KittyWire.ReadWire(UploadBytes(ImageId(p, ids), SignatureOf(p), p.placement.data));
            && read.Some?
            && KittyData.Receive(read.value).Some?
            && var image := KittyData.Receive(read.value).value;
               && image.data == p.placement.data
               && ValueOf(image.control, 0x61) == Some([0x74]) && ValueOf(image.control, 0x74) == Some([0x64])
               && ValueOf(image.control, 0x71) == Some([0x32])
               && NumberOf(image.control, 0x66)
                  == Some(match p.placement.format case Rgb => 24 case Rgba => 32 case Png => 100)
               && NumberOf(image.control, 0x73) == Some(p.placement.imageWidth)
               && NumberOf(image.control, 0x76) == Some(p.placement.imageHeight)
               && NumberOf(image.control, 0x69) == Some(ImageId(p, ids))
  {
    hide ValueOf;
    hide NumberOf;
    hide UploadControl;
    hide KittyWire.ReadWire;
    hide KittyWire.Wire;
    hide KittyData.Receive;
    hide KittyData.Slices;
    var sig := SignatureOf(p);
    ControlReads(sig.formatCode, sig.width, sig.height, ImageId(p, ids));
    ControlIsKeyText(sig.formatCode, sig.width, sig.height, ImageId(p, ids));
    KittyWire.WireRoundTrip(UploadControl(sig.formatCode, sig.width, sig.height, ImageId(p, ids)), p.placement.data);
  }
}

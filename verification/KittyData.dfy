/** Image data on the wire: base64 (section 4 of RFC 4648) cut into chunked graphics commands. */
module KittyData {
  import opened Options
  import opened Bytes

  const CHUNK_BYTES: nat := 3072
  const PAD: byte := 0x3d   // =

  // ----- Base64 -----

  type sextet = v: int | 0 <= v < 64

  function Symbol(v: sextet): byte {
    if v < 26 then 0x41 + v        // A-Z
    else if v < 52 then 0x61 + (v - 26)  // a-z
    else if v < 62 then 0x30 + (v - 52)  // 0-9
    else if v == 62 then 0x2b      // +
    else 0x2f                      // /
  }

  function SymbolValue(b: byte): Option<sextet> {
    if 0x41 <= b <= 0x5a then Some(b - 0x41)
    else if 0x61 <= b <= 0x7a then Some(b - 0x61 + 26)
    else if 0x30 <= b <= 0x39 then Some(b - 0x30 + 52)
    else if b == 0x2b then Some(62)
    else if b == 0x2f then Some(63)
    else None
  }

  lemma SymbolRoundTrip(v: sextet)
    ensures SymbolValue(Symbol(v)) == Some(v) && Symbol(v) != PAD
  {}

  function EncodeGroup(s: bytes): (g: bytes)
    requires 1 <= |s| <= 3
    ensures |g| == 4
  {
    var a := s[0];
    var b := if |s| > 1 then s[1] else 0;
    var c := if |s| > 2 then s[2] else 0;
    [Symbol(a / 4), Symbol(a % 4 * 16 + b / 16),
     if |s| > 1 then Symbol(b % 16 * 4 + c / 64) else PAD,
     if |s| > 2 then Symbol(c % 64) else PAD]
  }

  function Encode(data: bytes): bytes {
    if data == [] then []
    else if |data| <= 3 then EncodeGroup(data)
    else EncodeGroup(data[..3]) + Encode(data[3..])
  }

  /** Four symbols back to one, two or three bytes; padding only where it may stand, and the
      bits it leaves unused are zero. */
  function DecodeGroup(g: bytes): Option<bytes>
    requires |g| == 4
  {
    match (SymbolValue(g[0]), SymbolValue(g[1]))
    case (Some(w), Some(x)) =>
      if g[2] == PAD && g[3] == PAD then (if x % 16 == 0 then Some([w * 4 + x / 16]) else None)
      else
        (match SymbolValue(g[2])
         case None => None
         case Some(y) =>
           if g[3] == PAD then (if y % 4 == 0 then Some([w * 4 + x / 16, x % 16 * 16 + y / 4]) else None)
           else
             match SymbolValue(g[3])
             case None => None
             case Some(z) => Some([w * 4 + x / 16, x % 16 * 16 + y / 4, y % 4 * 64 + z]))
    case _ => None
  }

  function Decode(s: bytes): Option<bytes> {
    if s == [] then Some([])
    else if |s| < 4 then None
    else
      match DecodeGroup(s[..4])
      case None => None
      case Some(head) =>
        if |s| == 4 then Some(head)
        else if |head| < 3 then None
        else
          match Decode(s[4..])
          case None => None
          case Some(tail) => Some(head + tail)
  }

  /** Three bytes cut into four sextets and put together again. */
  lemma SextetsOf(a: byte, b: byte, c: byte)
    ensures var w, x, y, z := a / 4, a % 4 * 16 + b / 16, b % 16 * 4 + c / 64, c % 64;
            && w < 64 && x < 64 && y < 64
            && w * 4 + x / 16 == a && x % 16 * 16 + y / 4 == b && y % 4 * 64 + z == c
            && (b == 0 ==> x % 16 == 0) && (c == 0 ==> y % 4 == 0)
  {
    SixteenthsOf(a % 4, b / 16);
    QuartersOf(b % 16, c / 64);
  }

  lemma SixteenthsOf(hi: nat, lo: nat)
    requires lo < 16
    ensures (hi * 16 + lo) / 16 == hi && (hi * 16 + lo) % 16 == lo
  {}

  lemma QuartersOf(hi: nat, lo: nat)
    requires lo < 4
    ensures (hi * 4 + lo) / 4 == hi && (hi * 4 + lo) % 4 == lo
  {}

  /** The symbols of a group, with padding for the bytes that are missing. */
  lemma GroupSymbols(s: bytes, w: sextet, x: sextet, y: sextet, z: sextet)
    requires 1 <= |s| <= 3
    requires w * 4 + x / 16 == s[0]
    requires if |s| == 1 then x % 16 == 0 else x % 16 * 16 + y / 4 == s[1]
    requires |s| == 2 ==> y % 4 == 0
    requires |s| == 3 ==> y % 4 * 64 + z == s[2]
    ensures DecodeGroup([Symbol(w), Symbol(x), if |s| > 1 then Symbol(y) else PAD, if |s| > 2 then Symbol(z) else PAD])
            == Some(s)
  {
    SymbolRoundTrip(w);
    SymbolRoundTrip(x);
    SymbolRoundTrip(y);
    SymbolRoundTrip(z);
    hide Symbol;
    hide SymbolValue;
    if |s| == 1 {
      assert s == [s[0]];
    } else if |s| == 2 {
      assert s == [s[0], s[1]];
    } else {
      assert s == [s[0], s[1], s[2]];
    }
  }

  lemma GroupRoundTrip(s: bytes)
    requires 1 <= |s| <= 3
    ensures DecodeGroup(EncodeGroup(s)) == Some(s)
  {
    hide DecodeGroup;
    hide Symbol;
    var a: byte := s[0];
    var b: byte := if |s| > 1 then s[1] else 0;
    var c: byte := if |s| > 2 then s[2] else 0;
    SextetsOf(a, b, c);
    GroupSymbols(s, a / 4, a % 4 * 16 + b / 16, b % 16 * 4 + c / 64, c % 64);
  }

  lemma {:induction false} EncodeLength(data: bytes)
    ensures |Encode(data)| == (|data| + 2) / 3 * 4
    decreases |data|
  {
    if |data| > 3 {
      EncodeLength(data[3..]);
    }
  }

  lemma {:induction false} Base64RoundTrip(data: bytes)
    ensures Decode(Encode(data)) == Some(data)
    decreases |data|
  {
    hide EncodeGroup;
    hide DecodeGroup;
    if data == [] {
    } else if |data| <= 3 {
      GroupRoundTrip(data);
      assert Encode(data)[..4] == EncodeGroup(data);
    } else {
      GroupRoundTrip(data[..3]);
      Base64RoundTrip(data[3..]);
      var s := Encode(data);
      assert s[..4] == EncodeGroup(data[..3]) && s[4..] == Encode(data[3..]);
      EncodeLength(data[3..]);
      assert data[..3] + data[3..] == data;
    }
  }

  /** "f", "fo" and "foo" encode as in section 10 of RFC 4648: Zg==, Zm8= and Zm9v. */
  lemma TestVectors()
    ensures Encode([0x66]) == [0x5a, 0x67, 0x3d, 0x3d]
    ensures Encode([0x66, 0x6f]) == [0x5a, 0x6d, 0x38, 0x3d]
    ensures Encode([0x66, 0x6f, 0x6f]) == [0x5a, 0x6d, 0x39, 0x76]
  {}

  lemma EncodeUnfolds(data: bytes)
    requires |data| >= 3
    ensures Encode(data) == EncodeGroup(data[..3]) + Encode(data[3..])
  {
    hide EncodeGroup;
    if |data| == 3 {
      assert data[..3] == data && data[3..] == [];
      assert EncodeGroup(data) + [] == EncodeGroup(data);
    }
  }

  /** Cutting at a multiple of three bytes cuts the encoding. */
  lemma {:induction false} EncodeAppend(a: bytes, b: bytes)
    requires |a| % 3 == 0
    ensures Encode(a + b) == Encode(a) + Encode(b)
    decreases |a|
  {
    hide Encode;
    hide EncodeGroup;
    if a == [] {
      assert a + b == b;
      NothingEncoded();
    } else {
      EncodeAppend(a[3..], b);
      EncodeUnfolds(a);
      EncodeUnfolds(a + b);
      assert (a + b)[..3] == a[..3] && (a + b)[3..] == a[3..] + b;
      var head, x, y := EncodeGroup(a[..3]), Encode(a[3..]), Encode(b);
      assert head + (x + y) == (head + x) + y;
    }
  }

  lemma NothingEncoded()
    ensures Encode([]) == []
  {}

  // ----- Chunks -----

  /** One graphics command: control keys of its own (the first chunk only), the continuation
      flag and the payload. */
  datatype Chunk = Chunk(control: bytes, more: bool, payload: bytes)

  function Slices(data: bytes): (r: seq<bytes>)
    ensures data == [] <==> r == []
  {
    if data == [] then []
    else if |data| <= CHUNK_BYTES then [data]
    else [data[..CHUNK_BYTES]] + Slices(data[CHUNK_BYTES..])
  }

  /** The commands for slices `i` onward. */
  function ChunksFrom(control: bytes, slices: seq<bytes>, i: nat): seq<Chunk>
    requires i <= |slices|
    decreases |slices| - i
  {
    if i == |slices| then []
    else
      var first := Chunk(if i == 0 then control else [], i + 1 < |slices|, Encode(slices[i]));
      [first] + ChunksFrom(control, slices, i + 1)
  }

  function Payloads(chunks: seq<Chunk>): bytes {
    if chunks == [] then [] else chunks[0].payload + Payloads(chunks[1..])
  }

  lemma {:induction false} SlicesRejoin(data: bytes)
    ensures Concat(Slices(data)) == data
    ensures forall i :: 0 <= i < |Slices(data)| ==> 0 < |Slices(data)[i]| <= CHUNK_BYTES
    ensures forall i :: 0 <= i < |Slices(data)| - 1 ==> |Slices(data)[i]| == CHUNK_BYTES
    decreases |data|
  {
    if |data| > CHUNK_BYTES {
      SlicesRejoin(data[CHUNK_BYTES..]);
      assert Slices(data)[1..] == Slices(data[CHUNK_BYTES..]);
      assert data[..CHUNK_BYTES] + data[CHUNK_BYTES..] == data;
    } else if data != [] {
      assert Concat([data]) == data + Concat([]);
    }
  }

  lemma {:induction false} PayloadsFrom(control: bytes, slices: seq<bytes>, i: nat)
    requires i <= |slices|
    requires forall j :: 0 <= j < |slices| - 1 ==> |slices[j]| == CHUNK_BYTES
    ensures Payloads(ChunksFrom(control, slices, i)) == Encode(Concat(slices[i..]))
    decreases |slices| - i
  {
    if i < |slices| {
      PayloadsFrom(control, slices, i + 1);
      assert slices[i..][1..] == slices[i + 1..];
      assert ChunksFrom(control, slices, i)[1..] == ChunksFrom(control, slices, i + 1);
      if i + 1 < |slices| {
        EncodeAppend(slices[i], Concat(slices[i + 1..]));
      } else {
        assert slices[i + 1..] == [];
        assert slices[i] + [] == slices[i];
      }
    }
  }

  lemma {:induction false} ChunkAt(control: bytes, slices: seq<bytes>, i: nat, k: nat)
    requires i + k < |slices|
    ensures |ChunksFrom(control, slices, i)| == |slices| - i
    ensures ChunksFrom(control, slices, i)[k]
            == Chunk(if i + k == 0 then control else [], i + k + 1 < |slices|, Encode(slices[i + k]))
    decreases |slices| - i
  {
    if k > 0 {
      ChunkAt(control, slices, i + 1, k - 1);
    } else if i + 1 < |slices| {
      ChunkAt(control, slices, i + 1, 0);
    }
  }

  /** The payloads joined are the base64 of the whole data, each 4096 bytes long but for the last, which
      may be shorter; only the first chunk carries the control keys, and all but the last announce more. */
  lemma OneBase64Stream(control: bytes, data: bytes, k: nat)
    requires k < |Slices(data)|
    ensures var chunks := ChunksFrom(control, Slices(data), 0);
            && |chunks| == |Slices(data)|
            && Payloads(chunks) == Encode(data)
            && 0 < |chunks[k].payload| <= 4096
            && (k + 1 < |chunks| ==> |chunks[k].payload| == 4096)
            && chunks[k].control == (if k == 0 then control else [])
            && chunks[k].more == (k + 1 < |chunks|)
  {
    SlicesRejoin(data);
    assert Slices(data)[0..] == Slices(data);
    PayloadsFrom(control, Slices(data), 0);
    ChunkAt(control, Slices(data), 0, k);
    EncodeLength(Slices(data)[k]);
  }

  // ----- The receiving side -----

  datatype Image = Image(control: bytes, data: bytes)

  /** A terminal collects payloads until a chunk announces no more, then decodes them. */
  function Collect(chunks: seq<Chunk>, sofar: bytes): Option<bytes> {
    if chunks == [] then None
    else
      var all := sofar + chunks[0].payload;
      if chunks[0].more then Collect(chunks[1..], all)
      else if |chunks| == 1 then Some(all)
      else None
  }

  function Receive(chunks: seq<Chunk>): Option<Image> {
    match Collect(chunks, [])
    case None => None
    case Some(text) =>
      match Decode(text)
      case None => None
      case Some(data) => Some(Image(chunks[0].control, data))
  }

  lemma {:induction false} CollectFrom(control: bytes, slices: seq<bytes>, i: nat, sofar: bytes)
    requires i < |slices|
    ensures Collect(ChunksFrom(control, slices, i), sofar) == Some(sofar + Payloads(ChunksFrom(control, slices, i)))
    decreases |slices| - i
  {
    var chunks := ChunksFrom(control, slices, i);
    assert chunks[1..] == ChunksFrom(control, slices, i + 1);
    if i + 1 < |slices| {
      CollectFrom(control, slices, i + 1, sofar + chunks[0].payload);
      assert sofar + chunks[0].payload + Payloads(chunks[1..]) == sofar + (chunks[0].payload + Payloads(chunks[1..]));
    } else {
      assert Payloads(chunks[1..]) == [];
      assert chunks[0].payload + [] == chunks[0].payload;
    }
  }

  /** What was uploaded is what arrives. */
  lemma UploadRoundTrip(control: bytes, data: bytes)
    requires data != []
    ensures Receive(ChunksFrom(control, Slices(data), 0)) == Some(Image(control, data))
  {
    OneBase64Stream(control, data, 0);
    CollectFrom(control, Slices(data), 0, []);
    assert [] + Encode(data) == Encode(data);
    Base64RoundTrip(data);
  }
}

/** The bytes of an upload: chunks as graphics commands, written and read back. */
module KittyWire {
  import opened Options
  import opened Bytes
  import opened KittyData

  const OPEN: bytes := [ESC, 0x5f, 0x47]   // ESC _ G
  const CLOSE: bytes := [ESC, 0x5c]        // ESC \
  const MORE_KEY: bytes := [0x6d, 0x3d]    // m=
  const COMMA: byte := 0x2c
  const SEMICOLON: byte := 0x3b

  function MoreDigit(more: bool): byte {
    if more then 0x31 else 0x30
  }

  /** The keys of a command; only the first command of an upload has keys besides `m`. */
  function Keys(c: Chunk, first: bool): bytes {
    (if first then c.control + [COMMA] else []) + MORE_KEY + [MoreDigit(c.more)]
  }

  function Body(c: Chunk, first: bool): bytes {
    Keys(c, first) + [SEMICOLON] + c.payload
  }

  function WireChunk(c: Chunk, first: bool): bytes {
    OPEN + (Body(c, first) + CLOSE)
  }

  function Wire(chunks: seq<Chunk>, first: bool): bytes {
    if chunks == [] then [] else WireChunk(chunks[0], first) + Wire(chunks[1..], false)
  }

  /** ESC _ G, the keys, m=1 or m=0, the payload behind a semicolon, ESC \ . */
  lemma ChunkBytes(c: Chunk)
    ensures var end := [0x6d, 0x3d, if c.more then 0x31 else 0x30, 0x3b] + c.payload + [0x1b, 0x5c];
            && WireChunk(c, true) == [0x1b, 0x5f, 0x47] + c.control + [0x2c] + end
            && WireChunk(c, false) == [0x1b, 0x5f, 0x47] + end
  {}

  // ----- Writing -----

  function FirstSlice(data: bytes): bytes {
    if |data| < CHUNK_BYTES then data else data[..CHUNK_BYTES]
  }

  lemma SlicesStep(data: bytes)
    requires data != []
    ensures var n := |FirstSlice(data)|;
            && n <= |data| && FirstSlice(data) == data[..n]
            && Slices(data) == [data[..n]] + Slices(data[n..])
            && 0 < n
  {
    if |data| <= CHUNK_BYTES {
      assert data[..|data|] == data && data[|data|..] == [];
    }
  }

  /** The chunk loop, appending to the bytes written so far. */
  method EncodeKittyData(out: bytes, control: bytes, data: bytes) returns (out': bytes)
    ensures out' == out + Wire(ChunksFrom(control, Slices(data), 0), true)
  {
    hide Wire;
    hide WireChunk;
    hide ChunksFrom;
    hide Slices;
    hide Encode;
    hide FirstSlice;
    out' := out;
    if data == [] {
      NothingOnWire(control, [], true, 0);
      return;
    }
    ghost var slices := Slices(data);
    SlicesStep(data);
    var slice := FirstSlice(data);
    var rest := data[|slice|..];
    assert slices[1..] == Slices(rest);
    FirstOnWire(control, slices);
    ghost var all := Wire(ChunksFrom(control, slices, 0), true);
    out' := out' + WireChunk(Chunk(control, rest != [], Encode(slice)), true);
    ghost var i := 1;
    Regroup(out, WireChunk(Chunk(control, rest != [], Encode(slice)), true),
        Wire(ChunksFrom(control, slices, 1), false));
    while rest != []
      invariant 1 <= i <= |slices| && slices[i..] == Slices(rest)
      invariant out' + Wire(ChunksFrom(control, slices, i), false) == out + all
      decreases |rest|
    {
      SlicesStep(rest);
      slice := FirstSlice(rest);
      assert slices[i] == slices[i..][0] == slice;
      assert slices[i + 1..] == slices[i..][1..];
      rest := rest[|slice|..];
      assert slices[i + 1..] == Slices(rest) && (rest == [] <==> i + 1 == |slices|);
      NextOnWire(control, slices, i);
      var next := WireChunk(Chunk([], rest != [], Encode(slice)), false);
      Regroup(out', next, Wire(ChunksFrom(control, slices, i + 1), false));
      out' := out' + next;
      i := i + 1;
    }
    assert slices[i..] == [];
    NothingOnWire(control, slices, false, i);
  }

  lemma NothingOnWire(control: bytes, slices: seq<bytes>, first: bool, i: nat)
    requires i == |slices|
    ensures Wire(ChunksFrom(control, slices, i), first) == []
  {}

  lemma FirstOnWire(control: bytes, slices: seq<bytes>)
    requires slices != []
    ensures Wire(ChunksFrom(control, slices, 0), true)
            == WireChunk(Chunk(control, 1 < |slices|, Encode(slices[0])), true)
                + Wire(ChunksFrom(control, slices, 1), false)
  {
    hide WireChunk;
    assert ChunksFrom(control, slices, 0)[1..] == ChunksFrom(control, slices, 1);
  }

  lemma NextOnWire(control: bytes, slices: seq<bytes>, i: nat)
    requires 0 < i < |slices|
    ensures Wire(ChunksFrom(control, slices, i), false)
            == WireChunk(Chunk([], i + 1 < |slices|, Encode(slices[i])), false)
                + Wire(ChunksFrom(control, slices, i + 1), false)
  {
    hide WireChunk;
    assert ChunksFrom(control, slices, i)[1..] == ChunksFrom(control, slices, i + 1);
  }

  // ----- Reading -----

  /** The control keys in front of `m`, and the flag. */
  function ReadKeys(keys: bytes): Option<(bytes, bool)> {
    var n := |keys|;
    if n < 3 || keys[n - 3..n - 1] != MORE_KEY || keys[n - 1] !in {0x30, 0x31} then None
    else if n == 3 then Some(([], keys[n - 1] == 0x31))
    else if keys[n - 4] != COMMA then None
    else Some((keys[..n - 4], keys[n - 1] == 0x31))
  }

  function ReadBody(body: bytes): Option<Chunk> {
    match FirstWhere(body, b => b == SEMICOLON)
    case None => None
    case Some(at) =>
      match ReadKeys(body[..at])
      case None => None
      case Some((control, more)) => Some(Chunk(control, more, body[at + 1..]))
  }

  /** A terminal reads commands off the stream one after the other. */
  function ReadWire(s: bytes): Option<seq<Chunk>>
    decreases |s|
  {
    if s == [] then Some([])
    else if !(OPEN <= s) then None
    else
      var close := FindSubsequence(s[3..], CLOSE);
      if close.None? then None
      else
        match (ReadBody(s[3..3 + close.value]), ReadWire(s[5 + close.value..]))
        case (Some(c), Some(rest)) => Some([c] + rest)
        case _ => None
  }

  // ----- The round trip -----

  /** Keys contain neither the byte that ends them nor the one that starts an escape. */
  predicate IsKeyText(control: bytes) {
    SEMICOLON !in control && ESC !in control
  }

  predicate IsOnWire(c: Chunk, first: bool) {
    IsKeyText(c.control) && (first || c.control == []) && ESC !in c.payload
  }

  lemma KeysRead(c: Chunk, first: bool)
    requires IsOnWire(c, first)
    ensures ReadKeys(Keys(c, first)) == Some((c.control, c.more))
  {
    var keys := Keys(c, first);
    var n := |keys|;
    assert keys[n - 3..n - 1] == MORE_KEY && keys[n - 1] == MoreDigit(c.more);
    if first {
      assert keys[n - 4] == COMMA && keys[..n - 4] == c.control;
    }
  }

  lemma BodyReads(c: Chunk, first: bool)
    requires IsOnWire(c, first)
    ensures ReadBody(Body(c, first)) == Some(c) && ESC !in Body(c, first)
  {
    var keys, body := Keys(c, first), Body(c, first);
    KeysRead(c, first);
    assert SEMICOLON !in keys && ESC !in keys;
    hide Keys;
    hide ReadKeys;
    FirstWhereIs(body, b => b == SEMICOLON, |keys|);
    assert body[..|keys|] == keys && body[|keys| + 1..] == c.payload;
  }

  lemma CloseFound(body: bytes, rest: bytes)
    requires ESC !in body
    ensures FindSubsequence(body + CLOSE + rest, CLOSE) == Some(|body|)
  {
    var s := body + CLOSE + rest;
    forall i | 0 <= i < |body|
      ensures !OccursAt(s, CLOSE, i)
    {
      assert s[i] == body[i];
      assert i + 2 <= |s| ==> s[i..i + 2][0] == s[i];
    }
    assert s[|body|..|body| + 2] == CLOSE;
    FindSubsequenceIs(s, CLOSE, |body|);
  }

  predicate AreOnWire(chunks: seq<Chunk>, first: bool) {
    forall i :: 0 <= i < |chunks| ==> IsOnWire(chunks[i], first && i == 0)
  }

  /** The first command of a stream is found whole, whatever follows. */
  lemma CommandReads(body: bytes, rest: bytes, c: Chunk)
    requires ESC !in body && ReadBody(body) == Some(c)
    ensures ReadWire(OPEN + (body + CLOSE) + rest)
            == match ReadWire(rest) { case Some(more) => Some([c] + more) case None => None }
  {
    hide ReadBody;
    hide FindSubsequence;
    var s := OPEN + (body + CLOSE) + rest;
    CloseFound(body, rest);
    assert s[..3] == OPEN && s[3..] == body + CLOSE + rest;
    assert s[3..3 + |body|] == body && s[5 + |body|..] == rest;
  }

  lemma RestOnWire(chunks: seq<Chunk>, first: bool)
    requires chunks != [] && AreOnWire(chunks, first)
    ensures IsOnWire(chunks[0], first) && AreOnWire(chunks[1..], false)
  {
    hide IsOnWire;
    assert IsOnWire(chunks[0], first && 0 == 0);
    forall i | 0 <= i < |chunks| - 1
      ensures IsOnWire(chunks[1..][i], false)
    {
      assert IsOnWire(chunks[i + 1], first && i + 1 == 0);
    }
  }

  lemma WireUnfolds(chunks: seq<Chunk>, first: bool)
    requires chunks != []
    ensures Wire(chunks, first) == OPEN + (Body(chunks[0], first) + CLOSE) + Wire(chunks[1..], false)
  {
    hide Body;
  }

  /** One command in front of a stream that reads well. */
  lemma OneMoreReads(chunks: seq<Chunk>, first: bool)
    requires chunks != [] && IsOnWire(chunks[0], first)
    requires ReadWire(Wire(chunks[1..], false)) == Some(chunks[1..])
    ensures ReadWire(Wire(chunks, first)) == Some(chunks)
  {
    hide Wire;
    hide ReadWire;
    hide Body;
    hide ReadBody;
    hide IsOnWire;
    BodyReads(chunks[0], first);
    WireUnfolds(chunks, first);
    CommandReads(Body(chunks[0], first), Wire(chunks[1..], false), chunks[0]);
    assert [chunks[0]] + chunks[1..] == chunks;
  }

  lemma NothingReads(first: bool)
    ensures ReadWire(Wire([], first)) == Some([])
  {}

  lemma {:induction false} WireReads(chunks: seq<Chunk>, first: bool)
    requires AreOnWire(chunks, first)
    ensures ReadWire(Wire(chunks, first)) == Some(chunks)
    decreases |chunks|
  {
    hide Wire;
    hide ReadWire;
    hide AreOnWire;
    hide IsOnWire;
    if chunks == [] {
      NothingReads(first);
    } else {
      RestOnWire(chunks, first);
      WireReads(chunks[1..], false);
      OneMoreReads(chunks, first);
    }
  }

  lemma {:induction false} EncodedText(data: bytes)
    ensures ESC !in Encode(data)
    decreases |data|
  {
    if 0 < |data| <= 3 {
      GroupText(data);
    } else if data != [] {
      GroupText(data[..3]);
      EncodedText(data[3..]);
    }
  }

  lemma GroupText(s: bytes)
    requires 1 <= |s| <= 3
    ensures ESC !in EncodeGroup(s)
  {}

  lemma NoKeysAreKeyText()
    ensures IsKeyText([])
  {}

  lemma ChunkCount(control: bytes, slices: seq<bytes>)
    ensures |ChunksFrom(control, slices, 0)| == |slices|
  {
    if slices != [] {
      ChunkAt(control, slices, 0, 0);
    }
  }

  lemma ChunksAreOnWire(control: bytes, data: bytes)
    requires IsKeyText(control)
    ensures AreOnWire(ChunksFrom(control, Slices(data), 0), true)
  {
    hide Encode;
    hide Slices;
    hide IsKeyText;
    var slices := Slices(data);
    var chunks := ChunksFrom(control, slices, 0);
    ChunkCount(control, slices);
    hide ChunksFrom;
    NoKeysAreKeyText();
    forall k | 0 <= k < |chunks|
      ensures IsOnWire(chunks[k], true && k == 0)
    {
      ChunkAt(control, slices, 0, k);
      EncodedText(slices[k]);
    }
  }

  /** The bytes of an upload: read off the stream, collected and decoded they are the control keys
      and the data. */
  lemma WireRoundTrip(control: bytes, data: bytes)
    requires data != [] && IsKeyText(control)
    ensures var bytes := Wire(ChunksFrom(control, Slices(data), 0), true);
            && ReadWire(bytes).Some?
            && Receive(ReadWire(bytes).value) == Some(Image(control, data))
  {
    ChunksAreOnWire(control, data);
    WireReads(ChunksFrom(control, Slices(data), 0), true);
    UploadRoundTrip(control, data);
  }
}

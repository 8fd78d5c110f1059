/**
 * The binary glTF (GLB) container: a 12-byte header (magic "glTF", version,
 * total length), a mandatory JSON chunk and an optional BIN chunk, each chunk
 * introduced by an 8-byte preamble (payload length, 4-byte tag). All 32-bit
 * fields are little-endian.
 *
 * The parser reads from an in-memory slice through a cursor that only moves
 * forward; here the slice is a byte sequence and the cursor an offset into
 * it that every reading function returns advanced.
 */
module Binary {
  import opened Bytes
  import opened Results

  /** `b"glTF"`. */
  const GLTF_MAGIC: Bytes4 := [0x67, 0x6C, 0x54, 0x46]
  /** `b"JSON"`. */
  const JSON_TAG: Bytes4 := [0x4A, 0x53, 0x4F, 0x4E]
  /** `b"BIN\0"`. */
  const BIN_TAG: Bytes4 := [0x42, 0x49, 0x4E, 0x00]
  /** `Header::size_of()`. */
  const HEADER_SIZE: nat := 12
  /** Bytes of a chunk preamble: a 4-byte length and a 4-byte tag. */
  const CHUNK_HEADER_SIZE: nat := 8

  /** GLB chunk type. */
  datatype ChunkType = Json | Bin

  /** A GLB loader error. */
  datatype Error =
    | Io                                                     // the slice ended inside a fixed-size field
    | Version(version: u32)                                  // unsupported version
    | Magic(magic: Bytes4)                                   // the file is not glTF
    | Length(length: u32, lengthRead: nat)                   // header length exceeds the slice
    | ChunkLength(ty: ChunkType, length: u32, lengthRead: nat) // chunk length exceeds the slice
    | ChunkType(unexpected: ChunkType)                       // a chunk of this type was not expected here
    | UnknownChunkType(tag: Bytes4)                          // the tag is neither JSON nor BIN

  /** The header section of a .glb file. */
  datatype Header = Header(magic: Bytes4, version: u32, length: u32)

  /** A chunk preamble, with no payload read yet. */
  datatype ChunkHeader = ChunkHeader(length: u32, ty: ChunkType)

  /** Binary glTF contents: the header, the JSON payload and the optional BIN payload. */
  datatype Glb = Glb(header: Header, json: seq<byte>, bin: Option<seq<byte>>)

  /** A value read from the slice and the cursor just past it. */
  datatype Parsed<+T> = Parsed(value: T, next: nat)

  /** The 32-bit length field of a chunk preamble starting at `p`. */
  function LengthAt(data: seq<byte>, p: nat): (r: u32)
    requires p + CHUNK_HEADER_SIZE <= |data|
  {
    U8ArrToU32(data[p..p + 4])
  }

  /** The 4-byte tag of a chunk preamble starting at `p`. */
  function TagAt(data: seq<byte>, p: nat): (r: Bytes4)
    requires p + CHUNK_HEADER_SIZE <= |data|
  {
    data[p + 4..p + 8]
  }

  /**
   * `read_exact` into a `[u8; 4]` on a slice: the next four bytes, or `Io`
   * when fewer than four are left.
   */
  function ReadExact(data: seq<byte>, pos: nat): (r: Result<Parsed<Bytes4>, Error>)
    requires pos <= |data|
    ensures r.Ok? <==> pos + 4 <= |data|
    ensures r.Ok? ==> r.value.value == data[pos..pos + 4] && r.value.next == pos + 4
    ensures r.Err? ==> r.error == Io
  {
    if pos + 4 <= |data| then Ok(Parsed(data[pos..pos + 4], pos + 4)) else Err(Io)
  }

  /**
   * `Header::from_reader`: reads magic, version and length (all three before
   * the magic is looked at) and checks only the magic.
   */
  function HeaderFromReader(data: seq<byte>, pos: nat): (r: Result<Parsed<Header>, Error>)
    requires pos <= |data|
    ensures r == Err(Io) <==> pos + HEADER_SIZE > |data|
    ensures pos + HEADER_SIZE <= |data| && data[pos..pos + 4] != GLTF_MAGIC ==>
              r == Err(Magic(data[pos..pos + 4]))
    ensures pos + HEADER_SIZE <= |data| && data[pos..pos + 4] == GLTF_MAGIC ==>
              r == Ok(Parsed(Header(GLTF_MAGIC, U8ArrToU32(data[pos + 4..pos + 8]),
                                    U8ArrToU32(data[pos + 8..pos + 12])), pos + HEADER_SIZE))
  {
    var magic :- ReadExact(data, pos);
    var version :- ReadExact(data, magic.next);
    var length :- ReadExact(data, version.next);
    if magic.value == GLTF_MAGIC then
      Ok(Parsed(Header(magic.value, U8ArrToU32(version.value), U8ArrToU32(length.value)), length.next))
    else
      Err(Magic(magic.value))
  }

  /**
   * `ChunkHeader::from_reader`: reads the length and the tag and maps the
   * tag to a chunk type; the length is not compared with the slice.
   */
  function ChunkHeaderFromReader(data: seq<byte>, pos: nat): (r: Result<Parsed<ChunkHeader>, Error>)
    requires pos <= |data|
    ensures r == Err(Io) <==> pos + CHUNK_HEADER_SIZE > |data|
    ensures pos + CHUNK_HEADER_SIZE <= |data| && TagAt(data, pos) == JSON_TAG ==>
              r == Ok(Parsed(ChunkHeader(LengthAt(data, pos), Json), pos + CHUNK_HEADER_SIZE))
    ensures pos + CHUNK_HEADER_SIZE <= |data| && TagAt(data, pos) == BIN_TAG ==>
              r == Ok(Parsed(ChunkHeader(LengthAt(data, pos), Bin), pos + CHUNK_HEADER_SIZE))
    ensures pos + CHUNK_HEADER_SIZE <= |data| && TagAt(data, pos) != JSON_TAG && TagAt(data, pos) != BIN_TAG ==>
              r == Err(UnknownChunkType(TagAt(data, pos)))
  {
    var length :- ReadExact(data, pos);
    var ty :- ReadExact(data, length.next);
    if ty.value == JSON_TAG then
      Ok(Parsed(ChunkHeader(U8ArrToU32(length.value), Json), ty.next))
    else if ty.value == BIN_TAG then
      Ok(Parsed(ChunkHeader(U8ArrToU32(length.value), Bin), ty.next))
    else
      Err(UnknownChunkType(ty.value))
  }

  /**
   * `split_binary_gltf`: one forward pass over the bytes after the header
   * that yields the JSON payload and, when any bytes are left after it, the
   * BIN payload. Bytes after the BIN payload are not looked at.
   */
  function SplitBinaryGltf(data: seq<byte>): (r: Result<(seq<byte>, Option<seq<byte>>), Error>)
    // first chunk: its preamble must be there, be tagged JSON, and its payload fit
    ensures |data| < CHUNK_HEADER_SIZE ==> r == Err(Io)
    ensures |data| >= CHUNK_HEADER_SIZE && TagAt(data, 0) != JSON_TAG && TagAt(data, 0) != BIN_TAG ==>
              r == Err(UnknownChunkType(TagAt(data, 0)))
    ensures |data| >= CHUNK_HEADER_SIZE && TagAt(data, 0) == BIN_TAG ==> r == Err(ChunkType(Bin))
    ensures |data| >= CHUNK_HEADER_SIZE && TagAt(data, 0) == JSON_TAG && LengthAt(data, 0) > |data| - 8 ==>
              r == Err(ChunkLength(Json, LengthAt(data, 0), |data| - 8))
    // on success the first chunk was a fitting JSON chunk and json is its payload
    ensures r.Ok? ==> |data| >= CHUNK_HEADER_SIZE && TagAt(data, 0) == JSON_TAG &&
                      8 + LengthAt(data, 0) <= |data| && r.value.0 == data[8..8 + LengthAt(data, 0)]
    // nothing after the JSON payload: no BIN payload, and no error
    ensures |data| >= CHUNK_HEADER_SIZE && TagAt(data, 0) == JSON_TAG && 8 + LengthAt(data, 0) == |data| ==>
              r == Ok((data[8..8 + LengthAt(data, 0)], None))
  {
    var jsonH :- ChunkHeaderFromReader(data, 0);
    if jsonH.value.ty != Json then
      Err(ChunkType(jsonH.value.ty))
    else if jsonH.value.length > |data| - jsonH.next then
      Err(ChunkLength(jsonH.value.ty, jsonH.value.length, |data| - jsonH.next))
    else
      var jsonEnd := jsonH.next + jsonH.value.length;
      var json := data[jsonH.next..jsonEnd];
      if jsonEnd == |data| then
        Ok((json, None))
      else
        var binH :- ChunkHeaderFromReader(data, jsonEnd);
        if binH.value.ty != Bin then
          Err(ChunkType(binH.value.ty))
        else if binH.value.length > |data| - binH.next then
          Err(ChunkLength(binH.value.ty, binH.value.length, |data| - binH.next))
        else
          Ok((json, Some(data[binH.next..binH.next + binH.value.length])))
  }

  /** The second chunk of `SplitBinaryGltf`, once the JSON payload ends before the slice does. */
  lemma SplitSecondChunk(data: seq<byte>)
    requires |data| >= CHUNK_HEADER_SIZE && TagAt(data, 0) == JSON_TAG && 8 + LengthAt(data, 0) < |data|
    ensures var r, e := SplitBinaryGltf(data), 8 + LengthAt(data, 0);
              && (e + 8 > |data| ==> r == Err(Io))
              && (e + 8 <= |data| && TagAt(data, e) != JSON_TAG && TagAt(data, e) != BIN_TAG ==>
                    r == Err(UnknownChunkType(TagAt(data, e))))
              && (e + 8 <= |data| && TagAt(data, e) == JSON_TAG ==> r == Err(ChunkType(Json)))
              && (e + 8 <= |data| && TagAt(data, e) == BIN_TAG && LengthAt(data, e) > |data| - e - 8 ==>
                    r == Err(ChunkLength(Bin, LengthAt(data, e), |data| - e - 8)))
              && (e + 8 <= |data| && TagAt(data, e) == BIN_TAG && LengthAt(data, e) <= |data| - e - 8 ==>
                    r == Ok((data[8..e], Some(data[e + 8..e + 8 + LengthAt(data, e)]))))
  {
  }

  /**
   * The caller's obligation for `Glb::from_slice`: once a header with the
   * right magic has been read, its length is at least the header's own 12
   * bytes (otherwise `header.length as usize - 12` underflows).
   */
  predicate NoLengthUnderflow(data: seq<byte>)
  {
    |data| < HEADER_SIZE || data[..4] != GLTF_MAGIC || U8ArrToU32(data[8..12]) >= HEADER_SIZE
  }

  /**
   * `Glb::from_slice`: reads the header, checks that the declared contents
   * length fits in what is left, then the version, then splits the rest.
   */
  function FromSlice(data: seq<byte>): (r: Result<Glb, Error>)
    requires NoLengthUnderflow(data)
    ensures |data| < HEADER_SIZE ==> r == Err(Io)
    ensures |data| >= HEADER_SIZE && data[..4] != GLTF_MAGIC ==> r == Err(Magic(data[..4]))
    ensures |data| >= HEADER_SIZE && data[..4] == GLTF_MAGIC ==>
              var version, length := U8ArrToU32(data[4..8]), U8ArrToU32(data[8..12]);
              // the length check comes first, whatever the version
              && (length > |data| ==> r == Err(Length(length - HEADER_SIZE, |data| - HEADER_SIZE)))
              // then the version gate, before any chunk is read
              && (length <= |data| && version != 2 ==> r == Err(Version(version)))
              // then the chunks, each chunk error passed on unchanged
              && (length <= |data| && version == 2 ==>
                    match SplitBinaryGltf(data[HEADER_SIZE..])
                    case Ok(payloads) => r == Ok(Glb(Header(GLTF_MAGIC, 2, length), payloads.0, payloads.1))
                    case Err(e) => r == Err(e))
    ensures r.Ok? ==> r.value.header.magic == GLTF_MAGIC && r.value.header.version == 2 &&
                      HEADER_SIZE <= r.value.header.length <= |data|
  {
    var header :- HeaderFromReader(data, 0);
    var contentsLength := header.value.length - HEADER_SIZE;
    if contentsLength > |data| - header.next then
      Err(Length(contentsLength, |data| - header.next))
    else if header.value.version == 2 then
      var payloads :- SplitBinaryGltf(data[header.next..]);
      Ok(Glb(header.value, payloads.0, payloads.1))
    else
      Err(Version(header.value.version))
  }
}

/** The GLB layout as a writer produces it, and the parser's round trip over it. */
module BinaryLayout {
  import opened Bytes
  import opened Results
  import opened Binary

  /** A chunk: its length, its tag, its payload. */
  function EncodeChunk(tag: Bytes4, payload: seq<byte>): (r: seq<byte>)
    requires |payload| < 0x1_0000_0000
    ensures |r| == CHUNK_HEADER_SIZE + |payload|
  {
    U32ToLe(|payload|) + tag + payload
  }

  /** The bytes after the header: a JSON chunk, then a BIN chunk when there is one. */
  function EncodeChunks(json: seq<byte>, bin: Option<seq<byte>>): (r: seq<byte>)
    requires |json| < 0x1_0000_0000
    requires bin.Some? ==> |bin.value| < 0x1_0000_0000
  {
    EncodeChunk(JSON_TAG, json) + if bin.Some? then EncodeChunk(BIN_TAG, bin.value) else []
  }

  /** A whole container: magic, version, declared length, then the chunks. */
  function EncodeGlb(version: u32, length: u32, json: seq<byte>, bin: Option<seq<byte>>): (r: seq<byte>)
    requires |json| < 0x1_0000_0000
    requires bin.Some? ==> |bin.value| < 0x1_0000_0000
    ensures |r| == HEADER_SIZE + |EncodeChunks(json, bin)|
    ensures r[..HEADER_SIZE] == GLTF_MAGIC + U32ToLe(version) + U32ToLe(length)
    ensures r[HEADER_SIZE..] == EncodeChunks(json, bin)
  {
    GLTF_MAGIC + U32ToLe(version) + U32ToLe(length) + EncodeChunks(json, bin)
  }

  /** The chunk preamble at `p` of a sequence that holds an encoded chunk there. */
  lemma ChunkPreambleAt(data: seq<byte>, p: nat, tag: Bytes4, payload: seq<byte>)
    requires |payload| < 0x1_0000_0000
    requires p + CHUNK_HEADER_SIZE + |payload| <= |data|
    requires data[p..p + CHUNK_HEADER_SIZE + |payload|] == EncodeChunk(tag, payload)
    ensures TagAt(data, p) == tag
    ensures LengthAt(data, p) == |payload|
    ensures data[p + CHUNK_HEADER_SIZE..p + CHUNK_HEADER_SIZE + |payload|] == payload
  {
    var c := EncodeChunk(tag, payload);
    assert c == U32ToLe(|payload|) + (tag + payload);
    assert forall i :: 0 <= i < |c| ==> data[p + i] == c[i];
    assert data[p..p + 4] == c[..4] == U32ToLe(|payload|);
    assert data[p + 4..p + 8] == c[4..8] == tag;
    assert data[p + 8..p + 8 + |payload|] == c[8..] == payload;
    DecodeEncode(|payload|);
  }

  /**
   * Splitting encoded chunks gives back the JSON payload and the BIN payload;
   * bytes after a BIN chunk are ignored.
   */
  lemma SplitRoundTrip(json: seq<byte>, bin: Option<seq<byte>>, trailing: seq<byte>)
    requires |json| < 0x1_0000_0000
    requires bin.Some? ==> |bin.value| < 0x1_0000_0000
    requires bin.None? ==> trailing == []
    ensures SplitBinaryGltf(EncodeChunks(json, bin) + trailing) == Ok((json, bin))
  {
    var data := EncodeChunks(json, bin) + trailing;
    var e := CHUNK_HEADER_SIZE + |json|;
    assert data[..e] == EncodeChunk(JSON_TAG, json);
    ChunkPreambleAt(data, 0, JSON_TAG, json);
    if bin.Some? {
      var b := bin.value;
      assert data[e..e + CHUNK_HEADER_SIZE + |b|] == EncodeChunk(BIN_TAG, b);
      ChunkPreambleAt(data, e, BIN_TAG, b);
      SplitSecondChunk(data);
    } else {
      assert data == EncodeChunk(JSON_TAG, json);
    }
  }

  /**
   * Round trip: a container with magic "glTF", version 2 and a declared
   * length between 12 and its byte count parses back into the same header
   * and byte-identical JSON and BIN payloads.
   */
  lemma FromSliceRoundTrip(length: u32, json: seq<byte>, bin: Option<seq<byte>>, trailing: seq<byte>)
    requires |json| < 0x1_0000_0000
    requires bin.Some? ==> |bin.value| < 0x1_0000_0000
    requires bin.None? ==> trailing == []
    requires HEADER_SIZE <= length <= |EncodeGlb(2, length, json, bin) + trailing|
    ensures NoLengthUnderflow(EncodeGlb(2, length, json, bin) + trailing)
    ensures FromSlice(EncodeGlb(2, length, json, bin) + trailing) == Ok(Glb(Header(GLTF_MAGIC, 2, length), json, bin))
  {
    var data := EncodeGlb(2, length, json, bin) + trailing;
    assert data[..HEADER_SIZE] == GLTF_MAGIC + U32ToLe(2) + U32ToLe(length);
    assert data[..4] == GLTF_MAGIC;
    assert data[4..8] == U32ToLe(2);
    assert data[8..12] == U32ToLe(length);
    DecodeEncode(2);
    DecodeEncode(length);
    assert data[HEADER_SIZE..] == EncodeChunks(json, bin) + trailing;
    SplitRoundTrip(json, bin, trailing);
  }
}

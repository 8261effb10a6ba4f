/** The chunk container: after the 8-byte file signature a PNG stream is a
    run of `[length][type][payload][CRC]` records (section 5.3 of the PNG
    specification, ISO/IEC 15948:2003). `read_chunks` splits a file into
    them; the CRC is skipped, never checked. */
module Chunks {
  import opened Bytes

  /** Chunk type codes: the ASCII names read as big-endian words. */
  const IHDR: U32 := 0x4948_4452
  const IDAT: U32 := 0x4944_4154
  const IEND: U32 := 0x4945_4e44

  /** Bytes of the file signature, skipped unread. */
  const SignatureLength: nat := 8

  /** A record of the container: its type code and its payload. */
  datatype Chunk = Chunk(typ: U32, data: seq<Byte>)

  /** Where `read_chunks` would panic: the length and type words of the
      record at `offset` run past the end, or its payload of `length` bytes
      does. */
  datatype ChunkError =
    | TruncatedChunkHeader(offset: nat)
    | TruncatedChunkData(offset: nat, length: U32)

  /** Bytes a record takes in the file: length, type, payload and CRC. */
  function FramedSize(chunks: seq<Chunk>): nat
  {
    if chunks == [] then 0 else 12 + |chunks[0].data| + FramedSize(chunks[1..])
  }

  /** The chunks read from `contents` with the cursor at `i`: the state of
      the loop of `read_chunks` when its cursor is `i`, run to the end. */
  function ChunksFrom(contents: seq<Byte>, i: nat): Result<seq<Chunk>, ChunkError>
    decreases |contents| - i
  {
    if i >= |contents| then Ok([])
    else if i + 8 > |contents| then Err(TruncatedChunkHeader(i))
    else
      var length := BigEndian32(contents, i);
      var typ := BigEndian32(contents, i + 4);
      if i + 8 + length > |contents| then Err(TruncatedChunkData(i, length))
      else
        match ChunksFrom(contents, i + 12 + length)
        case Ok(rest) => Ok([Chunk(typ, contents[i + 8..i + 8 + length])] + rest)
        case Err(e) => Err(e)
  }

  /** A failure names a record at or after the cursor that really is cut
      off: its length and type words run past the end of the file, or its
      payload, of the length its length word gives, does. */
  lemma {:induction false} ChunksFromErrors(contents: seq<Byte>, i: nat)
    ensures var r := ChunksFrom(contents, i);
      && (r.Err? && r.error.TruncatedChunkHeader? ==>
            i <= r.error.offset < |contents| < r.error.offset + 8)
      && (r.Err? && r.error.TruncatedChunkData? ==>
            i <= r.error.offset && r.error.offset + 8 <= |contents| < r.error.offset + 8 + r.error.length
            && r.error.length == BigEndian32(contents, r.error.offset))
    decreases |contents| - i
  {
    if i < |contents| && i + 8 <= |contents| {
      var length := BigEndian32(contents, i);
      if i + 8 + length <= |contents| {
        ChunksFromErrors(contents, i + 12 + length);
      }
    }
  }

  /** `chunks` put in front of a successful outcome; failures pass through. */
  function Prepend(chunks: seq<Chunk>, r: Result<seq<Chunk>, ChunkError>): Result<seq<Chunk>, ChunkError>
  {
    match r
    case Ok(rest) => Ok(chunks + rest)
    case Err(e) => Err(e)
  }

  lemma PrependTwice(chunks: seq<Chunk>, chunk: Chunk, r: Result<seq<Chunk>, ChunkError>)
    ensures Prepend(chunks, Prepend([chunk], r)) == Prepend(chunks + [chunk], r)
  {
    if r.Ok? {
      assert chunks + ([chunk] + r.value) == (chunks + [chunk]) + r.value;
    }
  }

  /** `read_chunks`: from offset 8 on, read a length word and a type word,
      take that many payload bytes, skip the 4-byte CRC, and repeat while
      the cursor is inside the file. An index that would panic in the
      original is reported as an error instead. */
  method ReadChunks(contents: seq<Byte>) returns (r: Result<seq<Chunk>, ChunkError>)
    ensures r == ChunksFrom(contents, SignatureLength)
  {
    var build: seq<Chunk> := [];
    var i: nat := SignatureLength;
    if ChunksFrom(contents, i).Ok? {
      assert [] + ChunksFrom(contents, i).value == ChunksFrom(contents, i).value;
    }
    while i < |contents|
      invariant ChunksFrom(contents, SignatureLength) == Prepend(build, ChunksFrom(contents, i))
      decreases |contents| - i
    {
      if i + 8 > |contents| {
        return Err(TruncatedChunkHeader(i));
      }
      var start := i;
      var chunklen, typ;
      chunklen, i := EatU32(i, contents);
      typ, i := EatU32(i, contents);
      if i + chunklen > |contents| {
        return Err(TruncatedChunkData(start, chunklen));
      }
      var bytes := contents[i..i + chunklen];
      // + 4 skips the CRC, which may lie past the end of the file
      i := i + chunklen + 4;
      ChunksFromStep(contents, start, chunklen, typ, bytes);
      PrependTwice(build, Chunk(typ, bytes), ChunksFrom(contents, i));
      build := build + [Chunk(typ, bytes)];
    }
    assert build + [] == build;
    return Ok(build);
  }

  /** What a successful read says about the file: record `k` starts
      `FramedSize(chunks[..k])` bytes after the cursor, inside the file; its
      length word is the payload size, its type word is the chunk's type and
      the payload is the bytes that follow; and the records together reach
      (or, through a cut-off last CRC, pass) the end of the file. */
  lemma {:induction false} ChunksFromLayout(contents: seq<Byte>, i: nat, chunks: seq<Chunk>, k: nat)
    requires ChunksFrom(contents, i) == Ok(chunks)
    requires k < |chunks|
    ensures i + FramedSize(chunks[..k]) + 8 + |chunks[k].data| <= |contents|
    ensures BigEndian32(contents, i + FramedSize(chunks[..k])) == |chunks[k].data|
    ensures BigEndian32(contents, i + FramedSize(chunks[..k]) + 4) == chunks[k].typ
    ensures contents[i + FramedSize(chunks[..k]) + 8..i + FramedSize(chunks[..k]) + 8 + |chunks[k].data|]
            == chunks[k].data
    decreases |contents| - i
  {
    var length := BigEndian32(contents, i);
    var next := i + 12 + length;
    if k == 0 {
      assert chunks[..0] == [];
    } else {
      var rest := chunks[1..];
      assert ChunksFrom(contents, next) == Ok(rest);
      ChunksFromLayout(contents, next, rest, k - 1);
      assert chunks[..k][1..] == rest[..k - 1];
      assert FramedSize(chunks[..k]) == 12 + length + FramedSize(rest[..k - 1]);
    }
  }

  /** The records read cover the rest of the file and no record starts
      outside it: the cursor only stops once it reaches the end. */
  lemma {:induction false} ChunksFromCoverage(contents: seq<Byte>, i: nat, chunks: seq<Chunk>)
    requires ChunksFrom(contents, i) == Ok(chunks)
    ensures i + FramedSize(chunks) >= |contents|
    ensures forall k :: 0 <= k < |chunks| ==> i + FramedSize(chunks[..k]) < |contents|
    decreases |contents| - i
  {
    if i < |contents| {
      var length := BigEndian32(contents, i);
      var next := i + 12 + length;
      var rest := chunks[1..];
      assert ChunksFrom(contents, next) == Ok(rest);
      ChunksFromCoverage(contents, next, rest);
      forall k | 0 < k < |chunks|
        ensures i + FramedSize(chunks[..k]) < |contents|
      {
        assert chunks[..k][1..] == rest[..k - 1];
      }
      assert chunks[..0] == [];
    }
  }

  /** The bytes of one record: length, type, payload and the given CRC. */
  function EncodeChunk(chunk: Chunk, crc: U32): (bytes: seq<Byte>)
    requires |chunk.data| < 0x1_0000_0000
    ensures |bytes| == 12 + |chunk.data|
  {
    U32Bytes(|chunk.data|) + U32Bytes(chunk.typ) + chunk.data + U32Bytes(crc)
  }

  /** A chunk whose payload size fits a length word. */
  type EncodableChunk = c: Chunk | |c.data| < 0x1_0000_0000 witness Chunk(0, [])

  /** A run of records, one CRC per chunk. */
  function EncodeChunks(chunks: seq<EncodableChunk>, crcs: seq<U32>): (bytes: seq<Byte>)
    requires |crcs| == |chunks|
    ensures |bytes| == FramedSize(chunks)
  {
    if chunks == [] then [] else EncodeChunk(chunks[0], crcs[0]) + EncodeChunks(chunks[1..], crcs[1..])
  }

  /** One turn of the loop: a record whose length word is `length`, whose
      type word is `typ` and whose payload fits is read as the chunk of
      `typ` and `payload`, then the rest from after its CRC. */
  lemma ChunksFromStep(contents: seq<Byte>, i: nat, length: U32, typ: U32, payload: seq<Byte>)
    requires i + 8 + length <= |contents|
    requires length == BigEndian32(contents, i) && typ == BigEndian32(contents, i + 4)
    requires payload == contents[i + 8..i + 8 + length]
    ensures ChunksFrom(contents, i) == Prepend([Chunk(typ, payload)], ChunksFrom(contents, i + 12 + length))
  {
  }

  /** One record's fields are read back from wherever its bytes are placed. */
  lemma EncodedChunkAt(contents: seq<Byte>, i: nat, chunk: Chunk, crc: U32)
    requires |chunk.data| < 0x1_0000_0000
    requires i + 12 + |chunk.data| <= |contents|
    requires contents[i..i + 12 + |chunk.data|] == EncodeChunk(chunk, crc)
    ensures BigEndian32(contents, i) == |chunk.data|
    ensures BigEndian32(contents, i + 4) == chunk.typ
    ensures contents[i + 8..i + 8 + |chunk.data|] == chunk.data
  {
    var length := |chunk.data|;
    var lengthBytes, typBytes := U32Bytes(length), U32Bytes(chunk.typ);
    var record := EncodeChunk(chunk, crc);
    assert record == lengthBytes + typBytes + chunk.data + U32Bytes(crc);
    assert record[0..4] == lengthBytes;
    assert record[4..8] == typBytes;
    assert record[8..8 + length] == chunk.data;
    SliceOfSlice(contents, i, i + 12 + length, 0, 4);
    SliceOfSlice(contents, i, i + 12 + length, 4, 8);
    SliceOfSlice(contents, i, i + 12 + length, 8, 8 + length);
    BigEndian32OfBytes(contents, i, length);
    BigEndian32OfBytes(contents, i + 4, chunk.typ);
  }

  /** A record encoded at the cursor is read as its chunk, in front of
      what comes after it. */
  lemma ChunksFromRecord(contents: seq<Byte>, i: nat, next: nat, chunk: EncodableChunk, rest: seq<Chunk>, crc: U32)
    requires next == i + 12 + |chunk.data| <= |contents|
    requires contents[i..next] == EncodeChunk(chunk, crc)
    requires ChunksFrom(contents, next) == Ok(rest)
    ensures ChunksFrom(contents, i) == Ok([chunk] + rest)
  {
    EncodedChunkAt(contents, i, chunk, crc);
  }

  /** The first record of an encoded run, and the rest after it. */
  lemma EncodeChunksSplit(contents: seq<Byte>, i: nat, chunks: seq<EncodableChunk>, crcs: seq<U32>)
    requires |crcs| == |chunks| && chunks != []
    requires i <= |contents| && contents[i..] == EncodeChunks(chunks, crcs)
    ensures i + 12 + |chunks[0].data| <= |contents|
    ensures contents[i..i + 12 + |chunks[0].data|] == EncodeChunk(chunks[0], crcs[0])
    ensures contents[i + 12 + |chunks[0].data|..] == EncodeChunks(chunks[1..], crcs[1..])
  {
    var n := 12 + |chunks[0].data|;
    var head, tail := EncodeChunk(chunks[0], crcs[0]), EncodeChunks(chunks[1..], crcs[1..]);
    assert contents[i..] == head + tail;
    SliceOfSlice(contents, i, |contents|, 0, n);
    assert contents[i + n..] == contents[i..][n..];
  }

  /** Framing round trip: records laid out by `EncodeChunks` from the cursor
      to the end of the file are read back as exactly the chunks encoded, in
      order, whatever their CRCs. */
  lemma {:induction false} ChunksFromEncoded(contents: seq<Byte>, i: nat, chunks: seq<EncodableChunk>, crcs: seq<U32>)
    requires |crcs| == |chunks|
    requires i <= |contents| && contents[i..] == EncodeChunks(chunks, crcs)
    ensures ChunksFrom(contents, i) == Ok(chunks)
    decreases |chunks|
  {
    if chunks != [] {
      var next := i + 12 + |chunks[0].data|;
      EncodeChunksSplit(contents, i, chunks, crcs);
      ChunksFromEncoded(contents, next, chunks[1..], crcs[1..]);
      ChunksFromRecord(contents, i, next, chunks[0], chunks[1..], crcs[0]);
      HeadTail(chunks);
    }
  }

  /** A whole file: an 8-byte signature followed by well-formed records
      reads back as those records. */
  lemma ReadChunksOfFile(signature: seq<Byte>, chunks: seq<EncodableChunk>, crcs: seq<U32>)
    requires |signature| == SignatureLength
    requires |crcs| == |chunks|
    ensures ChunksFrom(signature + EncodeChunks(chunks, crcs), SignatureLength) == Ok(chunks)
  {
    var contents := signature + EncodeChunks(chunks, crcs);
    assert contents[SignatureLength..] == EncodeChunks(chunks, crcs);
    ChunksFromEncoded(contents, SignatureLength, chunks, crcs);
  }
}

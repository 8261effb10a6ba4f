/** `process_png`: the header checks, the gathering of the compressed image
    data from the IDAT chunks, the IEND check, inflation, `convert_to_rows`
    and the count of black pixels over the rows it returns. The zlib
    decompressor is a parameter: any total function from bytes to bytes. */
module Pipeline {
  import opened Bytes
  import opened Chunks
  import opened Header
  import opened Filter
  import opened Rows
  import opened Unfilter

  /** Why `process_png` aborts: the missing first chunk, a header of the
      wrong length, one of its three method assertions, the two assertions on
      the last chunk, or a failure inside `convert_to_rows`. */
  datatype PngError =
    | NoChunks
    | BadHeader(headerError: HeaderError)
    | UnsupportedCompression(compressionMethod: Byte)
    | UnsupportedFilterMethod(filterMethod: Byte)
    | Interlaced(interlaceMethod: Byte)
    | MissingEnd(typ: U32)
    | NonEmptyEnd(length: nat)
    | BadImageData(rowsError: RowsError)

  /** The payloads of the IDAT chunks among `png[lo..hi]`, in order. */
  function IdatPayload(png: seq<Chunk>, lo: nat, hi: nat): seq<Byte>
    requires hi <= |png|
    decreases hi
  {
    if hi <= lo then []
    else IdatPayload(png, lo, hi - 1) + (if png[hi - 1].typ == IDAT then png[hi - 1].data else [])
  }

  /** The header `process_png` works with, once every check it makes before
      inflating has passed: `png[0]` decoded as a header whatever its type,
      compression, filter and interlace methods all 0, and a last chunk of
      type IEND with an empty payload. */
  function CheckedHeader(png: seq<Chunk>): (r: Result<IhdrInfo, PngError>)
    ensures r.Ok? ==> |png| > 0
  {
    if |png| == 0 then Err(NoChunks)
    else match ProcessIhdr(png[0])
      case Err(e) => Err(BadHeader(e))
      case Ok(ihdr) =>
        var last := png[|png| - 1];
        if ihdr.compressionMethod != 0 then Err(UnsupportedCompression(ihdr.compressionMethod))
        else if ihdr.filterMethod != 0 then Err(UnsupportedFilterMethod(ihdr.filterMethod))
        else if ihdr.interlaceMethod != 0 then Err(Interlaced(ihdr.interlaceMethod))
        else if last.typ != IEND then Err(MissingEnd(last.typ))
        else if |last.data| != 0 then Err(NonEmptyEnd(|last.data|))
        else Ok(ihdr)
  }

  /** The compressed image data: the IDAT payloads strictly between the
      first and the last chunk. */
  function CompressedData(png: seq<Chunk>): seq<Byte>
    requires |png| > 0
  {
    IdatPayload(png, 1, |png| - 1)
  }

  /** A pixel whose three colour samples are all zero. */
  predicate IsBlack(p: Rgba)
  {
    p[0] == 0 && p[1] == 0 && p[2] == 0
  }

  /** The number of black pixels in `row`. */
  function BlackInRow(row: Row): nat
  {
    if row == [] then 0
    else BlackInRow(row[..|row| - 1]) + (if IsBlack(row[|row| - 1]) then 1 else 0)
  }

  /** The number of black pixels in `rows`. */
  function BlackPixels(rows: seq<Row>): nat
  {
    if rows == [] then 0
    else BlackPixels(rows[..|rows| - 1]) + BlackInRow(rows[|rows| - 1])
  }

  /** What `process_png` computes: the number of black pixels among the rows
      `convert_to_rows` returns, or the first check that fails. */
  function PngOutcome(png: seq<Chunk>, inflate: seq<Byte> -> seq<Byte>): Result<nat, PngError>
  {
    match CheckedHeader(png)
    case Err(e) => Err(e)
    case Ok(ihdr) =>
      match ConvertOutcome(ihdr, inflate(CompressedData(png)))
      case Err(e) => Err(BadImageData(e))
      case Ok(rows) => Ok(BlackPixels(rows))
  }

  /** The nested loop at the end of `process_png`: one pass over the pixels
      of every row, counting the black ones. */
  method CountBlackPixels(rows: seq<Row>) returns (count: nat)
    ensures count == BlackPixels(rows)
  {
    count := 0;
    for r := 0 to |rows|
      invariant count == BlackPixels(rows[..r])
    {
      var row := rows[r];
      for c := 0 to |row|
        invariant count == BlackPixels(rows[..r]) + BlackInRow(row[..c])
      {
        assert row[..c + 1][..c] == row[..c];
        if row[c][0] == 0 && row[c][1] == 0 && row[c][2] == 0 {
          count := count + 1;
        }
      }
      assert row[..|row|] == row;
      assert rows[..r + 1][..r] == rows[..r];
    }
    assert rows[..|rows|] == rows;
  }

  /** `process_png`: decodes `png[0]` as the header and asserts its three
      method fields, appends the payload of every IDAT chunk from index 1 up
      to but excluding the last chunk, asserts that the last chunk is an
      empty IEND, inflates, converts to rows and counts the black pixels.
      The count, which the original prints, is the result. Since
      `convert_to_rows` returns no rows, the count is always 0. */
  method ProcessPng(png: seq<Chunk>, inflate: seq<Byte> -> seq<Byte>) returns (r: Result<nat, PngError>)
    ensures r == PngOutcome(png, inflate)
    ensures r.Ok? ==> r.value == 0
  {
    if |png| == 0 {
      return Err(NoChunks);
    }
    var header := ProcessIhdr(png[0]);
    if header.Err? {
      return Err(BadHeader(header.error));
    }
    var ihdr := header.value;
    if ihdr.compressionMethod != 0 {
      return Err(UnsupportedCompression(ihdr.compressionMethod));
    }
    if ihdr.filterMethod != 0 {
      return Err(UnsupportedFilterMethod(ihdr.filterMethod));
    }
    if ihdr.interlaceMethod != 0 {
      return Err(Interlaced(ihdr.interlaceMethod));
    }

    var last := |png| - 1;
    var compressed: seq<Byte> := [];
    var i := 1;
    while i < last
      invariant 1 <= i <= |png| && (last >= 1 ==> i <= last)
      invariant compressed == IdatPayload(png, 1, i)
      decreases last - i
    {
      if png[i].typ == IDAT {
        compressed := compressed + png[i].data;
      } else {
        assert compressed + [] == compressed;
      }
      i := i + 1;
    }
    assert compressed == CompressedData(png);

    if png[last].typ != IEND {
      return Err(MissingEnd(png[last].typ));
    }
    if |png[last].data| != 0 {
      return Err(NonEmptyEnd(|png[last].data|));
    }

    var inflated := inflate(compressed);
    ghost var built: seq<Row>;
    var rows;
    rows, built := ConvertToRows(ihdr, inflated);
    if rows.Err? {
      return Err(BadImageData(rows.error));
    }
    var count := CountBlackPixels(rows.value);
    return Ok(count);
  }

  /** The checks before inflation pass exactly when there is a chunk, the
      first has a 13-byte payload whose three method bytes are 0, and the
      last is an IEND chunk with an empty payload. */
  lemma CheckedHeaderOk(png: seq<Chunk>)
    ensures CheckedHeader(png).Ok? <==>
      && |png| > 0
      && |png[0].data| == 13
      && png[0].data[10] == 0 && png[0].data[11] == 0 && png[0].data[12] == 0
      && png[|png| - 1].typ == IEND && png[|png| - 1].data == []
    ensures CheckedHeader(png).Ok? ==> ProcessIhdr(png[0]) == Ok(CheckedHeader(png).value)
  {
    if |png| > 0 && |png[0].data| == 13 {
      var ihdr := ProcessIhdr(png[0]).value;
      assert EncodeIhdr(ihdr)[10] == ihdr.compressionMethod;
      assert EncodeIhdr(ihdr)[11] == ihdr.filterMethod;
      assert EncodeIhdr(ihdr)[12] == ihdr.interlaceMethod;
    }
  }

  /** `process_png` gets through to the count exactly when the checks before
      inflation pass, the header describes 8-bit truecolour, the inflated
      data holds every scanline and every filter type byte is at most 4. */
  lemma PngOutcomeOk(png: seq<Chunk>, inflate: seq<Byte> -> seq<Byte>)
    ensures PngOutcome(png, inflate).Ok? <==>
      && CheckedHeader(png).Ok?
      && var ihdr := CheckedHeader(png).value;
         var data := inflate(CompressedData(png));
         && ihdr.bitDepth == 8 && ihdr.colorType == 2
         && ihdr.height * Stride(ihdr.width) <= |data|
         && (ihdr.width > 0 ==> FilterTypesValid(ihdr.width, ihdr.height, data, 0))
  {
    if CheckedHeader(png).Ok? {
      ConvertOutcomeOk(CheckedHeader(png).value, inflate(CompressedData(png)));
    }
  }

  /** A row has no more black pixels than pixels, none exactly when no
      pixel is black, and as many exactly when every pixel is. */
  lemma {:induction false} BlackInRowBounds(row: Row)
    ensures BlackInRow(row) <= |row|
    ensures BlackInRow(row) == 0 <==> forall c :: 0 <= c < |row| ==> !IsBlack(row[c])
    ensures BlackInRow(row) == |row| <==> forall c :: 0 <= c < |row| ==> IsBlack(row[c])
  {
    if row != [] {
      var front := row[..|row| - 1];
      BlackInRowBounds(front);
      assert forall c :: 0 <= c < |front| ==> front[c] == row[c];
    }
  }

  /** The count is zero exactly when no pixel of any row is black. */
  lemma {:induction false} BlackPixelsNone(rows: seq<Row>)
    ensures BlackPixels(rows) == 0 <==>
      forall r, c :: 0 <= r < |rows| && 0 <= c < |rows[r]| ==> !IsBlack(rows[r][c])
  {
    if rows != [] {
      var front := rows[..|rows| - 1];
      BlackPixelsNone(front);
      BlackInRowBounds(rows[|rows| - 1]);
      assert forall r :: 0 <= r < |front| ==> front[r] == rows[r];
    }
  }

  /** The corrected `process_png`: the same checks, then the inflated data
      reconstructed scanline by scanline. */
  function DecodePng(png: seq<Chunk>, inflate: seq<Byte> -> seq<Byte>): Result<seq<Row>, PngError>
  {
    match CheckedHeader(png)
    case Err(e) => Err(e)
    case Ok(ihdr) =>
      match DecodeImage(ihdr, inflate(CompressedData(png)))
      case Err(e) => Err(BadImageData(e))
      case Ok(rows) => Ok(rows)
  }

  /** The corrected decoder rejects exactly the inputs `process_png`
      rejects, with the same error, and otherwise yields one row of `width`
      pixels per scanline. */
  lemma DecodePngFailsLikeProcess(png: seq<Chunk>, inflate: seq<Byte> -> seq<Byte>)
    ensures DecodePng(png, inflate).Err? <==> PngOutcome(png, inflate).Err?
    ensures DecodePng(png, inflate).Err? ==> DecodePng(png, inflate).error == PngOutcome(png, inflate).error
    ensures DecodePng(png, inflate).Ok? ==>
      && |DecodePng(png, inflate).value| == CheckedHeader(png).value.height
      && forall r :: 0 <= r < |DecodePng(png, inflate).value| ==>
           |DecodePng(png, inflate).value[r]| == CheckedHeader(png).value.width
  {
    if CheckedHeader(png).Ok? {
      DecodeImageFailsLikeConvert(CheckedHeader(png).value, inflate(CompressedData(png)));
    }
  }

  /** The chunks of a minimal file: header, one IDAT chunk of compressed
      data, empty IEND. */
  function MinimalPng(ihdr: IhdrInfo, compressed: seq<Byte>): seq<Chunk>
  {
    [Chunk(IHDR, EncodeIhdr(ihdr)), Chunk(IDAT, compressed), Chunk(IEND, [])]
  }

  /** A minimal file is read back as its three chunks. */
  lemma MinimalPngRead(signature: seq<Byte>, crcs: seq<U32>, ihdr: IhdrInfo, compressed: seq<Byte>)
    requires |signature| == SignatureLength && |crcs| == 3 && |compressed| < 0x1_0000_0000
    ensures ChunksFrom(signature + EncodeChunks(MinimalPng(ihdr, compressed), crcs), SignatureLength)
            == Ok(MinimalPng(ihdr, compressed))
  {
    ReadChunksOfFile(signature, MinimalPng(ihdr, compressed), crcs);
  }

  /** A minimal PNG whose header has all three methods 0 passes the checks
      before inflation, and its compressed data is its IDAT payload. */
  lemma MinimalPngChecked(ihdr: IhdrInfo, compressed: seq<Byte>)
    requires ihdr.compressionMethod == 0 && ihdr.filterMethod == 0 && ihdr.interlaceMethod == 0
    ensures CheckedHeader(MinimalPng(ihdr, compressed)) == Ok(ihdr)
    ensures CompressedData(MinimalPng(ihdr, compressed)) == compressed
  {
    var png := MinimalPng(ihdr, compressed);
    ProcessIhdrEncoded(IHDR, ihdr);
    assert IdatPayload(png, 1, 1) == [];
  }

  /** End to end: a file made of a signature and the chunks of a minimal
      PNG, whose IDAT payload inflates to the filtered scanlines of an
      8-bit truecolour image, is read back as those chunks; the corrected
      decoder yields the image, and `process_png` accepts the file and
      counts 0 black pixels, whatever the image holds. */
  lemma DecodeEncodedPng(signature: seq<Byte>, crcs: seq<U32>, ihdr: IhdrInfo, filterTypes: seq<Byte>, image: seq<Row>,
                         compressed: seq<Byte>, inflate: seq<Byte> -> seq<Byte>)
    requires |signature| == SignatureLength && |crcs| == 3
    requires ihdr.bitDepth == 8 && ihdr.colorType == 2
    requires ihdr.compressionMethod == 0 && ihdr.filterMethod == 0 && ihdr.interlaceMethod == 0
    requires |image| == ihdr.height && |filterTypes| == |image| && ValidFilterTypes(filterTypes)
    requires WellFormedImage(image, ihdr.width)
    requires |compressed| < 0x1_0000_0000
    requires inflate(compressed) == EncodeImage(filterTypes, image, ihdr.width)
    ensures ChunksFrom(signature + EncodeChunks(MinimalPng(ihdr, compressed), crcs), SignatureLength)
            == Ok(MinimalPng(ihdr, compressed))
    ensures DecodePng(MinimalPng(ihdr, compressed), inflate) == Ok(image)
    ensures PngOutcome(MinimalPng(ihdr, compressed), inflate) == Ok(0)
  {
    MinimalPngRead(signature, crcs, ihdr, compressed);
    MinimalPngChecked(ihdr, compressed);
    var data := EncodeImage(filterTypes, image, ihdr.width);
    DecodeImageEncoded(ihdr, filterTypes, image);
    DecodeImageFailsLikeConvert(ihdr, data);
  }
}

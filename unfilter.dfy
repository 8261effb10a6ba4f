/** Scanline reconstruction as the PNG specification defines it (section 9
    of ISO/IEC 15948:2003), which `convert_to_rows` evidently sets out to
    implement: every pixel's predictor takes the RECONSTRUCTED left, up and
    upper-left pixels, the row above is carried from one scanline to the
    next, and the reconstructed rows are returned. Failures are the ones
    `convert_to_rows` has, in the same order. The encoder's side is given
    too, and the two are proved inverse. */
module Unfilter {
  import opened Bytes
  import opened Header
  import opened Filter
  import opened Rows

  /** The all-zero row the first scanline is reconstructed against. */
  function ZeroRow(width: nat): (row: Row)
    ensures |row| == width && forall c :: 0 <= c < width ==> row[c] == ZeroRgba
  {
    seq(width, _ => ZeroRgba)
  }

  /** The pixel in column `c` of `row`, or zero outside the row (left of
      the first column, or above the first scanline). */
  function PixelAt(row: Row, c: int): Rgba
  {
    if 0 <= c < |row| then row[c] else ZeroRgba
  }

  /** The first `n` reconstructed pixels of a scanline of filter type
      `filterType` whose samples start at `start`, given the reconstructed
      row above, `prior`. */
  function UnfilterPrefix(filterType: Byte, data: seq<Byte>, start: nat, prior: Row, n: nat): (row: Row)
    requires n > 0 ==> filterType <= 4
    requires n <= |prior| && start + 3 * n <= |data|
    ensures |row| == n
    decreases n
  {
    if n == 0 then []
    else
      var done := UnfilterPrefix(filterType, data, start, prior, n - 1);
      var c := n - 1;
      done + [UnfilteredPixel(filterType, RawPixel(data, start, c), PixelAt(done, c - 1), PixelAt(prior, c), PixelAt(prior, c - 1))]
  }

  /** A whole reconstructed scanline. */
  function UnfilterRow(filterType: Byte, data: seq<Byte>, start: nat, prior: Row): (row: Row)
    requires |prior| > 0 ==> filterType <= 4
    requires start + 3 * |prior| <= |data|
    ensures |row| == |prior|
  {
    UnfilterPrefix(filterType, data, start, prior, |prior|)
  }

  /** Scanlines `r` to `height - 1`, each reconstructed against the one
      before (`prior` for scanline `r`); a scanline that `convert_to_rows`
      fails on fails here with the same error. */
  function DecodeRows(width: nat, height: nat, data: seq<Byte>, r: nat, prior: Row): Result<seq<Row>, RowsError>
    requires |prior| == width
    decreases height - r
  {
    if r >= height then Ok([])
    else match RowFailure(width, data, r)
      case Some(e) => Err(e)
      case None =>
        var s := ScanlineStart(width, r);
        var row := UnfilterRow(data[s], data, s + 1, prior);
        match DecodeRows(width, height, data, r + 1, row)
        case Ok(rest) => Ok([row] + rest)
        case Err(e) => Err(e)
  }

  /** The corrected `convert_to_rows`: the same two format checks, then
      every scanline reconstructed from the top, starting from a zero row. */
  function DecodeImage(ihdr: IhdrInfo, data: seq<Byte>): Result<seq<Row>, RowsError>
  {
    if ihdr.bitDepth != 8 then Err(UnsupportedBitDepth(ihdr.bitDepth))
    else if ihdr.colorType != 2 then Err(UnsupportedColorType(ihdr.colorType))
    else DecodeRows(ihdr.width, ihdr.height, data, 0, ZeroRow(ihdr.width))
  }

  /** Reconstruction fails exactly on the first scanline that
      `convert_to_rows` fails on, with the same error; otherwise it yields
      one row of `width` pixels per remaining scanline. */
  lemma {:induction false} DecodeRowsFailsLikeConvert(width: nat, height: nat, data: seq<Byte>, r: nat, prior: Row)
    requires |prior| == width
    ensures DecodeRows(width, height, data, r, prior).Err? <==> FirstRowFailure(width, height, data, r).Some?
    ensures DecodeRows(width, height, data, r, prior).Err? ==>
      DecodeRows(width, height, data, r, prior).error == FirstRowFailure(width, height, data, r).value
    ensures DecodeRows(width, height, data, r, prior).Ok? ==>
      |DecodeRows(width, height, data, r, prior).value| == if r >= height then 0 else height - r
    ensures DecodeRows(width, height, data, r, prior).Ok? ==>
      forall k :: 0 <= k < |DecodeRows(width, height, data, r, prior).value| ==>
        |DecodeRows(width, height, data, r, prior).value[k]| == width
    decreases height - r
  {
    if r < height && RowFailure(width, data, r).None? {
      var s := ScanlineStart(width, r);
      var row := UnfilterRow(data[s], data, s + 1, prior);
      DecodeRowsFailsLikeConvert(width, height, data, r + 1, row);
    }
  }

  /** The corrected decoder rejects exactly the inputs `convert_to_rows`
      panics on, with the same error, and on the others returns `height`
      rows of `width` pixels where the original returns none. */
  lemma DecodeImageFailsLikeConvert(ihdr: IhdrInfo, data: seq<Byte>)
    ensures DecodeImage(ihdr, data).Err? <==> ConvertOutcome(ihdr, data).Err?
    ensures DecodeImage(ihdr, data).Err? ==> DecodeImage(ihdr, data).error == ConvertOutcome(ihdr, data).error
    ensures DecodeImage(ihdr, data).Ok? ==> |DecodeImage(ihdr, data).value| == ihdr.height
    ensures DecodeImage(ihdr, data).Ok? ==>
      forall k :: 0 <= k < ihdr.height ==> |DecodeImage(ihdr, data).value[k]| == ihdr.width
  {
    if ihdr.bitDepth == 8 && ihdr.colorType == 2 {
      DecodeRowsFailsLikeConvert(ihdr.width, ihdr.height, data, 0, ZeroRow(ihdr.width));
    }
  }

  // The encoder's side.

  /** The three stored colour bytes of column `c`: the channels of the
      pixel filtered against the ORIGINAL left, up and upper-left pixels. */
  function FilteredColumn(filterType: Byte, row: Row, prior: Row, c: nat): seq<Byte>
    requires filterType <= 4 && c < |row|
  {
    var f := FilteredPixel(filterType, row[c], PixelAt(row, c - 1), PixelAt(prior, c), PixelAt(prior, c - 1));
    [f[0], f[1], f[2]]
  }

  /** The stored colour bytes of the first `n` columns. */
  function FilteredColumns(filterType: Byte, row: Row, prior: Row, n: nat): (bytes: seq<Byte>)
    requires filterType <= 4 && n <= |row|
    ensures |bytes| == 3 * n
  {
    if n == 0 then []
    else FilteredColumns(filterType, row, prior, n - 1) + FilteredColumn(filterType, row, prior, n - 1)
  }

  /** Stored bytes of one scanline: the filter-type byte, then three
      filtered colour bytes per pixel. */
  function FilterRowBytes(filterType: Byte, row: Row, prior: Row): (bytes: seq<Byte>)
    requires filterType <= 4
    ensures |bytes| == Stride(|row|)
  {
    [filterType] + FilteredColumns(filterType, row, prior, |row|)
  }

  /** Pixels whose alpha is 0 (the only ones the stored format carries),
      in rows of `width`. */
  predicate WellFormedImage(image: seq<Row>, width: nat)
  {
    forall r :: 0 <= r < |image| ==> |image[r]| == width && forall c :: 0 <= c < width ==> image[r][c][3] == 0
  }

  /** Filter types the decoder accepts. */
  predicate ValidFilterTypes(filterTypes: seq<Byte>)
  {
    forall r :: 0 <= r < |filterTypes| ==> filterTypes[r] <= 4
  }

  /** The stored scanlines of `image`, row `r` with filter type
      `filterTypes[r]`, each filtered against the row above (`prior` for the
      first). */
  function EncodeRows(filterTypes: seq<Byte>, image: seq<Row>, prior: Row): seq<Byte>
    requires |filterTypes| == |image| && ValidFilterTypes(filterTypes)
    decreases |image|
  {
    if image == [] then []
    else FilterRowBytes(filterTypes[0], image[0], prior) + EncodeRows(filterTypes[1..], image[1..], image[0])
  }

  /** The stored (inflated) image data for `image`. */
  function EncodeImage(filterTypes: seq<Byte>, image: seq<Row>, width: nat): seq<Byte>
    requires |filterTypes| == |image| && ValidFilterTypes(filterTypes)
  {
    EncodeRows(filterTypes, image, ZeroRow(width))
  }

  /** Column `c`'s three bytes sit at offset `3 * c` of the stored colour
      bytes. */
  lemma {:induction false} FilteredColumnsAt(filterType: Byte, row: Row, prior: Row, n: nat, c: nat)
    requires filterType <= 4 && c < n <= |row|
    ensures FilteredColumns(filterType, row, prior, n)[3 * c..3 * c + 3] == FilteredColumn(filterType, row, prior, c)
    decreases n
  {
    var done := FilteredColumns(filterType, row, prior, n - 1);
    var all := FilteredColumns(filterType, row, prior, n);
    assert all == done + FilteredColumn(filterType, row, prior, n - 1);
    if c < n - 1 {
      FilteredColumnsAt(filterType, row, prior, n - 1, c);
      assert all[3 * c..3 * c + 3] == done[3 * c..3 * c + 3];
    } else {
      assert all[3 * c..3 * c + 3] == all[|done|..];
    }
  }

  /** The stored bytes of column `c` of a filtered scanline starting at `s`
      are that column's filtered bytes. */
  lemma StoredColumn(data: seq<Byte>, s: nat, filterType: Byte, row: Row, prior: Row, c: nat)
    requires filterType <= 4 && c < |row|
    requires s + Stride(|row|) <= |data| && data[s..s + Stride(|row|)] == FilterRowBytes(filterType, row, prior)
    ensures data[s + 1 + 3 * c..s + 1 + 3 * c + 3] == FilteredColumn(filterType, row, prior, c)
  {
    var bytes := FilterRowBytes(filterType, row, prior);
    var columns := FilteredColumns(filterType, row, prior, |row|);
    SliceOfSlice(data, s, s + Stride(|row|), 1 + 3 * c, 1 + 3 * c + 3);
    ConsSlice(filterType, columns, 3 * c, 3 * c + 3);
    FilteredColumnsAt(filterType, row, prior, |row|, c);
  }

  /** The stored pixel in column `c` of a filtered scanline is the filtered
      pixel. */
  lemma RawPixelOfFiltered(data: seq<Byte>, s: nat, filterType: Byte, row: Row, prior: Row, c: nat)
    requires filterType <= 4 && |prior| == |row| && c < |row|
    requires s + Stride(|row|) <= |data| && data[s..s + Stride(|row|)] == FilterRowBytes(filterType, row, prior)
    ensures RawPixel(data, s + 1, c) == FilteredPixel(filterType, row[c], PixelAt(row, c - 1), PixelAt(prior, c), PixelAt(prior, c - 1))
  {
    var j := s + 1 + 3 * c;
    StoredColumn(data, s, filterType, row, prior, c);
    var stored := data[j..j + 3];
    var raw := RawPixel(data, s + 1, c);
    assert raw[0] == stored[0] && raw[1] == stored[1] && raw[2] == stored[2];
    var f := FilteredPixel(filterType, row[c], PixelAt(row, c - 1), PixelAt(prior, c), PixelAt(prior, c - 1));
    assert stored == [f[0], f[1], f[2]];
    SamePixel(raw, f);
  }

  /** One more pixel of a reconstructed prefix: when the stored pixel in
      column `c` is the filtered original, reconstruction extends a prefix
      of the original row by that row's pixel `c`. */
  lemma UnfilterPrefixStep(filterType: Byte, data: seq<Byte>, start: nat, row: Row, prior: Row, c: nat)
    requires filterType <= 4 && |prior| == |row| && c < |row| && start + 3 * c + 3 <= |data|
    requires row[c][3] == 0
    requires UnfilterPrefix(filterType, data, start, prior, c) == row[..c]
    requires RawPixel(data, start, c) ==
      FilteredPixel(filterType, row[c], PixelAt(row, c - 1), PixelAt(prior, c), PixelAt(prior, c - 1))
    ensures UnfilterPrefix(filterType, data, start, prior, c + 1) == row[..c + 1]
  {
    var left := PixelAt(row, c - 1);
    assert PixelAt(row[..c], c - 1) == left;
    FilterRoundTrip(filterType, row[c], left, PixelAt(prior, c), PixelAt(prior, c - 1));
    PrefixSnoc(row, c);
  }

  /** Reconstructing the first `n` pixels of a filtered scanline gives the
      first `n` original pixels. */
  lemma {:induction false} UnfilterPrefixOfFiltered(data: seq<Byte>, s: nat, filterType: Byte, row: Row, prior: Row, n: nat)
    requires filterType <= 4 && |prior| == |row| && n <= |row|
    requires forall c :: 0 <= c < |row| ==> row[c][3] == 0
    requires s + Stride(|row|) <= |data| && data[s..s + Stride(|row|)] == FilterRowBytes(filterType, row, prior)
    ensures UnfilterPrefix(filterType, data, s + 1, prior, n) == row[..n]
    decreases n
  {
    if n > 0 {
      UnfilterPrefixOfFiltered(data, s, filterType, row, prior, n - 1);
      RawPixelOfFiltered(data, s, filterType, row, prior, n - 1);
      UnfilterPrefixStep(filterType, data, s + 1, row, prior, n - 1);
    }
  }

  /** The first stored scanline of an encoded run, and the rest after it. */
  lemma EncodeRowsSplit(data: seq<Byte>, s: nat, filterTypes: seq<Byte>, image: seq<Row>, prior: Row)
    requires |filterTypes| == |image| && ValidFilterTypes(filterTypes) && image != []
    requires s <= |data| && data[s..] == EncodeRows(filterTypes, image, prior)
    ensures s + Stride(|image[0]|) <= |data|
    ensures data[s..s + Stride(|image[0]|)] == FilterRowBytes(filterTypes[0], image[0], prior)
    ensures data[s + Stride(|image[0]|)..] == EncodeRows(filterTypes[1..], image[1..], image[0])
  {
    var n := Stride(|image[0]|);
    var head := FilterRowBytes(filterTypes[0], image[0], prior);
    var tail := EncodeRows(filterTypes[1..], image[1..], image[0]);
    assert data[s..] == head + tail;
    SliceOfSlice(data, s, |data|, 0, n);
    assert data[s + n..] == data[s..][n..];
  }

  /** One scanline of an encoded run: it does not stop the loop, it
      reconstructs to the first row, and the rest of the run starts at the
      next scanline. */
  lemma DecodeRowEncoded(data: seq<Byte>, width: nat, r: nat, filterTypes: seq<Byte>, image: seq<Row>, prior: Row)
    requires |filterTypes| == |image| > 0 && ValidFilterTypes(filterTypes)
    requires |prior| == width && WellFormedImage(image, width)
    requires ScanlineStart(width, r) <= |data| && data[ScanlineStart(width, r)..] == EncodeRows(filterTypes, image, prior)
    ensures RowFailure(width, data, r) == None
    ensures UnfilterRow(data[ScanlineStart(width, r)], data, ScanlineStart(width, r) + 1, prior) == image[0]
    ensures ScanlineStart(width, r + 1) <= |data|
    ensures data[ScanlineStart(width, r + 1)..] == EncodeRows(filterTypes[1..], image[1..], image[0])
  {
    var s := ScanlineStart(width, r);
    assert |image[0]| == width;
    EncodeRowsSplit(data, s, filterTypes, image, prior);
    assert data[s] == filterTypes[0];
    UnfilterPrefixOfFiltered(data, s, filterTypes[0], image[0], prior, width);
    assert image[0][..width] == image[0];
  }

  /** One step of `DecodeRows`: a scanline that does not fail, in front of
      the rows after it. */
  lemma DecodeRowsStep(width: nat, height: nat, data: seq<Byte>, r: nat, prior: Row, row: Row, rest: seq<Row>)
    requires |prior| == width && |row| == width && r < height && RowFailure(width, data, r) == None
    requires UnfilterRow(data[ScanlineStart(width, r)], data, ScanlineStart(width, r) + 1, prior) == row
    requires DecodeRows(width, height, data, r + 1, row) == Ok(rest)
    ensures DecodeRows(width, height, data, r, prior) == Ok([row] + rest)
  {
  }

  /** The rows after the first of a well-formed image form one too. */
  lemma WellFormedTail(filterTypes: seq<Byte>, image: seq<Row>, width: nat)
    requires |filterTypes| == |image| > 0 && ValidFilterTypes(filterTypes) && WellFormedImage(image, width)
    ensures ValidFilterTypes(filterTypes[1..]) && WellFormedImage(image[1..], width) && |image[0]| == width
  {
  }

  /** Reconstructing encoded scanlines from scanline `r` on gives back the
      rows encoded. */
  lemma {:induction false} DecodeRowsEncoded(data: seq<Byte>, width: nat, r: nat, height: nat, filterTypes: seq<Byte>,
                                             image: seq<Row>, prior: Row)
    requires |filterTypes| == |image| == height - r && r <= height && ValidFilterTypes(filterTypes)
    requires |prior| == width && WellFormedImage(image, width)
    requires ScanlineStart(width, r) <= |data| && data[ScanlineStart(width, r)..] == EncodeRows(filterTypes, image, prior)
    ensures DecodeRows(width, height, data, r, prior) == Ok(image)
    decreases height - r
  {
    if r < height {
      DecodeRowEncoded(data, width, r, filterTypes, image, prior);
      WellFormedTail(filterTypes, image, width);
      DecodeRowsEncoded(data, width, r + 1, height, filterTypes[1..], image[1..], image[0]);
      DecodeRowsStep(width, height, data, r, prior, image[0], image[1..]);
      HeadTail(image);
    }
  }

  /** Scanline round trip: whatever filter type each row is stored with,
      the corrected decoder reconstructs the image that was filtered. */
  lemma DecodeImageEncoded(ihdr: IhdrInfo, filterTypes: seq<Byte>, image: seq<Row>)
    requires ihdr.bitDepth == 8 && ihdr.colorType == 2
    requires |image| == ihdr.height && |filterTypes| == |image| && ValidFilterTypes(filterTypes)
    requires WellFormedImage(image, ihdr.width)
    ensures DecodeImage(ihdr, EncodeImage(filterTypes, image, ihdr.width)) == Ok(image)
  {
    var data := EncodeImage(filterTypes, image, ihdr.width);
    assert data[ScanlineStart(ihdr.width, 0)..] == data;
    DecodeRowsEncoded(data, ihdr.width, 0, ihdr.height, filterTypes, image, ZeroRow(ihdr.width));
  }
}

/** Scanline reconstruction as the decoder has it: `convert_to_rows` walks
    the inflated data row by row (one filter-type byte, then three bytes per
    pixel) and unfilters every pixel, but keeps none of the results. */
module Rows {
  import opened Bytes
  import opened Header
  import opened Filter

  /** `Row`: one scanline of pixels. */
  type Row = seq<Rgba>

  /** Bytes per pixel for 8-bit truecolour (colour type 2). */
  const PixelSize: nat := 3

  /** Bytes per stored scanline: the filter-type byte and the samples. */
  function Stride(width: nat): (n: nat)
    ensures n > 0 && n > 3 * width
  {
    width * 3 + 1
  }

  /** Why `convert_to_rows` panics: one of its two format assertions, an
      index past the end of the data in row `row`, or `filter_pixel`
      rejecting row `row`'s filter type. */
  datatype RowsError =
    | UnsupportedBitDepth(bitDepth: Byte)
    | UnsupportedColorType(colorType: Byte)
    | TruncatedImageData(row: nat)
    | InvalidFilterType(row: nat, filterType: Byte)

  /** The stored (filtered) pixel in column `c` of a scanline whose samples
      start at `start`, with alpha 0. */
  function RawPixel(data: seq<Byte>, start: nat, c: nat): Rgba
    requires start + 3 * c + 3 <= |data|
  {
    [data[start + 3 * c], data[start + 3 * c + 1], data[start + 3 * c + 2], 0]
  }

  /** The pixel the column loop of `convert_to_rows` computes in column `c`
      of a scanline: `filter_pixel` is given the previous column's STORED
      pixel as `left` (the original assigns `prev = pix`), and `up` and
      `upleft` are always zero (the original never writes `prev_scan_line`). */
  function PixelAsWritten(filterType: Byte, data: seq<Byte>, start: nat, c: nat): Rgba
    requires filterType <= 4
    requires start + 3 * c + 3 <= |data|
  {
    UnfilteredPixel(filterType, RawPixel(data, start, c),
                    if c == 0 then ZeroRgba else RawPixel(data, start, c - 1),
                    ZeroRgba, ZeroRgba)
  }

  /** The pixels the column loop puts in `build` for one scanline. */
  function RowAsWritten(filterType: Byte, data: seq<Byte>, start: nat, width: nat): (row: Row)
    requires width > 0 ==> filterType <= 4
    requires start + 3 * width <= |data|
    ensures |row| == width
  {
    seq(width, c requires 0 <= c < width => PixelAsWritten(filterType, data, start, c))
  }

  /** How scanline `row` stops `convert_to_rows`, if it does: the filter
      byte or the first pixel is cut off, the filter type is rejected at
      the first pixel (so never in an image of width 0), or a later pixel is
      cut off. */
  function RowFailure(width: nat, data: seq<Byte>, row: nat): Option<RowsError>
  {
    var s := ScanlineStart(width, row);
    if s + (if width == 0 then 1 else 4) > |data| then Some(TruncatedImageData(row))
    else if width > 0 && data[s] > 4 then Some(InvalidFilterType(row, data[s]))
    else if s + Stride(width) > |data| then Some(TruncatedImageData(row))
    else None
  }

  /** The first failure among scanlines `from` to `height - 1`. */
  function FirstRowFailure(width: nat, height: nat, data: seq<Byte>, from: nat): Option<RowsError>
    decreases height - from
  {
    if from >= height then None
    else if RowFailure(width, data, from).Some? then RowFailure(width, data, from)
    else FirstRowFailure(width, height, data, from + 1)
  }

  /** The outcome of `convert_to_rows`: its two assertions, then the rows in
      order; when nothing fails, the empty vector it returns. */
  function ConvertOutcome(ihdr: IhdrInfo, data: seq<Byte>): (r: Result<seq<Row>, RowsError>)
    ensures r.Ok? ==> r.value == []
  {
    if ihdr.bitDepth != 8 then Err(UnsupportedBitDepth(ihdr.bitDepth))
    else if ihdr.colorType != 2 then Err(UnsupportedColorType(ihdr.colorType))
    else match FirstRowFailure(ihdr.width, ihdr.height, data, 0)
      case Some(e) => Err(e)
      case None => Ok([])
  }

  /** Where scanline `r` starts: its filter-type byte, one stride after
      the start of the scanline before. */
  function ScanlineStart(width: nat, r: nat): nat
  {
    if r == 0 then 0 else ScanlineStart(width, r - 1) + Stride(width)
  }

  /** Scanline `r` starts at `r * row_width`, the offset the original
      computes. */
  lemma {:induction false} ScanlineStartIsProduct(width: nat, r: nat)
    ensures ScanlineStart(width, r) == r * Stride(width)
  {
    if r > 0 {
      ScanlineStartIsProduct(width, r - 1);
      assert r * Stride(width) == (r - 1) * Stride(width) + Stride(width);
    }
  }

  /** Every scanline before `height` ends by the start of scanline
      `height`. */
  lemma {:induction false} ScanlineOffsets(width: nat, r: nat, height: nat)
    requires r < height
    ensures ScanlineStart(width, r) + Stride(width) <= ScanlineStart(width, height)
    decreases height
  {
    if r + 1 < height {
      ScanlineOffsets(width, r, height - 1);
    }
  }

  /** Every stored filter-type byte from scanline `from` on names one of
      the five filter types (those past the end of the data do not count). */
  predicate FilterTypesValid(width: nat, height: nat, data: seq<Byte>, from: nat)
  {
    forall r :: from <= r < height && ScanlineStart(width, r) < |data| ==> data[ScanlineStart(width, r)] <= 4
  }

  /** No scanline from `from` on stops the loop exactly when the data holds
      every scanline up to `height` and, unless the image has no columns
      (when `filter_pixel` is never called), every filter type is valid. */
  lemma {:induction false} FirstRowFailureNone(width: nat, height: nat, data: seq<Byte>, from: nat)
    ensures FirstRowFailure(width, height, data, from).None? <==>
      (from < height ==> ScanlineStart(width, height) <= |data|)
      && (width > 0 ==> FilterTypesValid(width, height, data, from))
    decreases height - from
  {
    if from < height {
      FirstRowFailureNone(width, height, data, from + 1);
      ScanlineOffsets(width, from, height);
    }
  }

  /** `convert_to_rows` returns (its empty vector) exactly when the image is
      8-bit truecolour, the data holds all `height` scanlines, and every
      filter type is valid (in an image with columns). */
  lemma ConvertOutcomeOk(ihdr: IhdrInfo, data: seq<Byte>)
    ensures ConvertOutcome(ihdr, data).Ok? <==>
      && ihdr.bitDepth == 8 && ihdr.colorType == 2
      && ihdr.height * Stride(ihdr.width) <= |data|
      && (ihdr.width > 0 ==> FilterTypesValid(ihdr.width, ihdr.height, data, 0))
  {
    FirstRowFailureNone(ihdr.width, ihdr.height, data, 0);
    ScanlineStartIsProduct(ihdr.width, ihdr.height);
  }

  /** The pixels computed one column at a time make up the row. */
  lemma RowAsWrittenByColumns(filterType: Byte, data: seq<Byte>, start: nat, width: nat, row: Row)
    requires width > 0 ==> filterType <= 4
    requires start + 3 * width <= |data|
    requires |row| == width
    requires forall c :: 0 <= c < width ==> row[c] == PixelAsWritten(filterType, data, start, c)
    ensures row == RowAsWritten(filterType, data, start, width)
  {
    var expected := RowAsWritten(filterType, data, start, width);
    assert forall c :: 0 <= c < width ==> row[c] == expected[c];
  }

  /** Scanline `k` is complete in `data` and `row` holds what the column
      loop computes for it. */
  ghost predicate ScanlineBuilt(width: nat, data: seq<Byte>, k: nat, row: Row)
  {
    var s := ScanlineStart(width, k);
    && s + Stride(width) <= |data|
    && (width > 0 ==> data[s] <= 4)
    && row == RowAsWritten(data[s], data, s + 1, width)
  }

  /** Every row of `rows` is scanline `k`'s, in order. */
  ghost predicate ScanlinesBuilt(width: nat, data: seq<Byte>, rows: seq<Row>)
  {
    forall k :: 0 <= k < |rows| ==> ScanlineBuilt(width, data, k, rows[k])
  }

  lemma ScanlinesBuiltAppend(width: nat, data: seq<Byte>, rows: seq<Row>, row: Row)
    requires ScanlinesBuilt(width, data, rows)
    requires ScanlineBuilt(width, data, |rows|, row)
    ensures ScanlinesBuilt(width, data, rows + [row])
  {
  }

  /** A scanline that is complete in `data` does not stop the loop. */
  lemma ScanlineBuiltNoFailure(width: nat, data: seq<Byte>, k: nat, row: Row)
    requires ScanlineBuilt(width, data, k, row)
    ensures RowFailure(width, data, k) == None
  {
  }

  /** The column loop of `convert_to_rows` over scanline `rownum`, whose
      filter-type byte `filtertype` has been read and whose samples start at
      `start`: unfilter the pixels left to right into a fresh `build` vector.
      `prevScanLine` is the original's all-zero `prev_scan_line`. The
      failure, if any, is the one the original panics with; otherwise `row`
      is what `build` holds at the end. */
  method UnfilterScanline(data: seq<Byte>, rownum: nat, width: nat, filtertype: Byte, start: nat,
                          prevScanLine: array<Rgba>)
    returns (failure: Option<RowsError>, ghost row: Row)
    requires start == ScanlineStart(width, rownum) + 1 && start <= |data| && filtertype == data[start - 1]
    requires prevScanLine.Length == width
    requires forall c :: 0 <= c < width ==> prevScanLine[c] == ZeroRgba
    ensures failure == RowFailure(width, data, rownum)
    ensures failure.None? ==> row == RowAsWritten(filtertype, data, start, width)
  {
    row := [];
    var i := start;
    var build := new Rgba[width](_ => ZeroRgba);
    var prev := ZeroRgba;
    var prevScanLinePrev := ZeroRgba;

    for colnum := 0 to width
      invariant i + 3 * colnum <= |data|
      invariant colnum > 0 ==> filtertype <= 4
      invariant prev == if colnum == 0 then ZeroRgba else RawPixel(data, i, colnum - 1)
      invariant prevScanLinePrev == ZeroRgba
      invariant forall c :: 0 <= c < colnum ==> build[c] == PixelAsWritten(filtertype, data, i, c)
    {
      if i + colnum * 3 + 2 >= |data| {
        return Some(TruncatedImageData(rownum)), row;
      }
      var red := data[i + colnum * 3];
      var green := data[i + colnum * 3 + 1];
      var blue := data[i + colnum * 3 + 2];

      var pix: Rgba := [red, green, blue, 0];
      var up := prevScanLine[colnum];

      var newpix := FilterPixel(filtertype, pix, prev, up, prevScanLinePrev);
      if newpix.Err? {
        return Some(InvalidFilterType(rownum, filtertype)), row;
      }
      assert newpix.value == PixelAsWritten(filtertype, data, i, colnum);
      build[colnum] := newpix.value;
      prev := pix;
      prevScanLinePrev := up;
    }
    row := build[..];
    RowAsWrittenByColumns(filtertype, data, i, width, row);
    return None, row;
  }

  /** One pass of the row loop of `convert_to_rows`: read the filter-type
      byte at the start of scanline `rownum`, then run the column loop. */
  method ConvertScanline(data: seq<Byte>, rownum: nat, width: nat, prevScanLine: array<Rgba>)
    returns (failure: Option<RowsError>, ghost row: Row)
    requires prevScanLine.Length == width
    requires forall c :: 0 <= c < width ==> prevScanLine[c] == ZeroRgba
    ensures failure == RowFailure(width, data, rownum)
    ensures failure.None? ==> ScanlineBuilt(width, data, rownum, row)
  {
    row := [];
    var rowWidth := width * PixelSize + 1;
    assert rowWidth == Stride(width);
    var i := rownum * rowWidth;
    ScanlineStartIsProduct(width, rownum);
    if i >= |data| {
      return Some(TruncatedImageData(rownum)), row;
    }
    var filtertype := data[i];
    failure, row := UnfilterScanline(data, rownum, width, filtertype, i + 1, prevScanLine);
  }

  /** `convert_to_rows`: the two format assertions, then one pass of
      `ConvertScanline` per scanline. The pixels each scanline's `build`
      receives, which the original drops, are handed out in the ghost
      `built`; the returned vector is the original's `Vec::new()`. */
  method ConvertToRows(ihdr: IhdrInfo, data: seq<Byte>)
    returns (r: Result<seq<Row>, RowsError>, ghost built: seq<Row>)
    ensures r == ConvertOutcome(ihdr, data)
    ensures r.Ok? ==> |built| == ihdr.height
    ensures r.Ok? ==> ScanlinesBuilt(ihdr.width, data, built)
  {
    built := [];
    if ihdr.bitDepth != 8 {
      return Err(UnsupportedBitDepth(ihdr.bitDepth)), built;
    }
    if ihdr.colorType != 2 {
      return Err(UnsupportedColorType(ihdr.colorType)), built;
    }
    var width: nat := ihdr.width;
    var prevScanLine := new Rgba[width](_ => ZeroRgba);

    for rownum := 0 to ihdr.height
      invariant |built| == rownum
      invariant forall c :: 0 <= c < width ==> prevScanLine[c] == ZeroRgba
      invariant FirstRowFailure(width, ihdr.height, data, 0) == FirstRowFailure(width, ihdr.height, data, rownum)
      invariant ScanlinesBuilt(width, data, built)
    {
      var failure, row := ConvertScanline(data, rownum, width, prevScanLine);
      if failure.Some? {
        return Err(failure.value), built;
      }
      ScanlineBuiltNoFailure(width, data, rownum, row);
      ScanlinesBuiltAppend(width, data, built, row);
      built := built + [row];
    }
    return Ok([]), built;
  }
}

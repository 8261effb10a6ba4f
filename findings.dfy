/** Concrete inputs on which `convert_to_rows`, as written, departs from
    scanline reconstruction as the PNG specification defines it; the
    corrected reconstruction is `Unfilter.DecodeImage`. */
module Findings {
  import opened Bytes
  import opened Header
  import opened Filter
  import opened Rows
  import opened Unfilter

  /** A 1x1 truecolour image: filter type 0, pixel (7, 7, 7). */
  const OnePixel: seq<Byte> := [0, 7, 7, 7]

  /** One scanline of three pixels, all stored as (1, 1, 1) under filter
      type 1 (Sub). */
  const SubScanline: seq<Byte> := [1, 1, 1, 1, 1, 1, 1, 1, 1, 1]

  /** Two scanlines of one pixel: (5, 5, 5) under filter type 0, then
      (1, 1, 1) under filter type 2 (Up). */
  const UpScanlines: seq<Byte> := [0, 5, 5, 5, 2, 1, 1, 1]

  function Truecolour(width: U32, height: U32): IhdrInfo
  {
    IhdrInfo(width, height, 8, 2, 0, 0, 0)
  }

  /** `convert_to_rows` ends in `Vec::new()`: a valid one-pixel image comes
      back with no rows, where its one row holds the pixel. */
  lemma RowsDiscarded()
    ensures ConvertOutcome(Truecolour(1, 1), OnePixel) == Ok([])
    ensures DecodeImage(Truecolour(1, 1), OnePixel) == Ok([[[7, 7, 7, 0]]])
  {
    var zero := ZeroRow(1);
    var p0 := UnfilteredPixel(0, RawPixel(OnePixel, 1, 0), PixelAt([], -1), PixelAt(zero, 0), PixelAt(zero, -1));
    SamePixel(p0, [7, 7, 7, 0]);
    var row := UnfilterRow(0, OnePixel, 1, zero);
    assert row == [p0] by {
      assert UnfilterPrefix(0, OnePixel, 1, zero, 0) == [];
    }
    assert RowFailure(1, OnePixel, 0) == None;
    assert Stride(1) == 4;
    assert DecodeRows(1, 1, OnePixel, 1, row) == Ok([]);
    assert [row] + [] == [row];
    assert DecodeRows(1, 1, OnePixel, 0, zero) == Ok([row]);
  }

  /** Reconstructing `SubScanline` from its stored (1, 1, 1) pixels gives
      (1, 1, 1), (2, 2, 2), (3, 3, 3). */
  lemma SubScanlineDecoded()
    ensures DecodeImage(Truecolour(3, 1), SubScanline) == Ok([[[1, 1, 1, 0], [2, 2, 2, 0], [3, 3, 3, 0]]])
  {
    var stored: Rgba := [1, 1, 1, 0];
    assert RawPixel(SubScanline, 1, 0) == stored;
    assert RawPixel(SubScanline, 1, 1) == stored;
    assert RawPixel(SubScanline, 1, 2) == stored;
    var zero := ZeroRow(3);
    var p0 := UnfilteredPixel(1, stored, PixelAt([], -1), PixelAt(zero, 0), PixelAt(zero, -1));
    SamePixel(p0, [1, 1, 1, 0]);
    var p1 := UnfilteredPixel(1, stored, PixelAt([p0], 0), PixelAt(zero, 1), PixelAt(zero, 0));
    SamePixel(p1, [2, 2, 2, 0]);
    var p2 := UnfilteredPixel(1, stored, PixelAt([p0, p1], 1), PixelAt(zero, 2), PixelAt(zero, 1));
    SamePixel(p2, [3, 3, 3, 0]);
    assert UnfilterPrefix(1, SubScanline, 1, zero, 1) == [p0] by {
      assert UnfilterPrefix(1, SubScanline, 1, zero, 0) == [];
    }
    assert UnfilterPrefix(1, SubScanline, 1, zero, 2) == [p0, p1];
    var row := UnfilterRow(1, SubScanline, 1, zero);
    assert row == [p0, p1, p2];
    assert Stride(3) == 10;
    assert RowFailure(3, SubScanline, 0) == None;
    assert DecodeRows(3, 1, SubScanline, 1, row) == Ok([]);
    assert [row] + [] == [row];
    assert DecodeRows(3, 1, SubScanline, 0, zero) == Ok([row]);
  }

  /** `prev = pix` hands `filter_pixel` the STORED left pixel: under Sub the
      third pixel of a row of stored (1, 1, 1) comes out (2, 2, 2), where
      reconstruction gives (3, 3, 3) — the left pixel is (2, 2, 2) once
      reconstructed. */
  lemma LeftIsStoredPixel(built: seq<Row>)
    requires |built| == 1 && ScanlinesBuilt(3, SubScanline, built)
    ensures ConvertOutcome(Truecolour(3, 1), SubScanline) == Ok([])
    ensures built[0][2] == [2, 2, 2, 0]
    ensures DecodeImage(Truecolour(3, 1), SubScanline) == Ok([[[1, 1, 1, 0], [2, 2, 2, 0], [3, 3, 3, 0]]])
  {
    var stored: Rgba := [1, 1, 1, 0];
    assert RawPixel(SubScanline, 1, 2) == stored;
    assert ScanlineBuilt(3, SubScanline, 0, built[0]);
    assert built[0][2] == UnfilteredPixel(1, stored, stored, ZeroRgba, ZeroRgba);
    SamePixel(built[0][2], [2, 2, 2, 0]);
    assert FirstRowFailure(3, 1, SubScanline, 0) == None by {
      assert RowFailure(3, SubScanline, 0) == None;
    }
    SubScanlineDecoded();
  }

  /** Reconstructing `UpScanlines` adds the pixel above to the stored
      (1, 1, 1) of the second scanline. */
  lemma UpScanlinesDecoded()
    ensures DecodeImage(Truecolour(1, 2), UpScanlines) == Ok([[[5, 5, 5, 0]], [[6, 6, 6, 0]]])
  {
    var top: Rgba := [5, 5, 5, 0];
    var stored: Rgba := [1, 1, 1, 0];
    assert RawPixel(UpScanlines, 1, 0) == top;
    assert RawPixel(UpScanlines, 5, 0) == stored;
    var zero := ZeroRow(1);
    var p0 := UnfilteredPixel(0, top, PixelAt([], -1), PixelAt(zero, 0), PixelAt(zero, -1));
    SamePixel(p0, top);
    var first := UnfilterRow(0, UpScanlines, 1, zero);
    assert first == [p0] by {
      assert UnfilterPrefix(0, UpScanlines, 1, zero, 0) == [];
    }
    var q0 := UnfilteredPixel(2, stored, PixelAt([], -1), PixelAt(first, 0), PixelAt(first, -1));
    SamePixel(q0, [6, 6, 6, 0]);
    var second := UnfilterRow(2, UpScanlines, 5, first);
    assert second == [q0] by {
      assert UnfilterPrefix(2, UpScanlines, 5, first, 0) == [];
    }
    assert Stride(1) == 4;
    assert RowFailure(1, UpScanlines, 0) == None;
    assert RowFailure(1, UpScanlines, 1) == None;
    assert DecodeRows(1, 2, UpScanlines, 2, second) == Ok([]);
    assert [second] + [] == [second];
    assert DecodeRows(1, 2, UpScanlines, 1, first) == Ok([second]);
    assert [first] + [second] == [first, second];
    assert DecodeRows(1, 2, UpScanlines, 0, zero) == Ok([first, second]);
  }

  /** `prev_scan_line` is never written: under Up the second scanline of
      stored (1, 1, 1) below (5, 5, 5) comes out (1, 1, 1), where
      reconstruction gives (6, 6, 6). */
  lemma UpIsAlwaysZero(built: seq<Row>)
    requires |built| == 2 && ScanlinesBuilt(1, UpScanlines, built)
    ensures ConvertOutcome(Truecolour(1, 2), UpScanlines) == Ok([])
    ensures built[1] == [[1, 1, 1, 0]]
    ensures DecodeImage(Truecolour(1, 2), UpScanlines) == Ok([[[5, 5, 5, 0]], [[6, 6, 6, 0]]])
  {
    var stored: Rgba := [1, 1, 1, 0];
    assert RawPixel(UpScanlines, 5, 0) == stored;
    assert ScanlineBuilt(1, UpScanlines, 1, built[1]);
    assert built[1][0] == UnfilteredPixel(2, stored, ZeroRgba, ZeroRgba, ZeroRgba);
    SamePixel(built[1][0], stored);
    assert built[1] == [stored];
    assert FirstRowFailure(1, 2, UpScanlines, 0) == None by {
      assert RowFailure(1, UpScanlines, 0) == None;
      assert RowFailure(1, UpScanlines, 1) == None;
    }
    UpScanlinesDecoded();
  }
}

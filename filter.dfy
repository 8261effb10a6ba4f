/** Per-pixel reconstruction: `filter_pixel` undoes one of the five PNG
    filter types (sections 9.2 to 9.4 of the PNG specification) on the three
    colour channels of a pixel, using `paeth_predictor` for type 4. */
module Filter {
  import opened Bytes

  /** `RGBA`: four channel bytes; the decoder fills red, green and blue and
      leaves alpha 0. */
  type Rgba = s: seq<Byte> | |s| == 4 witness [0, 0, 0, 0]

  /** `ZERO_RGBA`. */
  const ZeroRgba: Rgba := [0, 0, 0, 0]

  /** `filter_pixel` panicked: the filter type is not one of 0 to 4. */
  datatype FilterError = BadFilterType(filterType: Byte)

  /** `u8::wrapping_add`. */
  function WrappingAdd(x: Byte, y: Byte): (r: Byte)
    ensures r == x + y || r == x + y - 0x100
  {
    (x as int + y) % 0x100
  }

  function Abs(x: int): (r: nat)
    ensures r == x || r == -x
  {
    if x < 0 then -x else x
  }

  /** `paeth_predictor`, on the byte values `filter_pixel` gives it. The
      arithmetic is on `int`; the original's `i32` cannot overflow here
      (`p` lies in -255..510) and the final `as u8` keeps the value, since
      the result is one of the three inputs. It returns the input nearest to
      the estimate `a + b - c`, and reduces to the left byte on the first
      row and to the upper byte in the first column. */
  function PaethPredictor(a: Byte, b: Byte, c: Byte): (r: Byte)
    ensures r == a || r == b || r == c
    ensures Abs(a + b - c - r) <= Abs(b - c)
    ensures Abs(a + b - c - r) <= Abs(a - c)
    ensures Abs(a + b - c - r) <= Abs(a + b - 2 * c)
    ensures b == 0 && c == 0 ==> r == a
    ensures a == 0 && c == 0 ==> r == b
  {
    var p: int := a + b - c;
    var pa := Abs(p - a);
    var pb := Abs(p - b);
    var pc := Abs(p - c);
    if pa <= pb && pa <= pc then a
    else if pb <= pc then b
    else c
  }

  /** Among `candidates`, the first whose distance to `p` is least. */
  function Nearest(p: int, candidates: seq<int>): int
    requires |candidates| > 0
    decreases |candidates|
  {
    if |candidates| == 1 then candidates[0]
    else
      var rest := Nearest(p, candidates[1..]);
      if Abs(p - candidates[0]) <= Abs(p - rest) then candidates[0] else rest
  }

  /** `Nearest` picks one of the candidates, and none is nearer to `p`. */
  lemma {:induction false} NearestIsNearest(p: int, candidates: seq<int>)
    requires |candidates| > 0
    ensures Nearest(p, candidates) in candidates
    ensures forall x :: x in candidates ==> Abs(p - Nearest(p, candidates)) <= Abs(p - x)
    decreases |candidates|
  {
    if |candidates| > 1 {
      NearestIsNearest(p, candidates[1..]);
      assert candidates == [candidates[0]] + candidates[1..];
    }
  }

  /** The Paeth tie-break is fixed: of the three neighbours, the predictor
      is the first, in the order left, up, upper-left, that is nearest to
      `a + b - c`. */
  lemma PaethIsNearest(a: Byte, b: Byte, c: Byte)
    ensures PaethPredictor(a, b, c) == Nearest(a + b - c, [a, b, c])
  {
    var p := a + b - c;
    assert [a, b, c][1..] == [b, c];
    assert [b, c][1..] == [c];
    assert Nearest(p, [c]) == c;
    assert Nearest(p, [b, c]) == if Abs(p - b) <= Abs(p - c) then b else c;
  }

  /** Two pixels with the same four channels are the same pixel. */
  lemma SamePixel(p: Rgba, q: Rgba)
    requires p[0] == q[0] && p[1] == q[1] && p[2] == q[2] && p[3] == q[3]
    ensures p == q
  {
    forall k | 0 <= k < 4
      ensures p[k] == q[k]
    {
      if k == 0 {} else if k == 1 {} else if k == 2 {} else {}
    }
  }

  /** What filter type `filterType` (0 to 4) adds to a stored byte, given
      the neighbours' bytes: nothing, left, up, the floor of their mean, or
      the Paeth predictor. */
  function Predictor(filterType: Byte, left: Byte, up: Byte, upleft: Byte): Byte
    requires filterType <= 4
  {
    match filterType
    case 0 => 0
    case 1 => left
    case 2 => up
    case 3 => (left as int + up) / 2
    case _ => PaethPredictor(left, up, upleft)
  }

  /** The pixel `filter_pixel` returns: each colour channel is the stored
      byte plus the predictor modulo 256; alpha is 0. */
  function UnfilteredPixel(filterType: Byte, pix: Rgba, left: Rgba, up: Rgba, upleft: Rgba): Rgba
    requires filterType <= 4
  {
    seq(4, k requires 0 <= k < 4 =>
      if k < 3 then WrappingAdd(pix[k], Predictor(filterType, left[k], up[k], upleft[k])) else 0)
  }

  /** The encoder's side, which the decoder inverts: each colour channel is
      the pixel's byte minus the predictor modulo 256. */
  function FilteredPixel(filterType: Byte, pix: Rgba, left: Rgba, up: Rgba, upleft: Rgba): Rgba
    requires filterType <= 4
  {
    seq(4, k requires 0 <= k < 4 =>
      if k < 3 then (pix[k] as int - Predictor(filterType, left[k], up[k], upleft[k])) % 0x100 else 0)
  }

  /** Filtering and unfiltering with the same neighbours are inverse, for
      every filter type: modulo-256 addition undoes modulo-256 subtraction
      whatever the predictor. Alpha is not carried, so it must be 0. */
  lemma FilterRoundTrip(filterType: Byte, pix: Rgba, left: Rgba, up: Rgba, upleft: Rgba)
    requires filterType <= 4
    requires pix[3] == 0
    ensures UnfilteredPixel(filterType, FilteredPixel(filterType, pix, left, up, upleft), left, up, upleft) == pix
    ensures FilteredPixel(filterType, UnfilteredPixel(filterType, pix, left, up, upleft), left, up, upleft) == pix
  {
    var f := FilteredPixel(filterType, pix, left, up, upleft);
    var u := UnfilteredPixel(filterType, pix, left, up, upleft);
    forall k | 0 <= k < 3
      ensures UnfilteredPixel(filterType, f, left, up, upleft)[k] == pix[k]
      ensures FilteredPixel(filterType, u, left, up, upleft)[k] == pix[k]
    {
      var p := Predictor(filterType, left[k], up[k], upleft[k]);
      assert f[k] == (pix[k] as int - p) % 0x100;
      assert u[k] == (pix[k] as int + p) % 0x100;
    }
  }

  /** `filter_pixel`: fills channels 0, 1 and 2 of a zero pixel one at a
      time, matching on the filter type each time; an unknown type panics in
      the original on the first channel and is an error here. */
  method FilterPixel(filterType: Byte, pix: Rgba, left: Rgba, up: Rgba, upleft: Rgba)
    returns (r: Result<Rgba, FilterError>)
    ensures r.Ok? <==> filterType <= 4
    ensures r.Err? ==> r.error == BadFilterType(filterType)
    ensures r.Ok? ==> r.value[3] == 0
    ensures r.Ok? ==> forall k :: 0 <= k < 3 ==>
      r.value[k] == (pix[k] as int + Predictor(filterType, left[k], up[k], upleft[k])) % 0x100
    ensures r.Ok? ==> r.value == UnfilteredPixel(filterType, pix, left, up, upleft)
  {
    var build := ZeroRgba;
    for i := 0 to 3
      invariant build[3] == 0
      invariant i > 0 ==> filterType <= 4
      invariant forall k :: 0 <= k < i ==>
        build[k] == WrappingAdd(pix[k], Predictor(filterType, left[k], up[k], upleft[k]))
    {
      var v: Byte;
      match filterType {
        case 0 => v := pix[i];
        case 1 => v := WrappingAdd(pix[i], left[i]);
        case 2 => v := WrappingAdd(pix[i], up[i]);
        // the u32 sum cannot overflow, and after `>> 1` the `as u8` is exact
        case 3 => v := WrappingAdd(pix[i], (left[i] as int + up[i]) / 2);
        case 4 => v := WrappingAdd(pix[i], PaethPredictor(left[i], up[i], upleft[i]));
        case _ => return Err(BadFilterType(filterType));
      }
      build := build[i := v];
    }
    return Ok(build);
  }
}

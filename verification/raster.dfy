/** Painting a rectangle of a decoded RGBA image white (`clampInt`, `fillRectWhite`), which the
    vectorisation scripts use to blank out each recognised word before tracing. */
module Raster {

  /** One channel value of the decoded image. */
  type Byte = b: int | 0 <= b < 256

  function Min(a: int, b: int): int {
    if a <= b then a else b
  }

  function Max(a: int, b: int): int {
    if a <= b then b else a
  }

  /** `clampInt`: `Math.max(min, Math.min(max, value))`. When `lo > hi` the lower bound wins. */
  function ClampInt(value: int, lo: int, hi: int): (r: int)
    ensures lo <= hi ==> lo <= r <= hi
    ensures lo <= value <= hi ==> r == value
    ensures value < lo ==> r == lo
    ensures lo <= hi < value ==> r == hi
    ensures hi < lo ==> r == lo
  {
    Max(lo, Min(hi, value))
  }

  /** Clamping never reverses the order of two values. */
  lemma ClampIntMonotone(a: int, b: int, lo: int, hi: int)
    requires a <= b
    ensures ClampInt(a, lo, hi) <= ClampInt(b, lo, hi)
  {
  }

  /** The inclusive pixel rectangle the loops of `fillRectWhite` cover. */
  datatype Rect = Rect(left: int, right: int, top: int, bottom: int)

  /** The corners sorted per axis, then clamped into the image. */
  function ClampedRect(width: nat, height: nat, x0: int, y0: int, x1: int, y1: int): (r: Rect)
    ensures r.left <= r.right && r.top <= r.bottom
    ensures 0 <= r.left && 0 <= r.top
    ensures width > 0 ==> r.right < width
    ensures height > 0 ==> r.bottom < height
  {
    ClampIntMonotone(Min(x0, x1), Max(x0, x1), 0, width - 1);
    ClampIntMonotone(Min(y0, y1), Max(y0, y1), 0, height - 1);
    Rect(ClampInt(Min(x0, x1), 0, width - 1), ClampInt(Max(x0, x1), 0, width - 1),
         ClampInt(Min(y0, y1), 0, height - 1), ClampInt(Max(y0, y1), 0, height - 1))
  }

  /** Which corner is given first does not matter. */
  lemma ClampedRectSwap(width: nat, height: nat, x0: int, y0: int, x1: int, y1: int)
    ensures ClampedRect(width, height, x0, y0, x1, y1) == ClampedRect(width, height, x1, y1, x0, y0)
  {
  }

  // ----- pixels of the byte array -----------------------------------------------------------------

  /** The column of the pixel byte `i` belongs to; four bytes per pixel, rows of `width` pixels. */
  function PixelX(width: nat, i: nat): nat
    requires width > 0
  {
    (i / 4) % width
  }

  function PixelY(width: nat, i: nat): nat
    requires width > 0
  {
    (i / 4) / width
  }

  /** The first byte of pixel (x, y): `(width * y + x) << 2`. */
  function PixelIndex(width: nat, x: int, y: int): int {
    4 * (width * y + x)
  }

  predicate Covers(r: Rect, width: nat, i: nat) {
    width > 0 && r.left <= PixelX(width, i) <= r.right && r.top <= PixelY(width, i) <= r.bottom
  }

  /** The image with every byte of every pixel inside `r` set to 255 and nothing else changed. */
  function Whitened(data: seq<Byte>, width: nat, r: Rect): (out: seq<Byte>)
    ensures |out| == |data|
  {
    seq(|data|, i requires 0 <= i < |data| => if Covers(r, width, i) then 255 else data[i])
  }

  // ----- arithmetic of the pixel index ------------------------------------------------------------

  lemma MulAtLeast(d: nat, k: int)
    requires k >= 1
    ensures d * k >= d
  {
    assert d * k == d * (k - 1) + d;
  }

  /** Quotient and remainder are determined by any decomposition with a remainder in range. */
  lemma DivModUnique(n: int, d: int, q: int, r: int)
    requires d > 0 && 0 <= r < d && n == d * q + r
    ensures n / d == q && n % d == r
  {
    var q', r' := n / d, n % d;
    assert d * (q - q') == r' - r;
    if q > q' {
      MulAtLeast(d, q - q');
    } else if q < q' {
      MulAtLeast(d, q' - q);
    }
  }

  /** The bytes of pixel (x, y) are exactly the four from its first byte on. */
  lemma PixelOfByte(width: nat, x: nat, y: nat, i: nat)
    requires 0 < width && x < width
    ensures PixelX(width, i) == x && PixelY(width, i) == y <==>
      PixelIndex(width, x, y) <= i < PixelIndex(width, x, y) + 4
  {
    var p := width * y + x;
    if PixelIndex(width, x, y) <= i < PixelIndex(width, x, y) + 4 {
      DivModUnique(i, 4, p, i - 4 * p);
      DivModUnique(p, width, y, x);
    }
    if PixelX(width, i) == x && PixelY(width, i) == y {
      assert i / 4 == width * (i / 4 / width) + (i / 4) % width;
    }
  }

  /** Every byte of a pixel inside the image lies inside the byte array. */
  lemma PixelIndexBound(width: nat, height: nat, x: nat, y: nat)
    requires x < width && y < height
    ensures PixelIndex(width, x, y) + 3 < 4 * width * height
  {
    MulAtLeast(width, height - y);
    assert width * height == width * y + width * (height - y);
  }

  // ----- the fill ---------------------------------------------------------------------------------

  /** `png.data[i] = v`: a typed-array store, which does nothing outside the array. */
  function Store(data: seq<Byte>, i: int, v: Byte): (r: seq<Byte>)
    ensures |r| == |data|
    ensures forall k :: 0 <= k < |r| ==> r[k] == if k == i then v else data[k]
  {
    if 0 <= i < |data| then data[i := v] else data
  }

  /** The four stores of one pixel. */
  function WhitenPixel(data: seq<Byte>, idx: int): (r: seq<Byte>)
    ensures |r| == |data|
    ensures forall k :: 0 <= k < |r| ==> r[k] == if idx <= k < idx + 4 then 255 else data[k]
  {
    Store(Store(Store(Store(data, idx, 255), idx + 1, 255), idx + 2, 255), idx + 3, 255)
  }

  /** Pixel `i` is already painted once the loops have reached row `y`, column `x`. */
  predicate Painted(r: Rect, width: nat, i: nat, y: int, x: int) {
    Covers(r, width, i) && (PixelY(width, i) < y || (PixelY(width, i) == y && PixelX(width, i) < x))
  }

  /** `fillRectWhite`: rows `top..bottom`, and in each row columns `left..right`, are painted white.
      The result does not depend on which corner comes first. */
  method FillRectWhite(data: seq<Byte>, width: nat, height: nat, x0: int, y0: int, x1: int, y1: int)
    returns (out: seq<Byte>)
    requires |data| == 4 * width * height
    ensures out == Whitened(data, width, ClampedRect(width, height, x0, y0, x1, y1))
    ensures out == Whitened(data, width, ClampedRect(width, height, x1, y1, x0, y0))
  {
    var left := ClampInt(Min(x0, x1), 0, width - 1);
    var right := ClampInt(Max(x0, x1), 0, width - 1);
    var top := ClampInt(Min(y0, y1), 0, height - 1);
    var bottom := ClampInt(Max(y0, y1), 0, height - 1);
    var r := Rect(left, right, top, bottom);
    assert r == ClampedRect(width, height, x0, y0, x1, y1);
    out := data;
    var y := top;
    while y <= bottom
      invariant top <= y <= bottom + 1
      invariant |out| == |data|
      invariant forall i :: 0 <= i < |out| ==> out[i] == if Painted(r, width, i, y, left) then 255 else data[i]
    {
      var x := left;
      while x <= right
        invariant left <= x <= right + 1
        invariant |out| == |data|
        invariant forall i :: 0 <= i < |out| ==> out[i] == if Painted(r, width, i, y, x) then 255 else data[i]
      {
        var idx := PixelIndex(width, x, y);
        out := WhitenPixel(out, idx);
        forall i | 0 <= i < |out|
          ensures out[i] == if Painted(r, width, i, y, x + 1) then 255 else data[i]
        {
          PixelOfByte(width, x, y, i);
          if idx <= i < idx + 4 {
            PixelIndexBound(width, height, x, y);
          }
        }
        x := x + 1;
      }
      y := y + 1;
    }
    ClampedRectSwap(width, height, x0, y0, x1, y1);
  }

  /** In pixel coordinates: the four bytes of a pixel inside the clamped rectangle are 255 and
      every byte of every other pixel is as it was. */
  lemma WhitenedPixel(data: seq<Byte>, width: nat, height: nat, x0: int, y0: int, x1: int, y1: int,
                      x: nat, y: nat, c: nat)
    requires |data| == 4 * width * height
    requires x < width && y < height && c < 4
    ensures var r := ClampedRect(width, height, x0, y0, x1, y1);
      var i := PixelIndex(width, x, y) + c;
      && i < |data|
      && Whitened(data, width, r)[i] ==
        if r.left <= x <= r.right && r.top <= y <= r.bottom then 255 else data[i]
  {
    PixelIndexBound(width, height, x, y);
    PixelOfByte(width, x, y, PixelIndex(width, x, y) + c);
  }
}

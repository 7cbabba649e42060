/** The two per-pixel filters that rewrite an `ImageData` buffer in place:
    "Black & White" (every colour channel becomes the mean of the three) and
    "Remove Background" (near-white pixels become fully transparent).

    Each filter is given twice: as a pure function over the whole buffer,
    which is what the rest of the model uses, and as a method whose loop
    walks the buffer four bytes at a time as the handlers do; the method is
    proved to compute the function. */
module Filters {
  import opened Raster

  /** A colour channel counts as white above this value. */
  const WhiteThreshold: int := 240

  /** The mean of three channels as stored into a `Uint8ClampedArray`, which
      rounds to the nearest integer. The exact mean has a fractional part of
      0, 1/3 or 2/3, so there is never a tie to break. */
  function Mean(r: Byte, g: Byte, b: Byte): (m: Byte)
    ensures 3 * m - 1 <= r + g + b <= 3 * m + 1
  {
    (r + g + b + 1) / 3
  }

  /** The rounding window in `Mean`'s contract admits one integer only, so the
      contract pins the stored value down completely. */
  lemma MeanIsNearest(r: Byte, g: Byte, b: Byte, m: int)
    requires 3 * m - 1 <= r + g + b <= 3 * m + 1
    ensures m == Mean(r, g, b)
  {
  }

  lemma MeanOfGray(v: Byte)
    ensures Mean(v, v, v) == v
  {
  }

  /** Whether the background filter treats a pixel as background. */
  predicate NearWhite(px: Rgba) {
    px.r > WhiteThreshold && px.g > WhiteThreshold && px.b > WhiteThreshold
  }

  /** One pixel after "Black & White": the rounded mean in every colour
      channel, alpha kept. */
  function GrayPixel(px: Rgba): Rgba {
    var m := Mean(px.r, px.g, px.b);
    Rgba(m, m, m, px.a)
  }

  /** One pixel after "Remove Background": a near-white pixel loses its
      alpha, any other pixel is kept. */
  function ClearPixel(px: Rgba): Rgba {
    if NearWhite(px) then px.(a := 0) else px
  }

  /** The "Black & White" filter over a whole buffer. */
  function Grayscale(d: seq<Byte>): (r: seq<Byte>)
    requires WholePixels(d)
    ensures |r| == |d| && WholePixels(r)
    ensures forall p :: 0 <= p < PixelCount(d) ==>
      && PixelAt(r, p).a == PixelAt(d, p).a
      && PixelAt(r, p).r == PixelAt(r, p).g == PixelAt(r, p).b
      && PixelAt(r, p).r == Mean(PixelAt(d, p).r, PixelAt(d, p).g, PixelAt(d, p).b)
  {
    MapPixels(d, GrayPixel)
  }

  /** The "Remove Background" filter over a whole buffer. */
  function RemoveBackground(d: seq<Byte>): (r: seq<Byte>)
    requires WholePixels(d)
    ensures |r| == |d| && WholePixels(r)
    ensures forall p :: 0 <= p < PixelCount(d) ==>
      && PixelAt(r, p).r == PixelAt(d, p).r
      && PixelAt(r, p).g == PixelAt(d, p).g
      && PixelAt(r, p).b == PixelAt(d, p).b
      && (NearWhite(PixelAt(d, p)) ==> PixelAt(r, p).a == 0)
      && (!NearWhite(PixelAt(d, p)) ==> PixelAt(r, p).a == PixelAt(d, p).a)
  {
    MapPixels(d, ClearPixel)
  }

  /** The grayscale loop of `handleBW`: one pass, four bytes per step, each
      pixel's mean taken before any of its channels is overwritten. */
  method GrayscaleLoop(d: seq<Byte>) returns (out: seq<Byte>)
    requires WholePixels(d)
    ensures out == Grayscale(d)
  {
    out := d;
    var i := 0;
    ghost var p := 0;
    assert |d| == 4 * PixelCount(d);
    while i < |out|
      invariant 0 <= p <= PixelCount(d) && i == 4 * p && |out| == |d|
      invariant forall q :: 0 <= q < p ==> PixelAt(out, q) == GrayPixel(PixelAt(d, q))
      invariant forall j :: i <= j < |d| ==> out[j] == d[j]
    {
      var avg := Mean(out[i], out[i + 1], out[i + 2]);
      out := out[i := avg][i + 1 := avg][i + 2 := avg];
      assert PixelAt(out, p) == GrayPixel(PixelAt(d, p));
      i := i + 4;
      p := p + 1;
    }
    PixelExt(out, Grayscale(d));
  }

  /** The background loop of `handleRemoveBg`: one pass, four bytes per step,
      writing only the alpha byte of a near-white pixel. */
  method RemoveBackgroundLoop(d: seq<Byte>) returns (out: seq<Byte>)
    requires WholePixels(d)
    ensures out == RemoveBackground(d)
  {
    out := d;
    var i := 0;
    ghost var p := 0;
    assert |d| == 4 * PixelCount(d);
    while i < |out|
      invariant 0 <= p <= PixelCount(d) && i == 4 * p && |out| == |d|
      invariant forall q :: 0 <= q < p ==> PixelAt(out, q) == ClearPixel(PixelAt(d, q))
      invariant forall j :: i <= j < |d| ==> out[j] == d[j]
    {
      if out[i] > WhiteThreshold && out[i + 1] > WhiteThreshold && out[i + 2] > WhiteThreshold {
        out := out[i + 3 := 0];
      }
      assert PixelAt(out, p) == ClearPixel(PixelAt(d, p));
      i := i + 4;
      p := p + 1;
    }
    PixelExt(out, RemoveBackground(d));
  }

  /** Applying "Black & White" to its own output changes nothing. */
  lemma GrayscaleIdempotent(d: seq<Byte>)
    requires WholePixels(d)
    ensures Grayscale(Grayscale(d)) == Grayscale(d)
  {
    var g := Grayscale(d);
    var gg := Grayscale(g);
    forall p | 0 <= p < PixelCount(g)
      ensures PixelAt(gg, p) == PixelAt(g, p)
    {
      var px := PixelAt(g, p);
      MeanOfGray(px.r);
      assert GrayPixel(px) == px;
    }
    PixelExt(gg, g);
  }

  /** A buffer whose every pixel is already gray (black and white included)
      comes out of "Black & White" unchanged. */
  lemma GrayscaleFixesGray(d: seq<Byte>)
    requires WholePixels(d)
    requires forall p :: 0 <= p < PixelCount(d) ==> PixelAt(d, p).r == PixelAt(d, p).g == PixelAt(d, p).b
    ensures Grayscale(d) == d
  {
    var g := Grayscale(d);
    forall p | 0 <= p < PixelCount(d)
      ensures PixelAt(g, p) == PixelAt(d, p)
    {
      var px := PixelAt(d, p);
      MeanOfGray(px.r);
      assert GrayPixel(px) == px;
    }
    PixelExt(g, d);
  }

  /** Applying "Remove Background" to its own output changes nothing. */
  lemma RemoveBackgroundIdempotent(d: seq<Byte>)
    requires WholePixels(d)
    ensures RemoveBackground(RemoveBackground(d)) == RemoveBackground(d)
  {
    var c := RemoveBackground(d);
    forall p | 0 <= p < PixelCount(c)
      ensures PixelAt(RemoveBackground(c), p) == PixelAt(c, p)
    {
      assert PixelAt(c, p) == ClearPixel(PixelAt(d, p));
    }
    PixelExt(RemoveBackground(c), c);
  }

  /** A buffer with no near-white pixel comes out of "Remove Background"
      unchanged; an all-black buffer is one. */
  lemma RemoveBackgroundKeepsNonWhite(d: seq<Byte>)
    requires WholePixels(d)
    requires forall p :: 0 <= p < PixelCount(d) ==> !NearWhite(PixelAt(d, p))
    ensures RemoveBackground(d) == d
  {
    forall p | 0 <= p < PixelCount(d)
      ensures PixelAt(RemoveBackground(d), p) == PixelAt(d, p)
    {
      assert !NearWhite(PixelAt(d, p));
    }
    PixelExt(RemoveBackground(d), d);
  }
}

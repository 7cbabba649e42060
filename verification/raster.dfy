/** Decoded bitmaps as the canvas exposes them: a width, a height and a flat
    RGBA byte buffer (four bytes per pixel, red, green, blue, alpha, row by
    row), which is the layout of an `ImageData.data` array. The literal 4
    below is always that bytes-per-pixel count. */
module Raster {

  /** One element of a `Uint8ClampedArray`. */
  type Byte = b: int | 0 <= b < 256

  datatype Option<T> = None | Some(value: T)

  datatype Rgba = Rgba(r: Byte, g: Byte, b: Byte, a: Byte)

  datatype Image = Image(width: int, height: int, data: seq<Byte>)

  /** A decoded image: at least one pixel each way, and exactly four bytes for
      every pixel. */
  predicate Valid(img: Image) {
    && img.width >= 1
    && img.height >= 1
    && |img.data| == 4 * img.width * img.height
  }

  /** A byte buffer made of whole pixels. */
  predicate WholePixels(d: seq<Byte>) {
    |d| % 4 == 0
  }

  function PixelCount(d: seq<Byte>): int {
    |d| / 4
  }

  /** The `p`-th pixel of a flat buffer. */
  function PixelAt(d: seq<Byte>, p: int): (px: Rgba)
    requires 0 <= p < PixelCount(d)
  {
    Rgba(d[4 * p], d[4 * p + 1], d[4 * p + 2], d[4 * p + 3])
  }

  /** Channel `c` of a pixel, in buffer order. */
  function ChannelOf(px: Rgba, c: int): Byte {
    if c == 0 then px.r else if c == 1 then px.g else if c == 2 then px.b else px.a
  }

  /** The buffer obtained by replacing every pixel `px` of `d` with `f(px)`,
      the shape of a loop that visits each pixel once and rewrites it from
      its own channels only. */
  function MapPixels(d: seq<Byte>, f: Rgba -> Rgba): (r: seq<Byte>)
    requires WholePixels(d)
    ensures |r| == |d| && WholePixels(r)
    ensures forall p :: 0 <= p < PixelCount(d) ==> PixelAt(r, p) == f(PixelAt(d, p))
    decreases |d|
  {
    if |d| == 0 then []
    else
      var px := f(PixelAt(d, 0));
      var rest := MapPixels(d[4..], f);
      var r := [px.r, px.g, px.b, px.a] + rest;
      assert forall p :: 1 <= p < PixelCount(d) ==> PixelAt(r, p) == PixelAt(rest, p - 1) && PixelAt(d, p) == PixelAt(d[4..], p - 1);
      r
  }

  lemma SplitIndex(p: int, c: int)
    requires 0 <= c < 4
    ensures (4 * p + c) / 4 == p && (4 * p + c) % 4 == c
  {
  }

  /** Byte `j` of a buffer is channel `j % 4` of pixel `j / 4`. */
  lemma ByteOfPixel(d: seq<Byte>, j: int)
    requires WholePixels(d) && 0 <= j < |d|
    ensures 0 <= j / 4 < PixelCount(d)
    ensures d[j] == ChannelOf(PixelAt(d, j / 4), j % 4)
  {
    SplitIndex(j / 4, j % 4);
  }

  /** Two whole-pixel buffers of one length that agree pixel by pixel are
      equal. */
  lemma PixelExt(a: seq<Byte>, b: seq<Byte>)
    requires WholePixels(a) && |a| == |b|
    requires forall p :: 0 <= p < PixelCount(a) ==> PixelAt(a, p) == PixelAt(b, p)
    ensures a == b
  {
    forall j | 0 <= j < |a|
      ensures a[j] == b[j]
    {
      ByteOfPixel(a, j);
      ByteOfPixel(b, j);
    }
  }

  /** Position of channel `c` of pixel (x, y) in a buffer `width` pixels wide. */
  function Offset(width: int, x: int, y: int, c: int): int {
    (y * width + x) * 4 + c
  }

  lemma MulMonotone(a: int, b: int, k: int)
    requires 0 <= k && a <= b
    ensures a * k <= b * k
  {
  }

  /** Every in-range coordinate lands inside the buffer. */
  lemma OffsetInBounds(width: int, height: int, x: int, y: int, c: int)
    requires 0 <= x < width && 0 <= y < height && 0 <= c < 4
    ensures 0 <= Offset(width, x, y, c) < 4 * width * height
  {
    MulMonotone(y, height - 1, width);
    assert y * width + x <= (height - 1) * width + width - 1;
    assert (height - 1) * width + width == height * width;
    MulMonotone(y * width + x, height * width - 1, 4);
  }

  /** Every buffer position is the offset of exactly the coordinates that
      integer division recovers from it. */
  lemma OffsetDecompose(width: int, j: int)
    requires width >= 1 && 0 <= j
    ensures j == Offset(width, (j / 4) % width, (j / 4) / width, j % 4)
  {
    var p := j / 4;
    assert p == (p / width) * width + p % width;
  }

  /** Reading the coordinates back out of an offset gives the coordinates. */
  lemma OffsetRecover(width: int, x: int, y: int, c: int)
    requires 0 <= x < width && 0 <= y && 0 <= c < 4
    ensures var j := Offset(width, x, y, c);
      && j / 4 == y * width + x
      && j % 4 == c
      && (j / 4) % width == x
      && (j / 4) / width == y
  {
    var p := y * width + x;
    assert Offset(width, x, y, c) == p * 4 + c;
    assert (p * 4 + c) / 4 == p;
    assert (p * 4 + c) % 4 == c;
    assert p / width == y && p % width == x by {
      DivModUnique(p, width, y, x);
    }
  }

  lemma DivModUnique(n: int, d: int, q: int, r: int)
    requires d >= 1 && 0 <= r < d && n == q * d + r
    ensures n / d == q && n % d == r
  {
    var q' := n / d;
    if q' < q {
      MulMonotone(q' + 1, q, d);
      assert false;
    } else if q' > q {
      MulMonotone(q + 1, q', d);
      assert false;
    }
  }

  /** Channel `c` of pixel (x, y) of a valid image. */
  function At(img: Image, x: int, y: int, c: int): Byte
    requires Valid(img)
    requires 0 <= x < img.width && 0 <= y < img.height && 0 <= c < 4
  {
    OffsetInBounds(img.width, img.height, x, y, c);
    img.data[Offset(img.width, x, y, c)]
  }

  /** Channel `c` of pixel (x, y), made total so that it can be handed
      around as a painter: off the image it gives 0, a value no caller ever
      reads, since crops only read inside their clamped region. */
  function Sample(img: Image, x: int, y: int, c: int): (b: Byte)
    ensures Valid(img) && 0 <= x < img.width && 0 <= y < img.height && 0 <= c < 4 ==> b == At(img, x, y, c)
  {
    if 0 <= x < img.width && 0 <= y < img.height && 0 <= c < 4 && |img.data| == 4 * img.width * img.height
    then At(img, x, y, c)
    else 0
  }

  /** Two valid images of the same size that agree on every channel of every
      pixel are the same image. */
  lemma {:induction false} ImageExt(a: Image, b: Image)
    requires Valid(a) && Valid(b)
    requires a.width == b.width && a.height == b.height
    requires forall x, y, c :: 0 <= x < a.width && 0 <= y < a.height && 0 <= c < 4 ==> At(a, x, y, c) == At(b, x, y, c)
    ensures a == b
  {
    forall j | 0 <= j < |a.data|
      ensures a.data[j] == b.data[j]
    {
      var x, y, c := (j / 4) % a.width, (j / 4) / a.width, j % 4;
      OffsetDecompose(a.width, j);
      CoordinatesInRange(a.width, a.height, j);
      assert At(a, x, y, c) == At(b, x, y, c);
    }
  }

  /** The coordinates recovered from an in-buffer position are in range. */
  lemma CoordinatesInRange(width: int, height: int, j: int)
    requires width >= 1 && height >= 1 && 0 <= j < 4 * width * height
    ensures 0 <= (j / 4) % width < width
    ensures 0 <= (j / 4) / width < height
  {
    var p := j / 4;
    assert p < width * height;
    if p / width >= height {
      MulMonotone(height, p / width, width);
      assert false;
    }
  }
}

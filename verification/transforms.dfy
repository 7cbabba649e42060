/** The five edits of the photo editor as functions from a decoded image to
    the decoded image the canvas holds afterwards.

    Crop copies a region at one-to-one scale, so its pixels are modelled as
    a copy of the clamped region. Resize and Pixelate scale through
    `drawImage`, whose filtering the browser defines; the browser's painting
    is therefore a parameter of those two edits, and the model promises only
    what the handlers fix: the canvas size, and that every pixel is what the
    browser painted there. */
module Transforms {
  import opened Raster
  import opened Geometry
  import Filters

  /** What a `drawImage` call leaves in channel `c` of canvas pixel (x, y). */
  type Painter = (int, int, int) -> Byte

  /** The browser scaling a whole source image onto a `width` x `height`
      canvas (the `drawImage` of `handleResize`). */
  type Scaler = (Image, int, int) -> Painter

  /** The browser drawing a source image shrunk by a block size and then
      stretched back without smoothing (the two `drawImage` calls of
      `handlePixelate`). */
  type Pixelator = (Image, int) -> Painter

  /** A `width` x `height` canvas holding what `paint` puts in each channel. */
  function Paint(width: int, height: int, paint: Painter): (r: Image)
    requires width >= 1 && height >= 1
    ensures Valid(r) && r.width == width && r.height == height
  {
    Image(width, height, seq(4 * width * height, j requires 0 <= j < 4 * width * height =>
      paint((j / 4) % width, (j / 4) / width, j % 4)))
  }

  /** Each channel of a painted canvas is what the painter put there. */
  lemma PaintAt(width: int, height: int, paint: Painter, x: int, y: int, c: int)
    requires width >= 1 && height >= 1
    requires 0 <= x < width && 0 <= y < height && 0 <= c < 4
    ensures At(Paint(width, height, paint), x, y, c) == paint(x, y, c)
  {
    var j := Offset(width, x, y, c);
    OffsetRecover(width, x, y, c);
    OffsetInBounds(width, height, x, y, c);
    assert Paint(width, height, paint).data[j] == paint((j / 4) % width, (j / 4) / width, j % 4);
  }

  /** The source channel a crop copies into pixel (x, y) of its canvas: the
      region's origin is drawn at the canvas origin, one to one. */
  function CropSource(img: Image, region: Rect): Painter {
    (x: int, y: int, c: int) => Sample(img, region.x + x, region.y + y, c)
  }

  /** `handleCrop`: clamp the requested rectangle into the image, size the
      canvas to the clamped rectangle, and copy that region to the canvas
      origin at one-to-one scale. */
  function Crop(img: Image, req: Rect): (r: Image)
    requires Valid(img)
    ensures Valid(r)
    ensures 1 <= r.width <= img.width && 1 <= r.height <= img.height
    ensures var region := ClampCrop(req, img.width, img.height);
      r.width == region.width && r.height == region.height
  {
    var region := ClampCrop(req, img.width, img.height);
    Paint(region.width, region.height, CropSource(img, region))
  }

  /** Pixel (x, y) of a crop is pixel (x, y) of the clamped region of the
      source. */
  lemma CropCopiesRegion(img: Image, req: Rect, x: int, y: int, c: int)
    requires Valid(img)
    requires var region := ClampCrop(req, img.width, img.height);
      0 <= x < region.width && 0 <= y < region.height && 0 <= c < 4
    ensures var region := ClampCrop(req, img.width, img.height);
      && region.x + x < img.width && region.y + y < img.height
      && At(Crop(img, req), x, y, c) == At(img, region.x + x, region.y + y, c)
  {
    var region := ClampCrop(req, img.width, img.height);
    PaintAt(region.width, region.height, CropSource(img, region), x, y, c);
  }

  /** Cropping to the whole image gives the image back. */
  lemma {:induction false} CropWholeIsIdentity(img: Image)
    requires Valid(img)
    ensures Crop(img, Rect(0, 0, img.width, img.height)) == img
  {
    var r := Crop(img, Rect(0, 0, img.width, img.height));
    forall x, y, c | 0 <= x < img.width && 0 <= y < img.height && 0 <= c < 4
      ensures At(r, x, y, c) == At(img, x, y, c)
    {
      CropCopiesRegion(img, Rect(0, 0, img.width, img.height), x, y, c);
    }
    ImageExt(r, img);
  }

  /** Every pixel of an image filled with one colour. */
  ghost predicate Uniform(img: Image, px: Rgba)
    requires Valid(img)
  {
    forall x, y, c :: 0 <= x < img.width && 0 <= y < img.height && 0 <= c < 4 ==>
      At(img, x, y, c) == ChannelOf(px, c)
  }

  /** Any crop of a single-colour image is filled with that colour. */
  lemma CropOfUniform(img: Image, req: Rect, px: Rgba)
    requires Valid(img) && Uniform(img, px)
    ensures Uniform(Crop(img, req), px)
  {
    var r := Crop(img, req);
    forall x, y, c | 0 <= x < r.width && 0 <= y < r.height && 0 <= c < 4
      ensures At(r, x, y, c) == ChannelOf(px, c)
    {
      CropCopiesRegion(img, req, x, y, c);
    }
  }

  /** `handleResize`: the canvas takes the requested size floored at one
      pixel, whatever the source size, and holds the browser's scaling of
      the whole source onto it. */
  function Resize(img: Image, req: Size, scale: Scaler): (r: Image)
    requires Valid(img)
    ensures Valid(r)
    ensures r.width == ResizeTarget(req).width && r.height == ResizeTarget(req).height
    ensures forall x, y, c :: 0 <= x < r.width && 0 <= y < r.height && 0 <= c < 4 ==>
      At(r, x, y, c) == scale(img, r.width, r.height)(x, y, c)
  {
    var target := ResizeTarget(req);
    var r := Paint(target.width, target.height, scale(img, target.width, target.height));
    assert forall x, y, c :: 0 <= x < r.width && 0 <= y < r.height && 0 <= c < 4 ==>
      At(r, x, y, c) == scale(img, r.width, r.height)(x, y, c) by {
      forall x, y, c | 0 <= x < r.width && 0 <= y < r.height && 0 <= c < 4 {
        PaintAt(target.width, target.height, scale(img, target.width, target.height), x, y, c);
      }
    }
    r
  }

  /** `handlePixelate`: the canvas keeps the source's size for every block
      size, and holds the browser's shrink-and-stretch drawing. */
  function Pixelate(img: Image, blockSize: int, render: Pixelator): (r: Image)
    requires Valid(img)
    ensures Valid(r)
    ensures r.width == img.width && r.height == img.height
    ensures forall x, y, c :: 0 <= x < r.width && 0 <= y < r.height && 0 <= c < 4 ==>
      At(r, x, y, c) == render(img, blockSize)(x, y, c)
  {
    var r := Paint(img.width, img.height, render(img, blockSize));
    assert forall x, y, c :: 0 <= x < r.width && 0 <= y < r.height && 0 <= c < 4 ==>
      At(r, x, y, c) == render(img, blockSize)(x, y, c) by {
      forall x, y, c | 0 <= x < r.width && 0 <= y < r.height && 0 <= c < 4 {
        PaintAt(img.width, img.height, render(img, blockSize), x, y, c);
      }
    }
    r
  }

  /** A valid image's buffer is made of whole pixels. */
  lemma ValidWholePixels(img: Image)
    requires Valid(img)
    ensures WholePixels(img.data) && PixelCount(img.data) == img.width * img.height
  {
  }

  /** `handleBW`: the canvas keeps the source's size and holds the grayscale
      of its buffer. */
  function BlackAndWhite(img: Image): (r: Image)
    requires Valid(img)
    ensures Valid(r) && r.width == img.width && r.height == img.height
    ensures forall p :: 0 <= p < img.width * img.height ==>
      && PixelAt(r.data, p).a == PixelAt(img.data, p).a
      && PixelAt(r.data, p).r == PixelAt(r.data, p).g == PixelAt(r.data, p).b
      && PixelAt(r.data, p).r == Filters.Mean(PixelAt(img.data, p).r, PixelAt(img.data, p).g, PixelAt(img.data, p).b)
  {
    ValidWholePixels(img);
    img.(data := Filters.Grayscale(img.data))
  }

  /** `handleRemoveBg`: the canvas keeps the source's size and every
      near-white pixel becomes fully transparent. */
  function RemoveBackground(img: Image): (r: Image)
    requires Valid(img)
    ensures Valid(r) && r.width == img.width && r.height == img.height
    ensures forall p :: 0 <= p < img.width * img.height ==>
      && PixelAt(r.data, p).r == PixelAt(img.data, p).r
      && PixelAt(r.data, p).g == PixelAt(img.data, p).g
      && PixelAt(r.data, p).b == PixelAt(img.data, p).b
      && PixelAt(r.data, p).a == (if Filters.NearWhite(PixelAt(img.data, p)) then 0 else PixelAt(img.data, p).a)
  {
    ValidWholePixels(img);
    img.(data := Filters.RemoveBackground(img.data))
  }
}

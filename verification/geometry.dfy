/** The integer clamping that turns the numbers typed into the crop and resize
    fields into a legal rectangle or a legal canvas size. */
module Geometry {

  /** A crop request or a clamped crop region, in source pixels. */
  datatype Rect = Rect(x: int, y: int, width: int, height: int)

  /** A resize request: the target canvas width and height. */
  datatype Size = Size(width: int, height: int)

  function Min(a: int, b: int): int {
    if a <= b then a else b
  }

  function Max(a: int, b: int): int {
    if a >= b then a else b
  }

  /** A region with at least one pixel each way lying wholly inside a
      `width` x `height` image. */
  predicate Inside(r: Rect, width: int, height: int) {
    && 0 <= r.x && 1 <= r.width && r.x + r.width <= width
    && 0 <= r.y && 1 <= r.height && r.y + r.height <= height
  }

  /** The crop clamping of `handleCrop`: the origin is pulled into the image,
      then the size is cut to what remains right of and below the origin,
      with a floor of one pixel. */
  function ClampCrop(req: Rect, width: int, height: int): (r: Rect)
    requires width >= 1 && height >= 1
    ensures 0 <= r.x <= width - 1 && 0 <= r.y <= height - 1
    ensures Inside(r, width, height)
    ensures Inside(req, width, height) ==> r == req
    // each coordinate is the legal value nearest the requested one
    ensures 0 <= req.x < width ==> r.x == req.x
    ensures req.x < 0 ==> r.x == 0
    ensures req.x >= width ==> r.x == width - 1
    ensures 0 <= req.y < height ==> r.y == req.y
    ensures req.y < 0 ==> r.y == 0
    ensures req.y >= height ==> r.y == height - 1
    ensures 1 <= req.width <= width - r.x ==> r.width == req.width
    ensures req.width < 1 ==> r.width == 1
    ensures req.width > width - r.x ==> r.width == width - r.x
    ensures 1 <= req.height <= height - r.y ==> r.height == req.height
    ensures req.height < 1 ==> r.height == 1
    ensures req.height > height - r.y ==> r.height == height - r.y
  {
    var x := Max(0, Min(req.x, width - 1));
    var y := Max(0, Min(req.y, height - 1));
    Rect(x, y, Max(1, Min(req.width, width - x)), Max(1, Min(req.height, height - y)))
  }

  /** Clamping an already clamped region changes nothing. */
  lemma ClampCropIdempotent(req: Rect, width: int, height: int)
    requires width >= 1 && height >= 1
    ensures ClampCrop(ClampCrop(req, width, height), width, height) == ClampCrop(req, width, height)
  {
  }

  /** The canvas size `handleResize` draws into: each requested dimension
      floored at one pixel. */
  function ResizeTarget(req: Size): (r: Size)
    ensures r.width >= 1 && r.height >= 1
    ensures req.width >= 1 ==> r.width == req.width
    ensures req.height >= 1 ==> r.height == req.height
    ensures req.width < 1 ==> r.width == 1
    ensures req.height < 1 ==> r.height == 1
  {
    Size(Max(1, req.width), Max(1, req.height))
  }
}

/** The edit session of `PhotoEditor`: the working image, the selected edit
    mode and the numbers typed for each edit, with the component's handlers
    as transitions.

    The component keeps its working image as a data URL and decodes it at
    the start of every edit; the model keeps the decoded image itself. */
module Editor {
  import opened Raster
  import opened Geometry
  import opened Transforms
  import Filters
  import Album

  /** The `EditMode` union: which edit's controls are shown. */
  datatype EditMode = NoEdit | CropMode | ResizeMode | PixelateMode | BwMode | RemoveBgMode

  datatype Session = Session(
    file: Option<Image>,     // the chosen file
    preview: Option<Image>,  // the working image
    mode: EditMode,
    crop: Rect,
    resize: Size,
    pixelSize: int)

  /** The state a freshly mounted editor starts in. */
  function Start(): (s: Session)
    ensures s.file.None? && s.preview.None? && s.mode == NoEdit
    ensures s.crop.x == 0 && s.crop.y == 0 && s.crop.width == 100 && s.crop.height == 100
    ensures s.resize.width == 200 && s.resize.height == 200
    ensures s.pixelSize == 10
  {
    Session(None, None, NoEdit, Rect(0, 0, 100, 100), Size(200, 200), 10)
  }

  /** Every image the session holds is a decoded image. */
  predicate Ok(s: Session) {
    && (s.file.Some? ==> Valid(s.file.value))
    && (s.preview.Some? ==> Valid(s.preview.value))
  }

  /** The edits an "Apply" button runs. Resize and Pixelate carry the
      browser's drawing, which the model takes as given. */
  datatype Edit =
    | CropEdit
    | ResizeEdit(scale: Scaler)
    | PixelateEdit(render: Pixelator)
    | BwEdit
    | RemoveBgEdit

  /** The image an edit leaves on the canvas, with the session's current
      parameters. */
  function Render(s: Session, img: Image, e: Edit): (r: Image)
    requires Valid(img)
    ensures Valid(r)
    ensures e.CropEdit? ==>
      var region := ClampCrop(s.crop, img.width, img.height);
      r.width == region.width && r.height == region.height
    ensures e.ResizeEdit? ==>
      r.width == ResizeTarget(s.resize).width && r.height == ResizeTarget(s.resize).height
    ensures e.PixelateEdit? || e.BwEdit? || e.RemoveBgEdit? ==>
      r.width == img.width && r.height == img.height
    ensures e.CropEdit? ==>
      var region := ClampCrop(s.crop, img.width, img.height);
      forall x, y, c :: 0 <= x < r.width && 0 <= y < r.height && 0 <= c < 4 ==>
        && region.x + x < img.width && region.y + y < img.height
        && At(r, x, y, c) == At(img, region.x + x, region.y + y, c)
    ensures e.ResizeEdit? ==>
      forall x, y, c :: 0 <= x < r.width && 0 <= y < r.height && 0 <= c < 4 ==>
        At(r, x, y, c) == e.scale(img, r.width, r.height)(x, y, c)
    ensures e.PixelateEdit? ==>
      forall x, y, c :: 0 <= x < r.width && 0 <= y < r.height && 0 <= c < 4 ==>
        At(r, x, y, c) == e.render(img, s.pixelSize)(x, y, c)
    ensures e.BwEdit? ==>
      forall p :: 0 <= p < img.width * img.height ==>
        && PixelAt(r.data, p).a == PixelAt(img.data, p).a
        && PixelAt(r.data, p).r == PixelAt(r.data, p).g == PixelAt(r.data, p).b
        && PixelAt(r.data, p).r == Filters.Mean(PixelAt(img.data, p).r, PixelAt(img.data, p).g, PixelAt(img.data, p).b)
    ensures e.RemoveBgEdit? ==>
      forall p :: 0 <= p < img.width * img.height ==>
        && PixelAt(r.data, p).r == PixelAt(img.data, p).r
        && PixelAt(r.data, p).g == PixelAt(img.data, p).g
        && PixelAt(r.data, p).b == PixelAt(img.data, p).b
        && PixelAt(r.data, p).a == (if Filters.NearWhite(PixelAt(img.data, p)) then 0 else PixelAt(img.data, p).a)
  {
    match e
    case CropEdit =>
      var r := Crop(img, s.crop);
      assert forall x, y, c :: 0 <= x < r.width && 0 <= y < r.height && 0 <= c < 4 ==>
        var region := ClampCrop(s.crop, img.width, img.height);
        && region.x + x < img.width && region.y + y < img.height
        && At(r, x, y, c) == At(img, region.x + x, region.y + y, c) by {
        forall x, y, c | 0 <= x < r.width && 0 <= y < r.height && 0 <= c < 4 {
          CropCopiesRegion(img, s.crop, x, y, c);
        }
      }
      r
    case ResizeEdit(scale) => Resize(img, s.resize, scale)
    case PixelateEdit(render) => Pixelate(img, s.pixelSize, render)
    case BwEdit => BlackAndWhite(img)
    case RemoveBgEdit => RemoveBackground(img)
  }

  /** `handleCrop`, `handleResize`, `handlePixelate`, `handleBW` and
      `handleRemoveBg`: without a working image nothing happens; otherwise the
      canvas result replaces the working image and the mode goes back to
      none. The file and the typed parameters are left alone. */
  function Apply(s: Session, e: Edit): (r: Session)
    requires Ok(s)
    ensures Ok(r)
    ensures s.preview.None? ==> r == s
    ensures s.preview.Some? ==> r.preview == Some(Render(s, s.preview.value, e)) && r.mode == NoEdit
    ensures r.file == s.file && r.crop == s.crop && r.resize == s.resize && r.pixelSize == s.pixelSize
  {
    match s.preview
    case None => s
    case Some(img) => s.(preview := Some(Render(s, img, e)), mode := NoEdit)
  }

  /** `handleFileChange`: a chosen file becomes the working image; cancelling
      the file dialog changes nothing. The mode and parameters are kept. */
  function ChooseFile(s: Session, file: Option<Image>): (r: Session)
    ensures file.None? ==> r == s
    ensures file.Some? ==> r.file == file && r.preview == file
    ensures r.mode == s.mode && r.crop == s.crop && r.resize == s.resize && r.pixelSize == s.pixelSize
  {
    match file
    case None => s
    case Some(_) => s.(file := file, preview := file)
  }

  /** `handleRemoveImage` (the "Delete" button): the file and working image
      are dropped and the mode goes back to none. The typed crop, resize and
      pixel-size values survive. */
  function RemoveImage(s: Session): (r: Session)
    ensures r.file.None? && r.preview.None? && r.mode == NoEdit
    ensures r.crop == s.crop && r.resize == s.resize && r.pixelSize == s.pixelSize
  {
    s.(file := None, preview := None, mode := NoEdit)
  }

  /** `handleSave`: with a working image, it is appended to the album and the
      session is cleared as by "Delete"; without one, nothing changes. */
  function Save(s: Session, photos: seq<Image>): (r: (Session, seq<Image>))
    ensures s.preview.None? ==> r == (s, photos)
    ensures s.preview.Some? ==>
      && |r.1| == |photos| + 1
      && r.1[|photos|] == s.preview.value
      && r.1[..|photos|] == photos
      && r.0.file.None? && r.0.preview.None? && r.0.mode == NoEdit
      && r.0.crop == s.crop && r.0.resize == s.resize && r.0.pixelSize == s.pixelSize
  {
    match s.preview
    case None => (s, photos)
    case Some(img) => (RemoveImage(s), Album.Append(photos, img))
  }

  /** A user action on the editor. */
  datatype Action =
    | Choose(file: Option<Image>)   // the file input
    | Delete                        // "Delete"
    | Select(mode: EditMode)        // an edit button, or "Cancel" with NoEdit
    | TypeCrop(crop: Rect)          // the crop number fields
    | TypeResize(size: Size)        // the resize number fields
    | TypePixelSize(pixelSize: int) // the pixel size field
    | Run(edit: Edit)               // an "Apply" button
    | SaveToAlbum                   // "Save to Album"

  /** A decoded file, if the action carries one. */
  predicate ActionOk(a: Action) {
    a.Choose? && a.file.Some? ==> Valid(a.file.value)
  }

  /** The editor and the album after one action. The handlers run in any
      state; the rendered controls only ever offer a subset of these
      transitions. */
  function Step(s: Session, photos: seq<Image>, a: Action): (r: (Session, seq<Image>))
    requires Ok(s) && ActionOk(a)
    ensures Ok(r.0)
    ensures !a.SaveToAlbum? ==> r.1 == photos
  {
    match a
    case Choose(file) => (ChooseFile(s, file), photos)
    case Delete => (RemoveImage(s), photos)
    case Select(m) => (s.(mode := m), photos)
    case TypeCrop(c) => (s.(crop := c), photos)
    case TypeResize(z) => (s.(resize := z), photos)
    case TypePixelSize(n) => (s.(pixelSize := n), photos)
    case Run(e) => (Apply(s, e), photos)
    case SaveToAlbum => Save(s, photos)
  }
}

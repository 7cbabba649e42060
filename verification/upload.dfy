/** `PhotoUpload`, the second copy of the editor. Its handlers for resize,
    pixelate, black & white, background removal and delete are the same code
    as the editor's, so they are the editor's transitions here. It differs in
    two places: its crop handler and crop controls are commented out, so the
    crop parameters can never be applied; and its save first decodes the
    working image again, appending only once that decoding succeeds. */
module Upload {
  import opened Raster
  import opened Editor
  import Album

  /** An "Apply" button of this component: the editor's apply, except that
      there is no crop handler to run. */
  function Apply(s: Session, e: Edit): (r: Session)
    requires Ok(s)
    ensures Ok(r)
    ensures s.preview.None? || e.CropEdit? ==> r == s
    ensures s.preview.Some? && !e.CropEdit? ==>
      r.preview == Some(Render(s, s.preview.value, e)) && r.mode == NoEdit
    ensures r.file == s.file && r.crop == s.crop && r.resize == s.resize && r.pixelSize == s.pixelSize
  {
    if e.CropEdit? then s else Editor.Apply(s, e)
  }

  /** `handleSave`: with a working image whose dimensions could be read back
      (`decoded`), the image is appended and the session cleared as by
      "Delete"; with no image, or when reading it back fails, nothing
      changes. */
  function Save(s: Session, photos: seq<Image>, decoded: bool): (r: (Session, seq<Image>))
    ensures s.preview.None? || !decoded ==> r == (s, photos)
    ensures s.preview.Some? && decoded ==>
      && |r.1| == |photos| + 1
      && r.1[|photos|] == s.preview.value
      && r.1[..|photos|] == photos
      && r.0.file.None? && r.0.preview.None? && r.0.mode == NoEdit
      && r.0.crop == s.crop && r.0.resize == s.resize && r.0.pixelSize == s.pixelSize
  {
    if decoded then Editor.Save(s, photos) else (s, photos)
  }

  /** This component and the album after one action. Typing into the crop
      fields cannot happen, for they are not rendered; `decoded` is the
      outcome of the read-back a save waits for. */
  function Step(s: Session, photos: seq<Image>, a: Action, decoded: bool): (r: (Session, seq<Image>))
    requires Ok(s) && ActionOk(a)
    ensures Ok(r.0)
    ensures !a.SaveToAlbum? ==> r.1 == photos
    ensures a.TypeCrop? ==> r == (s, photos)
  {
    match a
    case TypeCrop(_) => (s, photos)
    case Run(e) => (Apply(s, e), photos)
    case SaveToAlbum => Save(s, photos, decoded)
    case _ => Editor.Step(s, photos, a)
  }
}

# Photo editor: the client-side edit pipeline in Dafny

This project models the image-editing core of a browser photo editor and
album. A user loads a photo into the editor. They pick an edit mode and type
its parameters. They then apply one of five edits: crop, resize, pixelate,
black & white, or background removal. Finally they save the result into an
album, from which photos can be deleted by position.

The model has eight modules:

- `Raster` (raster.dfy): a decoded image as width, height and a flat RGBA
  byte buffer of length 4·width·height, the layout of `ImageData.data`.
- `Geometry` (geometry.dfy): the integer clamping of the crop rectangle and
  of the resize target.
- `Filters` (filters.dfy): the two per-pixel loops. Black & white is
  `GrayscaleLoop`; background removal is `RemoveBackgroundLoop`. Each is
  proved equal to a pure per-pixel definition.
- `Transforms` (transforms.dfy): the five edits as functions from image to
  image.
- `Editor` (editor.dfy): the edit session of `PhotoEditor`, with its
  handlers as transitions.
- `Upload` (upload.dfy): the same session in the duplicate component
  `PhotoUpload`.
- `Album` (album.dfy): the photo list of `App`.
- `App` (app.dfy): the home page that joins the editor to the album.

Black & white stores `(r+g+b)/3` into a `Uint8ClampedArray`, which rounds to
the nearest integer. The fractional part is 0, 1/3 or 2/3, so no tie ever
arises. The stored value is therefore exactly `(r+g+b+1)/3`. `Filters.Mean`
states that it is the unique integer within 1/3 of the true mean.

The browser's scaling filter is not modelled. Resize and pixelate draw
through `drawImage`, whose resampling the browser defines. Both edits
therefore take the browser's painting as a function parameter. The model
promises the canvas size, and that each pixel is what the browser painted
there. Crop draws at one-to-one scale, so its pixels are modelled as a copy of
the clamped region. The canvas round trip that follows the copy is left out
(see below).

## Model

| member | source | states |
|---|---|---|
| `Geometry.ClampCrop` | frontend/src/components/PhotoEditor/PhotoEditor.tsx:77-81 | For an image of at least 1×1, the origin lies in [0, W-1]×[0, H-1]. The region is at least 1×1 and lies inside the image. Each coordinate is the legal value nearest the one typed. A request already inside the image is kept unchanged. |
| `Geometry.ClampCropIdempotent` | frontend/src/components/PhotoEditor/PhotoEditor.tsx:78-81 | Clamping an already clamped region changes nothing. |
| `Geometry.ResizeTarget` | frontend/src/components/PhotoEditor/PhotoEditor.tsx:105-107 | Each target dimension is the typed value when it is at least 1, and 1 otherwise. |
| `Filters.Mean` | frontend/src/components/PhotoEditor/PhotoEditor.tsx:163-166 | The stored channel value is within 1/3 of the exact mean of r, g and b, and it is a byte. |
| `Filters.MeanIsNearest` | frontend/src/components/PhotoEditor/PhotoEditor.tsx:163-166 | Only one integer lies that close to the mean, so the stored value is fully determined. |
| `Filters.Grayscale` | frontend/src/components/PhotoEditor/PhotoEditor.tsx:162-167 | The length is kept and every pixel keeps its alpha. Afterwards R = G = B = the rounded mean of the pixel's original R, G and B. |
| `Filters.GrayscaleLoop` | frontend/src/components/PhotoEditor/PhotoEditor.tsx:162-167 | The in-place loop, four bytes per step, computes exactly the per-pixel grayscale of the buffer. |
| `Filters.GrayscaleIdempotent` | frontend/src/components/PhotoEditor/PhotoEditor.tsx:162-167 | Applying black & white twice gives the same buffer as applying it once. |
| `Filters.GrayscaleFixesGray` | frontend/src/components/PhotoEditor/PhotoEditor.tsx:162-167 | A buffer whose pixels already have R = G = B is unchanged, so pure black and pure white stay as they are. |
| `Filters.RemoveBackground` | frontend/src/components/PhotoEditor/PhotoEditor.tsx:190-199 | The length and every R, G and B are kept. Alpha becomes 0 exactly where R, G and B are all above 240, and is unchanged elsewhere. |
| `Filters.RemoveBackgroundLoop` | frontend/src/components/PhotoEditor/PhotoEditor.tsx:190-199 | The in-place loop, four bytes per step, computes exactly the per-pixel background removal of the buffer. |
| `Filters.RemoveBackgroundIdempotent` | frontend/src/components/PhotoEditor/PhotoEditor.tsx:190-199 | Applying background removal twice gives the same buffer as applying it once. |
| `Filters.RemoveBackgroundKeepsNonWhite` | frontend/src/components/PhotoEditor/PhotoEditor.tsx:190-199 | A buffer with no pixel above 240 in all of R, G and B is unchanged, for example an all-black one. |
| `Transforms.Crop` | frontend/src/components/PhotoEditor/PhotoEditor.tsx:78-83 | The result is a valid image no larger than the source. Its size is the clamped region's size. |
| `Transforms.CropCopiesRegion` | frontend/src/components/PhotoEditor/PhotoEditor.tsx:87-91 | Pixel (x, y) of the crop is pixel (cropX + x, cropY + y) of the source, and that pixel lies inside the source. |
| `Transforms.CropWholeIsIdentity` | frontend/src/components/PhotoEditor/PhotoEditor.tsx:78-91 | Cropping with (0, 0, W, H) returns the image unchanged. |
| `Transforms.CropOfUniform` | frontend/src/components/PhotoEditor/PhotoEditor.tsx:78-91 | Any crop of a single-colour image is filled with that colour. |
| `Transforms.Resize` | frontend/src/components/PhotoEditor/PhotoEditor.tsx:106-117 | Whatever the source size, the output is max(1, w)×max(1, h). Every pixel is what the browser's scaling painted there. |
| `Transforms.Pixelate` | frontend/src/components/PhotoEditor/PhotoEditor.tsx:132-142 | For every block size the output has the source's size. Every pixel is what the browser's shrink-and-stretch drawing painted there. |
| `Transforms.BlackAndWhite` | frontend/src/components/PhotoEditor/PhotoEditor.tsx:156-168 | The image keeps its size. Every pixel keeps its alpha, and its R = G = B equal the rounded mean of the original colour. |
| `Transforms.RemoveBackground` | frontend/src/components/PhotoEditor/PhotoEditor.tsx:184-200 | The image keeps its size and its colours. Alpha is 0 exactly on pixels above 240 in R, G and B, and unchanged elsewhere. |
| `Editor.Start` | frontend/src/components/PhotoEditor/PhotoEditor.tsx:26-31 | A freshly mounted editor has no file, no working image and mode none. The crop fields start at (0, 0, 100, 100), the resize fields at 200×200 and the pixel size at 10. |
| `Editor.Render` | frontend/src/components/PhotoEditor/PhotoEditor.tsx:71-206 | Each edit yields a valid image. Crop has the clamped region's size, and each pixel is the source pixel at the region's origin plus its position, inside the source. Resize has the floored target size and pixelate the source's size, and each pixel is what the browser painted. Black & white keeps the size and alpha and sets R = G = B to the rounded mean. Background removal keeps the size and colours and zeroes alpha exactly on near-white pixels. |
| `Editor.Apply` | frontend/src/components/PhotoEditor/PhotoEditor.tsx:71-206 | With no working image every edit is a no-op. With one, the working image becomes the edit's result, computed with the session's typed parameters, and the mode returns to none. The file and the typed parameters are untouched. |
| `Editor.ChooseFile` | frontend/src/components/PhotoEditor/PhotoEditor.tsx:38-49 | A chosen file becomes both the selected file and the working image. Cancelling the dialog changes nothing. The mode and parameters are kept. |
| `Editor.RemoveImage` | frontend/src/components/PhotoEditor/PhotoEditor.tsx:57-66 | Delete clears the file and the working image and resets the mode to none. The typed crop, resize and pixel-size values survive. |
| `Editor.Save` | frontend/src/components/PhotoEditor/PhotoEditor.tsx:209-214 | With no working image nothing changes. With one, it is appended last to the album, earlier entries are kept, and the session is cleared with mode none. |
| `Editor.Step` | frontend/src/components/PhotoEditor/PhotoEditor.tsx:237-299 | Every editor action keeps every held image valid. Only "Save to Album" changes the album. |
| `Upload.Apply` | frontend/src/components/PhotoUpload/PhotoUpload.tsx:104-208 | With no working image every edit is a no-op, and crop is always a no-op here. Any other edit makes the working image the edit's result and returns the mode to none. The file and the typed parameters are untouched. |
| `Upload.Save` | frontend/src/components/PhotoUpload/PhotoUpload.tsx:210-216 | With no image, or when the image cannot be read back, nothing changes. Otherwise the image is appended last, earlier entries are kept, and the session is cleared with mode none. The typed crop, resize and pixel-size values survive. |
| `Upload.Step` | frontend/src/components/PhotoUpload/PhotoUpload.tsx:248-311 | Every action keeps every held image valid, and only a save changes the album. Crop parameters cannot be typed. |
| `Album.Append` | frontend/src/App.tsx:13-15 | The album grows by exactly one. The new photo is last and earlier entries are unchanged. |
| `Album.KeepOthers` | frontend/src/App.tsx:18 | Filtering out one position drops exactly that entry when it lies in range, and keeps the list as it was otherwise. |
| `Album.RemoveAt` | frontend/src/App.tsx:17-19 | A valid index shrinks the list by one. Earlier entries are kept and later ones shift down one place in order. An out-of-range index leaves the list unchanged, with no error. |
| `Album.RemoveUndoesAppend` | frontend/src/App.tsx:13-19 | Removing the photo just appended restores the album. |
| `App.Init` | frontend/src/App.tsx:10-11 | The album starts empty and the editor starts with no image and mode none. |
| `App.Step` | frontend/src/App.tsx:13-19 | Every action keeps every image valid. Removing a photo leaves the editor alone. A valid index shortens the album by one, keeps the entries before it and shifts the later ones down one place. Any other index changes nothing. A save with a working image appends that image last and empties the editor; without one it changes nothing. Any other editor action leaves the album as it was. |
| `App.SaveThenRemove` | frontend/src/App.tsx:13-19 | Saving the working image and then deleting the photo at the position it was saved to restores the album. |
| `App.RunAll` | frontend/src/App.tsx:11-19 | After any sequence of actions every image is still valid. The album has grown by at most the number of saves. |

## Left out

- Image decoding and encoding are not modelled: `FileReader`, `Image.onload`, `toDataURL` and `getImageDimensions`. A data URL is identified with the image it decodes to. The asynchronous gap between an action and its `onload` collapses into one step.
- Canvas resampling is not modelled. `drawImage` scaling for resize and pixelate, the fractional `w / pixelSize` size and the smoothing flag are all browser-defined. Those pixels are a parameter, and only the canvas size is fixed.
- The premultiplied-alpha storage a browser may use for a canvas is not modelled. It can touch every draw, read-back and encode round trip: `drawImage` followed by `toDataURL` in crop, resize and pixelate, and `putImageData` followed by `toDataURL` in black & white and background removal. Premultiplication re-quantises the colour of translucent pixels, and a pixel with alpha 0 loses its colour. The model takes every canvas as storing and returning its bytes unchanged. So the colours that `Transforms.RemoveBackground` and `Transforms.CropCopiesRegion` promise are those of the canvas buffer before encoding.
- Parameters from `Number()` that are not integers, or are `NaN`, are not modelled. Parameters are `int`.
- `isBW` and `isRemovingBg` are left out. The first is only ever set to false. The second is true while an image load is pending, which the model collapses into one step, and stays true when the load never completes (see the `Editor.ActionOk` line below).
- The missing-canvas early returns are left out, because the canvas is always rendered while a working image exists.
- The reference to the file input that delete resets is UI state and is left out.
- Which controls are visible is not modelled. The model lets every handler run in every state, which is a superset of what the rendered page offers.
- Accounts, routing and layout are left out: `Signup.tsx`, `Header.tsx`, `AllPhotos.tsx` rendering, `Home.tsx` layout and `backend/server.js`.
- The commented-out code in `PhotoEditor.tsx` from line 310 onward, and the crop code in `PhotoUpload.tsx`, are dead and not modelled.
- Behaviour of the code worth noting, which the model follows:
  - pixelate accepts every block size, including 0, 1 and negative ones, and reports nothing;
  - removing an out-of-range album index is a silent no-op;
  - saving with no image is a silent no-op;
  - delete keeps the typed crop, resize and pixel-size values.
- Transforms.Resize: canvas sizes are treated as unbounded, so the canvas takes exactly the floored typed size, however large. In a browser the `width` and `height` attributes set at PhotoEditor.tsx:108-109 and PhotoUpload.tsx:113-114 are unsigned longs. A typed value is reduced modulo 2^32, and a result of 2^31 or more falls back to the default 300×150. A size past the browser's maximum canvas area leaves a canvas that cannot draw, and its `toDataURL()` (PhotoEditor.tsx:118) returns `"data:,"`. No image decodes from that, so the working image becomes undecodable, the state described under `Editor.ActionOk` below. A very large decoded image meets the same maximum in the canvases of the other four edits.
- Editor.ActionOk: every chosen file is assumed to read and decode into an image, so the model has no undecodable working image. In the code:
  - a failed file read sets the preview to null while the selected file stays set (PhotoEditor.tsx:41-47);
  - for a file that does not decode as an image, `img.onload` never fires, so every edit is a silent no-op that keeps the mode;
  - background removal then leaves `isRemovingBg` true, which keeps its button disabled (PhotoEditor.tsx:178, 293);
  - save still appends the undecodable data URL (PhotoEditor.tsx:209-212).
  Only `Upload.Save` models a failed read-back, through its `decoded` flag.

/** The album of `App`: an ordered list of saved photos, grown at the end by
    `handleAddPhoto` and shrunk by `handleRemovePhoto`, which keeps every
    entry whose position differs from the one given. */
module Album {

  /** `handleAddPhoto`: the new photo goes last. */
  function Append<T>(photos: seq<T>, photo: T): (r: seq<T>)
    ensures |r| == |photos| + 1
    ensures r[|photos|] == photo
    ensures forall k :: 0 <= k < |photos| ==> r[k] == photos[k]
  {
    photos + [photo]
  }

  /** The entries of `photos`, whose first sits at position `from`, that are
      not at position `index`: the array `filter` of `handleRemovePhoto`
      applied to a suffix. */
  function KeepOthers<T>(photos: seq<T>, index: int, from: int): (r: seq<T>)
    ensures from <= index < from + |photos| ==>
      r == photos[..index - from] + photos[index - from + 1..]
    ensures !(from <= index < from + |photos|) ==> r == photos
    decreases |photos|
  {
    if |photos| == 0 then []
    else
      var rest := KeepOthers(photos[1..], index, from + 1);
      if from == index then
        assert rest == photos[1..];
        rest
      else
        assert from + 1 <= index < from + |photos| ==>
          [photos[0]] + photos[1..][..index - from - 1] == photos[..index - from];
        [photos[0]] + rest
  }

  /** `handleRemovePhoto`: a valid position loses its entry and the later
      entries move down one place in order; any other position, negative or
      past the end, leaves the album as it was, without an error. */
  function RemoveAt<T>(photos: seq<T>, index: int): (r: seq<T>)
    ensures 0 <= index < |photos| ==> |r| == |photos| - 1
    ensures 0 <= index < |photos| ==> forall k :: 0 <= k < index ==> r[k] == photos[k]
    ensures 0 <= index < |photos| ==> forall k :: index <= k < |r| ==> r[k] == photos[k + 1]
    ensures !(0 <= index < |photos|) ==> r == photos
  {
    KeepOthers(photos, index, 0)
  }

  /** Removing the photo just appended gives back the album before it. */
  lemma RemoveUndoesAppend<T>(photos: seq<T>, photo: T)
    ensures RemoveAt(Append(photos, photo), |photos|) == photos
  {
    var a := Append(photos, photo);
    assert a[..|photos|] == photos;
  }
}

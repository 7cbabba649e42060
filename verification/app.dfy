/** `App` with its `Home` page: the album state, the editor that saves into
    it, and the album view's delete buttons that remove from it. */
module App {
  import opened Raster
  import Editor
  import Album

  datatype State = State(editor: Editor.Session, photos: seq<Image>)

  /** A user action on the home page. */
  datatype Action =
    | OnEditor(action: Editor.Action)  // anything done in the editor
    | RemovePhoto(index: int)          // the "Delete" button under a photo

  /** The state after mounting: an empty album and an empty editor. */
  function Init(): (st: State)
    ensures |st.photos| == 0
    ensures st.editor.preview.None? && st.editor.file.None? && st.editor.mode == Editor.NoEdit
  {
    State(Editor.Start(), [])
  }

  /** Every image held anywhere is a decoded image. */
  predicate Ok(st: State) {
    && Editor.Ok(st.editor)
    && forall k :: 0 <= k < |st.photos| ==> Valid(st.photos[k])
  }

  predicate ActionOk(a: Action) {
    a.OnEditor? ==> Editor.ActionOk(a.action)
  }

  function Step(st: State, a: Action): (r: State)
    requires Ok(st) && ActionOk(a)
    ensures Ok(r)
    ensures a.RemovePhoto? ==> r.editor == st.editor
    ensures a.RemovePhoto? && 0 <= a.index < |st.photos| ==>
      && |r.photos| == |st.photos| - 1
      && r.photos[..a.index] == st.photos[..a.index]
      && r.photos[a.index..] == st.photos[a.index + 1..]
    ensures a.RemovePhoto? && !(0 <= a.index < |st.photos|) ==> r == st
    ensures IsSave(a) && st.editor.preview.Some? ==>
      r.photos == st.photos + [st.editor.preview.value] && r.editor.preview.None?
    ensures IsSave(a) && st.editor.preview.None? ==> r == st
    ensures a.OnEditor? && !IsSave(a) ==> r.photos == st.photos
  {
    match a
    case OnEditor(ea) =>
      var (s, photos) := Editor.Step(st.editor, st.photos, ea);
      State(s, photos)
    case RemovePhoto(i) =>
      st.(photos := Album.RemoveAt(st.photos, i))
  }

  /** Saving the working image and then pressing "Delete" under the photo
      just saved gives back the album as it was. */
  lemma SaveThenRemove(st: State)
    requires Ok(st) && st.editor.preview.Some?
    ensures Step(Step(st, OnEditor(Editor.SaveToAlbum)), RemovePhoto(|st.photos|)).photos == st.photos
  {
    var saved := Step(st, OnEditor(Editor.SaveToAlbum));
    assert saved.photos[..|st.photos|] == st.photos;
  }

  /** Whether an action is the editor's "Save to Album". */
  predicate IsSave(a: Action) {
    a.OnEditor? && a.action.SaveToAlbum?
  }

  /** How many of `actions` press "Save to Album". */
  function Saves(actions: seq<Action>): nat {
    if |actions| == 0 then 0
    else (if IsSave(actions[0]) then 1 else 0) + Saves(actions[1..])
  }

  /** The state after a sequence of actions. Every image stays decoded, and
      the album can only have grown by one photo per save. */
  function RunAll(st: State, actions: seq<Action>): (r: State)
    requires Ok(st)
    requires forall k :: 0 <= k < |actions| ==> ActionOk(actions[k])
    ensures Ok(r)
    ensures |r.photos| <= |st.photos| + Saves(actions)
    decreases |actions|
  {
    if |actions| == 0 then st
    else
      RunAll(Step(st, actions[0]), actions[1..])
  }
}

/**
 * The image manager's state: the path of the loaded image, set by
 * `open_image` and read back by `get_loaded_image`. The file dialog is its
 * answer `chosen` ("" when cancelled); decoding the file (the pixmap and
 * `imread`) is the flag `decodes`.
 */
module ImageManagement {
  import opened Operations

  /** The manager's path, the caller's applied-operation set, and the
      returned path after `open_image`. */
  datatype Opened = Opened(loaded: Option<string>, applied: set<string>, returned: string)

  /** `open_image`: the path is stored as soon as a file is chosen, before
      it is decoded; only a file that decodes clears the caller's set and
      is returned. */
  function Open(loaded: Option<string>, applied: set<string>, chosen: string, decodes: bool): (r: Opened)
    ensures chosen == "" ==> r == Opened(loaded, applied, "")
    ensures chosen != "" ==> r.loaded == Some(chosen)
    ensures r.returned != "" <==> chosen != "" && decodes
    ensures r.returned != "" ==> r.returned == chosen && r.loaded == Some(r.returned) && r.applied == {}
    ensures r.returned == "" ==> r.applied == applied
    // a stored path is never empty
    ensures (loaded.Some? ==> loaded.value != "") ==> (r.loaded.Some? ==> r.loaded.value != "")
  {
    if chosen == "" then Opened(loaded, applied, "")
    else if !decodes then Opened(Some(chosen), applied, "")
    else Opened(Some(chosen), {}, chosen)
  }

  class ImageManager {
    var loadedImage: Option<string>

    constructor ()
      ensures loadedImage == None
    {
      loadedImage := None;
    }

    /** `open_image(parent)`, with `parentApplied` the caller's
        `applied_operations` set. */
    method OpenImage(parentApplied: OperationSet, chosen: string, decodes: bool) returns (path: string)
      modifies this, parentApplied
      ensures Opened(loadedImage, parentApplied.ops, path) ==
              Open(old(loadedImage), old(parentApplied.ops), chosen, decodes)
    {
      if chosen != "" {
        loadedImage := Some(chosen);
        if !decodes {
          // the pixmap is null or `imread` raises: reported, "" returned
          return "";
        }
        parentApplied.Clear();
      }
      path := chosen;
    }

    /** `get_loaded_image()`. */
    function GetLoadedImage(): (p: Option<string>)
      reads this
      ensures p == loadedImage
    {
      loadedImage
    }
  }
}

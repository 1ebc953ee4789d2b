/**
 * The operation registry of the image-processing workbench: the nine
 * operation identifiers, which of them are threshold-driven edge detectors,
 * the history record kept for each dispatched operation, and the pixel
 * transforms as one black-box function.
 */
module Operations {

  datatype Option<T> = None | Some(value: T)

  /** A Python instance attribute that may not have been assigned yet
      (`hasattr(self, name)` is `Present?`). */
  datatype Attr<T> = Missing | Present(value: T)

  /** The four threshold-driven edge detectors (main.py, `edge_ops`). */
  const EdgeOperations: set<string> := {"sobel", "scharr", "prewitt", "roberts"}

  /** The keys of `operation_map`: every identifier that has a transform. */
  const KnownOperations: set<string> :=
    {"grayscale", "hsv", "multiotsu", "chanvese", "morphsnake",
     "roberts", "sobel", "scharr", "prewitt"}

  /** The conversions whose operation objects read the image file as soon
      as they are constructed, on the interactive thread. */
  const ReadOnConstruction: set<string> := {"grayscale", "hsv"}

  predicate IsEdge(op: string) { op in EdgeOperations }

  predicate IsKnown(op: string) { op in KnownOperations }

  /** One history record: `(operation_type, image_path, threshold)`. */
  datatype Entry = Entry(op: string, path: string, threshold: int)

  /** A rendered result; its pixels are of no concern to the controller. */
  type Pixmap = seq<int>

  /** The pixel transforms, as one pure function of the operation, the image
      path and the threshold (passed to edge detectors only). `None` stands
      for a transform that raised or did not produce a pixmap. */
  type Transform = (string, string, Option<int>) -> Option<Pixmap>

  /** Replaying a record: build the operation for the record's path and run
      it. Only edge detectors receive the threshold; an unknown identifier
      has no transform. */
  function Exec(t: Transform, e: Entry): (r: Option<Pixmap>)
    ensures !IsKnown(e.op) ==> r == None
    ensures IsKnown(e.op) && !IsEdge(e.op) ==> r == t(e.op, e.path, None)
    ensures IsEdge(e.op) ==> r == t(e.op, e.path, Some(e.threshold))
  {
    if !IsKnown(e.op) then None
    else t(e.op, e.path, if IsEdge(e.op) then Some(e.threshold) else None)
  }

  /** A Python `set` of operation names: a mutable object that the window
      owns and that the image manager clears in place. */
  class OperationSet {
    var ops: set<string>

    constructor ()
      ensures ops == {}
    {
      ops := {};
    }

    method Add(op: string)
      modifies this
      ensures ops == old(ops) + {op}
    {
      ops := ops + {op};
    }

    method Clear()
      modifies this
      ensures ops == {}
    {
      ops := {};
    }
  }
}

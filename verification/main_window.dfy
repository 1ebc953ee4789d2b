/**
 * The main window's history, dedup and undo/redo controller as an object
 * whose fields the entry points update in place. Each method is proved to
 * leave the fields as the matching function of `History` says, so every
 * property proved of those functions holds of the window.
 */
module Window {
  import opened Operations
  import opened PyStd
  import opened History
  import opened ImageManagement

  class MainWindow {
    var operationHistory: seq<Entry>
    var historyIndex: int
    const applied: OperationSet
    var imageOperations: map<string, seq<string>>
    var lastEdgeOperation: Attr<Option<string>>
    var snapshots: Attr<seq<Pixmap>>
    const manager: ImageManager

    /** The controller state held by the window's fields. */
    ghost function State(): Controller
      reads this, applied
    {
      Controller(operationHistory, historyIndex, applied.ops, imageOperations,
                 lastEdgeOperation, snapshots)
    }

    /** The cursor floor of the controller held by the fields. */
    ghost predicate Valid()
      reads this, applied
    {
      State().CursorFloor()
    }

    /** The history fields set up in `__init__`, and the image manager it
        creates; `last_edge_operation` is not assigned there. */
    constructor ()
      ensures State() == Initial()
      ensures fresh(applied) && fresh(manager) && manager.loadedImage == None
    {
      operationHistory := [];
      historyIndex := -1;
      applied := new OperationSet();
      imageOperations := map[];
      lastEdgeOperation := Missing;
      snapshots := Missing;
      manager := new ImageManager();
    }

    /** The "open source" action: the manager loads a file and clears this
        window's applied set; no history field is touched. */
    method OpenSource(chosen: string, decodes: bool) returns (path: string)
      modifies manager, applied
      ensures Opened(manager.loadedImage, applied.ops, path) ==
              Open(old(manager.loadedImage), old(applied.ops), chosen, decodes)
      ensures State() == old(State()).(applied := applied.ops)
    {
      path := manager.OpenImage(applied, chosen, decodes);
    }

    /** `apply_processing(op, threshold)`; `slider` is the threshold
        slider's value and `readable` whether the image file can be read
        now. The worker thread itself is not modelled: the record is made
        before it runs. */
    method ApplyProcessing(op: string, threshold: Option<int>, slider: int, readable: bool)
      returns (d: Dispatch)
      requires Valid()
      modifies this, applied
      ensures Step(State(), d) ==
              Apply(old(State()), manager.loadedImage, op, threshold, slider, readable)
    {
      var imagePath := manager.GetLoadedImage();
      if !HasImage(imagePath) {
        return NoImage;
      }
      if !IsEdge(op) && op in applied.ops {
        return AlreadyApplied;
      }
      lastEdgeOperation := Present(if IsEdge(op) then Some(op) else None);
      var t := if threshold.Some? then threshold.value else slider;
      if !IsKnown(op) {
        return Unknown;
      }
      if op in ReadOnConstruction && !readable {
        // the conversion object reads the file while being built, and raises
        return ReadFailed;
      }
      var e := Entry(op, imagePath.value, t);
      Record(e);
      d := Started(e);
    }

    /** The bookkeeping of `apply_processing` for an operation about to
        be handed to its worker. */
    method Record(e: Entry)
      requires Valid()
      modifies this, applied
      ensures State() == Commit(old(State()), e)
    {
      ghost var c0 := State();
      if !IsEdge(e.op) {
        applied.Add(e.op);
      }
      var filename := Basename(e.path);
      if filename !in imageOperations {
        imageOperations := imageOperations[filename := []];
      }
      if e.op !in imageOperations[filename] {
        imageOperations := imageOperations[filename := imageOperations[filename] + [e.op]];
      }
      assert imageOperations ==
             c0.imageOperations[filename := AppendIfAbsent(OperationsFor(c0.imageOperations, filename), e.op)];
      if historyIndex + 1 < |operationHistory| {
        operationHistory := operationHistory[..historyIndex + 1];
      }
      operationHistory := operationHistory + [e];
      historyIndex := historyIndex + 1;
    }

    /** `on_threshold_changed(value)`. */
    method OnThresholdChanged(value: int) returns (r: Reaction)
      requires Valid()
      modifies this, applied
      ensures Step(State(), r) == ThresholdChanged(old(State()), manager.loadedImage, value)
    {
      match lastEdgeOperation
      case Missing =>
        r := AttributeMissing;
      case Present(last) =>
        if last.Some? && IsEdge(last.value) {
          var d := ApplyProcessing(last.value, Some(value), value, true);
          r := Redispatched(d);
        } else {
          r := Ignored;
        }
    }

    /** `add_to_history()`, with `pixmap` the output label's pixmap. */
    method AddToHistory(pixmap: Option<Pixmap>)
      requires Valid()
      modifies this
      ensures State() == Snapshot(old(State()), pixmap)
    {
      if pixmap.Some? {
        if snapshots.Missing? {
          snapshots := Present([]);
          historyIndex := -1;
        }
        snapshots := Present(Prefix(snapshots.value, historyIndex + 1) + [pixmap.value]);
        historyIndex := historyIndex + 1;
      }
    }

    /** `_run_operation(op, path, threshold, record)`: returns the pixmap
        shown, if the transform produced one. */
    method RunOperation(op: string, path: string, threshold: int, record: bool, t: Transform)
      returns (shown: Option<Pixmap>)
      requires Valid()
      modifies this
      ensures Step(State(), shown) == Rerun(old(State()), op, path, threshold, record, t)
    {
      shown := Exec(t, Entry(op, path, threshold));
      if shown.Some? && record {
        operationHistory := Prefix(operationHistory, historyIndex + 1) + [Entry(op, path, threshold)];
        historyIndex := historyIndex + 1;
        AddToHistory(shown);
      }
    }

    /** `undo_last_operation()`. */
    method UndoLastOperation(t: Transform) returns (r: Replay)
      requires Valid() && historyIndex <= |operationHistory|
      modifies this
      ensures Step(State(), r) == Undo(old(State()), t)
    {
      if historyIndex <= 0 {
        return NothingToReplay;
      }
      historyIndex := historyIndex - 1;
      var e := operationHistory[historyIndex];
      var shown := RunOperation(e.op, e.path, e.threshold, false, t);
      r := Replayed(e, shown);
    }

    /** `redo_last_operation()`. */
    method RedoLastOperation(t: Transform) returns (r: Replay)
      requires Valid()
      modifies this
      ensures Step(State(), r) == Redo(old(State()), t)
    {
      if historyIndex + 1 < |operationHistory| {
        historyIndex := historyIndex + 1;
        var e := operationHistory[historyIndex];
        var shown := RunOperation(e.op, e.path, e.threshold, false, t);
        r := Replayed(e, shown);
      } else {
        r := NothingToReplay;
      }
    }
  }
}

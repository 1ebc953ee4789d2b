# Operation history of the real-time image processor

This project models the controller at the heart of the PyQt5 image-processing
workbench. A user loads an image and applies one of nine operations:
grayscale and HSV conversion; Multi-Otsu, Chan-Vese and morphological-snakes
segmentation; and the Sobel, Scharr, Prewitt and Roberts edge detectors, which
take a threshold. The user can then undo and redo. The model covers the
window's bookkeeping:

- the ledger of `(operation, image path, threshold)` records and its cursor;
- the set of conversions and segmentations already applied, which blocks their
  repetition;
- the per-file list of operations;
- the remembered edge detector that the threshold slider re-dispatches;
- the pixel-snapshot ledger that shares the same cursor;
- the image manager's loaded path.

Modules:

- `Operations`: the operation identifiers and the history record. The pixel
  transforms are one opaque, deterministic function `Transform`. `Exec`
  replays a record through it.
- `PyStd`: the Python semantics the bookkeeping relies on. These are the list
  slice `s[:k]`, which clamps the stop, and POSIX `os.path.basename`.
- `History`: the controller as a value. It has one function per entry point,
  each returning the new controller and what the call reported. Every property
  is proved of these functions.
- `ImageManagement`: the image manager as a class with the loaded path as its
  field, plus the function its `open_image` is proved against.
- `Window`: the main window as a class whose fields the entry points update in
  place. Each method is proved to leave the fields as the matching `History`
  function says.
- `Session`: the window as the user drives it. It defines the events wired to
  the entry points, an invariant kept over every event sequence, undo/redo
  round trips and the editing scenarios.

The model follows the code, which differs from an idealised undo design in the
following ways.

- A dispatched operation is recorded before its worker thread runs. A
  transform that later fails still leaves its record, its applied mark and its
  per-file entry.
- Loading an image clears only the applied set. The ledger, the cursor, the
  per-file lists and the remembered edge detector survive the load
  (`Session.LoadKeepsLedger`).
- The window has no generation counter for worker results.
- `last_edge_operation` is not assigned in the constructor. Until the first
  operation gets past the guards, moving the slider raises `AttributeError`
  (`Session.SliderBeforeAnyDispatch`).
- Grayscale and HSV read the image file while their operation object is being
  built, on the interactive thread. If that read fails, nothing is recorded,
  but the remembered edge detector has already been reset (`ReadFailed`).
- Undo does not give back a conversion's applied mark
  (`Session.UndoneConversionStaysBlocked`).
- The snapshot ledger of `add_to_history` moves the same `history_index` as
  the operation ledger. Only the recording path of `_run_operation` reaches
  it, and nothing in the window takes that path. There, two recorded replays
  in a row leave the cursor past the last record
  (`History.RecordedRerunOverrunsCursor`).

## Model

| member | source | states |
|---|---|---|
| Operations.Exec | main.py:482-497 | replaying a record of an unknown identifier gives no result; an edge detector is run with the record's threshold; any other operation is run without it, so its replay does not depend on the threshold |
| Operations.OperationSet.constructor | main.py:192 | the window's applied set starts empty |
| Operations.OperationSet.Add | main.py:352-353 | adding marks the operation and keeps every earlier member |
| Operations.OperationSet.Clear | image_manager.py:95-96 | the image manager empties the window's own set object in place |
| PyStd.Prefix | main.py:363-364 | `s[:k]` has length min(k, len s) and is the leading part of `s` |
| PyStd.Basename | main.py:356 | the base name is no longer than the path, and is empty for a path ending in '/'; the two lemmas below pin it down |
| PyStd.BasenameIsLastComponent | main.py:356 | the base name contains no '/', is a suffix of the path, and is the whole path or follows a '/' |
| PyStd.BasenameUnique | main.py:356 | any slash-free suffix that is the whole path or follows a '/' is the base name |
| History.Initial | main.py:190-193 | the constructor's state: empty ledger with cursor -1 (nothing to undo or redo), no applied operations, no per-file lists, `last_edge_operation` and the snapshot ledger not yet assigned, consistent |
| History.AppendIfAbsent | main.py:357-360 | the per-file list gains the operation at its end only when absent: it contains the operation, its members are the old ones plus the operation, the old list is a prefix, and a list without duplicates keeps none |
| History.Commit | main.py:351-366 | recording a dispatch: a non-edge operation joins the applied set; the file's list gains the operation once; the ledger is cut after the cursor and extended; the cursor points at the new record with nothing to redo; the remembered edge detector is unchanged; consistency is kept |
| History.Apply | main.py:297-369 | no image: nothing changes (NoImage); a repeated non-edge operation: nothing changes (AlreadyApplied); past the guards the edge detector is remembered; an unknown identifier is dropped silently (Unknown) exactly when it passes the guards; grayscale/HSV raise (ReadFailed) exactly when they pass the guards and the file cannot be read; it starts exactly when the operation is known and, for grayscale/HSV, the file reads; a started operation records the given threshold or else the slider's value; cursor range and consistency are kept |
| History.ThresholdChanged | main.py:402-412 | it raises (AttributeMissing), changing nothing, exactly when `last_edge_operation` was never assigned; it re-dispatches exactly when the remembered operation is an edge detector, with the new value as the threshold, and with an image that is a new record; otherwise nothing changes |
| History.Snapshot | main.py:419-431 | without a pixmap nothing changes; with one, the snapshot ledger is created on first use (resetting the shared cursor), cut after the cursor and extended, and only the snapshots and the cursor change |
| History.Rerun | main.py:471-510 | the result shown is the replay of the record; without recording, or when no pixmap results, nothing changes; with recording, the operation ledger is cut and extended and then the snapshot step runs on the same cursor |
| History.Undo | main.py:517-529 | only the cursor changes; at cursor 0 or below nothing is replayed; otherwise the cursor steps back and the record it now points at is replayed; afterwards redo is possible |
| History.Redo | main.py:532-541 | only the cursor changes; with no record past the cursor nothing is replayed; otherwise the cursor steps forward and that record is replayed; the cursor stays within the ledger |
| History.RecordedRerunOverrunsCursor | main.py:506-510 | the first recorded replay resets the cursor to 0; once the snapshot ledger exists a recorded replay leaves the cursor at the ledger's length; two in a row always leave it outside the ledger |
| ImageManagement.Open | image_manager.py:73-101 | a cancelled dialog changes nothing and returns ""; a chosen path is stored even if it fails to decode; the path is returned, and the applied set cleared, exactly when the file decodes; the stored path is never empty |
| ImageManagement.ImageManager.constructor | image_manager.py:46-56 | no image is loaded |
| ImageManagement.ImageManager.OpenImage | image_manager.py:73-101 | the stored path, the caller's applied set and the returned path are those `Open` gives |
| ImageManagement.ImageManager.GetLoadedImage | image_manager.py:133-134 | returns the stored path |
| Window.MainWindow.constructor | main.py:190-193 | the fields hold `Initial()`; the manager is new with no image loaded |
| Window.MainWindow.OpenSource | main.py:237 | the open action runs `open_image` on the window, which changes only the applied set among the window's fields |
| Window.MainWindow.ApplyProcessing | main.py:297-369 | the new fields and the outcome are those of `Apply` on the old fields and the manager's path |
| Window.MainWindow.Record | main.py:351-366 | the new fields are `Commit` of the old ones |
| Window.MainWindow.OnThresholdChanged | main.py:402-412 | the new fields and the reaction are those of `ThresholdChanged` |
| Window.MainWindow.AddToHistory | main.py:419-431 | the new fields are `Snapshot` of the old ones |
| Window.MainWindow.RunOperation | main.py:471-510 | the new fields and the pixmap shown are those of `Rerun` |
| Window.MainWindow.UndoLastOperation | main.py:517-529 | the new fields and the replay are those of `Undo` |
| Window.MainWindow.RedoLastOperation | main.py:532-541 | the new fields and the replay are those of `Redo` |
| Session.Start | main.py:190-193 | after start-up no image is loaded, the ledger is empty, and the session invariant holds |
| Session.Next | main.py:237-277 | every wired event keeps the invariant: cursor within the ledger, only known operations recorded, applied set holding only conversions/segmentations, per-file lists without duplicates, non-empty paths; only opening changes the loaded path, and it touches only the applied set; undo and redo keep the ledger |
| Session.Run | main.py:237-277 | any sequence of events keeps the invariant |
| Session.SliderBeforeAnyDispatch | main.py:402-412 | as long as no operation is dispatched, `last_edge_operation` stays unassigned and the slider raises |
| Session.LoadKeepsLedger | image_manager.py:95-96 | loading keeps the ledger, the cursor, the per-file lists and the remembered edge detector, clears the applied set on success, and the next undo replays what it would have before |
| Session.Undos | main.py:517-529 | k undos move the cursor back by k and replay the k records before it, nearest first |
| Session.Redos | main.py:532-541 | k redos move the cursor forward by k and replay the k records after it in order |
| Session.UndoRedoRoundTrip | main.py:517-541 | k undos followed by k redos restore the controller; the last redo reproduces the result of the record current before the undos; the redos replay the undone records in reverse order |
| Session.RepeatRules | main.py:317-323 | a known non-edge operation dispatched twice is refused the second time with nothing changed; an edge detector dispatched twice is recorded twice |
| Session.Converted | main.py:297-366 | open an image and convert it to grayscale: one record, cursor 0, grayscale marked applied |
| Session.Edited | main.py:297-412 | after `Converted`, Sobel at slider 100 and then the slider at 150: the ledger holds the three records, the cursor is 2, and the slider re-dispatched Sobel at 150 |
| Session.Redone | main.py:517-541 | continuing: after an undo and a redo the ledger still holds the three records, the cursor is back at 2, and the redo replayed Sobel at 150 |
| Session.EditingScenario | main.py:297-541 | the undo replays Sobel at 100 and the redo leads to `Redone`; a second grayscale is then refused with nothing changed |
| Session.SobelApplied | main.py:297-366 | open an image and run Sobel: one record, cursor 0, nothing marked applied |
| Session.ConvertedThenUndone | main.py:517-529 | after `SobelApplied`, grayscale then undo: the ledger holds both records, the cursor is 0, and the applied set is still exactly grayscale |
| Session.HsvAfterUndo | main.py:352-366 | HSV after `ConvertedThenUndone` cuts off the undone grayscale record, while grayscale stays marked applied |
| Session.UndoneConversionStaysBlocked | main.py:320-323 | the HSV dispatch after the undo leads to `HsvAfterUndo`, and grayscale is then still refused |

## Left out

- The pixel algorithms (edge_detection.py, segmentation.py, conversion.py): they are the opaque `Transform`; only the fact that the grayscale and HSV constructors read the file is kept.
- The worker thread (processing_worker.py) and `handle_processing_result`: progress reporting, timing, and showing the worker's result. The model stops when the worker is started.
- Display and messages: scaling, fade-in, status-bar texts, message boxes, the `print` of the per-file list. The outcomes of the model stand in for them.
- `clear_label_safely`, `closeEvent`, `apply_styles`, ui_state_manager.py, file_operations.py and ui_effects.py: they do not touch the controller's state.
- The per-object `_prev_pixmap` undo caches of the operation classes: the window never uses them.
- `Operations.Exec`: the transforms are pure functions of the operation, the path and the threshold. A file that changes on disk between dispatch and replay is not modelled.
- `PyStd.Basename`: POSIX separators only; the Windows variant also splits at '\\' and a drive colon.
- `History.Undo`: the `hasattr(self, "operation_history")` test is left out, because the constructor always sets the attribute. The caller must keep the cursor at most the ledger's length, which every wired event does.
- `History.Rerun`: assumes the label's pixmap is non-null right after a pixmap was set. The `threshold=None` default is left out because every caller passes the recorded value. An exception in a replay is folded into "no pixmap", which leaves the same state.
- `ImageManagement.Open`: the caller is always the window, so the `parent=None` case is left out. A failing dialog, pixmap, `imread` or label update is one flag, `decodes`.
- Python's negative-index slicing: the cursor never goes below -1, so every slice stop is non-negative.

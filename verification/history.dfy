/**
 * The operation-history controller of the main window, as values: its state
 * (the five fields that `MainWindow` keeps for history, dedup and live
 * threshold updates, plus the lazily created snapshot ledger) and one
 * function per entry point giving the new state and what the call did.
 * The `MainWindow` class is proved to update its fields as these functions
 * say.
 */
module History {
  import opened Operations
  import opened PyStd

  /** No list element occurs twice. */
  predicate NoDuplicates(xs: seq<string>) {
    forall i, j :: 0 <= i < j < |xs| ==> xs[i] != xs[j]
  }

  ghost predicate AppliedAreConversions(applied: set<string>) {
    forall op :: op in applied ==> IsKnown(op) && !IsEdge(op)
  }

  ghost predicate RecordsKnown(h: seq<Entry>) {
    forall i :: 0 <= i < |h| ==> IsKnown(h[i].op)
  }

  ghost predicate ListsDistinct(m: map<string, seq<string>>) {
    forall name :: name in m ==> NoDuplicates(m[name])
  }

  /** The state that `apply_processing`, the undo/redo handlers and
      `add_to_history` read and write. `lastEdgeOperation` and `snapshots`
      are `Missing` until first assigned, as in the window object. */
  datatype Controller = Controller(
    operationHistory: seq<Entry>,
    historyIndex: int,
    applied: set<string>,
    imageOperations: map<string, seq<string>>,
    lastEdgeOperation: Attr<Option<string>>,
    snapshots: Attr<seq<Pixmap>>)
  {
    /** The cursor never drops below -1. Every entry point keeps this
        floor; the full range `CursorInRange` is kept by all of them but
        the recording path of `_run_operation`, which can push the cursor
        past the last record. */
    predicate CursorFloor() {
      -1 <= historyIndex
    }

    /** The ledger invariant: the cursor is -1 or indexes a record. */
    predicate CursorInRange() {
      -1 <= historyIndex <= |operationHistory| - 1
    }

    predicate CanUndo() {
      historyIndex > 0
    }

    predicate CanRedo() {
      historyIndex + 1 < |operationHistory|
    }

    /** What the bookkeeping promises about its contents: only known
        non-edge operations are ever marked as applied, every record names
        a known operation, the per-file lists are free of repeats, and the
        remembered edge operation is an edge detector. */
    ghost predicate Consistent() {
      && AppliedAreConversions(applied)
      && RecordsKnown(operationHistory)
      && ListsDistinct(imageOperations)
      && (lastEdgeOperation.Present? && lastEdgeOperation.value.Some? ==>
            IsEdge(lastEdgeOperation.value.value))
    }
  }

  /** The new state after an entry point, and what the call did. */
  datatype Step<O> = Step(next: Controller, out: O)

  /** What `apply_processing` did: returned early for want of an image,
      refused an operation already applied, raised while building a
      conversion that could not read its image, ignored an unknown name,
      or started the worker thread on a new history record. */
  datatype Dispatch = NoImage | AlreadyApplied | ReadFailed | Unknown | Started(entry: Entry)

  /** What `on_threshold_changed` did: raised `AttributeError` because no
      dispatch has assigned `last_edge_operation` yet, ignored the change,
      or re-dispatched the remembered edge detector. */
  datatype Reaction = AttributeMissing | Ignored | Redispatched(dispatch: Dispatch)

  /** What undo or redo did: nothing (the cursor cannot move), or moved the
      cursor and replayed a record, showing the pixmap if one came out. */
  datatype Replay = NothingToReplay | Replayed(entry: Entry, shown: Option<Pixmap>)

  /** `not image_path`: no image loaded, or an empty path. */
  predicate HasImage(image: Option<string>) {
    image.Some? && image.value != ""
  }

  /** The dedup guard of `apply_processing` lets the call through. */
  predicate PassesGuards(c: Controller, image: Option<string>, op: string) {
    HasImage(image) && (IsEdge(op) || op !in c.applied)
  }

  /** The state set up by the window's constructor. */
  function Initial(): (c: Controller)
    ensures c.CursorFloor() && c.CursorInRange() && c.Consistent()
    ensures c.operationHistory == [] && !c.CanUndo() && !c.CanRedo()
    ensures c.applied == {} && c.imageOperations == map[]
    ensures c.lastEdgeOperation.Missing? && c.snapshots.Missing?
  {
    Controller([], -1, {}, map[], Missing, Missing)
  }

  /** The per-file list of operations grows by `op` only when `op` is not
      in it yet, at the end. */
  function AppendIfAbsent(xs: seq<string>, op: string): (r: seq<string>)
    ensures op in r
    ensures forall x :: x in r <==> x in xs || x == op
    ensures xs <= r && |r| <= |xs| + 1
    ensures NoDuplicates(xs) ==> NoDuplicates(r)
  {
    if op in xs then xs else xs + [op]
  }

  /** The list recorded for a file name so far (empty when none). */
  function OperationsFor(m: map<string, seq<string>>, name: string): seq<string> {
    if name in m then m[name] else []
  }

  lemma RecordsKnownAppend(h: seq<Entry>, k: nat, e: Entry)
    requires RecordsKnown(h) && IsKnown(e.op)
    ensures RecordsKnown(Prefix(h, k) + [e])
  {
    var h' := Prefix(h, k) + [e];
    forall i | 0 <= i < |h'| ensures IsKnown(h'[i].op) {
      if i < |h'| - 1 { assert h'[i] == h[i]; }
    }
  }

  lemma ListsDistinctAppend(m: map<string, seq<string>>, name: string, op: string)
    requires ListsDistinct(m)
    ensures ListsDistinct(m[name := AppendIfAbsent(OperationsFor(m, name), op)])
  {
    var xs := OperationsFor(m, name);
    assert NoDuplicates(xs);
  }

  /** The bookkeeping of a dispatched operation, done before its worker
      runs: a non-edge operation is marked as applied, the operation is
      listed once for the image's file name, and the record is appended
      after cutting off the records past the cursor. */
  function Commit(c: Controller, e: Entry): (r: Controller)
    requires c.CursorFloor()
    ensures r.CursorFloor()
    ensures r.operationHistory == Prefix(c.operationHistory, c.historyIndex + 1) + [e]
    ensures r.historyIndex == c.historyIndex + 1
    ensures c.CursorInRange() ==> r.CursorInRange() && !r.CanRedo()
    ensures r.applied == (if IsEdge(e.op) then c.applied else c.applied + {e.op})
    ensures var name := Basename(e.path);
            r.imageOperations ==
              c.imageOperations[name := AppendIfAbsent(OperationsFor(c.imageOperations, name), e.op)]
    ensures r.lastEdgeOperation == c.lastEdgeOperation && r.snapshots == c.snapshots
    ensures c.Consistent() && IsKnown(e.op) ==> r.Consistent()
  {
    var name := Basename(e.path);
    var c' := c.(applied := if IsEdge(e.op) then c.applied else c.applied + {e.op},
                 imageOperations :=
                   c.imageOperations[name := AppendIfAbsent(OperationsFor(c.imageOperations, name), e.op)],
                 operationHistory := Prefix(c.operationHistory, c.historyIndex + 1) + [e],
                 historyIndex := c.historyIndex + 1);
    assert c.Consistent() && IsKnown(e.op) ==> c'.Consistent() by {
      if c.Consistent() && IsKnown(e.op) {
        RecordsKnownAppend(c.operationHistory, c.historyIndex + 1, e);
        ListsDistinctAppend(c.imageOperations, name, e.op);
      }
    }
    c'
  }

  /** `apply_processing(op, threshold)` with `slider` the threshold slider's
      value and `readable` whether reading the image file succeeds now. */
  function Apply(c: Controller, image: Option<string>, op: string, threshold: Option<int>,
                 slider: int, readable: bool): (r: Step<Dispatch>)
    requires c.CursorFloor()
    ensures r.next.CursorFloor()
    ensures c.CursorInRange() ==> r.next.CursorInRange()
    ensures c.Consistent() ==> r.next.Consistent()
    // the early returns change nothing
    ensures !HasImage(image) ==> r == Step(c, NoImage)
    ensures HasImage(image) && !IsEdge(op) && op in c.applied ==> r == Step(c, AlreadyApplied)
    // past the guards, the edge operation is remembered, whatever follows
    ensures PassesGuards(c, image, op) ==>
              r.next.lastEdgeOperation == Present(if IsEdge(op) then Some(op) else None)
    ensures r.out.Started? <==>
              PassesGuards(c, image, op) && IsKnown(op) && (op in ReadOnConstruction ==> readable)
    // an unknown identifier is dropped silently; a conversion whose file
    // cannot be read raises while its operation object is built
    ensures r.out == Unknown <==> PassesGuards(c, image, op) && !IsKnown(op)
    ensures r.out == ReadFailed <==>
              PassesGuards(c, image, op) && op in ReadOnConstruction && !readable
    ensures !r.out.Started? ==> r.next == c.(lastEdgeOperation := r.next.lastEdgeOperation)
    // a started operation is recorded before it runs
    ensures r.out.Started? ==>
              && r.out.entry == Entry(op, image.value, if threshold.Some? then threshold.value else slider)
              && r.next == Commit(c.(lastEdgeOperation := r.next.lastEdgeOperation), r.out.entry)
  {
    if !HasImage(image) then Step(c, NoImage)
    else if !IsEdge(op) && op in c.applied then Step(c, AlreadyApplied)
    else
      var c1 := c.(lastEdgeOperation := Present(if IsEdge(op) then Some(op) else None));
      var t := if threshold.Some? then threshold.value else slider;
      if !IsKnown(op) then Step(c1, Unknown)
      else if op in ReadOnConstruction && !readable then Step(c1, ReadFailed)
      else
        var e := Entry(op, image.value, t);
        Step(Commit(c1, e), Started(e))
  }

  /** `on_threshold_changed(value)`: re-dispatch the remembered edge
      detector with the new value as its threshold. */
  function ThresholdChanged(c: Controller, image: Option<string>, value: int): (r: Step<Reaction>)
    requires c.CursorFloor()
    ensures r.next.CursorFloor()
    ensures c.CursorInRange() ==> r.next.CursorInRange()
    ensures c.Consistent() ==> r.next.Consistent()
    ensures r.next.lastEdgeOperation == c.lastEdgeOperation
    ensures c.lastEdgeOperation.Missing? ==> r == Step(c, AttributeMissing)
    // once assigned, even to None, the attribute lookup no longer raises
    ensures r.out == AttributeMissing <==> c.lastEdgeOperation.Missing?
    ensures r.out.Redispatched? <==>
              c.lastEdgeOperation.Present? && c.lastEdgeOperation.value.Some? &&
              IsEdge(c.lastEdgeOperation.value.value)
    ensures !r.out.Redispatched? ==> r.next == c
    // with an image loaded, every change is a new undoable record
    ensures r.out.Redispatched? && HasImage(image) ==>
              r.out.dispatch == Started(Entry(c.lastEdgeOperation.value.value, image.value, value))
    ensures r.out.Redispatched? ==>
              Step(r.next, r.out.dispatch) ==
              Apply(c, image, c.lastEdgeOperation.value.value, Some(value), value, true)
  {
    match c.lastEdgeOperation
    case Missing => Step(c, AttributeMissing)
    case Present(last) =>
      if last.Some? && IsEdge(last.value) then
        // edge detectors never read their image on construction
        var a := Apply(c, image, last.value, Some(value), value, true);
        Step(a.next, Redispatched(a.out))
      else Step(c, Ignored)
  }

  /** `add_to_history()` with `pixmap` the output label's pixmap: the
      snapshot ledger is created on first use, which also resets the
      shared cursor to -1, and then truncated at the shared cursor and
      extended. */
  function Snapshot(c: Controller, pixmap: Option<Pixmap>): (r: Controller)
    requires c.CursorFloor()
    ensures r.CursorFloor()
    ensures c.Consistent() ==> r.Consistent()
    ensures pixmap.None? ==> r == c
    ensures pixmap.Some? ==>
              && r.snapshots.Present?
              && r.snapshots.value ==
                   (if c.snapshots.Missing? then [] else Prefix(c.snapshots.value, c.historyIndex + 1))
                   + [pixmap.value]
              && r.historyIndex == (if c.snapshots.Missing? then 0 else c.historyIndex + 1)
              && r == c.(snapshots := r.snapshots, historyIndex := r.historyIndex)
  {
    match pixmap
    case None => c
    case Some(p) =>
      var c1 := if c.snapshots.Missing? then c.(snapshots := Present([]), historyIndex := -1) else c;
      c1.(snapshots := Present(Prefix(c1.snapshots.value, c1.historyIndex + 1) + [p]),
          historyIndex := c1.historyIndex + 1)
  }

  /** `_run_operation(op, path, threshold, record)`: replay synchronously;
      only a replay that produced a pixmap and is asked to record touches
      the state, appending to the operation ledger and then to the
      snapshot ledger, both through the one shared cursor. */
  function Rerun(c: Controller, op: string, path: string, threshold: int, record: bool,
                  t: Transform): (r: Step<Option<Pixmap>>)
    requires c.CursorFloor()
    ensures r.out == Exec(t, Entry(op, path, threshold))
    ensures r.next.CursorFloor()
    ensures c.Consistent() ==> r.next.Consistent()
    ensures !record || r.out.None? ==> r.next == c
    ensures record && r.out.Some? ==>
              var e := Entry(op, path, threshold);
              var c1 := c.(operationHistory := Prefix(c.operationHistory, c.historyIndex + 1) + [e],
                           historyIndex := c.historyIndex + 1);
              && (c.CursorInRange() ==> c1.CursorInRange())
              && r.next == Snapshot(c1, r.out)
  {
    var e := Entry(op, path, threshold);
    var shown := Exec(t, e);
    if shown.Some? && record then
      var c1 := c.(operationHistory := Prefix(c.operationHistory, c.historyIndex + 1) + [e],
                   historyIndex := c.historyIndex + 1);
      Step(Snapshot(c1, shown), shown)
    else Step(c, shown)
  }

  /** `undo_last_operation()`: step the cursor back and replay the record
      it now points at, without recording. */
  function Undo(c: Controller, t: Transform): (r: Step<Replay>)
    requires c.CursorFloor() && c.historyIndex <= |c.operationHistory|
    ensures r.next.CursorFloor()
    ensures r.next == c.(historyIndex := r.next.historyIndex)
    ensures !c.CanUndo() ==> r == Step(c, NothingToReplay)
    ensures c.CanUndo() ==>
              && r.next.historyIndex == c.historyIndex - 1
              && r.out == Replayed(c.operationHistory[c.historyIndex - 1],
                                   Exec(t, c.operationHistory[c.historyIndex - 1]))
    ensures c.CursorInRange() ==> r.next.CursorInRange()
    ensures c.CanUndo() && c.CursorInRange() ==> r.next.CanRedo()
  {
    if c.historyIndex <= 0 then Step(c, NothingToReplay)
    else
      var c1 := c.(historyIndex := c.historyIndex - 1);
      var e := c1.operationHistory[c1.historyIndex];
      var s := Rerun(c1, e.op, e.path, e.threshold, false, t);
      Step(s.next, Replayed(e, s.out))
  }

  /** `redo_last_operation()`: when a record lies past the cursor, step
      forward and replay it, without recording. */
  function Redo(c: Controller, t: Transform): (r: Step<Replay>)
    requires c.CursorFloor()
    ensures r.next.CursorFloor()
    ensures r.next == c.(historyIndex := r.next.historyIndex)
    ensures !c.CanRedo() ==> r == Step(c, NothingToReplay)
    ensures c.CanRedo() ==>
              && r.next.historyIndex == c.historyIndex + 1
              && r.out == Replayed(c.operationHistory[c.historyIndex + 1],
                                   Exec(t, c.operationHistory[c.historyIndex + 1]))
    ensures c.CursorInRange() ==> r.next.CursorInRange()
  {
    if c.historyIndex + 1 < |c.operationHistory| then
      var c1 := c.(historyIndex := c.historyIndex + 1);
      var e := c1.operationHistory[c1.historyIndex];
      var s := Rerun(c1, e.op, e.path, e.threshold, false, t);
      Step(s.next, Replayed(e, s.out))
    else Step(c, NothingToReplay)
  }

  /** The recording path of `_run_operation` (no caller in the window asks
      for it) advances the shared cursor once for the operation ledger and
      once more for the snapshot ledger. The first recorded replay resets
      the cursor to 0 as it creates the snapshot ledger; any later one
      leaves the cursor past the last record, so two in a row always do. */
  lemma RecordedRerunOverrunsCursor(c: Controller, e: Entry, t: Transform)
    requires c.CursorFloor() && c.CursorInRange() && Exec(t, e).Some?
    ensures var r := Rerun(c, e.op, e.path, e.threshold, true, t).next;
            && (c.snapshots.Missing? ==> r.historyIndex == 0 && r.CursorInRange())
            && (c.snapshots.Present? ==> r.historyIndex == |r.operationHistory|)
            && var r2 := Rerun(r, e.op, e.path, e.threshold, true, t).next;
               r2.historyIndex >= |r2.operationHistory| && !r2.CursorInRange()
  {
  }
}

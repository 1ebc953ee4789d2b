/**
 * The window as the user drives it: the loaded image path together with
 * the controller, the GUI events that reach the modelled entry points,
 * and what holds over whole sequences of them.
 */
module Session {
  import opened Operations
  import opened History
  import opened PyStd
  import opened ImageManagement

  /** The image manager's loaded path and the window's controller. */
  datatype App = App(loaded: Option<string>, window: Controller)

  /** The events wired to the modelled entry points: the open action, an
      operation's menu entry or button (dispatched without a threshold),
      the threshold slider, and the undo and redo buttons. */
  datatype Event =
    | OpenClicked(chosen: string, decodes: bool)
    | OperationClicked(op: string, slider: int, readable: bool)
    | SliderMoved(value: int)
    | UndoClicked
    | RedoClicked

  /** What an event did, as its entry point reports it. */
  datatype Notice =
    | LoadNotice(path: string)
    | ApplyNotice(dispatch: Dispatch)
    | SliderNotice(reaction: Reaction)
    | HistoryNotice(replay: Replay)

  datatype Moved = Moved(app: App, notice: Notice)

  /** The invariant of every reachable state: the cursor stays within the
      ledger, the bookkeeping is consistent, and every record and the
      loaded path name a non-empty path. */
  ghost predicate Inv(a: App) {
    && a.window.CursorFloor()
    && a.window.CursorInRange()
    && a.window.Consistent()
    && (forall i :: 0 <= i < |a.window.operationHistory| ==> a.window.operationHistory[i].path != "")
    && (a.loaded.Some? ==> a.loaded.value != "")
  }

  /** The state right after start-up: no image, an empty ledger. */
  function Start(): (a: App)
    ensures Inv(a)
    ensures a.loaded == None && a.window.operationHistory == []
  {
    App(None, Initial())
  }

  /** One event. Loading goes through the image manager and touches only
      the applied set; the other events go to the window's entry points. */
  function Next(a: App, ev: Event, t: Transform): (r: Moved)
    requires Inv(a)
    ensures Inv(r.app)
    ensures !ev.OpenClicked? ==> r.app.loaded == a.loaded
    ensures ev.OpenClicked? ==> r.app.window == a.window.(applied := r.app.window.applied)
    ensures ev.UndoClicked? || ev.RedoClicked? ==>
              r.app.window.operationHistory == a.window.operationHistory
  {
    match ev
    case OpenClicked(chosen, decodes) =>
      var o := Open(a.loaded, a.window.applied, chosen, decodes);
      Moved(App(o.loaded, a.window.(applied := o.applied)), LoadNotice(o.returned))
    case OperationClicked(op, slider, readable) =>
      var s := Apply(a.window, a.loaded, op, None, slider, readable);
      Moved(App(a.loaded, s.next), ApplyNotice(s.out))
    case SliderMoved(value) =>
      var s := ThresholdChanged(a.window, a.loaded, value);
      Moved(App(a.loaded, s.next), SliderNotice(s.out))
    case UndoClicked =>
      var s := Undo(a.window, t);
      Moved(App(a.loaded, s.next), HistoryNotice(s.out))
    case RedoClicked =>
      var s := Redo(a.window, t);
      Moved(App(a.loaded, s.next), HistoryNotice(s.out))
  }

  /** A whole sequence of events. */
  function Run(a: App, evs: seq<Event>, t: Transform): (r: App)
    requires Inv(a)
    ensures Inv(r)
    decreases |evs|
  {
    if evs == [] then a else Run(Next(a, evs[0], t).app, evs[1..], t)
  }

  /** Until some operation is dispatched, `last_edge_operation` stays
      unassigned, so moving the slider raises. */
  lemma {:induction false} SliderBeforeAnyDispatch(a: App, evs: seq<Event>, value: int, t: Transform)
    requires Inv(a) && a.window.lastEdgeOperation.Missing?
    requires forall i :: 0 <= i < |evs| ==> !evs[i].OperationClicked?
    ensures Run(a, evs, t).window.lastEdgeOperation.Missing?
    ensures Next(Run(a, evs, t), SliderMoved(value), t).notice == SliderNotice(AttributeMissing)
    decreases |evs|
  {
    if evs != [] {
      SliderBeforeAnyDispatch(Next(a, evs[0], t).app, evs[1..], value, t);
    }
  }

  /** Loading another image keeps the ledger and the cursor, so the next
      undo replays the same record as it would have before the load. */
  lemma LoadKeepsLedger(a: App, chosen: string, decodes: bool, t: Transform)
    requires Inv(a)
    ensures var b := Next(a, OpenClicked(chosen, decodes), t).app;
            && b.window.operationHistory == a.window.operationHistory
            && b.window.historyIndex == a.window.historyIndex
            && b.window.imageOperations == a.window.imageOperations
            && b.window.lastEdgeOperation == a.window.lastEdgeOperation
            && (chosen != "" && decodes ==> b.window.applied == {})
            && Next(b, UndoClicked, t).notice == Next(a, UndoClicked, t).notice
  {
  }

  /** `k` undos in a row: the cursor steps back `k` places and the records
      before the old cursor are replayed, nearest first. */
  function Undos(c: Controller, k: nat, t: Transform): (r: Step<seq<Replay>>)
    requires c.CursorFloor() && k <= c.historyIndex <= |c.operationHistory|
    ensures r.next == c.(historyIndex := c.historyIndex - k)
    ensures |r.out| == k
    ensures forall i :: 0 <= i < k ==>
              r.out[i] == Replayed(c.operationHistory[c.historyIndex - 1 - i],
                                   Exec(t, c.operationHistory[c.historyIndex - 1 - i]))
    decreases k
  {
    if k == 0 then Step(c, [])
    else
      var u := Undo(c, t);
      var rest := Undos(u.next, k - 1, t);
      Step(rest.next, [u.out] + rest.out)
  }

  /** `k` redos in a row: the cursor steps forward `k` places and the
      records after the old cursor are replayed in order. */
  function Redos(c: Controller, k: nat, t: Transform): (r: Step<seq<Replay>>)
    requires c.CursorFloor() && c.historyIndex + k < |c.operationHistory|
    ensures r.next == c.(historyIndex := c.historyIndex + k)
    ensures |r.out| == k
    ensures forall i :: 0 <= i < k ==>
              r.out[i] == Replayed(c.operationHistory[c.historyIndex + 1 + i],
                                   Exec(t, c.operationHistory[c.historyIndex + 1 + i]))
    decreases k
  {
    if k == 0 then Step(c, [])
    else
      var u := Redo(c, t);
      var rest := Redos(u.next, k - 1, t);
      Step(rest.next, [u.out] + rest.out)
  }

  /** Undoing `k` steps and redoing `k` steps restores the controller, and
      the last redo replays the record that was current before the undos,
      with the same result, since replay is a pure function of the record. */
  lemma UndoRedoRoundTrip(c: Controller, k: nat, t: Transform)
    requires c.CursorFloor() && c.CursorInRange() && k <= c.historyIndex
    ensures var u := Undos(c, k, t);
            var d := Redos(u.next, k, t);
            && d.next == c
            && (k > 0 ==> d.out[k - 1] == Replayed(c.operationHistory[c.historyIndex],
                                                    Exec(t, c.operationHistory[c.historyIndex])))
            && (forall i :: 0 <= i < k - 1 ==> d.out[i] == u.out[k - 2 - i])
  {
  }

  /** A non-edge operation is refused the second time, with nothing
      changed, while an edge detector is dispatched again. */
  lemma RepeatRules(c: Controller, p: string, op: string, edge: string,
                    s1: int, s2: int, t1: Option<int>, t2: Option<int>)
    requires c.CursorFloor() && c.CursorInRange() && p != ""
    requires IsKnown(op) && !IsEdge(op) && IsEdge(edge)
    ensures var a := Apply(c, Some(p), op, t1, s1, true);
            Apply(a.next, Some(p), op, t2, s2, true) == Step(a.next, AlreadyApplied)
    ensures var b := Apply(c, Some(p), edge, t1, s1, true);
            var b2 := Apply(b.next, Some(p), edge, t2, s2, true);
            && b2.out == Started(Entry(edge, p, if t2.Some? then t2.value else s2))
            && |b2.next.operationHistory| == |b.next.operationHistory| + 1
  {
  }

  /** Open an image and convert it to grayscale with the slider at 100. */
  function Converted(p: string, t: Transform): (m: Moved)
    requires p != ""
    ensures Inv(m.app)
    ensures m.app.loaded == Some(p)
    ensures m.app.window.operationHistory == [Entry("grayscale", p, 100)]
    ensures m.app.window.historyIndex == 0 && "grayscale" in m.app.window.applied
  {
    var a1 := Next(Start(), OpenClicked(p, true), t).app;
    assert a1 == App(Some(p), Initial());
    Next(a1, OperationClicked("grayscale", 100, true), t)
  }

  /** The first half of the scenario below: after `Converted`, run Sobel
      with the slider at 100, then drag it to 150. */
  function Edited(p: string, t: Transform): (m: Moved)
    requires p != ""
    ensures Inv(m.app)
    ensures m.notice == SliderNotice(Redispatched(Started(Entry("sobel", p, 150))))
    ensures m.app.loaded == Some(p)
    ensures m.app.window.operationHistory ==
              [Entry("grayscale", p, 100), Entry("sobel", p, 100), Entry("sobel", p, 150)]
    ensures m.app.window.historyIndex == 2 && "grayscale" in m.app.window.applied
  {
    var a2 := Converted(p, t).app;
    var m3 := Next(a2, OperationClicked("sobel", 100, true), t);
    assert m3.app.window.operationHistory == [Entry("grayscale", p, 100), Entry("sobel", p, 100)];
    assert m3.app.window.historyIndex == 1;
    assert m3.app.window.lastEdgeOperation == Present(Some("sobel"));
    Next(m3.app, SliderMoved(150), t)
  }

  /** The scenario continued: undo, then redo. */
  function Redone(p: string, t: Transform): (m: Moved)
    requires p != ""
    ensures Inv(m.app)
    ensures m.notice == HistoryNotice(Replayed(Entry("sobel", p, 150), t("sobel", p, Some(150))))
    ensures m.app.loaded == Some(p)
    ensures m.app.window.operationHistory ==
              [Entry("grayscale", p, 100), Entry("sobel", p, 100), Entry("sobel", p, 150)]
    ensures m.app.window.historyIndex == 2 && "grayscale" in m.app.window.applied
  {
    var m5 := Next(Edited(p, t).app, UndoClicked, t);
    assert m5.app.window.historyIndex == 1;
    Next(m5.app, RedoClicked, t)
  }

  /** Undo shows Sobel at 100 again, redo Sobel at 150, and grayscale is
      then refused a second time, leaving the three dispatches in the
      ledger. */
  lemma EditingScenario(p: string, t: Transform)
    requires p != ""
    ensures var m5 := Next(Edited(p, t).app, UndoClicked, t);
            && m5.notice == HistoryNotice(Replayed(Entry("sobel", p, 100), t("sobel", p, Some(100))))
            && Next(m5.app, RedoClicked, t) == Redone(p, t)
    ensures var m7 := Next(Redone(p, t).app, OperationClicked("grayscale", 100, true), t);
            && m7.notice == ApplyNotice(AlreadyApplied)
            && m7.app == Redone(p, t).app
  {
  }

  /** Open an image and run Sobel with the slider at 100. */
  function SobelApplied(p: string, t: Transform): (m: Moved)
    requires p != ""
    ensures Inv(m.app)
    ensures m.app.loaded == Some(p)
    ensures m.app.window.operationHistory == [Entry("sobel", p, 100)]
    ensures m.app.window.historyIndex == 0 && m.app.window.applied == {}
  {
    var a1 := Next(Start(), OpenClicked(p, true), t).app;
    assert a1 == App(Some(p), Initial());
    Next(a1, OperationClicked("sobel", 100, true), t)
  }

  /** After `SobelApplied`, run grayscale and undo once. */
  function ConvertedThenUndone(p: string, t: Transform): (a: App)
    requires p != ""
    ensures Inv(a)
    ensures a.loaded == Some(p)
    ensures a.window.operationHistory == [Entry("sobel", p, 100), Entry("grayscale", p, 100)]
    ensures a.window.historyIndex == 0 && a.window.applied == {"grayscale"}
  {
    var a2 := SobelApplied(p, t).app;
    var a3 := Next(a2, OperationClicked("grayscale", 100, true), t).app;
    assert a3.window.operationHistory == [Entry("sobel", p, 100), Entry("grayscale", p, 100)];
    assert a3.window.historyIndex == 1 && a3.window.applied == {"grayscale"};
    Next(a3, UndoClicked, t).app
  }

  /** After `ConvertedThenUndone`, run HSV: it cuts off the undone
      grayscale record. */
  function HsvAfterUndo(p: string, t: Transform): (a: App)
    requires p != ""
    ensures a.loaded == Some(p)
    ensures a.window.operationHistory == [Entry("sobel", p, 100), Entry("hsv", p, 100)]
    ensures "grayscale" in a.window.applied
  {
    var a4 := ConvertedThenUndone(p, t);
    var s := Apply(a4.window, Some(p), "hsv", None, 100, true);
    assert s.out == Started(Entry("hsv", p, 100));
    assert Prefix(a4.window.operationHistory, 1) == [Entry("sobel", p, 100)];
    App(a4.loaded, s.next)
  }

  /** The applied set is not rolled back by undo: after undoing a
      conversion and dispatching something else, the conversion's record
      is gone from the ledger but the conversion is still refused. */
  lemma UndoneConversionStaysBlocked(p: string, t: Transform)
    requires p != ""
    ensures var a5 := Next(ConvertedThenUndone(p, t), OperationClicked("hsv", 100, true), t).app;
            && a5 == HsvAfterUndo(p, t)
            && Next(a5, OperationClicked("grayscale", 100, true), t).notice == ApplyNotice(AlreadyApplied)
  {
  }
}

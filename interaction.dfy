/**
 * The interaction controller of the caption editor, as a state machine over
 * the component's whole state (`Editor`): one function per event handler,
 * `Dispatch` routing a user event to the handlers it reaches, and `Run` for a
 * sequence of events. Two independent sub-machines live in it:
 * Idle -> Placing (an open draft, `editing`) -> Idle, and
 * Idle -> Dragging(id, startMouse, startElem) -> Idle.
 */
module Interaction {
  import opened Wrappers
  import opened Text
  import opened Scene
  import opened History
  import opened Compositor

  /** The pointer sub-machine; the move and up listeners exist only while `Dragging`. */
  datatype Drag = Idle | Dragging(id: int, startMouse: Point, startElem: Point)

  /** The keys the handlers distinguish. */
  datatype Key = Enter | Escape | Delete | OtherKey

  /** The component's state: React state, the history refs and the open drag. */
  datatype Editor = Editor(
    image: Option<Image>,
    texts: seq<TextObj>,
    selectedId: Option<int>,
    editing: Option<Point>,
    inputValue: string,
    drag: Drag,
    history: Stacks)

  const Initial := Editor(None, [], None, None, "", Idle, Empty)

  /** The reset part of `handleImageChange`: the list is emptied and the empty list committed. */
  function ImageLoaded(e: Editor, img: Image): (r: Editor)
    ensures r.image == Some(img) && r.texts == []
    ensures r.history.undo != [] && Top(r.history.undo) == [] && r.history.redo == []
    ensures Bounded(e.history) ==> Bounded(r.history)
    ensures r.selectedId == e.selectedId && r.editing == e.editing && r.drag == e.drag
    ensures |e.history.undo| < MaxUndo ==> r.history.undo == e.history.undo + [[]]
    ensures r == e.(image := Some(img), texts := [], history := r.history)
  {
    e.(image := Some(img), texts := [], history := Commit(e.history, []))
  }

  /** `handleContainerClick` with container-relative coordinates. */
  function ContainerClick(e: Editor, at: Point): (r: Editor)
    ensures r.selectedId == None && r.editing.Some?
    ensures r.texts == e.texts && r.history == e.history && r.drag == e.drag && r.image == e.image
  {
    if e.editing.Some? then e.(selectedId := None)
    else e.(selectedId := None, editing := Some(at), inputValue := "")
  }

  /** The draft textarea's `onChange`; without an open draft there is no textarea. */
  function DraftInput(e: Editor, value: string): (r: Editor)
    ensures e.editing.Some? ==> r.inputValue == value
    ensures e.editing.None? ==> r == e
    ensures r == e.(inputValue := r.inputValue)
  {
    if e.editing.Some? then e.(inputValue := value) else e
  }

  /** `handleInputKeyDown`: `now` stands for `Date.now()`, `style` for the style controls. */
  function DraftKeyDown(e: Editor, key: Key, shift: bool, style: Style, now: int): (r: Editor)
    ensures r == e || r.editing.None?
    ensures r.texts == e.texts || (|r.texts| == |e.texts| + 1 && r.texts[..|e.texts|] == e.texts)
    ensures r.history == e.history || r.history == Commit(e.history, r.texts)
    ensures r.selectedId == e.selectedId && r.drag == e.drag && r.image == e.image
  {
    if e.editing.None? then e
    else if key == Enter && !shift then
      if Trim(e.inputValue) != [] then
        var t := TextObj(now, e.editing.value.x, e.editing.value.y,
                         style.fontFamily, style.fontSize, style.fontColor, e.inputValue);
        var updated := e.texts + [t];
        e.(texts := updated, history := Commit(e.history, updated), editing := None)
      else
        e.(editing := None)
    else if key == Escape then e.(editing := None)
    else e
  }

  /** The document `keydown` listener: Delete removes the selected id. */
  function DocumentKeyDown(e: Editor, key: Key): (r: Editor)
    ensures r == e || (key == Delete && r.selectedId == None && r.history == Commit(e.history, r.texts))
    ensures |r.texts| <= |e.texts|
    ensures r.editing == e.editing && r.drag == e.drag && r.image == e.image
  {
    if key == Delete && e.selectedId.Some? then
      var updated := Without(e.texts, e.selectedId.value);
      e.(texts := updated, history := Commit(e.history, updated), selectedId := None)
    else e
  }

  /** `TextElement.handleMouseDown` on the caption at index `k`: select it and start a drag. */
  function CaptionMouseDown(e: Editor, k: nat, mouse: Point): (r: Editor)
    requires k < |e.texts|
    ensures r.selectedId == Some(e.texts[k].id) && r.drag.Dragging? && r.drag.id == e.texts[k].id
    ensures DragTarget(r.drag, mouse) == Point(e.texts[k].x, e.texts[k].y)
    ensures r.texts == e.texts && r.history == e.history && r.editing == e.editing
    ensures r == e.(selectedId := r.selectedId, drag := r.drag)
  {
    var t := e.texts[k];
    e.(selectedId := Some(t.id), drag := Dragging(t.id, mouse, Point(t.x, t.y)))
  }

  /** Where a drag puts the caption for pointer position `mouse`: `startElem + (mouse - startMouse)`. */
  function DragTarget(d: Drag, mouse: Point): Point
    requires d.Dragging?
  {
    Point(d.startElem.x + (mouse.x - d.startMouse.x), d.startElem.y + (mouse.y - d.startMouse.y))
  }

  /** The drag's `handleMouseMove`: a position update that is not committed. */
  function MouseMove(e: Editor, mouse: Point): (r: Editor)
    ensures r.history == e.history && r.drag == e.drag && |r.texts| == |e.texts|
    ensures forall i :: 0 <= i < |e.texts| ==> r.texts[i].id == e.texts[i].id
    ensures e.drag.Dragging? ==> forall i :: 0 <= i < |e.texts| && e.texts[i].id == e.drag.id ==>
      Point(r.texts[i].x, r.texts[i].y) == DragTarget(e.drag, mouse)
    ensures e.drag.Dragging? ==> forall i :: 0 <= i < |e.texts| ==>
      r.texts[i] == if e.texts[i].id == e.drag.id
        then e.texts[i].(x := DragTarget(e.drag, mouse).x, y := DragTarget(e.drag, mouse).y)
        else e.texts[i]
    ensures e.drag.Idle? ==> r == e
    ensures r == e.(texts := r.texts)
  {
    if e.drag.Idle? then e
    else
      var p := DragTarget(e.drag, mouse);
      e.(texts := Moved(e.texts, e.drag.id, p.x, p.y))
  }

  /** The drag's `handleMouseUp` and `handleDragEnd`: commit the current list, end the drag. */
  function MouseUp(e: Editor): (r: Editor)
    ensures r.drag.Idle? && r.texts == e.texts
    ensures e.drag.Dragging? ==> r.history.undo != [] && Top(r.history.undo) == e.texts && r.history.redo == []
    ensures e.drag.Idle? ==> r == e
  {
    if e.drag.Dragging? then e.(history := Commit(e.history, e.texts), drag := Idle) else e
  }

  /** `TextElement`'s `onClick`. */
  function CaptionClick(e: Editor, k: nat): (r: Editor)
    requires k < |e.texts|
    ensures r.selectedId.Some? && HasId(r.texts, r.selectedId.value)
    ensures r.selectedId == Some(e.texts[k].id)
    ensures r == e.(selectedId := r.selectedId)
  {
    e.(selectedId := Some(e.texts[k].id))
  }

  /** `handleUndo`, restoring the snapshot the history gives back. */
  function UndoClick(e: Editor): (r: Editor)
    ensures |e.history.undo| <= 1 ==> r == e
    ensures |e.history.undo| > 1 ==>
      r.texts == e.history.undo[|e.history.undo| - 2] && r.history.undo != [] && r.texts == Top(r.history.undo)
    ensures r.selectedId == e.selectedId && r.editing == e.editing && r.drag == e.drag
  {
    var step := UndoStep(e.history);
    e.(history := step.history, texts := if step.restore.Some? then step.restore.value else e.texts)
  }

  /** `handleRedo`, restoring the snapshot the history gives back. */
  function RedoClick(e: Editor): (r: Editor)
    ensures e.history.redo == [] ==> r == e
    ensures e.history.redo != [] ==>
      r.texts == Top(e.history.redo) && r.history.undo != [] && r.texts == Top(r.history.undo)
    ensures r.selectedId == e.selectedId && r.editing == e.editing && r.drag == e.drag
  {
    var step := RedoStep(e.history);
    e.(history := step.history, texts := if step.restore.Some? then step.restore.value else e.texts)
  }

  /** The user events the component reacts to. */
  datatype Event =
    | ImageLoad(img: Image)
    | ClickEmpty(at: Point)
    | Type(value: string)
    | KeyDown(key: Key, shift: bool, inDraft: bool, style: Style, now: int)
    | Press(index: nat, mouse: Point)
    | Move(mouse: Point)
    | Release
    | ClickCaption(index: nat)
    | UndoButton
    | RedoButton

  /**
   * An event reaches the handlers it reaches in the page: a key pressed in the
   * draft textarea reaches its handler and then the document listener; a click
   * on a caption stops at the caption and never reaches the container; events
   * for captions that are not rendered do nothing.
   */
  function Dispatch(e: Editor, ev: Event): (r: Editor)
    ensures Bounded(e.history) ==> Bounded(r.history)
  {
    match ev
    case ImageLoad(img) => ImageLoaded(e, img)
    case ClickEmpty(at) => ContainerClick(e, at)
    case Type(value) => DraftInput(e, value)
    case KeyDown(key, shift, inDraft, style, now) =>
      DocumentKeyDown(if inDraft then DraftKeyDown(e, key, shift, style, now) else e, key)
    case Press(k, mouse) => if k < |e.texts| then CaptionMouseDown(e, k, mouse) else e
    case Move(mouse) => MouseMove(e, mouse)
    case Release => MouseUp(e)
    case ClickCaption(k) => if k < |e.texts| then CaptionClick(e, k) else e
    case UndoButton => UndoClick(e)
    case RedoButton => RedoClick(e)
  }

  function Run(e: Editor, evs: seq<Event>): (r: Editor)
    ensures Bounded(e.history) ==> Bounded(r.history)
    decreases |evs|
  {
    if evs == [] then e else Run(Dispatch(e, evs[0]), evs[1..])
  }

  lemma RunOne(e: Editor, ev: Event)
    ensures Run(e, [ev]) == Dispatch(e, ev)
  {
    assert [ev][1..] == [];
  }

  /** The pointer moves of a drag, as events. */
  function Moves(ms: seq<Point>): (r: seq<Event>)
    ensures |r| == |ms|
  {
    if ms == [] then [] else [Move(ms[0])] + Moves(ms[1..])
  }

  /** `handleMouseMove` applied for each pointer position in turn. */
  function MoveAll(e: Editor, ms: seq<Point>): Editor
    decreases |ms|
  {
    if ms == [] then e else MoveAll(MouseMove(e, ms[0]), ms[1..])
  }

  lemma {:induction false} RunMoves(e: Editor, ms: seq<Point>)
    ensures Run(e, Moves(ms)) == MoveAll(e, ms)
    decreases |ms|
  {
    if ms != [] {
      assert Moves(ms)[0] == Move(ms[0]);
      assert Moves(ms)[1..] == Moves(ms[1..]);
      RunMoves(MouseMove(e, ms[0]), ms[1..]);
    }
  }

  // ---------------------------------------------------------------------------
  // The invariant kept by every event

  /** Outside a drag the list shown is the top of the undo stack (or empty before any commit). */
  predicate Synced(e: Editor) {
    if e.history.undo == [] then e.texts == [] else e.texts == Top(e.history.undo)
  }

  predicate Valid(e: Editor) {
    Bounded(e.history) && (e.drag.Idle? ==> Synced(e))
  }

  lemma InitialValid()
    ensures Valid(Initial)
  {
  }

  /** Every event keeps the history bounded and, outside a drag, the list in step with it. */
  lemma DispatchKeepsValid(e: Editor, ev: Event)
    requires Valid(e)
    ensures Valid(Dispatch(e, ev))
  {
    match ev
    case KeyDown(key, shift, inDraft, style, now) =>
      var d := if inDraft then DraftKeyDown(e, key, shift, style, now) else e;
      assert Valid(d);
    case _ =>
  }

  lemma {:induction false} RunKeepsValid(e: Editor, evs: seq<Event>)
    requires Valid(e)
    ensures Valid(Run(e, evs))
    decreases |evs|
  {
    if evs != [] {
      DispatchKeepsValid(e, evs[0]);
      RunKeepsValid(Dispatch(e, evs[0]), evs[1..]);
    }
  }

  /** Whatever the user does, the undo stack never holds more than 50 snapshots. */
  lemma UndoStackAtMostFifty(evs: seq<Event>)
    ensures |Run(Initial, evs).history.undo| <= MaxUndo
  {
    InitialValid();
    RunKeepsValid(Initial, evs);
  }

  lemma {:induction false} RunAppend(e: Editor, a: seq<Event>, b: seq<Event>)
    ensures Run(e, a + b) == Run(Run(e, a), b)
    decreases |a|
  {
    if a == [] {
      assert a + b == b;
    } else {
      assert (a + b)[0] == a[0];
      assert (a + b)[1..] == a[1..] + b;
      RunAppend(Dispatch(e, a[0]), a[1..], b);
    }
  }

  // ---------------------------------------------------------------------------
  // Which events commit

  /** The events that call `saveState`. */
  predicate Commits(e: Editor, ev: Event) {
    match ev
    case ImageLoad(_) => true
    case KeyDown(key, shift, inDraft, _, _) =>
      (inDraft && e.editing.Some? && key == Enter && !shift && !IsBlank(e.inputValue))
      || (key == Delete && e.selectedId.Some?)
    case Release => e.drag.Dragging?
    case _ => false
  }

  /** The key-press part of `CommitsExactly`. */
  lemma KeyDownCommits(e: Editor, key: Key, shift: bool, inDraft: bool, style: Style, now: int)
    ensures var ev := KeyDown(key, shift, inDraft, style, now);
      Commits(e, ev) ==> Dispatch(e, ev).history == Commit(e.history, Dispatch(e, ev).texts)
    ensures var ev := KeyDown(key, shift, inDraft, style, now);
      !Commits(e, ev) ==> Dispatch(e, ev).history == e.history
  {
    var d := if inDraft then DraftKeyDown(e, key, shift, style, now) else e;
    assert Dispatch(e, KeyDown(key, shift, inDraft, style, now)) == DocumentKeyDown(d, key);
    if key == Delete {
      assert d == e;
    } else {
      assert DocumentKeyDown(d, key) == d;
      if inDraft && e.editing.Some? && key == Enter && !shift {
        TrimEmptyIffBlank(e.inputValue);
      }
    }
  }

  /**
   * A committing event pushes exactly the new list and empties the redo stack;
   * every other event except Undo and Redo leaves the history alone, so neither
   * a drag move nor a blank or cancelled draft adds an entry.
   */
  lemma CommitsExactly(e: Editor, ev: Event)
    ensures Commits(e, ev) ==> Dispatch(e, ev).history == Commit(e.history, Dispatch(e, ev).texts)
    ensures !Commits(e, ev) && !ev.UndoButton? && !ev.RedoButton? ==> Dispatch(e, ev).history == e.history
  {
    match ev
    case KeyDown(key, shift, inDraft, style, now) =>
      KeyDownCommits(e, key, shift, inDraft, style, now);
    case _ =>
  }

  /** After any commit, and in particular one that follows an undo, redo does nothing. */
  lemma RedoAfterCommitIsNoop(e: Editor, ev: Event)
    requires Commits(e, ev)
    ensures RedoClick(Dispatch(e, ev)) == Dispatch(e, ev)
  {
    CommitsExactly(e, ev);
  }

  // ---------------------------------------------------------------------------
  // Drafts

  /** An empty-area click always clears the selection and opens a draft only when none is open. */
  lemma ContainerClickEffect(e: Editor, at: Point)
    ensures ContainerClick(e, at).selectedId == None
    ensures ContainerClick(e, at).editing == if e.editing.Some? then e.editing else Some(at)
    ensures e.editing.None? ==> ContainerClick(e, at).inputValue == ""
    ensures e.editing.Some? ==> ContainerClick(e, at).inputValue == e.inputValue
    ensures ContainerClick(e, at).texts == e.texts && ContainerClick(e, at).history == e.history
    ensures ContainerClick(e, at).drag == e.drag
  {
  }

  /**
   * Enter without Shift on a non-blank draft appends one caption at the end, at the
   * draft anchor, in the current style, with the typed text, commits once and closes
   * the draft.
   */
  lemma DraftConfirm(e: Editor, style: Style, now: int)
    requires e.editing.Some? && !IsBlank(e.inputValue)
    ensures var r := DraftKeyDown(e, Enter, false, style, now);
      && r.texts == e.texts + [TextObj(now, e.editing.value.x, e.editing.value.y,
                                       style.fontFamily, style.fontSize, style.fontColor, e.inputValue)]
      && r.history == Commit(e.history, r.texts)
      && r.editing == None
      && r == e.(texts := r.texts, history := r.history, editing := None)
  {
    TrimEmptyIffBlank(e.inputValue);
  }

  /** Enter on a blank draft closes it, with no change to the list and no commit. */
  lemma DraftBlank(e: Editor, style: Style, now: int)
    requires e.editing.Some? && IsBlank(e.inputValue)
    ensures DraftKeyDown(e, Enter, false, style, now) == e.(editing := None)
  {
    TrimEmptyIffBlank(e.inputValue);
  }

  /** Escape closes the draft, with no change and no commit; Shift+Enter and other keys do nothing. */
  lemma DraftCancelAndOtherKeys(e: Editor, key: Key, shift: bool, style: Style, now: int)
    ensures DraftKeyDown(e, Escape, shift, style, now) == e.(editing := None)
    ensures key != Enter && key != Escape ==> DraftKeyDown(e, key, shift, style, now) == e
    ensures DraftKeyDown(e, Enter, true, style, now) == e
  {
  }

  // ---------------------------------------------------------------------------
  // Delete

  /**
   * Delete with a selection removes exactly the captions carrying the selected id,
   * commits the result once and clears the selection; with nothing selected it does
   * nothing.
   */
  lemma DeleteSelected(e: Editor, t: TextObj)
    requires e.selectedId.Some?
    ensures var r := DocumentKeyDown(e, Delete);
      && r.selectedId == None
      && r.history == Commit(e.history, r.texts)
      && (t in r.texts <==> t in e.texts && t.id != e.selectedId.value)
      && |r.texts| + CountId(e.texts, e.selectedId.value) == |e.texts|
      && r == e.(texts := r.texts, history := r.history, selectedId := None)
  {
    WithoutMembers(e.texts, e.selectedId.value, t);
  }

  lemma DeleteNothingSelected(e: Editor, key: Key)
    requires e.selectedId.None? || key != Delete
    ensures DocumentKeyDown(e, key) == e
  {
  }

  /**
   * The selection is not cleared when an undo removes the selected caption; a later
   * Delete then removes nothing and still commits a copy of the unchanged list.
   */
  lemma DeleteStaleSelection(e: Editor)
    requires e.selectedId.Some? && !HasId(e.texts, e.selectedId.value)
    ensures DocumentKeyDown(e, Delete).texts == e.texts
    ensures DocumentKeyDown(e, Delete).history == Commit(e.history, e.texts)
  {
    WithoutAbsent(e.texts, e.selectedId.value);
  }

  // ---------------------------------------------------------------------------
  // Drag

  /** `n` moves during a drag leave the history alone; the last move decides the position. */
  lemma {:induction false} MovesFollowPointer(e: Editor, ms: seq<Point>)
    requires e.drag.Dragging?
    ensures var r := MoveAll(e, ms);
      && r == e.(texts := r.texts)
      && r.texts == if ms == [] then e.texts else
           var p := DragTarget(e.drag, ms[|ms| - 1]);
           Moved(e.texts, e.drag.id, p.x, p.y)
    decreases |ms|
  {
    if ms != [] {
      var d := e.drag;
      var e1 := MouseMove(e, ms[0]);
      var p0 := DragTarget(d, ms[0]);
      assert e1 == e.(texts := Moved(e.texts, d.id, p0.x, p0.y));
      MovesFollowPointer(e1, ms[1..]);
      if |ms| > 1 {
        var p := DragTarget(d, ms[|ms| - 1]);
        assert ms[1..][|ms[1..]| - 1] == ms[|ms| - 1];
        MovedTwice(e.texts, d.id, p0.x, p0.y, p.x, p.y);
      }
    }
  }

  /** The events of one drag reach the mouse-down handler, the moves, then the mouse-up handler. */
  lemma {:induction false} DragRun(e: Editor, k: nat, press: Point, ms: seq<Point>)
    requires k < |e.texts|
    ensures Run(e, [Press(k, press)] + Moves(ms) + [Release])
      == MouseUp(MoveAll(CaptionMouseDown(e, k, press), ms))
  {
    var e1 := CaptionMouseDown(e, k, press);
    RunOne(e, Press(k, press));
    RunAppend(e, [Press(k, press)], Moves(ms));
    RunAppend(e, [Press(k, press)] + Moves(ms), [Release]);
    RunMoves(e1, ms);
    RunOne(MoveAll(e1, ms), Release);
  }

  /** The list after pressing caption `k` at `press` and moving the pointer through `ms`. */
  function Dragged(e: Editor, k: nat, press: Point, ms: seq<Point>): seq<TextObj>
    requires k < |e.texts|
  {
    var t := e.texts[k];
    if ms == [] then e.texts else
      var p := DragTarget(Dragging(t.id, press, Point(t.x, t.y)), ms[|ms| - 1]);
      Moved(e.texts, t.id, p.x, p.y)
  }

  /** What the press, the moves and the release of one drag leave behind. */
  predicate DragOutcome(e: Editor, k: nat, press: Point, ms: seq<Point>, r: Editor)
    requires k < |e.texts|
  {
    var t := e.texts[k];
    && r.texts == Dragged(e, k, press, ms)
    && r.history == Commit(e.history, r.texts)
    && r == e.(texts := r.texts, history := r.history, selectedId := Some(t.id), drag := Idle)
    && Ids(r.texts) == Ids(e.texts)
  }

  /** Between the press and the release, the moves change only the list, to `Dragged`. */
  lemma {:induction false} DragMoves(e: Editor, k: nat, press: Point, ms: seq<Point>)
    requires k < |e.texts|
    ensures var e1 := CaptionMouseDown(e, k, press);
      MoveAll(e1, ms) == e1.(texts := Dragged(e, k, press, ms))
  {
    var t := e.texts[k];
    var e1 := CaptionMouseDown(e, k, press);
    MovesFollowPointer(e1, ms);
    assert e1.drag == Dragging(t.id, press, Point(t.x, t.y));
  }

  lemma {:induction false} DragHandlers(e: Editor, k: nat, press: Point, ms: seq<Point>)
    requires k < |e.texts|
    ensures DragOutcome(e, k, press, ms, MouseUp(MoveAll(CaptionMouseDown(e, k, press), ms)))
  {
    var t := e.texts[k];
    var e1 := CaptionMouseDown(e, k, press);
    var e2 := MoveAll(e1, ms);
    var moved := Dragged(e, k, press, ms);
    DragMoves(e, k, press, ms);
    assert Ids(moved) == Ids(e.texts) by {
      if ms != [] {
        var p := DragTarget(Dragging(t.id, press, Point(t.x, t.y)), ms[|ms| - 1]);
        MovedKeepsIds(e.texts, t.id, p.x, p.y);
      }
    }
    assert MouseUp(e2) == e.(texts := moved, history := Commit(e.history, moved),
                             selectedId := Some(t.id), drag := Idle);
  }

  /**
   * One drag of the caption at index `k` (press, any number of moves, release) moves
   * every caption carrying its id (only that caption when ids are unique) to the
   * pressed caption's start position plus the last pointer offset, selects it, and
   * adds exactly one undo entry, equal to the list at release.
   */
  lemma {:induction false} DragSession(e: Editor, k: nat, press: Point, ms: seq<Point>)
    requires k < |e.texts|
    ensures DragOutcome(e, k, press, ms, Run(e, [Press(k, press)] + Moves(ms) + [Release]))
  {
    DragRun(e, k, press, ms);
    DragHandlers(e, k, press, ms);
  }

  /**
   * A plain click on a caption (press and release without moving, then the click)
   * selects it, opens no draft, and still commits a copy of the unchanged list,
   * which throws away the redo stack.
   */
  lemma {:induction false} ClickOnCaption(e: Editor, k: nat, at: Point)
    requires k < |e.texts|
    ensures var r := Run(e, [Press(k, at), Release, ClickCaption(k)]);
      && r.texts == e.texts && r.history == Commit(e.history, e.texts)
      && r.selectedId == Some(e.texts[k].id) && r.editing == e.editing
      && RedoClick(r) == r
  {
    DragSession(e, k, at, []);
    assert [Press(k, at)] + Moves([]) + [Release] == [Press(k, at), Release];
    RunAppend(e, [Press(k, at), Release], [ClickCaption(k)]);
    assert [Press(k, at), Release] + [ClickCaption(k)] == [Press(k, at), Release, ClickCaption(k)];
  }

  // ---------------------------------------------------------------------------
  // Undo and redo

  /** Undo does nothing while the undo stack holds at most one entry; redo, while its stack is empty. */
  lemma UndoRedoFloors(e: Editor)
    ensures |e.history.undo| <= 1 ==> UndoClick(e) == e
    ensures e.history.redo == [] ==> RedoClick(e) == e
  {
  }

  /**
   * Outside a drag, undo restores the entry under the top, and a redo right after it
   * brings back the captions that were shown before the undo, with the same stacks.
   */
  lemma UndoThenRedoRestores(e: Editor)
    requires Valid(e) && e.drag.Idle? && |e.history.undo| > 1
    ensures UndoClick(e).texts == e.history.undo[|e.history.undo| - 2]
    ensures RedoClick(UndoClick(e)) == e
  {
    UndoThenRedo(e.history);
  }

  /**
   * Loading an image does not clear the undo stack: an undo right after it brings
   * back the captions shown before the load.
   */
  lemma ImageLoadThenUndo(e: Editor, img: Image)
    requires Valid(e) && e.drag.Idle?
    ensures ImageLoaded(e, img).texts == []
    ensures UndoClick(ImageLoaded(e, img)).texts == e.texts
  {
  }

  // ---------------------------------------------------------------------------
  // A session end to end

  lemma RunCons(e: Editor, ev: Event, evs: seq<Event>)
    ensures Run(e, [ev] + evs) == Run(Dispatch(e, ev), evs)
  {
    assert ([ev] + evs)[0] == ev && ([ev] + evs)[1..] == evs;
  }

  /** A key other than Delete, pressed in the draft, reaches only the draft handler. */
  lemma DraftKeyEvent(e: Editor, key: Key, shift: bool, style: Style, now: int)
    requires key != Delete
    ensures Dispatch(e, KeyDown(key, shift, true, style, now)) == DraftKeyDown(e, key, shift, style, now)
  {
  }

  /** Typing "Hi" into a draft opened at (50, 50) and pressing Enter confirms one caption. */
  lemma SessionEnter(c: Editor, style: Style, now: int)
    requires c == Editor(Some(Image(400, 300)), [], None, Some(Point(50.0, 50.0)), "Hi", Idle, Stacks([[]], []))
    ensures var hi := TextObj(now, 50.0, 50.0, style.fontFamily, style.fontSize, style.fontColor, "Hi");
      Dispatch(c, KeyDown(Enter, false, true, style, now))
      == Editor(Some(Image(400, 300)), [hi], None, None, "Hi", Idle, Stacks([[], [hi]], []))
  {
    var hi := TextObj(now, 50.0, 50.0, style.fontFamily, style.fontSize, style.fontColor, "Hi");
    assert !IsBlank(c.inputValue) by {
      assert c.inputValue[0] == 'H' && !IsJsSpace('H');
    }
    DraftConfirm(c, style, now);
    DraftKeyEvent(c, Enter, false, style, now);
    var d := DraftKeyDown(c, Enter, false, style, now);
    assert d.texts == [hi] by {
      assert c.texts + [hi] == [hi];
    }
    assert d.history == Stacks([[], [hi]], []) by {
      assert c.history.undo + [[hi]] == [[], [hi]];
    }
  }

  /** A run of three events is the three handlers applied in turn. */
  lemma Run3(e: Editor, a: Event, b: Event, c: Event)
    ensures Run(e, [a, b, c]) == Dispatch(Dispatch(Dispatch(e, a), b), c)
  {
    RunCons(e, a, [b, c]);
    RunCons(Dispatch(e, a), b, [c]);
    RunOne(Dispatch(Dispatch(e, a), b), c);
    assert [a] + [b, c] == [a, b, c];
    assert [b] + [c] == [b, c];
  }

  /** Load a 400x300 image, click at (50, 50) and type "Hi": an open draft over an empty list. */
  lemma SessionOpen(style: Style, now: int)
    ensures Run(Initial, [ImageLoad(Image(400, 300)), ClickEmpty(Point(50.0, 50.0)), Type("Hi")])
      == Editor(Some(Image(400, 300)), [], None, Some(Point(50.0, 50.0)), "Hi", Idle, Stacks([[]], []))
  {
    var img, at := Image(400, 300), Point(50.0, 50.0);
    Run3(Initial, ImageLoad(img), ClickEmpty(at), Type("Hi"));
    var a := Dispatch(Initial, ImageLoad(img));
    assert a == Editor(Some(img), [], None, None, "", Idle, Stacks([[]], [])) by {
      assert Empty.undo + [[]] == [[]];
    }
  }

  /** Load a 400x300 image, click at (50, 50), type "Hi", press Enter: one caption, two entries. */
  lemma {:induction false} SessionCreate(style: Style, now: int)
    ensures var hi := TextObj(now, 50.0, 50.0, style.fontFamily, style.fontSize, style.fontColor, "Hi");
      Run(Initial, [ImageLoad(Image(400, 300)), ClickEmpty(Point(50.0, 50.0)), Type("Hi"),
                    KeyDown(Enter, false, true, style, now)])
      == Editor(Some(Image(400, 300)), [hi], None, None, "Hi", Idle, Stacks([[], [hi]], []))
  {
    var img, at, k := Image(400, 300), Point(50.0, 50.0), KeyDown(Enter, false, true, style, now);
    var opening := [ImageLoad(img), ClickEmpty(at), Type("Hi")];
    SessionOpen(style, now);
    var c := Run(Initial, opening);
    SessionEnter(c, style, now);
    RunAppend(Initial, opening, [k]);
    RunOne(c, k);
    assert opening + [k] == [ImageLoad(img), ClickEmpty(at), Type("Hi"), k];
  }

  /** Dragging the caption from (50, 50) to (120, 90) and releasing adds a third entry. */
  lemma {:induction false} SessionDrag(hi: TextObj, img: Image)
    requires hi.x == 50.0 && hi.y == 50.0
    ensures var moved := hi.(x := 120.0, y := 90.0);
      Run(Editor(Some(img), [hi], None, None, "Hi", Idle, Stacks([[], [hi]], [])),
          [Press(0, Point(55.0, 60.0)), Move(Point(125.0, 100.0)), Release])
      == Editor(Some(img), [moved], Some(hi.id), None, "Hi", Idle, Stacks([[], [hi], [moved]], []))
  {
    var e := Editor(Some(img), [hi], None, None, "Hi", Idle, Stacks([[], [hi]], []));
    var moved := hi.(x := 120.0, y := 90.0);
    DragSession(e, 0, Point(55.0, 60.0), [Point(125.0, 100.0)]);
    assert [Press(0, Point(55.0, 60.0))] + Moves([Point(125.0, 100.0)]) + [Release]
      == [Press(0, Point(55.0, 60.0)), Move(Point(125.0, 100.0)), Release];
    assert Moved([hi], hi.id, 120.0, 90.0) == [moved];
  }

  /**
   * The end-to-end session: create a caption, drag it, then undo three times: the
   * position reverts to (50, 50), the list empties, and the third undo changes nothing.
   */
  lemma {:induction false} Session(style: Style, now: int)
    ensures
      var hi := TextObj(now, 50.0, 50.0, style.fontFamily, style.fontSize, style.fontColor, "Hi");
      var e1 := Run(Initial, [ImageLoad(Image(400, 300)), ClickEmpty(Point(50.0, 50.0)), Type("Hi"),
                              KeyDown(Enter, false, true, style, now)]);
      var e2 := Run(e1, [Press(0, Point(55.0, 60.0)), Move(Point(125.0, 100.0)), Release]);
      && e1.texts == [hi] && |e1.history.undo| == 2
      && e2.texts == [hi.(x := 120.0, y := 90.0)] && |e2.history.undo| == 3
      && UndoClick(e2).texts == [hi]
      && UndoClick(UndoClick(e2)).texts == []
      && UndoClick(UndoClick(UndoClick(e2))) == UndoClick(UndoClick(e2))
  {
    var hi := TextObj(now, 50.0, 50.0, style.fontFamily, style.fontSize, style.fontColor, "Hi");
    SessionCreate(style, now);
    SessionDrag(hi, Image(400, 300));
  }

  /** Two undos over `[[], [hi], [hi]]` show `[hi]`, then the empty list; the selection stays. */
  lemma UndoTwice(e: Editor, hi: TextObj)
    requires e.history == Stacks([[], [hi], [hi]], [])
    ensures UndoClick(e).texts == [hi] && UndoClick(UndoClick(e)).texts == []
    ensures UndoClick(UndoClick(e)).selectedId == e.selectedId
  {
    var u := UndoClick(e);
    assert u.history == Stacks([[], [hi]], [[hi]]) by {
      assert e.history.undo[..2] == [[], [hi]];
    }
  }

  /** On a list shown as the top of `[[], [hi]]`, clicking caption 0 and undoing twice empties it. */
  lemma {:induction false} ClickThenUndoTwice(e: Editor, hi: TextObj)
    requires e.texts == [hi] && e.history == Stacks([[], [hi]], [])
    ensures var r := Run(e, [Press(0, Point(55.0, 60.0)), Release, ClickCaption(0), UndoButton, UndoButton]);
      r.texts == [] && r.selectedId == Some(hi.id)
  {
    var click := [Press(0, Point(55.0, 60.0)), Release, ClickCaption(0)];
    var undos := [UndoButton, UndoButton];
    ClickOnCaption(e, 0, Point(55.0, 60.0));
    var e2 := Run(e, click);
    assert e2.history == Stacks([[], [hi], [hi]], []) by {
      assert e.history.undo + [[hi]] == [[], [hi], [hi]];
    }
    RunCons(e2, UndoButton, [UndoButton]);
    RunOne(UndoClick(e2), UndoButton);
    assert [UndoButton] + [UndoButton] == undos;
    UndoTwice(e2, hi);
    RunAppend(e, click, undos);
    assert click + undos == [Press(0, Point(55.0, 60.0)), Release, ClickCaption(0), UndoButton, UndoButton];
  }

  /**
   * The running component can select a caption that is no longer in the list:
   * create "Hi", click it (which commits a second copy of `[hi]`), then undo
   * twice. The list is empty and the selection still names the caption.
   */
  lemma {:induction false} UndoCanStaleSelection(style: Style, now: int)
    ensures var r := Run(Initial, [ImageLoad(Image(400, 300)), ClickEmpty(Point(50.0, 50.0)), Type("Hi"),
                                   KeyDown(Enter, false, true, style, now),
                                   Press(0, Point(55.0, 60.0)), Release, ClickCaption(0),
                                   UndoButton, UndoButton]);
      r.texts == [] && r.selectedId == Some(now)
  {
    var hi := TextObj(now, 50.0, 50.0, style.fontFamily, style.fontSize, style.fontColor, "Hi");
    var create := [ImageLoad(Image(400, 300)), ClickEmpty(Point(50.0, 50.0)), Type("Hi"),
                   KeyDown(Enter, false, true, style, now)];
    var rest := [Press(0, Point(55.0, 60.0)), Release, ClickCaption(0), UndoButton, UndoButton];
    SessionCreate(style, now);
    ClickThenUndoTwice(Run(Initial, create), hi);
    RunAppend(Initial, create, rest);
    assert create + rest
      == [ImageLoad(Image(400, 300)), ClickEmpty(Point(50.0, 50.0)), Type("Hi"),
          KeyDown(Enter, false, true, style, now),
          Press(0, Point(55.0, 60.0)), Release, ClickCaption(0), UndoButton, UndoButton];
  }
}

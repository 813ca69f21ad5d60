# Caption Creator: the caption-scene engine in Dafny

This project models the engine of the `CaptionCreator` React component
(`src/CaptionCreator.tsx`). A user loads a background image, clicks on it to
open a text draft, confirms captions, drags them, selects and deletes them,
undoes and redoes, and downloads the composited image. The model covers four
parts:

- **scene operations**: the ordered caption list (`TextObj`) and the list
  transformations the handlers apply to it (append on confirm, position
  update during a drag, delete by id, reset on image load);
- **the history manager**: `historyStack` and `redoStack`, with `saveState`,
  `handleUndo`, `handleRedo` and `restoreState`;
- **the interaction state machine**: one open draft (`editingInput`) and one
  open drag, through the container click, the draft's key handler,
  `TextElement`'s mouse handlers, the document Delete listener and the two
  buttons;
- **the compositor layout**: the `fillText` calls made by `handleDownload`.

Modules, one file each:

- `Wrappers`: `Option`.
- `Text`: JavaScript `trim` (the ECMAScript white-space set), `split("\n")`
  and its inverse `join("\n")`.
- `Scene`: `TextObj`, snapshots, `Moved` (`prev.map` in `handleUpdatePosition`)
  and `Without` (`texts.filter` on Delete).
- `History`:
  - the two stacks as a value, `Stacks`, with one function per operation;
  - the class `HistoryManager`, which mutates the stacks in place, each
    method proved equal to its function.
- `Compositor`: line placement and drawing order of the export.
- `Interaction`:
  - the component's whole state as a value (`Editor`), with one function per
    handler;
  - `Dispatch`, which routes an event to every handler it reaches in the page;
  - `Run`, for a sequence of events;
  - the invariant every event keeps, and the properties of drafts, drags,
    deletes and undo/redo.
- `Component`: the class `CaptionCreator`. Its fields are the component's
  state. The history is a `HistoryManager` object it owns. Each handler is a
  method proved to leave the object in the state the `Interaction` function
  gives. `HandleDownload` builds the list of drawing calls with the same two
  nested loops as `handleDownload`.

Snapshots are `seq<TextObj>` values. For these plain records this is exactly
what the `JSON.stringify`/`JSON.parse` round trip reproduces. Coordinates and
layout offsets are exact `real`s, and font sizes are integers.

The model follows the code as written, including these behaviours a reader
may not expect:

- Loading an image pushes an empty snapshot onto the existing undo stack. It
  does not reset the history, the selection or an open draft (`ImageLoaded`,
  `ImageLoadThenUndo`).
- The selected id is not cleared when an undo removes the selected caption.
  Creating a caption, clicking it and undoing twice therefore leaves the
  selection naming a caption that is gone (`UndoCanStaleSelection`). A later Delete then removes nothing, yet still
  commits (`DeleteStaleSelection`).
- Every mouse-up after a mouse-down on a caption commits, even without
  movement. A plain click on a caption therefore adds an undo entry and
  empties the redo stack (`ClickOnCaption`).
- `onDragEnd`'s coordinate arguments are ignored. The commit stores the list
  as it is at release.
- The `.text-element` guard of `handleContainerClick` never matches, because
  no caption carries that class. A click on a caption never reaches the
  container only because the caption stops propagation. `Dispatch` models this
  by routing `ClickCaption` and `Press` to the caption handlers only.
- A key pressed in the draft textarea reaches both the draft's handler and the
  document Delete listener, in that order.

## Model

| member | source | states |
|---|---|---|
| Text.TrimStart | src/CaptionCreator.tsx:152 | the result is a suffix of the input, and everything it drops is white space; it does not start with white space |
| Text.TrimEnd | src/CaptionCreator.tsx:152 | the result is a prefix of the input, and everything it drops is white space; it does not end with white space |
| Text.Trim | src/CaptionCreator.tsx:152 | `trim()` never lengthens the text, and what it gives neither starts nor ends with white space (see `TrimStart`, `TrimEnd`, `TrimEmptyIffBlank`) |
| Text.TrimEmptyIffBlank | src/CaptionCreator.tsx:152 | `inputValue.trim()` is empty exactly when every character is ECMAScript white space |
| Text.Split | src/CaptionCreator.tsx:232 | `split("\n")` gives one more piece than there are newlines, and no piece contains a newline |
| Text.JoinSplit | src/CaptionCreator.tsx:232 | joining the pieces with newlines gives back the text, so no character is lost by the split |
| Text.SplitJoin | src/CaptionCreator.tsx:232 | newline-free pieces come back unchanged from a join followed by a split |
| Scene.Moved | src/CaptionCreator.tsx:174-178 | same length; every caption with the id gets the new x and y, and no other field changes; every other caption is unchanged |
| Scene.MovedKeepsIds | src/CaptionCreator.tsx:174-178 | a position update keeps the id sequence: nothing is created, lost or reordered |
| Scene.MovedAbsent | src/CaptionCreator.tsx:174-178 | an update for an id that is not present changes nothing |
| Scene.MovedTwice | src/CaptionCreator.tsx:174-178 | of two updates of the same id, the later one wins |
| Scene.Without | src/CaptionCreator.tsx:189 | the filter removes exactly as many captions as carry the id |
| Scene.WithoutMembers | src/CaptionCreator.tsx:189 | a caption survives exactly when it was present and its id differs |
| Scene.WithoutAppend | src/CaptionCreator.tsx:189 | the filter keeps the survivors' order: it distributes over concatenation |
| Scene.WithoutAbsent | src/CaptionCreator.tsx:189 | deleting an absent id changes nothing |
| Scene.WithoutUnique | src/CaptionCreator.tsx:189 | with unique ids, deleting the id at index k removes exactly that caption |
| History.Commit | src/CaptionCreator.tsx:103-107 | the snapshot becomes the undo top; the oldest entry is dropped once the stack would hold 51; the redo stack is emptied; a bounded history stays bounded |
| History.UndoStep | src/CaptionCreator.tsx:199-208 | nothing happens exactly when the undo stack holds at most one entry; otherwise the restored snapshot is the new undo top and no snapshot is lost |
| History.RedoStep | src/CaptionCreator.tsx:210-216 | nothing happens exactly when the redo stack is empty; otherwise the restored snapshot is the new undo top and no snapshot is lost |
| History.OperationsKeepBounded | src/CaptionCreator.tsx:103-107 | commit, undo and redo all keep the two stacks at no more than 50 entries together, so the undo stack never exceeds 50 |
| History.UndoKeepsFloor | src/CaptionCreator.tsx:199-208 | undo never empties the undo stack or pops its bottom entry |
| History.UndoThenRedo | src/CaptionCreator.tsx:199-216 | a redo right after an undo gives back both stacks and restores the snapshot that was on top |
| History.RedoThenUndo | src/CaptionCreator.tsx:199-216 | an undo right after a redo gives back both stacks |
| History.RedoAfterCommit | src/CaptionCreator.tsx:106 | a redo right after any commit does nothing |
| History.CommitKeepsLast | src/CaptionCreator.tsx:103-107 | after one commit the undo stack is the last 50 entries of the old stack with the new snapshot appended |
| History.CommitAllKeepsLast | src/CaptionCreator.tsx:103-107 | after any number of commits, the undo stack is exactly the last 50 entries of the old stack followed by the new snapshots, and the redo stack is empty |
| History.SixtyCommits | src/CaptionCreator.tsx:103-107 | sixty commits from the start leave the last fifty: the first ten are evicted |
| History.HistoryManager.constructor | src/CaptionCreator.tsx:100-101 | both stacks start empty |
| History.HistoryManager.SaveState | src/CaptionCreator.tsx:103-107 | the in-place push, shift and reset leave the stacks that `Commit` gives |
| History.HistoryManager.Undo | src/CaptionCreator.tsx:199-208 | the in-place pop and push leave the stacks, and return the snapshot, that `UndoStep` gives |
| History.HistoryManager.Redo | src/CaptionCreator.tsx:210-216 | the in-place pop and push leave the stacks, and return the snapshot, that `RedoStep` gives |
| Compositor.LineFills | src/CaptionCreator.tsx:232-234 | one call per line; line j is drawn at the caption's x, at `LineY` of its line number (`y + LineOffset + j * LineHeight`, with `LineOffset = fontSize * 0.3` and `LineHeight = fontSize * 1.5`), in the caption's font and colour |
| Compositor.TextFills | src/CaptionCreator.tsx:228-235 | one caption draws one line more than its text has newlines (see `TextFillAt`, `TextFillsCoverText`) |
| Compositor.TextFillAt | src/CaptionCreator.tsx:228-235 | a caption with n newlines draws n + 1 lines; line i is the i-th piece, drawn at `(x, y + fontSize * 0.3 + i * (fontSize * 1.5))` in the caption's font and colour |
| Compositor.TextFillsCoverText | src/CaptionCreator.tsx:232-234 | the drawn lines, joined with newlines, are the caption's text |
| Compositor.SceneFills | src/CaptionCreator.tsx:227-236 | every caption draws at least one line, so the whole list draws at least as many lines as it has captions (see `SceneFillsAppend`, `SceneFillsOrder`) |
| Compositor.SceneFillsAppend | src/CaptionCreator.tsx:227-236 | drawing two lists in turn draws all of the first list's lines first |
| Compositor.SceneFillsOrder | src/CaptionCreator.tsx:227-236 | caption k's lines come after those of every earlier caption and before those of every later one |
| Compositor.Download | src/CaptionCreator.tsx:218-236 | there is an export exactly when an image is loaded; it has the image's size and draws the whole list |
| Compositor.HelloWorldLayout | src/CaptionCreator.tsx:228-235 | "Hello\nWorld" at (10, 20) in 32 px draws "Hello" at y = 29.6 and "World" at y = 77.6 |
| Interaction.ImageLoaded | src/CaptionCreator.tsx:119-123 | the image is set and the list emptied; the empty list becomes the undo top with redo emptied, and below the 50-entry cap the old undo entries stay under it; the history stays bounded; nothing else changes, so selection, draft text, draft and drag are untouched (see `ImageLoadThenUndo`) |
| Interaction.ContainerClick | src/CaptionCreator.tsx:139-147 | the selection is cleared and a draft is open afterwards; list, history, drag and image are untouched (see `ContainerClickEffect`) |
| Interaction.DraftInput | src/CaptionCreator.tsx:362 | with a draft open the typed value replaces the draft text; without one nothing changes; nothing else ever changes |
| Interaction.DraftKeyDown | src/CaptionCreator.tsx:149-171 | a draft key either changes nothing or closes the draft; the list is kept or gains exactly one caption at its end; the history is kept or commits the new list; selection, drag and image are untouched (see `DraftConfirm`, `DraftBlank`, `DraftCancelAndOtherKeys`) |
| Interaction.DocumentKeyDown | src/CaptionCreator.tsx:186-197 | the document listener either changes nothing or, on Delete, clears the selection and commits the new list; the list never grows; draft, drag and image are untouched (see `DeleteSelected`, `DeleteNothingSelected`, `DeleteStaleSelection`) |
| Interaction.CaptionMouseDown | src/CaptionCreator.tsx:30-39 | the pressed caption is selected and a drag opens whose target (`DragTarget`, the start position plus the pointer offset) at the press point is the caption's own position; nothing else changes |
| Interaction.MouseMove | src/CaptionCreator.tsx:40-44 | a move keeps everything but the list, and keeps its length and ids; with no drag open nothing changes; during a drag every caption with the dragged id gets x and y of `DragTarget` (the start position plus the pointer offset) and every other caption is unchanged (see `MovesFollowPointer`) |
| Interaction.MouseUp | src/CaptionCreator.tsx:46-51 | a release closes any drag without changing the list; after a drag the list at release is the undo top and redo is empty; with no drag open nothing changes |
| Interaction.CaptionClick | src/CaptionCreator.tsx:69-72 | the click selects the clicked caption's id, which is in the list; nothing else changes (see `ClickOnCaption`) |
| Interaction.UndoClick | src/CaptionCreator.tsx:199-208 | with at most one entry nothing changes; otherwise the list becomes the entry under the top and is the new undo top; selection, draft and drag are untouched (see `UndoRedoFloors`, `UndoThenRedoRestores`) |
| Interaction.RedoClick | src/CaptionCreator.tsx:210-216 | with an empty redo stack nothing changes; otherwise the list becomes the redo top and is the new undo top; selection, draft and drag are untouched |
| Interaction.Dispatch | src/CaptionCreator.tsx:103-216 | routing one event to the handlers it reaches keeps the history bounded (see `DispatchKeepsValid`, `CommitsExactly`) |
| Interaction.Run | src/CaptionCreator.tsx:103-216 | any sequence of events keeps the history bounded (see `RunKeepsValid`, `UndoStackAtMostFifty`) |
| Interaction.RunMoves | src/CaptionCreator.tsx:40-44 | a run of pointer moves is the move handler applied to each position in turn |
| Interaction.InitialValid | src/CaptionCreator.tsx:87-101 | the initial state keeps the invariant |
| Interaction.DispatchKeepsValid | src/CaptionCreator.tsx:103-216 | every event keeps the history bounded and, outside a drag, keeps the list equal to the undo top |
| Interaction.RunKeepsValid | src/CaptionCreator.tsx:103-216 | any sequence of events keeps the invariant |
| Interaction.UndoStackAtMostFifty | src/CaptionCreator.tsx:103-107 | whatever the user does, the undo stack never holds more than 50 snapshots |
| Interaction.RunAppend | src/CaptionCreator.tsx:103-216 | running two event sequences in turn is running their concatenation |
| Interaction.KeyDownCommits | src/CaptionCreator.tsx:149-197 | a key press commits the new list exactly when it confirms a non-blank draft or deletes a selection; otherwise the history is unchanged |
| Interaction.CommitsExactly | src/CaptionCreator.tsx:103-216 | a committing event (image load, confirm, delete, release of a drag) pushes exactly the new list and empties redo; every other event except undo and redo leaves the history alone, drag moves included |
| Interaction.RedoAfterCommitIsNoop | src/CaptionCreator.tsx:106 | after any commit, including one right after an undo, redo does nothing |
| Interaction.ContainerClickEffect | src/CaptionCreator.tsx:139-147 | an empty-area click always clears the selection; it opens a draft with empty text only when none is open; list, history and drag are untouched |
| Interaction.DraftConfirm | src/CaptionCreator.tsx:149-166 | Enter without Shift on a non-blank draft appends one caption at the end: clock id, draft anchor, current style, typed text; it commits once and closes the draft, changing nothing else |
| Interaction.DraftBlank | src/CaptionCreator.tsx:150-166 | Enter on a blank draft only closes it: no change to the list and no commit |
| Interaction.DraftCancelAndOtherKeys | src/CaptionCreator.tsx:149-171 | Escape only closes the draft; Shift+Enter and other keys change nothing |
| Interaction.DeleteSelected | src/CaptionCreator.tsx:186-197 | Delete with a selection removes exactly the captions with that id, commits the result once and clears the selection; nothing else changes |
| Interaction.DeleteNothingSelected | src/CaptionCreator.tsx:186-197 | Delete with nothing selected, and any other key, does nothing |
| Interaction.DeleteStaleSelection | src/CaptionCreator.tsx:186-197 | Delete with a selection that is gone from the list removes nothing but still commits |
| Interaction.UndoCanStaleSelection | src/CaptionCreator.tsx:199-208 | from the start, creating "Hi", clicking it and undoing twice leaves the list empty with the selection still naming the caption |
| Interaction.MovesFollowPointer | src/CaptionCreator.tsx:40-44 | during a drag, moves change only the list, and the last pointer position decides where the caption ends up |
| Interaction.DragRun | src/CaptionCreator.tsx:30-55 | the events of one drag reach the mouse-down handler, the moves and then the mouse-up handler |
| Interaction.DragMoves | src/CaptionCreator.tsx:40-44 | between the press and the release, the moves change only the list, which ends at the pressed caption's start position plus the last pointer offset |
| Interaction.DragHandlers | src/CaptionCreator.tsx:30-55 | mouse-down, any number of moves and mouse-up leave the outcome `DragSession` states |
| Interaction.DragSession | src/CaptionCreator.tsx:30-55 | one drag moves every caption carrying the pressed caption's id (only the pressed caption when ids are unique) to the pressed caption's start position plus the last pointer offset; it selects the caption, keeps the ids, and adds exactly one undo entry, equal to the list at release |
| Interaction.ClickOnCaption | src/CaptionCreator.tsx:69-72 | a plain click on a caption selects it, opens no draft, and commits a copy of the unchanged list, which empties the redo stack |
| Interaction.UndoRedoFloors | src/CaptionCreator.tsx:199-216 | undo with at most one entry, and redo with an empty redo stack, do nothing |
| Interaction.UndoThenRedoRestores | src/CaptionCreator.tsx:109-111 | outside a drag, undo shows the entry under the top, and a redo right after it brings back the previous state exactly |
| Interaction.ImageLoadThenUndo | src/CaptionCreator.tsx:119-123 | loading an image empties the list, and an undo right after it brings back the captions shown before the load |
| Interaction.SessionEnter | src/CaptionCreator.tsx:149-171 | Enter on the draft "Hi" at (50, 50) gives one caption and two undo entries |
| Interaction.SessionCreate | src/CaptionCreator.tsx:113-171 | load a 400x300 image, click at (50, 50), type "Hi", press Enter: one caption, two undo entries |
| Interaction.SessionDrag | src/CaptionCreator.tsx:30-55 | dragging that caption by (70, 40) moves it to (120, 90) and adds a third entry |
| Interaction.Session | src/CaptionCreator.tsx:113-216 | the whole session; three undos then go back to (50, 50), then to the empty list, then do nothing |
| Component.CaptionCreator.constructor | src/CaptionCreator.tsx:87-101 | the component starts in the initial state with its own history |
| Component.CaptionCreator.HandleImageLoaded | src/CaptionCreator.tsx:119-123 | the in-place update gives the state `ImageLoaded` gives |
| Component.CaptionCreator.HandleContainerClick | src/CaptionCreator.tsx:139-147 | the in-place update gives the state `ContainerClick` gives |
| Component.CaptionCreator.HandleInputChange | src/CaptionCreator.tsx:362 | the in-place update gives the state `DraftInput` gives |
| Component.CaptionCreator.HandleInputKeyDown | src/CaptionCreator.tsx:149-171 | the in-place update gives the state `DraftKeyDown` gives |
| Component.CaptionCreator.CloseDraft | src/CaptionCreator.tsx:166-170 | the draft closes and nothing else changes |
| Component.CaptionCreator.AddCaption | src/CaptionCreator.tsx:162-166 | the list becomes the new one, which is committed, and the draft closes |
| Component.CaptionCreator.HandleDocumentKeyDown | src/CaptionCreator.tsx:186-197 | the in-place update gives the state `DocumentKeyDown` gives |
| Component.CaptionCreator.HandleMouseDown | src/CaptionCreator.tsx:30-39 | the in-place update selects the caption and opens the drag from its position |
| Component.CaptionCreator.HandleMouseMove | src/CaptionCreator.tsx:40-44 | the in-place update gives the state `MouseMove` gives |
| Component.CaptionCreator.HandleMouseUp | src/CaptionCreator.tsx:46-51 | the in-place update gives the state `MouseUp` gives |
| Component.CaptionCreator.HandleCaptionClick | src/CaptionCreator.tsx:69-72 | the in-place update selects the clicked caption |
| Component.CaptionCreator.HandleUndo | src/CaptionCreator.tsx:199-208 | the in-place update gives the state `UndoClick` gives |
| Component.CaptionCreator.HandleRedo | src/CaptionCreator.tsx:210-216 | the in-place update gives the state `RedoClick` gives |
| Component.CaptionCreator.Handle | src/CaptionCreator.tsx:103-216 | any event moves the object as `Dispatch` does, and keeps the invariant |
| Component.CaptionCreator.HandleDownload | src/CaptionCreator.tsx:218-236 | the nested loops return exactly the export `Download` describes: nothing without an image, else every line of every caption in list order |
| Component.DrawCaption | src/CaptionCreator.tsx:228-235 | the inner loop draws exactly the caption's lines, in order, at their line positions |

## Left out

- Rendering: JSX, CSS layout, Helmet metadata and the `useEffect`/`useRef`
  mechanics are not modelled. The state is explicit instead.
- `textsRef` render timing: the model assumes `textsRef.current` holds the
  latest list when a drag ends. It is refreshed by an effect after each
  render. A release that arrives before the last move has been rendered would
  commit an older list. This interleaving is not modelled.
- File input, `FileReader` and image decoding (`handleImageChange`): these are
  not modelled. The image is given as its width and height, and only the
  reset in `newImg.onload` is modelled.
- The on-screen canvas effect (`useEffect` on `img`) is not modelled.
- `getBoundingClientRect`: clicks and pointer positions are given already
  relative to the container.
- Canvas calls: the drawing of the background, the font string
  `${fontSize}px ${fontFamily}`, `toDataURL` and the download link are not
  modelled. Each `fillText` is recorded with its text, position, size,
  family and colour.
- `getContext("2d")` returning nothing: the export assumes the off-screen
  canvas always has a 2D context, so that early return is not modelled.
- Floating point: positions and offsets are exact reals, so the rounding of
  `fontSize * 0.3` and `fontSize * 1.5` in doubles is not modelled.
- `Date.now()` is an input `now` to the confirm step. No uniqueness of ids is
  assumed, since the clock can repeat. Properties that need unique ids say so.
- The style controls: the `|| "Arial"`, `|| "32"` and `|| "#000000"` defaults
  and `parseInt` are not modelled. The style is an input with an integer font
  size.
- Event delivery is an explicit `Event`: keyboard focus is a flag on the key
  event, and the document listeners of a drag are the `Dragging` state.
  Installing and removing those listeners is not modelled, and neither is a
  second drag starting while one is open.
- `Text.TrimStart`, `Text.TrimEnd`: the model works on Unicode code points.
  JavaScript strings are UTF-16 code units, but every character `trim` strips
  is a single code unit, so the result is the same.
- `History.HistoryManager.Undo`: the `if (last)` test is always true here,
  because a stored snapshot is a non-empty JSON string. It is not a separate
  branch in the model.
- `src/App.tsx`: it is not part of this model. It is the page shell, with
  routing, the dark-mode toggle and the tool filter.

/**
 * The `CaptionCreator` component as an object: its React state and the open
 * drag are fields, the two history stacks live in a `HistoryManager` it owns,
 * and every handler is a method that updates them in place. Each method is
 * proved to move the object from `e` to the state the matching handler of
 * `Interaction` gives for `e`, so the lemmas proved there hold of the object.
 */
module Component {
  import opened Wrappers
  import opened Text
  import opened Scene
  import opened History
  import opened Compositor
  import opened Interaction

  class CaptionCreator {
    var image: Option<Image>
    var texts: seq<TextObj>
    var selectedId: Option<int>
    var editingInput: Option<Point>
    var inputValue: string
    /** The drag a caption's mouse-down opened (`startPos` and the two document listeners). */
    var drag: Drag
    /** `historyStack` and `redoStack`. */
    const history: HistoryManager

    /** The state of the component as a value. */
    function Model(): Editor
      reads this, history
    {
      Editor(image, texts, selectedId, editingInput, inputValue, drag, history.State())
    }

    constructor ()
      ensures Model() == Initial
      ensures fresh(history)
    {
      image := None;
      texts := [];
      selectedId := None;
      editingInput := None;
      inputValue := "";
      drag := Idle;
      history := new HistoryManager();
    }

    /** `newImg.onload` in `handleImageChange`. */
    method HandleImageLoaded(img: Image)
      modifies this, history
      ensures Model() == ImageLoaded(old(Model()), img)
    {
      image := Some(img);
      texts := [];
      history.SaveState([]);
    }

    /** `handleContainerClick`, given the container-relative click position. */
    method HandleContainerClick(at: Point)
      modifies this
      ensures Model() == ContainerClick(old(Model()), at)
    {
      selectedId := None;
      if editingInput.Some? {
        return;
      }
      editingInput := Some(at);
      inputValue := "";
    }

    /** The draft textarea's `onChange`. */
    method HandleInputChange(value: string)
      modifies this
      ensures Model() == DraftInput(old(Model()), value)
    {
      if editingInput.Some? {
        inputValue := value;
      }
    }

    /** `handleInputKeyDown`, with the style controls read as `style` and `Date.now()` as `now`. */
    method HandleInputKeyDown(key: Key, shift: bool, style: Style, now: int)
      modifies this, history
      ensures Model() == DraftKeyDown(old(Model()), key, shift, style, now)
    {
      ghost var e := Model();
      if editingInput.None? {
        return;
      }
      if key == Enter && !shift {
        if Trim(inputValue) != [] {
          var newText := TextObj(now, editingInput.value.x, editingInput.value.y,
                                 style.fontFamily, style.fontSize, style.fontColor, inputValue);
          var updated := texts + [newText];
          assert DraftKeyDown(e, key, shift, style, now)
            == e.(texts := updated, history := Commit(e.history, updated), editing := None);
          AddCaption(updated);
        } else {
          CloseDraft();
        }
      } else if key == Escape {
        CloseDraft();
      }
    }

    /** The blank-draft and `Escape` branches of `handleInputKeyDown`: close the draft, nothing else. */
    method CloseDraft()
      modifies this
      ensures Model() == old(Model()).(editing := None)
    {
      editingInput := None;
    }

    /** The confirming branch of `handleInputKeyDown`: show and commit `updated`, close the draft. */
    method AddCaption(updated: seq<TextObj>)
      modifies this, history
      ensures Model() == old(Model()).(texts := updated, history := Commit(old(history.State()), updated), editing := None)
    {
      texts := updated;
      history.SaveState(updated);
      editingInput := None;
    }

    /** The document `keydown` listener. */
    method HandleDocumentKeyDown(key: Key)
      modifies this, history
      ensures Model() == DocumentKeyDown(old(Model()), key)
    {
      if key == Delete && selectedId.Some? {
        var updated := Without(texts, selectedId.value);
        texts := updated;
        history.SaveState(updated);
        selectedId := None;
      }
    }

    /** `TextElement.handleMouseDown` on the caption at index `k`. */
    method HandleMouseDown(k: nat, mouse: Point)
      requires k < |texts|
      modifies this
      ensures Model() == CaptionMouseDown(old(Model()), k, mouse)
    {
      var t := texts[k];
      selectedId := Some(t.id);
      drag := Dragging(t.id, mouse, Point(t.x, t.y));
    }

    /** The document `mousemove` listener of an open drag, then `handleUpdatePosition`. */
    method HandleMouseMove(mouse: Point)
      modifies this
      ensures Model() == MouseMove(old(Model()), mouse)
    {
      if drag.Dragging? {
        var newX := drag.startElem.x + (mouse.x - drag.startMouse.x);
        var newY := drag.startElem.y + (mouse.y - drag.startMouse.y);
        texts := Moved(texts, drag.id, newX, newY);
      }
    }

    /** The document `mouseup` listener of an open drag, then `handleDragEnd`. */
    method HandleMouseUp()
      modifies this, history
      ensures Model() == MouseUp(old(Model()))
    {
      if drag.Dragging? {
        drag := Idle;
        history.SaveState(texts);
      }
    }

    /** `TextElement`'s `onClick` on the caption at index `k`. */
    method HandleCaptionClick(k: nat)
      requires k < |texts|
      modifies this
      ensures Model() == CaptionClick(old(Model()), k)
    {
      selectedId := Some(texts[k].id);
    }

    /** `handleUndo`. */
    method HandleUndo()
      modifies this, history
      ensures Model() == UndoClick(old(Model()))
    {
      var restore := history.Undo();
      if restore.Some? {
        texts := restore.value;
      }
    }

    /** `handleRedo`. */
    method HandleRedo()
      modifies this, history
      ensures Model() == RedoClick(old(Model()))
    {
      var restore := history.Redo();
      if restore.Some? {
        texts := restore.value;
      }
    }

    /**
     * A user event, routed as the page routes it. The history stays bounded and,
     * outside a drag, the list shown stays the top of the undo stack.
     */
    method Handle(ev: Event)
      modifies this, history
      ensures Model() == Dispatch(old(Model()), ev)
      ensures Interaction.Valid(old(Model())) ==> Interaction.Valid(Model())
    {
      if Interaction.Valid(Model()) {
        DispatchKeepsValid(Model(), ev);
      }
      match ev
      case ImageLoad(img) => HandleImageLoaded(img);
      case ClickEmpty(at) => HandleContainerClick(at);
      case Type(value) => HandleInputChange(value);
      case KeyDown(key, shift, inDraft, style, now) =>
        if inDraft {
          HandleInputKeyDown(key, shift, style, now);
        }
        HandleDocumentKeyDown(key);
      case Press(k, mouse) =>
        if k < |texts| {
          HandleMouseDown(k, mouse);
        }
      case Move(mouse) => HandleMouseMove(mouse);
      case Release => HandleMouseUp();
      case ClickCaption(k) =>
        if k < |texts| {
          HandleCaptionClick(k);
        }
      case UndoButton => HandleUndo();
      case RedoButton => HandleRedo();
    }

    /**
     * `handleDownload`: without an image nothing is produced; otherwise the
     * off-screen canvas has the image's size and receives one `fillText` per line
     * of every caption, in list order. Nothing in the component changes.
     */
    method HandleDownload() returns (frame: Option<Frame>)
      ensures frame == Download(image, texts)
    {
      if image.None? {
        return None;
      }
      var fills: seq<Fill> := [];
      var k := 0;
      while k < |texts|
        invariant 0 <= k <= |texts|
        invariant fills == SceneFills(texts[..k])
      {
        var calls := DrawCaption(texts[k]);
        SceneFillsSnoc(texts, k);
        fills := fills + calls;
        k := k + 1;
      }
      assert texts[..k] == texts;
      frame := Some(Frame(image.value.width, image.value.height, fills));
    }
  }

  /** The callback of `texts.forEach` in `handleDownload`: one `fillText` per line of `obj`. */
  method DrawCaption(obj: TextObj) returns (calls: seq<Fill>)
    ensures calls == TextFills(obj)
  {
    var lineOffset := obj.fontSize as real * 0.3;
    var lineHeight := obj.fontSize as real * 1.5;
    var lines := Split(obj.text);
    calls := [];
    var index := 0;
    while index < |lines|
      invariant 0 <= index <= |lines|
      invariant calls == LineFills(obj, lines[..index], 0)
    {
      var y := obj.y + lineOffset + index as real * lineHeight;
      assert y == LineY(obj, index);
      LineFillsSnoc(obj, lines, index);
      calls := calls + [Fill(lines[index], obj.x, y, obj.fontSize, obj.fontFamily, obj.fontColor)];
      index := index + 1;
    }
    assert lines[..index] == lines;
  }

  /** Drawing one more line extends the calls by that line's call. */
  lemma LineFillsSnoc(t: TextObj, lines: seq<string>, j: nat)
    requires j < |lines|
    ensures LineFills(t, lines[..j + 1], 0)
      == LineFills(t, lines[..j], 0) + [Fill(lines[j], t.x, LineY(t, j), t.fontSize, t.fontFamily, t.fontColor)]
  {
    var longer, shorter := LineFills(t, lines[..j + 1], 0), LineFills(t, lines[..j], 0);
    var f := Fill(lines[j], t.x, LineY(t, j), t.fontSize, t.fontFamily, t.fontColor);
    forall i | 0 <= i < j + 1
      ensures longer[i] == (shorter + [f])[i]
    {
      if i < j {
        assert lines[..j + 1][i] == lines[..j][i];
      }
    }
  }

  /** Drawing one more caption extends the calls by that caption's calls. */
  lemma SceneFillsSnoc(texts: seq<TextObj>, k: nat)
    requires k < |texts|
    ensures SceneFills(texts[..k + 1]) == SceneFills(texts[..k]) + TextFills(texts[k])
  {
    assert texts[..k + 1] == texts[..k] + [texts[k]];
    SceneFillsAppend(texts[..k], [texts[k]]);
    assert PerCaption([texts[k]]) == [TextFills(texts[k])];
    assert Flatten([TextFills(texts[k])]) == TextFills(texts[k]) + Flatten([]);
  }
}

/**
 * The export compositor (`handleDownload`): the background is drawn at the
 * origin, then every caption in list order, one `fillText` per newline-separated
 * line, with `textBaseline = "top"`. Line `i` of a caption of font size `fs`
 * sits at `(x, y + 0.3 * fs + i * 1.5 * fs)`.
 */
module Compositor {
  import opened Wrappers
  import opened Text
  import opened Scene

  /** The loaded background, reduced to its pixel size. */
  datatype Image = Image(width: nat, height: nat)

  /** One `fillText(line, x, y)` call with the font and fill style set before it. */
  datatype Fill = Fill(line: string, x: real, y: real, fontSize: int, fontFamily: string, color: string)

  /** The off-screen canvas: its size, and the text drawn over the background, in order. */
  datatype Frame = Frame(width: nat, height: nat, fills: seq<Fill>)

  /** `obj.fontSize * 0.3`, exactly. */
  function LineOffset(fontSize: int): real {
    fontSize as real * 0.3
  }

  /** `obj.fontSize * 1.5`, exactly. */
  function LineHeight(fontSize: int): real {
    fontSize as real * 1.5
  }

  /** The vertical position of line `i` of `t`: `obj.y + lineOffset + index * lineHeight`. */
  function LineY(t: TextObj, i: nat): real {
    t.y + LineOffset(t.fontSize) + i as real * LineHeight(t.fontSize)
  }

  /** The `fillText` calls for `lines`, the first of them being line number `first` of `t`. */
  function LineFills(t: TextObj, lines: seq<string>, first: nat): (r: seq<Fill>)
    ensures |r| == |lines|
    ensures forall j :: 0 <= j < |lines| ==>
      r[j] == Fill(lines[j], t.x, LineY(t, first + j), t.fontSize, t.fontFamily, t.fontColor)
  {
    if lines == [] then []
    else
      [Fill(lines[0], t.x, LineY(t, first), t.fontSize, t.fontFamily, t.fontColor)]
      + LineFills(t, lines[1..], first + 1)
  }

  /** The `fillText` calls for one caption: one per piece of `text.split("\n")`. */
  function TextFills(t: TextObj): (r: seq<Fill>)
    ensures |r| == NewlineCount(t.text) + 1
  {
    LineFills(t, Split(t.text), 0)
  }

  /** The `fillText` calls of each caption, in list order. */
  function PerCaption(texts: seq<TextObj>): (r: seq<seq<Fill>>)
    ensures |r| == |texts|
    ensures forall i :: 0 <= i < |texts| ==> r[i] == TextFills(texts[i])
  {
    if texts == [] then [] else [TextFills(texts[0])] + PerCaption(texts[1..])
  }

  /** The groups of calls one after the other. */
  function Flatten(parts: seq<seq<Fill>>): seq<Fill> {
    if parts == [] then [] else parts[0] + Flatten(parts[1..])
  }

  lemma {:induction false} FlattenAppend(a: seq<seq<Fill>>, b: seq<seq<Fill>>)
    ensures Flatten(a + b) == Flatten(a) + Flatten(b)
  {
    if a == [] {
      assert a + b == b;
    } else {
      assert (a + b)[0] == a[0] && (a + b)[1..] == a[1..] + b;
      FlattenAppend(a[1..], b);
      assert a[0] + (Flatten(a[1..]) + Flatten(b)) == (a[0] + Flatten(a[1..])) + Flatten(b);
    }
  }

  /** Groups that are none of them empty give at least one call each. */
  lemma {:induction false} FlattenAtLeast(parts: seq<seq<Fill>>)
    requires forall i :: 0 <= i < |parts| ==> parts[i] != []
    ensures |Flatten(parts)| >= |parts|
  {
    if parts != [] {
      FlattenAtLeast(parts[1..]);
    }
  }

  /**
   * The `fillText` calls for the whole list, caption after caption; every
   * caption draws at least one line, even an empty one.
   */
  function SceneFills(texts: seq<TextObj>): (r: seq<Fill>)
    ensures |r| >= |texts|
  {
    FlattenAtLeast(PerCaption(texts));
    Flatten(PerCaption(texts))
  }

  /**
   * `handleDownload`: nothing without a background image; otherwise a canvas of
   * the image's size that draws the whole list.
   */
  function Download(img: Option<Image>, texts: seq<TextObj>): (r: Option<Frame>)
    ensures r.None? <==> img.None?
    ensures img.Some? ==> r.value.width == img.value.width && r.value.height == img.value.height
    ensures img.Some? ==> r.value.fills == SceneFills(texts)
  {
    if img.None? then None else Some(Frame(img.value.width, img.value.height, SceneFills(texts)))
  }

  /** `LineY` written out in the font size; kept apart so the nonlinear step is proved on its own. */
  lemma LineYFormula(t: TextObj, i: nat)
    ensures LineY(t, i) == t.y + t.fontSize as real * 0.3 + i as real * (t.fontSize as real * 1.5)
  {
  }

  /**
   * Line `i` of a caption is drawn left-anchored at the caption's `x`, at
   * `y + 0.3 * fontSize + i * 1.5 * fontSize`, in the caption's font and colour; a
   * caption with `n` newlines draws `n + 1` lines.
   */
  lemma TextFillAt(t: TextObj, i: nat)
    requires i < |Split(t.text)|
    ensures |TextFills(t)| == NewlineCount(t.text) + 1
    ensures TextFills(t)[i].line == Split(t.text)[i]
    ensures TextFills(t)[i].x == t.x
    ensures TextFills(t)[i].y == t.y + t.fontSize as real * 0.3 + i as real * (t.fontSize as real * 1.5)
    ensures TextFills(t)[i].fontSize == t.fontSize && TextFills(t)[i].fontFamily == t.fontFamily
    ensures TextFills(t)[i].color == t.fontColor
  {
    assert TextFills(t)[i].y == LineY(t, i);
    LineYFormula(t, i);
  }

  /** The drawn lines, joined with newlines, are the caption's text: nothing is dropped or altered. */
  lemma TextFillsCoverText(t: TextObj)
    ensures Join(seq(|TextFills(t)|, j requires 0 <= j < |TextFills(t)| => TextFills(t)[j].line)) == t.text
  {
    var lines := Split(t.text);
    assert seq(|TextFills(t)|, j requires 0 <= j < |TextFills(t)| => TextFills(t)[j].line) == lines;
    JoinSplit(t.text);
  }

  /** Drawing two lists one after the other draws the first list's lines first. */
  lemma SceneFillsAppend(a: seq<TextObj>, b: seq<TextObj>)
    ensures SceneFills(a + b) == SceneFills(a) + SceneFills(b)
  {
    assert PerCaption(a + b) == PerCaption(a) + PerCaption(b);
    FlattenAppend(PerCaption(a), PerCaption(b));
  }

  /**
   * Array order is drawing order: the lines of caption `k` come after those of every
   * earlier caption and before those of every later one.
   */
  lemma SceneFillsOrder(texts: seq<TextObj>, k: nat)
    requires k < |texts|
    ensures SceneFills(texts) == SceneFills(texts[..k]) + TextFills(texts[k]) + SceneFills(texts[k + 1..])
  {
    var pre, rest := texts[..k], texts[k + 1..];
    assert texts == pre + [texts[k]] + rest;
    SceneFillsAppend(pre + [texts[k]], rest);
    SceneFillsAppend(pre, [texts[k]]);
    assert SceneFills([texts[k]]) == TextFills(texts[k]) by {
      assert PerCaption([texts[k]]) == [TextFills(texts[k])];
      assert Flatten([TextFills(texts[k])]) == TextFills(texts[k]) + Flatten([]);
    }
  }

  lemma SplitHelloWorld()
    ensures Split("Hello\nWorld") == ["Hello", "World"]
  {
    var lines: seq<string> := ["Hello", "World"];
    assert '\n' !in lines[0] && '\n' !in lines[1];
    assert Join(lines) == "Hello\nWorld" by {
      assert lines[1..] == ["World"];
    }
    SplitJoin(lines);
  }

  lemma TwoLineFills(t: TextObj, a: string, b: string)
    ensures LineFills(t, [a, b], 0)
      == [Fill(a, t.x, LineY(t, 0), t.fontSize, t.fontFamily, t.fontColor),
          Fill(b, t.x, LineY(t, 1), t.fontSize, t.fontFamily, t.fontColor)]
  {
    var r := LineFills(t, [a, b], 0);
    assert |r| == 2;
  }

  /** "Hello\nWorld" at (10, 20) in 32 px: the second line is drawn at y = 77.6. */
  lemma HelloWorldLayout(family: string, color: string)
    ensures TextFills(TextObj(1, 10.0, 20.0, family, 32, color, "Hello\nWorld"))
      == [Fill("Hello", 10.0, 29.6, 32, family, color), Fill("World", 10.0, 77.6, 32, family, color)]
  {
    var t := TextObj(1, 10.0, 20.0, family, 32, color, "Hello\nWorld");
    SplitHelloWorld();
    TwoLineFills(t, "Hello", "World");
    assert LineY(t, 0) == 29.6;
    assert LineY(t, 1) == 77.6;
  }
}

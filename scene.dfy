/**
 * The scene model: the ordered list of caption records (`TextObj`) and the
 * two list transformations the component applies to it, the position update
 * of a drag (`prev.map`) and the removal on Delete (`texts.filter`).
 * The list order is the drawing order: later captions are drawn on top.
 */
module Scene {

  /** A point in container-relative pixel coordinates (`EditingInput`, mouse positions). */
  datatype Point = Point(x: real, y: real)

  /** The style controls read when a caption is confirmed. */
  datatype Style = Style(fontFamily: string, fontSize: int, fontColor: string)

  /** One caption: `TextObj` of the component. */
  datatype TextObj = TextObj(
    id: int,
    x: real,
    y: real,
    fontFamily: string,
    fontSize: int,
    fontColor: string,
    text: string)

  /** A history entry: the whole caption list, as the JSON round trip reproduces it. */
  type Snapshot = seq<TextObj>

  predicate HasId(texts: seq<TextObj>, id: int) {
    exists i :: 0 <= i < |texts| && texts[i].id == id
  }

  /** How many captions carry `id` (ids come from a clock and may repeat). */
  function CountId(texts: seq<TextObj>, id: int): nat {
    if texts == [] then 0 else (if texts[0].id == id then 1 else 0) + CountId(texts[1..], id)
  }

  /** The ids of the captions, in list order. */
  function Ids(texts: seq<TextObj>): (r: seq<int>)
    ensures |r| == |texts|
    ensures forall i :: 0 <= i < |texts| ==> r[i] == texts[i].id
  {
    if texts == [] then [] else [texts[0].id] + Ids(texts[1..])
  }

  /**
   * `handleUpdatePosition(id, x, y)`: every caption whose id is `id` gets the new
   * coordinates; nothing else about the list changes.
   */
  function Moved(texts: seq<TextObj>, id: int, x: real, y: real): (r: seq<TextObj>)
    ensures |r| == |texts|
    ensures forall i :: 0 <= i < |texts| ==> r[i].(x := texts[i].x, y := texts[i].y) == texts[i]
    ensures forall i :: 0 <= i < |texts| && texts[i].id == id ==> r[i].x == x && r[i].y == y
    ensures forall i :: 0 <= i < |texts| && texts[i].id != id ==> r[i] == texts[i]
  {
    if texts == [] then []
    else
      [if texts[0].id == id then texts[0].(x := x, y := y) else texts[0]] + Moved(texts[1..], id, x, y)
  }

  /** A position update keeps the id sequence, so no caption is created, lost or reordered. */
  lemma MovedKeepsIds(texts: seq<TextObj>, id: int, x: real, y: real)
    ensures Ids(Moved(texts, id, x, y)) == Ids(texts)
  {
  }

  /** A position update for an id that is not in the list leaves the list as it was. */
  lemma MovedAbsent(texts: seq<TextObj>, id: int, x: real, y: real)
    requires !HasId(texts, id)
    ensures Moved(texts, id, x, y) == texts
  {
  }

  /** Of two position updates of the same id, the later one wins. */
  lemma MovedTwice(texts: seq<TextObj>, id: int, x0: real, y0: real, x1: real, y1: real)
    ensures Moved(Moved(texts, id, x0, y0), id, x1, y1) == Moved(texts, id, x1, y1)
  {
  }

  /**
   * The Delete-key filter `texts.filter(t => t.id !== id)`: exactly the captions
   * carrying `id` disappear.
   */
  function Without(texts: seq<TextObj>, id: int): (r: seq<TextObj>)
    ensures |r| + CountId(texts, id) == |texts|
  {
    if texts == [] then []
    else (if texts[0].id == id then [] else [texts[0]]) + Without(texts[1..], id)
  }

  /** A caption survives the filter exactly when it was in the list and does not carry `id`. */
  lemma {:induction false} WithoutMembers(texts: seq<TextObj>, id: int, t: TextObj)
    ensures t in Without(texts, id) <==> t in texts && t.id != id
  {
    if texts != [] {
      WithoutMembers(texts[1..], id, t);
      assert texts == [texts[0]] + texts[1..];
    }
  }

  /** The filter keeps the relative order of the survivors: it distributes over concatenation. */
  lemma {:induction false} WithoutAppend(a: seq<TextObj>, b: seq<TextObj>, id: int)
    ensures Without(a + b, id) == Without(a, id) + Without(b, id)
  {
    if a == [] {
      assert a + b == b;
    } else {
      var head := if a[0].id == id then [] else [a[0]];
      calc {
        Without(a + b, id);
        { assert (a + b)[0] == a[0]; assert (a + b)[1..] == a[1..] + b; }
        head + Without(a[1..] + b, id);
        { WithoutAppend(a[1..], b, id); }
        head + (Without(a[1..], id) + Without(b, id));
        (head + Without(a[1..], id)) + Without(b, id);
      }
    }
  }

  /** Removing an id that is not in the list changes nothing. */
  lemma {:induction false} WithoutAbsent(texts: seq<TextObj>, id: int)
    requires !HasId(texts, id)
    ensures Without(texts, id) == texts
  {
    if texts != [] {
      assert texts[0].id != id;
      assert !HasId(texts[1..], id) by {
        forall i | 0 <= i < |texts[1..]| ensures texts[1..][i].id != id {
          assert texts[1..][i] == texts[i + 1];
        }
      }
      WithoutAbsent(texts[1..], id);
      assert texts == [texts[0]] + texts[1..];
    }
  }

  /** No caption in `texts[lo..hi]` carries `id`. */
  lemma AbsentSlice(texts: seq<TextObj>, id: int, lo: nat, hi: nat)
    requires lo <= hi <= |texts|
    requires forall i :: lo <= i < hi ==> texts[i].id != id
    ensures !HasId(texts[lo..hi], id)
  {
    var s := texts[lo..hi];
    forall i | 0 <= i < |s| ensures s[i].id != id {
      assert s[i] == texts[lo + i];
    }
  }

  /** With unique ids, deleting a present id shortens the list by exactly one. */
  lemma {:induction false} WithoutUnique(texts: seq<TextObj>, id: int, k: nat)
    requires k < |texts| && texts[k].id == id
    requires forall i :: 0 <= i < |texts| && i != k ==> texts[i].id != id
    ensures Without(texts, id) == texts[..k] + texts[k + 1..]
  {
    var pre, tail := texts[..k], texts[k + 1..];
    assert texts == pre + ([texts[k]] + tail);
    WithoutAppend(pre, [texts[k]] + tail, id);
    WithoutAppend([texts[k]], tail, id);
    AbsentSlice(texts, id, 0, k);
    AbsentSlice(texts, id, k + 1, |texts|);
    assert texts[0..k] == pre && texts[k + 1..|texts|] == tail;
    WithoutAbsent(pre, id);
    WithoutAbsent(tail, id);
    assert Without([texts[k]], id) == [] by {
      assert [texts[k]][1..] == [];
    }
    calc {
      Without(texts, id);
      Without(pre, id) + Without([texts[k]] + tail, id);
      pre + (Without([texts[k]], id) + Without(tail, id));
      pre + ([] + tail);
    }
    assert [] + tail == tail;
  }
}

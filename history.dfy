/**
 * The undo/redo history of the caption editor: `historyStack` and `redoStack`,
 * stacks of caption-list snapshots whose top is the last element.
 *
 * `Stacks` is the value of both stacks, with one function per operation
 * (`Commit` is `saveState`, `UndoStep` and `RedoStep` the stack part of `handleUndo`
 * and `handleRedo`); `HistoryManager` holds the two stacks as fields and
 * mutates them in place, each method proved equal to its function.
 */
module History {
  import opened Wrappers
  import opened Scene

  /** `saveState` evicts the oldest entry once the undo stack holds more than this. */
  const MaxUndo: nat := 50

  datatype Stacks = Stacks(undo: seq<Snapshot>, redo: seq<Snapshot>)

  /** The empty stacks the component starts with. */
  const Empty := Stacks([], [])

  /** An undo or redo: the new stacks and the snapshot to restore, if any. */
  datatype Step = Step(history: Stacks, restore: Option<Snapshot>)

  function Top(s: seq<Snapshot>): Snapshot
    requires s != []
  {
    s[|s| - 1]
  }

  /**
   * Both stacks together never hold more than `MaxUndo` snapshots: a commit caps
   * the undo stack and empties the redo stack, and undo and redo only move
   * snapshots from one stack to the other.
   */
  predicate Bounded(h: Stacks) {
    |h.undo| + |h.redo| <= MaxUndo
  }

  /** `saveState(s)`: push `s`, evict the oldest entry on overflow, clear redo. */
  function Commit(h: Stacks, s: Snapshot): (r: Stacks)
    ensures r.redo == []
    ensures r.undo != [] && Top(r.undo) == s
    ensures |h.undo| < MaxUndo ==> r.undo == h.undo + [s]
    ensures |h.undo| == MaxUndo ==> r.undo == h.undo[1..] + [s]
    ensures |h.undo| <= MaxUndo ==> Bounded(r)
  {
    var u := h.undo + [s];
    Stacks(if |u| > MaxUndo then u[1..] else u, [])
  }

  /**
   * The stack part of `handleUndo`: with more than one entry, the top moves to
   * the redo stack and the entry below it is restored; otherwise nothing happens.
   */
  function UndoStep(h: Stacks): (r: Step)
    ensures r.restore.None? <==> |h.undo| <= 1
    ensures r.restore.None? ==> r.history == h
    ensures r.restore.Some? ==> r.history.undo != [] && r.restore.value == Top(r.history.undo)
    ensures |r.history.undo| + |r.history.redo| == |h.undo| + |h.redo|
  {
    if |h.undo| > 1 then
      var last := Top(h.undo);
      var undo := h.undo[..|h.undo| - 1];
      Step(Stacks(undo, h.redo + [last]), Some(Top(undo)))
    else
      Step(h, None)
  }

  /**
   * The stack part of `handleRedo`: a non-empty redo stack gives up its top,
   * which is pushed (uncapped) onto the undo stack and restored.
   */
  function RedoStep(h: Stacks): (r: Step)
    ensures r.restore.None? <==> h.redo == []
    ensures r.restore.None? ==> r.history == h
    ensures r.restore.Some? ==> r.history.undo != [] && r.restore.value == Top(r.history.undo)
    ensures |r.history.undo| + |r.history.redo| == |h.undo| + |h.redo|
  {
    if h.redo != [] then
      var state := Top(h.redo);
      Step(Stacks(h.undo + [state], h.redo[..|h.redo| - 1]), Some(state))
    else
      Step(h, None)
  }

  /** Every operation keeps the bound, so the undo stack never exceeds 50 entries. */
  lemma OperationsKeepBounded(h: Stacks, s: Snapshot)
    requires Bounded(h)
    ensures Bounded(Commit(h, s)) && Bounded(UndoStep(h).history) && Bounded(RedoStep(h).history)
    ensures |Commit(h, s).undo| <= MaxUndo && |UndoStep(h).history.undo| <= MaxUndo
    ensures |RedoStep(h).history.undo| <= MaxUndo
  {
  }

  /** The floor: undo never pops the bottom entry and never empties a non-empty stack. */
  lemma UndoKeepsFloor(h: Stacks)
    requires h.undo != []
    ensures UndoStep(h).history.undo != [] && UndoStep(h).history.undo[0] == h.undo[0]
  {
  }

  /** Redo after undo gives back both stacks and restores the snapshot that was on top. */
  lemma UndoThenRedo(h: Stacks)
    requires |h.undo| > 1
    ensures RedoStep(UndoStep(h).history) == Step(h, Some(Top(h.undo)))
  {
    var u := UndoStep(h).history;
    assert u.undo + [Top(h.undo)] == h.undo;
    assert u.redo[..|u.redo| - 1] == h.redo;
  }

  /** Undo after redo gives back both stacks, restoring the entry that was on top. */
  lemma RedoThenUndo(h: Stacks)
    requires h.undo != [] && h.redo != []
    ensures UndoStep(RedoStep(h).history) == Step(h, Some(Top(h.undo)))
  {
    var r := RedoStep(h).history;
    assert r.undo[..|r.undo| - 1] == h.undo;
    assert r.redo + [Top(h.redo)] == h.redo;
  }

  /** A commit discards the redo branch: a redo right after it does nothing. */
  lemma RedoAfterCommit(h: Stacks, s: Snapshot)
    ensures RedoStep(Commit(h, s)) == Step(Commit(h, s), None)
  {
  }

  /** `saveState` applied to each snapshot of `ss` in turn. */
  function CommitAll(h: Stacks, ss: seq<Snapshot>): Stacks
    decreases |ss|
  {
    if ss == [] then h else CommitAll(Commit(h, ss[0]), ss[1..])
  }

  /** The last `min(n, |s|)` elements of `s`. */
  function Last<T>(s: seq<T>, n: nat): (r: seq<T>)
    ensures |r| == if |s| <= n then |s| else n
  {
    if |s| <= n then s else s[|s| - n..]
  }

  lemma LastOfLast<T>(a: seq<T>, b: seq<T>, n: nat)
    ensures Last(Last(a, n) + b, n) == Last(a + b, n)
  {
    if |a| > n {
      var c := a[|a| - n..] + b;
      var d := a + b;
      assert |c| > n ==> c[|c| - n..] == d[|d| - n..];
      assert |c| <= n ==> c == d[|d| - |c|..] && |d| > n;
    }
  }

  /** One commit keeps the last 50 entries of the old stack followed by the new snapshot. */
  lemma CommitKeepsLast(h: Stacks, s: Snapshot)
    requires |h.undo| <= MaxUndo
    ensures Commit(h, s).undo == Last(h.undo + [s], MaxUndo)
  {
  }

  /**
   * The cap: after committing `ss` in turn, the undo stack holds exactly the last
   * 50 of its old entries followed by `ss`, and the redo stack is empty.
   */
  lemma {:induction false} CommitAllKeepsLast(h: Stacks, ss: seq<Snapshot>)
    requires |h.undo| <= MaxUndo
    requires ss != []
    ensures CommitAll(h, ss).undo == Last(h.undo + ss, MaxUndo)
    ensures CommitAll(h, ss).redo == []
    decreases |ss|
  {
    var h1 := Commit(h, ss[0]);
    CommitKeepsLast(h, ss[0]);
    assert CommitAll(h, ss) == CommitAll(h1, ss[1..]);
    if |ss| == 1 {
      assert ss == [ss[0]];
      assert CommitAll(h1, ss[1..]) == h1;
    } else {
      CommitAllKeepsLast(h1, ss[1..]);
      LastOfLast(h.undo + [ss[0]], ss[1..], MaxUndo);
      assert h.undo + [ss[0]] + ss[1..] == h.undo + ss;
    }
  }

  /** Sixty commits from the start leave exactly the last fifty snapshots: the first ten are gone. */
  lemma SixtyCommits(ss: seq<Snapshot>)
    requires |ss| == 60
    ensures CommitAll(Empty, ss).undo == ss[10..]
    ensures |CommitAll(Empty, ss).undo| == 50
  {
    CommitAllKeepsLast(Empty, ss);
    assert Empty.undo + ss == ss;
  }

  /** `historyStack` and `redoStack`, mutated in place by the component. */
  class HistoryManager {
    var undo: seq<Snapshot>
    var redo: seq<Snapshot>

    function State(): Stacks
      reads this
    {
      Stacks(undo, redo)
    }

    constructor ()
      ensures State() == Empty
    {
      undo := [];
      redo := [];
    }

    /** `saveState`: push, shift once if over the cap, reset the redo stack. */
    method SaveState(s: Snapshot)
      modifies this
      ensures State() == Commit(old(State()), s)
    {
      undo := undo + [s];
      if |undo| > MaxUndo {
        undo := undo[1..];
      }
      redo := [];
    }

    /** `handleUndo` without the restore: returns the snapshot to restore, if any. */
    method Undo() returns (restore: Option<Snapshot>)
      modifies this
      ensures Step(State(), restore) == UndoStep(old(State()))
    {
      if |undo| > 1 {
        var last := undo[|undo| - 1];
        undo := undo[..|undo| - 1];
        redo := redo + [last];
        restore := Some(undo[|undo| - 1]);
      } else {
        restore := None;
      }
    }

    /** `handleRedo` without the restore: returns the snapshot to restore, if any. */
    method Redo() returns (restore: Option<Snapshot>)
      modifies this
      ensures Step(State(), restore) == RedoStep(old(State()))
    {
      if |redo| > 0 {
        var state := redo[|redo| - 1];
        redo := redo[..|redo| - 1];
        undo := undo + [state];
        restore := Some(state);
      } else {
        restore := None;
      }
    }
  }
}

/** The undo/redo engine (HistoryService.cs): two unbounded stacks of draw
    commands. The top of a stack is the LAST element of its sequence. */
module History {
  import opened Basics
  import opened PixelCanvas
  import opened Layers
  import DrawCommands

  type DrawCommand = DrawCommands.DrawCommand

  datatype HistoryService = HistoryService(undoStack: seq<DrawCommand>, redoStack: seq<DrawCommand>)

  /** A new history: both stacks empty. */
  const Fresh: HistoryService := HistoryService([], [])

  predicate CanUndo(h: HistoryService) {
    |h.undoStack| > 0
  }

  predicate CanRedo(h: HistoryService) {
    |h.redoStack| > 0
  }

  /** What one history call leaves behind: the stacks, the layers the
      commands act on, and whether `HistoryChanged` fired. */
  datatype Effect = Effect(history: HistoryService, layers: seq<Layer>, historyChanged: bool)

  /** `Push`: records an already-applied command on top of the undo stack and
      forgets every redoable command. */
  function Push(h: HistoryService, layers: seq<Layer>, cmd: DrawCommand): (r: Effect)
    ensures CanUndo(r.history) && !CanRedo(r.history)
    ensures r.history.undoStack == h.undoStack + [cmd]
    ensures r.layers == layers && r.historyChanged
  {
    Effect(HistoryService(h.undoStack + [cmd], []), layers, true)
  }

  /** `Execute`: does not run the command, so it is observably the same as `Push`. */
  function Execute(h: HistoryService, layers: seq<Layer>, cmd: DrawCommand): (r: Effect)
    ensures r == Push(h, layers, cmd)
  {
    Effect(HistoryService(h.undoStack + [cmd], []), layers, true)
  }

  /** `Undo`: with an empty undo stack nothing happens and no event fires;
      otherwise the top command is undone and moved to the redo stack. */
  function Undo(h: HistoryService, layers: seq<Layer>): (r: Effect)
    ensures !CanUndo(h) ==> r == Effect(h, layers, false)
    ensures CanUndo(h) ==> r.historyChanged && CanRedo(r.history)
    ensures CanUndo(h) ==> r.history.redoStack == h.redoStack + [h.undoStack[|h.undoStack| - 1]]
    ensures CanUndo(h) ==> r.history.undoStack == h.undoStack[..|h.undoStack| - 1]
    ensures CanUndo(h) ==> r.layers == DrawCommands.Undo(h.undoStack[|h.undoStack| - 1], layers)
    ensures |r.history.undoStack| + |r.history.redoStack| == |h.undoStack| + |h.redoStack|
  {
    if |h.undoStack| > 0 then
      var n := |h.undoStack| - 1;
      var cmd := h.undoStack[n];
      Effect(HistoryService(h.undoStack[..n], h.redoStack + [cmd]), DrawCommands.Undo(cmd, layers), true)
    else
      Effect(h, layers, false)
  }

  /** `Redo`: with an empty redo stack nothing happens and no event fires;
      otherwise the top command is executed again and moved back to the undo stack. */
  function Redo(h: HistoryService, layers: seq<Layer>): (r: Effect)
    ensures !CanRedo(h) ==> r == Effect(h, layers, false)
    ensures CanRedo(h) ==> r.historyChanged && CanUndo(r.history)
    ensures CanRedo(h) ==> r.history.undoStack == h.undoStack + [h.redoStack[|h.redoStack| - 1]]
    ensures CanRedo(h) ==> r.history.redoStack == h.redoStack[..|h.redoStack| - 1]
    ensures CanRedo(h) ==> r.layers == DrawCommands.Execute(h.redoStack[|h.redoStack| - 1], layers)
    ensures |r.history.undoStack| + |r.history.redoStack| == |h.undoStack| + |h.redoStack|
  {
    if |h.redoStack| > 0 then
      var n := |h.redoStack| - 1;
      var cmd := h.redoStack[n];
      Effect(HistoryService(h.undoStack + [cmd], h.redoStack[..n]), DrawCommands.Execute(cmd, layers), true)
    else
      Effect(h, layers, false)
  }

  /** Undo then Redo gives back both stacks; the layers end as if the undone
      command had simply been executed, which is where they started when they
      already showed its result. */
  lemma UndoThenRedo(h: HistoryService, layers: seq<Layer>)
    requires CanUndo(h)
    ensures Redo(Undo(h, layers).history, Undo(h, layers).layers).history == h
    ensures Redo(Undo(h, layers).history, Undo(h, layers).layers).layers
         == DrawCommands.Execute(h.undoStack[|h.undoStack| - 1], layers)
    ensures DrawCommands.ShowsAfter(h.undoStack[|h.undoStack| - 1], layers)
         ==> Redo(Undo(h, layers).history, Undo(h, layers).layers).layers == layers
  {
    var cmd := h.undoStack[|h.undoStack| - 1];
    var u := Undo(h, layers);
    assert u.history.redoStack[..|u.history.redoStack| - 1] == h.redoStack;
    assert u.history.undoStack + [cmd] == h.undoStack;
    DrawCommands.UndoThenExecute(cmd, layers);
    if DrawCommands.ShowsAfter(cmd, layers) {
      DrawCommands.ExecuteWhenShown(cmd, layers);
    }
  }

  /** Redo then Undo gives back both stacks, and the layers end as if the
      command had simply been undone. */
  lemma RedoThenUndo(h: HistoryService, layers: seq<Layer>)
    requires CanRedo(h)
    ensures Undo(Redo(h, layers).history, Redo(h, layers).layers).history == h
    ensures Undo(Redo(h, layers).history, Redo(h, layers).layers).layers
         == DrawCommands.Undo(h.redoStack[|h.redoStack| - 1], layers)
  {
    var cmd := h.redoStack[|h.redoStack| - 1];
    var r := Redo(h, layers);
    assert r.history.undoStack[..|r.history.undoStack| - 1] == h.undoStack;
    assert r.history.redoStack + [cmd] == h.redoStack;
    DrawCommands.ExecuteThenUndo(cmd, layers);
  }

  /** Recording a command after an undo discards the undone command: it is no
      longer reachable by redo. */
  lemma PushAfterUndoDropsRedo(h: HistoryService, layers: seq<Layer>, cmd: DrawCommand)
    requires CanUndo(h)
    ensures var u := Undo(h, layers);
            var p := Push(u.history, u.layers, cmd);
            !CanRedo(p.history) && Redo(p.history, p.layers).history == p.history
  {
  }

  // ---- Several undos followed by as many redos ----

  /** The sequence reversed. */
  function Reverse<T>(s: seq<T>): (r: seq<T>)
    ensures |r| == |s|
  {
    if |s| == 0 then [] else [s[|s| - 1]] + Reverse(s[..|s| - 1])
  }

  /** `n` successive `Undo` calls. */
  function UndoTimes(h: HistoryService, layers: seq<Layer>, n: nat): (HistoryService, seq<Layer>)
    decreases n
  {
    if n == 0 then (h, layers)
    else
      var e := Undo(h, layers);
      UndoTimes(e.history, e.layers, n - 1)
  }

  /** `n` successive `Redo` calls. */
  function RedoTimes(h: HistoryService, layers: seq<Layer>, n: nat): (HistoryService, seq<Layer>)
    decreases n
  {
    if n == 0 then (h, layers)
    else
      var e := Redo(h, layers);
      RedoTimes(e.history, e.layers, n - 1)
  }

  /** Executing the commands of `w` oldest first. */
  function Replay(layers: seq<Layer>, w: seq<DrawCommand>): seq<Layer>
    decreases |w|
  {
    if |w| == 0 then layers else Replay(DrawCommands.Execute(w[0], layers), w[1..])
  }

  /** The layer keys a run of commands targets. */
  function Keys(w: seq<DrawCommand>): set<nat> {
    set i | 0 <= i < |w| :: w[i].layerKey
  }

  /** `a` differs from `b` at most in the pixels (not the size) of layers
      whose key is in `keys`. */
  ghost predicate SameUpTo(a: seq<Layer>, b: seq<Layer>, keys: set<nat>) {
    && |a| == |b|
    && (forall i | 0 <= i < |a| :: a[i] == b[i].(bitmap := a[i].bitmap))
    && (forall i | 0 <= i < |a| :: SameSize(a[i].bitmap, b[i].bitmap))
    && (forall i | 0 <= i < |a| :: a[i].key !in keys ==> a[i] == b[i])
  }

  lemma KeysSnoc(t: seq<DrawCommand>, cmd: DrawCommand)
    ensures Keys(t + [cmd]) == Keys(t) + {cmd.layerKey}
  {
    var s := t + [cmd];
    forall key ensures key in Keys(s) <==> key in Keys(t) + {cmd.layerKey} {
      if key in Keys(s) {
        var i :| 0 <= i < |s| && s[i].layerKey == key;
        if i < |t| { assert t[i] == s[i]; }
      }
      if key in Keys(t) {
        var i :| 0 <= i < |t| && t[i].layerKey == key;
        assert s[i] == t[i];
      }
      if key == cmd.layerKey {
        assert s[|t|] == cmd;
      }
    }
  }

  /** One undo changes only the pixels of the layers its command targets. */
  lemma UndoStepSameUpTo(h: HistoryService, layers: seq<Layer>)
    requires CanUndo(h)
    ensures SameUpTo(Undo(h, layers).layers, layers, {h.undoStack[|h.undoStack| - 1].layerKey})
  {
  }

  /** Reversing a sequence with one more element at the end puts that
      element first. */
  lemma ReverseSnoc<T>(t: seq<T>, x: T)
    ensures Reverse(t + [x]) == [x] + Reverse(t)
  {
    assert (t + [x])[..|t|] == t;
  }

  /** The first element of a sequence is the last of its reverse. */
  lemma {:induction false} ReverseFirst<T>(w: seq<T>)
    requires |w| >= 1
    ensures Reverse(w) == Reverse(w[1..]) + [w[0]]
  {
    ReverseIndex(w);
    ReverseIndex(w[1..]);
    var a := Reverse(w);
    var b := Reverse(w[1..]) + [w[0]];
    forall i | 0 <= i < |w| ensures a[i] == b[i] {
      if i < |w| - 1 {
        assert b[i] == Reverse(w[1..])[i] == w[1..][|w| - 2 - i];
      }
    }
  }

  /** Element `i` of the reverse is element `|s| - 1 - i` of `s`. */
  lemma {:induction false} ReverseIndex<T>(s: seq<T>)
    ensures forall i | 0 <= i < |s| :: Reverse(s)[i] == s[|s| - 1 - i]
    decreases |s|
  {
    if |s| > 0 {
      var t := s[..|s| - 1];
      ReverseIndex(t);
      forall i | 1 <= i < |s| ensures Reverse(s)[i] == s[|s| - 1 - i] {
        assert Reverse(s)[i] == Reverse(t)[i - 1] == t[|t| - i];
      }
    }
  }

  /** With `c` on top of the redo stack, one Redo moves it to the undo stack
      and executes it. */
  lemma RedoStep(u: seq<DrawCommand>, rest: seq<DrawCommand>, c: DrawCommand, layers: seq<Layer>)
    ensures Redo(HistoryService(u, rest + [c]), layers)
         == Effect(HistoryService(u + [c], rest), DrawCommands.Execute(c, layers), true)
  {
    assert (rest + [c])[..|rest|] == rest;
  }

  /** After `n` undos the undo stack has lost its top `n` commands and the redo
      stack holds them in reverse; only the layers they target changed, and
      only in content. */
  lemma {:induction false} UndoTimesShape(h: HistoryService, layers: seq<Layer>, n: nat)
    requires n <= |h.undoStack|
    ensures var u := h.undoStack;
            var k := |u| - n;
            UndoTimes(h, layers, n).0 == HistoryService(u[..k], h.redoStack + Reverse(u[k..]))
    ensures SameUpTo(UndoTimes(h, layers, n).1, layers, Keys(h.undoStack[|h.undoStack| - n..]))
  {
    var u := h.undoStack;
    var k := |u| - n;
    assert u[..k] + u[k..] == u;
    UndoTimesStacks(u[..k], u[k..], h.redoStack, layers);
    UndoTimesFrame(h, layers, n);
  }

  /** Undoing the run `w` on top of `a` moves it, reversed, onto the redo
      stack. */
  lemma {:induction false} UndoTimesStacks(a: seq<DrawCommand>, w: seq<DrawCommand>, r: seq<DrawCommand>, layers: seq<Layer>)
    ensures UndoTimes(HistoryService(a + w, r), layers, |w|).0 == HistoryService(a, r + Reverse(w))
    decreases |w|
  {
    if |w| == 0 {
      assert a + w == a && r + Reverse(w) == r;
    } else {
      var c := w[|w| - 1];
      var w' := w[..|w| - 1];
      var h := HistoryService(a + w, r);
      assert h.undoStack[|h.undoStack| - 1] == c;
      assert (a + w)[..|a + w| - 1] == a + w';
      var e := Undo(h, layers);
      assert e.history == HistoryService(a + w', r + [c]);
      UndoTimesStacks(a, w', r + [c], e.layers);
      assert w == w' + [c];
      ReverseSnoc(w', c);
      assert r + [c] + Reverse(w') == r + Reverse(w);
    }
  }

  lemma {:induction false} UndoTimesFrame(h: HistoryService, layers: seq<Layer>, n: nat)
    requires n <= |h.undoStack|
    ensures SameUpTo(UndoTimes(h, layers, n).1, layers, Keys(h.undoStack[|h.undoStack| - n..]))
    decreases n
  {
    var u := h.undoStack;
    var k := |u| - n;
    if n == 0 {
      assert Keys(u[k..]) == {};
    } else {
      var e := Undo(h, layers);
      var cmd := u[|u| - 1];
      var u1 := u[..|u| - 1];
      var tail := u1[|u1| - (n - 1)..];
      assert e.history.undoStack == u1;
      UndoTimesFrame(e.history, e.layers, n - 1);
      assert u[k..] == tail + [cmd];
      KeysSnoc(tail, cmd);
      UndoStepSameUpTo(h, layers);
      SameUpToTrans(UndoTimes(h, layers, n).1, e.layers, layers, Keys(tail), {cmd.layerKey});
    }
  }

  /** Redoing every command of a reversed run brings the run back onto the
      undo stack, oldest first, and replays it on the layers. */
  lemma {:induction false} RedoTimesShape(u: seq<DrawCommand>, r: seq<DrawCommand>, w: seq<DrawCommand>, s: seq<DrawCommand>, layers: seq<Layer>)
    requires s == r + Reverse(w)
    ensures RedoTimes(HistoryService(u, s), layers, |w|) == (HistoryService(u + w, r), Replay(layers, w))
    decreases |w|
  {
    if |w| == 0 {
      assert s == r && u + w == u;
    } else {
      var rest := r + Reverse(w[1..]);
      var next := DrawCommands.Execute(w[0], layers);
      RedoTimesShape(u + [w[0]], r, w[1..], rest, next);
      assert s == rest + [w[0]] by {
        ReverseFirst(w);
      }
      RedoTimesStep(u, rest, w[0], layers, |w[1..]|);
      assert Replay(layers, w) == Replay(next, w[1..]);
      assert u + [w[0]] + w[1..] == u + w;
    }
  }

  /** Redoing `n + 1` commands from a redo stack topped by `c` is one Redo
      of `c`, then `n` more. */
  lemma RedoTimesStep(u: seq<DrawCommand>, rest: seq<DrawCommand>, c: DrawCommand, layers: seq<Layer>, n: nat)
    ensures RedoTimes(HistoryService(u, rest + [c]), layers, n + 1)
         == RedoTimes(HistoryService(u + [c], rest), DrawCommands.Execute(c, layers), n)
  {
    RedoStep(u, rest, c, layers);
  }

  lemma SameUpToTrans(a: seq<Layer>, b: seq<Layer>, c: seq<Layer>, k1: set<nat>, k2: set<nat>)
    requires SameUpTo(a, b, k1) && SameUpTo(b, c, k2)
    ensures SameUpTo(a, c, k1 + k2)
  {
  }

  /** Replaying a run of full-bitmap restores erases every difference in the
      layers the run targets. */
  lemma {:induction false} ReplayIgnoresContent(a: seq<Layer>, b: seq<Layer>, keys: set<nat>, w: seq<DrawCommand>)
    requires SameUpTo(a, b, keys)
    requires keys <= Keys(w)
    ensures Replay(a, w) == Replay(b, w)
    decreases |w|
  {
    if |w| == 0 {
      assert keys == {};
      assert a == b;
    } else {
      var a1 := DrawCommands.Execute(w[0], a);
      var b1 := DrawCommands.Execute(w[0], b);
      ExecuteNarrows(a, b, keys, w[0]);
      KeysTail(w);
      ReplayIgnoresContent(a1, b1, keys - {w[0].layerKey}, w[1..]);
    }
  }

  /** Executing one command on two layer lists that differ only in content
      makes the command's layer agree. */
  lemma ExecuteNarrows(a: seq<Layer>, b: seq<Layer>, keys: set<nat>, c: DrawCommand)
    requires SameUpTo(a, b, keys)
    ensures SameUpTo(DrawCommands.Execute(c, a), DrawCommands.Execute(c, b), keys - {c.layerKey})
  {
    var a1 := DrawCommands.Execute(c, a);
    var b1 := DrawCommands.Execute(c, b);
    forall i | 0 <= i < |a1| && a[i].key == c.layerKey ensures a1[i] == b1[i] {
      DrawCommands.RestoreIgnoresContent(a[i].bitmap, b[i].bitmap, c.after);
    }
  }

  /** The keys of a run are its first command's key and the keys of the rest. */
  lemma KeysTail(w: seq<DrawCommand>)
    requires |w| >= 1
    ensures Keys(w) == {w[0].layerKey} + Keys(w[1..])
  {
    assert w == [w[0]] + w[1..];
    forall key | key in Keys(w) ensures key in {w[0].layerKey} + Keys(w[1..]) {
      var i :| 0 <= i < |w| && w[i].layerKey == key;
      if i > 0 { assert w[1..][i - 1] == w[i]; }
    }
    forall key | key in Keys(w[1..]) ensures key in Keys(w) {
      var i :| 0 <= i < |w[1..]| && w[1..][i].layerKey == key;
      assert w[i + 1] == w[1..][i];
    }
  }

  /** Undoing `n` commands and redoing `n` restores both stacks exactly, and
      leaves the layers as a replay of those `n` commands on the original
      layers (so they are restored pixel for pixel when the layers already
      showed that replay). */
  lemma {:induction false} UndoRedoTimes(h: HistoryService, layers: seq<Layer>, n: nat)
    requires n <= |h.undoStack|
    ensures RedoTimes(UndoTimes(h, layers, n).0, UndoTimes(h, layers, n).1, n).0 == h
    ensures RedoTimes(UndoTimes(h, layers, n).0, UndoTimes(h, layers, n).1, n).1
         == Replay(layers, h.undoStack[|h.undoStack| - n..])
  {
    var u := h.undoStack;
    var k := |u| - n;
    var w := u[k..];
    var below := u[..k];
    var down := UndoTimes(h, layers, n);
    UndoTimesShape(h, layers, n);
    assert down.0 == HistoryService(below, h.redoStack + Reverse(w));
    assert |w| == n;
    RedoTimesShape(below, h.redoStack, w, h.redoStack + Reverse(w), down.1);
    var up := RedoTimes(down.0, down.1, n);
    assert up == (HistoryService(below + w, h.redoStack), Replay(down.1, w));
    assert below + w == u;
    ReplayIgnoresContent(down.1, layers, Keys(w), w);
  }
}

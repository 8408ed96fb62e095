/** The undoable draw command (DrawCommand.cs): full before/after snapshots of
    one layer's bitmap, restored wholesale on redo and undo. */
module DrawCommands {
  import opened Basics
  import opened PixelCanvas
  import opened Layers

  /** A command names its layer by key and owns both snapshots. Snapshots are
      values, so later edits to the bitmaps they were taken from cannot reach
      them: the constructor's deep copies come for free. */
  datatype DrawCommand = DrawCommand(layerKey: nat, before: Bitmap, after: Bitmap)

  /** The command's display name. */
  function Name(cmd: DrawCommand): string {
    "Draw"
  }

  /** The constructor. */
  function Create(layer: Layer, before: Bitmap, after: Bitmap): (cmd: DrawCommand)
    ensures cmd.layerKey == layer.key && cmd.before == before && cmd.after == after
  {
    DrawCommand(layer.key, before, after)
  }

  /** The colour `SKCanvas.Clear()` fills with: black with zero alpha, which
      differs from `Transparent` in its colour channels. */
  const Cleared: Color := Color(0, 0, 0, 0)

  /** Clears `target` and draws `snapshot` at (0,0): every pixel of the target
      the snapshot covers takes the snapshot's colour at the same place, and
      pixels the snapshot does not reach keep the cleared colour. The target
      keeps its size. */
  function Restore(target: Bitmap, snapshot: Bitmap): (r: Bitmap)
    ensures SameSize(r, target)
    ensures forall p :: Get(r, p) == if !target.Contains(p) then Transparent
                                     else if snapshot.Contains(p) then Get(snapshot, p) else Cleared
  {
    Canvas(target.width, target.height,
           map p | p in target.pixels :: if snapshot.Contains(p) then Get(snapshot, p) else Cleared)
  }

  /** Restoring onto a bitmap of the snapshot's size yields the snapshot. */
  lemma RestoreSameSize(target: Bitmap, snapshot: Bitmap)
    requires SameSize(target, snapshot)
    ensures Restore(target, snapshot) == snapshot
  {
    Extensionality(Restore(target, snapshot), snapshot);
  }

  /** The result of a restore depends on the target's size, never on its content. */
  lemma RestoreIgnoresContent(a: Bitmap, b: Bitmap, snapshot: Bitmap)
    requires SameSize(a, b)
    ensures Restore(a, snapshot) == Restore(b, snapshot)
  {
    Extensionality(Restore(a, snapshot), Restore(b, snapshot));
  }

  /** Restoring twice is restoring once. */
  lemma RestoreIdempotent(target: Bitmap, snapshot: Bitmap)
    ensures Restore(Restore(target, snapshot), snapshot) == Restore(target, snapshot)
  {
    RestoreIgnoresContent(Restore(target, snapshot), target, snapshot);
  }

  /** Restores `snapshot` into every layer with the given key. */
  function RestoreLayers(layers: seq<Layer>, key: nat, snapshot: Bitmap): (r: seq<Layer>)
    ensures |r| == |layers|
    ensures forall i | 0 <= i < |layers| ::
              && r[i].key == layers[i].key
              && r[i] == layers[i].(bitmap := r[i].bitmap)
              && (layers[i].key != key ==> r[i] == layers[i])
              && (layers[i].key == key ==> r[i].bitmap == Restore(layers[i].bitmap, snapshot))
  {
    seq(|layers|, i requires 0 <= i < |layers| =>
      if layers[i].key == key then layers[i].(bitmap := Restore(layers[i].bitmap, snapshot)) else layers[i])
  }

  /** `Execute`: the layer's pixels become the "after" snapshot. */
  function Execute(cmd: DrawCommand, layers: seq<Layer>): seq<Layer> {
    RestoreLayers(layers, cmd.layerKey, cmd.after)
  }

  /** `Undo`: the layer's pixels become the "before" snapshot. */
  function Undo(cmd: DrawCommand, layers: seq<Layer>): seq<Layer> {
    RestoreLayers(layers, cmd.layerKey, cmd.before)
  }

  /** After `Execute` the command's layer holds exactly the "after" snapshot
      (when sizes agree); every other layer is untouched. */
  lemma ExecuteRestoresAfter(cmd: DrawCommand, layers: seq<Layer>, i: nat)
    requires i < |layers|
    ensures (layers[i].key == cmd.layerKey && SameSize(layers[i].bitmap, cmd.after))
        ==> Execute(cmd, layers)[i].bitmap == cmd.after
    ensures layers[i].key != cmd.layerKey ==> Execute(cmd, layers)[i] == layers[i]
  {
    if layers[i].key == cmd.layerKey && SameSize(layers[i].bitmap, cmd.after) {
      RestoreSameSize(layers[i].bitmap, cmd.after);
    }
  }

  /** After `Undo` the command's layer holds exactly the "before" snapshot
      (when sizes agree); every other layer is untouched. */
  lemma UndoRestoresBefore(cmd: DrawCommand, layers: seq<Layer>, i: nat)
    requires i < |layers|
    ensures (layers[i].key == cmd.layerKey && SameSize(layers[i].bitmap, cmd.before))
        ==> Undo(cmd, layers)[i].bitmap == cmd.before
    ensures layers[i].key != cmd.layerKey ==> Undo(cmd, layers)[i] == layers[i]
  {
    if layers[i].key == cmd.layerKey && SameSize(layers[i].bitmap, cmd.before) {
      RestoreSameSize(layers[i].bitmap, cmd.before);
    }
  }

  /** Restoring a snapshot into layers whose bitmaps differ only in content
      gives the same layers: the result never depends on current pixels. */
  lemma RestoreLayersIgnoresContent(a: seq<Layer>, b: seq<Layer>, key: nat, snapshot: Bitmap)
    requires |a| == |b|
    requires forall i | 0 <= i < |a| :: a[i] == b[i].(bitmap := a[i].bitmap)
    requires forall i | 0 <= i < |a| :: SameSize(a[i].bitmap, b[i].bitmap)
    requires forall i | 0 <= i < |a| :: a[i].key != key ==> a[i] == b[i]
    ensures RestoreLayers(a, key, snapshot) == RestoreLayers(b, key, snapshot)
  {
    var ra := RestoreLayers(a, key, snapshot);
    var rb := RestoreLayers(b, key, snapshot);
    forall i | 0 <= i < |a| ensures ra[i] == rb[i] {
      if a[i].key == key {
        RestoreIgnoresContent(a[i].bitmap, b[i].bitmap, snapshot);
      }
    }
  }

  /** `Execute` is idempotent. */
  lemma ExecuteIdempotent(cmd: DrawCommand, layers: seq<Layer>)
    ensures Execute(cmd, Execute(cmd, layers)) == Execute(cmd, layers)
  {
    var once := Execute(cmd, layers);
    forall i | 0 <= i < |layers| && layers[i].key == cmd.layerKey
      ensures Execute(cmd, once)[i] == once[i]
    {
      RestoreIdempotent(layers[i].bitmap, cmd.after);
    }
  }

  /** `Undo` is idempotent. */
  lemma UndoIdempotent(cmd: DrawCommand, layers: seq<Layer>)
    ensures Undo(cmd, Undo(cmd, layers)) == Undo(cmd, layers)
  {
    var once := Undo(cmd, layers);
    forall i | 0 <= i < |layers| && layers[i].key == cmd.layerKey
      ensures Undo(cmd, once)[i] == once[i]
    {
      RestoreIdempotent(layers[i].bitmap, cmd.before);
    }
  }

  /** `Undo` followed by `Execute` is the same as `Execute` alone. */
  lemma UndoThenExecute(cmd: DrawCommand, layers: seq<Layer>)
    ensures Execute(cmd, Undo(cmd, layers)) == Execute(cmd, layers)
  {
    RestoreLayersIgnoresContent(Undo(cmd, layers), layers, cmd.layerKey, cmd.after);
  }

  /** `Execute` followed by `Undo` is the same as `Undo` alone. */
  lemma ExecuteThenUndo(cmd: DrawCommand, layers: seq<Layer>)
    ensures Undo(cmd, Execute(cmd, layers)) == Undo(cmd, layers)
  {
    RestoreLayersIgnoresContent(Execute(cmd, layers), layers, cmd.layerKey, cmd.before);
  }

  /** True when every layer the command targets already shows its "after" snapshot. */
  predicate ShowsAfter(cmd: DrawCommand, layers: seq<Layer>) {
    forall i | 0 <= i < |layers| && layers[i].key == cmd.layerKey :: layers[i].bitmap == cmd.after
  }

  /** Executing a command whose result is already shown changes nothing. */
  lemma ExecuteWhenShown(cmd: DrawCommand, layers: seq<Layer>)
    requires ShowsAfter(cmd, layers)
    ensures Execute(cmd, layers) == layers
  {
    forall i | 0 <= i < |layers| && layers[i].key == cmd.layerKey
      ensures Execute(cmd, layers)[i] == layers[i]
    {
      RestoreSameSize(layers[i].bitmap, cmd.after);
    }
  }
}

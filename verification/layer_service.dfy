/** The layer stack (LayerService.cs): an ordered sequence of layers, index 0
    on top, the active layer, and the canvas size every layer shares. */
module LayerService {
  import opened Basics
  import opened PixelCanvas
  import opened Layers
  import DrawCommands

  /** `activeKey` names the active layer; `nextKey` is the next unused layer
      identity, standing in for allocating a new object. */
  datatype LayerStack = LayerStack(width: nat, height: nat, layers: seq<Layer>, activeKey: nat, nextKey: nat)

  predicate Member(layers: seq<Layer>, key: nat) {
    exists i | 0 <= i < |layers| :: layers[i].key == key
  }

  /** Every key is below the next unused one. */
  ghost predicate KeysBelow(layers: seq<Layer>, bound: nat) {
    forall i | 0 <= i < |layers| :: layers[i].key < bound
  }

  /** No two layers share an identity. */
  ghost predicate UniqueKeys(layers: seq<Layer>) {
    forall i, j | 0 <= i < j < |layers| :: layers[i].key != layers[j].key
  }

  /** Every bitmap has the canvas size. */
  ghost predicate Sized(layers: seq<Layer>, width: nat, height: nat) {
    forall i | 0 <= i < |layers| :: layers[i].bitmap.width == width && layers[i].bitmap.height == height
  }

  /** The stack invariant: never empty, distinct identities below `nextKey`,
      every bitmap canvas-sized, and the active layer a member. */
  ghost predicate Valid(s: LayerStack) {
    && |s.layers| >= 1
    && KeysBelow(s.layers, s.nextKey)
    && UniqueKeys(s.layers)
    && Sized(s.layers, s.width, s.height)
    && Member(s.layers, s.activeKey)
  }

  /** `Layers.IndexOf`: the first position holding the key, or -1. */
  function IndexOf(layers: seq<Layer>, key: nat): (i: int)
    ensures -1 <= i < |layers|
    ensures i >= 0 ==> layers[i].key == key && forall j | 0 <= j < i :: layers[j].key != key
    ensures i == -1 <==> !Member(layers, key)
    decreases |layers|
  {
    if |layers| == 0 then -1
    else if layers[0].key == key then 0
    else
      var j := IndexOf(layers[1..], key);
      if j == -1 then -1 else j + 1
  }

  /** The sequence without its element at `i` (`RemoveAt`). */
  function RemoveAt<T>(s: seq<T>, i: nat): (r: seq<T>)
    requires i < |s|
    ensures |r| == |s| - 1
  {
    s[..i] + s[i + 1..]
  }

  /** The sequence with `x` inserted at `i` (`Insert`). */
  function InsertAt<T>(s: seq<T>, i: nat, x: T): (r: seq<T>)
    requires i <= |s|
    ensures |r| == |s| + 1 && r[i] == x
  {
    s[..i] + [x] + s[i..]
  }

  lemma SeqRemoveAt<T>(s: seq<T>, i: nat)
    requires i < |s|
    ensures forall j | 0 <= j < |s| - 1 :: RemoveAt(s, i)[j] == if j < i then s[j] else s[j + 1]
  {
    var r := RemoveAt(s, i);
    forall j | 0 <= j < |s| - 1 ensures r[j] == if j < i then s[j] else s[j + 1] {
      if j < i {
        assert r[j] == s[..i][j];
      } else {
        assert r[j] == s[i + 1..][j - i];
      }
    }
  }

  lemma SeqInsertAt<T>(s: seq<T>, i: nat, x: T)
    requires i <= |s|
    ensures forall j | 0 <= j < |s| + 1 :: InsertAt(s, i, x)[j] == if j < i then s[j] else if j == i then x else s[j - 1]
  {
    var r := InsertAt(s, i, x);
    forall j | 0 <= j < |s| + 1 ensures r[j] == if j < i then s[j] else if j == i then x else s[j - 1] {
      if j < i {
        assert r[j] == s[..i][j];
      } else if j > i {
        assert r[j] == s[i..][j - i - 1];
      }
    }
  }

  lemma RemoveAtFacts(layers: seq<Layer>, i: nat, width: nat, height: nat, bound: nat)
    requires i < |layers|
    requires UniqueKeys(layers) && Sized(layers, width, height) && KeysBelow(layers, bound)
    ensures UniqueKeys(RemoveAt(layers, i))
    ensures Sized(RemoveAt(layers, i), width, height) && KeysBelow(RemoveAt(layers, i), bound)
    ensures forall k :: Member(RemoveAt(layers, i), k) <==> Member(layers, k) && k != layers[i].key
  {
    SeqRemoveAt(layers, i);
    RemoveAtUnique(layers, i);
    forall k ensures Member(RemoveAt(layers, i), k) <==> Member(layers, k) && k != layers[i].key {
      RemoveAtMember(layers, i, k);
    }
  }

  lemma RemoveAtUnique(layers: seq<Layer>, i: nat)
    requires i < |layers| && UniqueKeys(layers)
    ensures UniqueKeys(RemoveAt(layers, i))
  {
    var r := RemoveAt(layers, i);
    SeqRemoveAt(layers, i);
    forall a, b | 0 <= a < b < |r| ensures r[a].key != r[b].key {
      var a' := if a < i then a else a + 1;
      var b' := if b < i then b else b + 1;
      assert r[a] == layers[a'] && r[b] == layers[b'];
    }
  }

  lemma RemoveAtMember(layers: seq<Layer>, i: nat, k: nat)
    requires i < |layers| && UniqueKeys(layers)
    ensures Member(RemoveAt(layers, i), k) <==> Member(layers, k) && k != layers[i].key
  {
    var r := RemoveAt(layers, i);
    SeqRemoveAt(layers, i);
    if Member(r, k) {
      var j :| 0 <= j < |r| && r[j].key == k;
      if j < i { assert layers[j].key == k; } else { assert layers[j + 1].key == k; }
    }
    if Member(layers, k) && k != layers[i].key {
      var j :| 0 <= j < |layers| && layers[j].key == k;
      if j < i { assert r[j].key == k; } else { assert r[j - 1].key == k; }
    }
  }

  lemma InsertAtFacts(layers: seq<Layer>, i: nat, x: Layer, width: nat, height: nat, bound: nat)
    requires i <= |layers|
    requires UniqueKeys(layers) && Sized(layers, width, height) && KeysBelow(layers, bound)
    requires x.key == bound && x.bitmap.width == width && x.bitmap.height == height
    ensures var r := InsertAt(layers, i, x);
            && (forall j | 0 <= j < |r| :: r[j] == if j < i then layers[j] else if j == i then x else layers[j - 1])
            && UniqueKeys(r) && Sized(r, width, height) && KeysBelow(r, bound + 1)
            && (forall k :: Member(r, k) <==> Member(layers, k) || k == x.key)
            && !Member(layers, x.key)
  {
    SeqInsertAt(layers, i, x);
    InsertAtUnique(layers, i, x, bound);
    forall k ensures Member(InsertAt(layers, i, x), k) <==> Member(layers, k) || k == x.key {
      InsertAtMember(layers, i, x, k);
    }
  }

  lemma InsertAtUnique(layers: seq<Layer>, i: nat, x: Layer, bound: nat)
    requires i <= |layers| && UniqueKeys(layers) && KeysBelow(layers, bound) && x.key == bound
    ensures UniqueKeys(InsertAt(layers, i, x))
  {
    var r := InsertAt(layers, i, x);
    SeqInsertAt(layers, i, x);
    forall a, b | 0 <= a < b < |r| ensures r[a].key != r[b].key {
      if a != i && b != i {
        var a' := if a < i then a else a - 1;
        var b' := if b < i then b else b - 1;
        assert r[a] == layers[a'] && r[b] == layers[b'];
      }
    }
  }

  lemma InsertAtMember(layers: seq<Layer>, i: nat, x: Layer, k: nat)
    requires i <= |layers|
    ensures Member(InsertAt(layers, i, x), k) <==> Member(layers, k) || k == x.key
  {
    var r := InsertAt(layers, i, x);
    SeqInsertAt(layers, i, x);
    if Member(r, k) {
      var j :| 0 <= j < |r| && r[j].key == k;
      if j < i { assert layers[j].key == k; } else if j > i { assert layers[j - 1].key == k; }
    }
    if Member(layers, k) {
      var j :| 0 <= j < |layers| && layers[j].key == k;
      if j < i { assert r[j].key == k; } else { assert r[j + 1].key == k; }
    }
    if k == x.key { assert r[i].key == k; }
  }

  /** Replacing a layer by one with the same identity and size keeps the invariant parts. */
  lemma ReplaceFacts(layers: seq<Layer>, i: nat, x: Layer, width: nat, height: nat, bound: nat)
    requires i < |layers|
    requires UniqueKeys(layers) && Sized(layers, width, height) && KeysBelow(layers, bound)
    requires x.key == layers[i].key && x.bitmap.width == width && x.bitmap.height == height
    ensures var r := layers[i := x];
            && UniqueKeys(r) && Sized(r, width, height) && KeysBelow(r, bound)
            && (forall k :: Member(r, k) <==> Member(layers, k))
  {
    var r := layers[i := x];
    forall k ensures Member(r, k) <==> Member(layers, k) {
      if Member(r, k) {
        var j :| 0 <= j < |r| && r[j].key == k;
        assert layers[j].key == k;
      }
      if Member(layers, k) {
        var j :| 0 <= j < |layers| && layers[j].key == k;
        assert r[j].key == k;
      }
    }
  }

  /** The constructor: one transparent layer named "Layer 1", active. */
  function New(width: nat, height: nat): (s: LayerStack)
    ensures Valid(s)
    ensures s.width == width && s.height == height
    ensures |s.layers| == 1 && s.layers[0].name == "Layer 1"
    ensures s.activeKey == s.layers[0].key
    ensures forall p :: Get(s.layers[0].bitmap, p) == Transparent
  {
    AddLayer(LayerStack(width, height, [], 0, 0), "Layer 1")
  }

  /** `AddLayer`: a new canvas-sized transparent layer on top, made active. */
  function AddLayer(s: LayerStack, name: string): (r: LayerStack)
    requires KeysBelow(s.layers, s.nextKey) && UniqueKeys(s.layers) && Sized(s.layers, s.width, s.height)
    ensures Valid(r)
    ensures r.width == s.width && r.height == s.height
    ensures |r.layers| == |s.layers| + 1 && r.layers[1..] == s.layers
    ensures r.layers[0].name == name && r.activeKey == r.layers[0].key
    ensures !Member(s.layers, r.layers[0].key)
    ensures forall p :: Get(r.layers[0].bitmap, p) == Transparent
  {
    var l := NewLayer(s.nextKey, s.width, s.height, name);
    InsertAtFacts(s.layers, 0, l, s.width, s.height, s.nextKey);
    var layers := InsertAt(s.layers, 0, l);
    assert layers[1..] == s.layers;
    LayerStack(s.width, s.height, layers, l.key, s.nextKey + 1)
  }

  /** `RemoveLayer`: no-op for the last remaining layer or a non-member.
      Removing the active layer makes the new top layer active. */
  function RemoveLayer(s: LayerStack, key: nat): (r: LayerStack)
    requires Valid(s)
    ensures Valid(r)
    ensures (|s.layers| == 1 || !Member(s.layers, key)) ==> r == s
    ensures |s.layers| > 1 && Member(s.layers, key) ==>
              && r.layers == RemoveAt(s.layers, IndexOf(s.layers, key))
              && !Member(r.layers, key)
              && r.activeKey == (if s.activeKey == key then r.layers[0].key else s.activeKey)
    ensures r.width == s.width && r.height == s.height && r.nextKey == s.nextKey
  {
    if |s.layers| > 1 && Member(s.layers, key) then
      var i := IndexOf(s.layers, key);
      RemoveAtFacts(s.layers, i, s.width, s.height, s.nextKey);
      var rest := RemoveAt(s.layers, i);
      var active := if s.activeKey == key then rest[0].key else s.activeKey;
      assert Member(rest, active) by {
        if s.activeKey == key {
          assert rest[0].key == active;
        }
      }
      LayerStack(s.width, s.height, rest, active, s.nextKey)
    else
      s
  }

  /** Where the element at position `j` of a moved sequence came from. */
  function MoveSource(oldIndex: nat, newIndex: nat, j: nat): nat {
    if j == newIndex then oldIndex
    else if oldIndex <= newIndex then (if oldIndex <= j < newIndex then j + 1 else j)
    else (if newIndex < j <= oldIndex then j - 1 else j)
  }

  /** Where the element at position `a` ends up after a move. */
  function MoveTarget(oldIndex: nat, newIndex: nat, a: nat): nat {
    if a == oldIndex then newIndex
    else if oldIndex <= newIndex then (if oldIndex < a <= newIndex then a - 1 else a)
    else (if newIndex <= a < oldIndex then a + 1 else a)
  }

  /** `ObservableCollection.Move`: takes the element out at `oldIndex` and
      inserts it back at `newIndex`; the others keep their relative order. */
  function Move<T>(s: seq<T>, oldIndex: nat, newIndex: nat): (r: seq<T>)
    requires oldIndex < |s| && newIndex < |s|
    ensures |r| == |s|
    ensures r[newIndex] == s[oldIndex]
    ensures RemoveAt(r, newIndex) == RemoveAt(s, oldIndex)
    ensures multiset(r) == multiset(s)
  {
    var rest := RemoveAt(s, oldIndex);
    var r := InsertAt(rest, newIndex, s[oldIndex]);
    assert RemoveAt(r, newIndex) == rest;
    calc {
      multiset(s);
      { assert s == s[..oldIndex] + [s[oldIndex]] + s[oldIndex + 1..]; }
      multiset(s[..oldIndex]) + multiset{s[oldIndex]} + multiset(s[oldIndex + 1..]);
      multiset(rest) + multiset{s[oldIndex]};
      { assert rest == rest[..newIndex] + rest[newIndex..]; }
      multiset(rest[..newIndex]) + multiset{s[oldIndex]} + multiset(rest[newIndex..]);
      multiset(r);
    }
    r
  }

  /** Source and target positions of a move are inverse bijections on the
      index range. */
  lemma MoveSourceTarget(oldIndex: nat, newIndex: nat, len: nat)
    requires oldIndex < len && newIndex < len
    ensures forall j | 0 <= j < len :: MoveSource(oldIndex, newIndex, j) < len
    ensures forall a | 0 <= a < len :: MoveTarget(oldIndex, newIndex, a) < len
    ensures forall a | 0 <= a < len :: MoveSource(oldIndex, newIndex, MoveTarget(oldIndex, newIndex, a)) == a
    ensures forall j | 0 <= j < len :: MoveTarget(oldIndex, newIndex, MoveSource(oldIndex, newIndex, j)) == j
  {
  }

  /** Each position of a moved sequence holds the element from its source position. */
  lemma MoveIndices<T>(s: seq<T>, oldIndex: nat, newIndex: nat)
    requires oldIndex < |s| && newIndex < |s|
    ensures forall j | 0 <= j < |s| :: MoveSource(oldIndex, newIndex, j) < |s|
    ensures forall j | 0 <= j < |s| :: Move(s, oldIndex, newIndex)[j] == s[MoveSource(oldIndex, newIndex, j)]
  {
    MoveSourceTarget(oldIndex, newIndex, |s|);
    var rest := RemoveAt(s, oldIndex);
    var r := Move(s, oldIndex, newIndex);
    assert r == InsertAt(rest, newIndex, s[oldIndex]);
    SeqRemoveAt(s, oldIndex);
    SeqInsertAt(rest, newIndex, s[oldIndex]);
    forall j | 0 <= j < |s| ensures r[j] == s[MoveSource(oldIndex, newIndex, j)] {
      if j < newIndex {
        assert r[j] == rest[j];
      } else if j > newIndex {
        assert r[j] == rest[j - 1];
      }
    }
  }

  /** `MoveLayer`: reorders when both indices are in range, otherwise does nothing. */
  function MoveLayer(s: LayerStack, oldIndex: int, newIndex: int): (r: LayerStack)
    requires Valid(s)
    ensures Valid(r)
    ensures !(0 <= oldIndex < |s.layers| && 0 <= newIndex < |s.layers|) ==> r == s
    ensures 0 <= oldIndex < |s.layers| && 0 <= newIndex < |s.layers| ==>
              r == s.(layers := Move(s.layers, oldIndex, newIndex))
  {
    if 0 <= oldIndex < |s.layers| && 0 <= newIndex < |s.layers| then
      MovePreservesValid(s, oldIndex, newIndex);
      s.(layers := Move(s.layers, oldIndex, newIndex))
    else
      s
  }

  /** Moving a layer of a valid stack leaves it valid. */
  lemma MovePreservesValid(s: LayerStack, oldIndex: nat, newIndex: nat)
    requires Valid(s)
    requires oldIndex < |s.layers| && newIndex < |s.layers|
    ensures Valid(s.(layers := Move(s.layers, oldIndex, newIndex)))
  {
    var moved := Move(s.layers, oldIndex, newIndex);
    MoveIndices(s.layers, oldIndex, newIndex);
    MoveUnique(s.layers, oldIndex, newIndex);
    assert Member(moved, s.activeKey) by {
      var a :| 0 <= a < |s.layers| && s.layers[a].key == s.activeKey;
      MoveSourceTarget(oldIndex, newIndex, |s.layers|);
      assert moved[MoveTarget(oldIndex, newIndex, a)].key == s.activeKey;
    }
  }

  lemma MoveUnique(layers: seq<Layer>, oldIndex: nat, newIndex: nat)
    requires UniqueKeys(layers)
    requires oldIndex < |layers| && newIndex < |layers|
    ensures UniqueKeys(Move(layers, oldIndex, newIndex))
  {
    var moved := Move(layers, oldIndex, newIndex);
    MoveIndices(layers, oldIndex, newIndex);
    forall i, j | 0 <= i < j < |moved| ensures moved[i].key != moved[j].key {
      MoveSourceInjective(oldIndex, newIndex, i, j);
      var a := MoveSource(oldIndex, newIndex, i);
      var b := MoveSource(oldIndex, newIndex, j);
      assert moved[i] == layers[a] && moved[j] == layers[b];
    }
  }

  /** Distinct positions of a moved sequence come from distinct positions. */
  lemma MoveSourceInjective(oldIndex: nat, newIndex: nat, i: nat, j: nat)
    requires i != j
    ensures MoveSource(oldIndex, newIndex, i) != MoveSource(oldIndex, newIndex, j)
  {
  }

  /** `DuplicateLayer`: for a member layer, inserts at its index a new layer
      named "<name> Copy" with the same opacity, blend mode, visibility and
      pixels, unlocked, and makes it active; the original moves down one
      place. A null layer changes nothing. */
  function DuplicateLayer(s: LayerStack, layer: Option<nat>): (r: LayerStack)
    requires Valid(s)
    requires layer.Some? ==> Member(s.layers, layer.value)
    ensures Valid(r)
    ensures layer.None? ==> r == s
    ensures layer.Some? ==> |r.layers| == |s.layers| + 1
    ensures layer.Some? ==>
              var i := IndexOf(s.layers, layer.value);
              var src := s.layers[i];
              var copy := r.layers[i];
              && r.layers == InsertAt(s.layers, i, copy)
              && copy.name == src.name + " Copy"
              && copy.opacity == src.opacity && copy.blendMode == src.blendMode
              && copy.isVisible == src.isVisible && !copy.isLocked
              && copy.bitmap == src.bitmap
              && !Member(s.layers, copy.key)
              && r.activeKey == copy.key
  {
    if layer.None? then s
    else
      var i := IndexOf(s.layers, layer.value);
      var src := s.layers[i];
      var blank := NewLayer(s.nextKey, s.width, s.height, src.name + " Copy");
      var copy := blank.(opacity := src.opacity, blendMode := src.blendMode, isVisible := src.isVisible,
                         bitmap := DrawCommands.Restore(blank.bitmap, src.bitmap));
      DrawCommands.RestoreSameSize(blank.bitmap, src.bitmap);
      InsertAtFacts(s.layers, i, copy, s.width, s.height, s.nextKey);
      LayerStack(s.width, s.height, InsertAt(s.layers, i, copy), copy.key, s.nextKey + 1)
  }

  /** Keeps the size of the layer below: a stand-in for SkiaSharp drawing one
      bitmap onto another, whose pixel arithmetic is not modelled. */
  ghost predicate KeepsSize(composite: (Bitmap, Bitmap, real) -> Bitmap) {
    forall below, top, opacity :: SameSize(composite(below, top, opacity), below)
  }

  /** `MergeDown`: composites the layer onto the one below it (by the given
      compositing function, using the layer's opacity), removes it, and makes
      the layer below active. The bottom layer cannot merge down. A layer that
      is not in the stack has index -1, so "the layer below" is the top layer:
      the layer is composited onto it, nothing is removed, and the top layer
      becomes active. */
  function MergeDown(s: LayerStack, layer: Layer, composite: (Bitmap, Bitmap, real) -> Bitmap): (r: LayerStack)
    requires Valid(s)
    requires Member(s.layers, layer.key) ==> s.layers[IndexOf(s.layers, layer.key)] == layer
    requires KeepsSize(composite)
    ensures Valid(r)
    ensures IndexOf(s.layers, layer.key) == |s.layers| - 1 ==> r == s
    ensures 0 <= IndexOf(s.layers, layer.key) < |s.layers| - 1 ==>
              var i := IndexOf(s.layers, layer.key);
              var below := s.layers[i + 1];
              && |r.layers| == |s.layers| - 1
              && !Member(r.layers, layer.key)
              && r.layers == s.layers[..i] + [below.(bitmap := composite(below.bitmap, layer.bitmap, layer.opacity))] + s.layers[i + 2..]
              && r.activeKey == below.key
    ensures !Member(s.layers, layer.key) ==>
              var below := s.layers[0];
              && r.layers == s.layers[0 := below.(bitmap := composite(below.bitmap, layer.bitmap, layer.opacity))]
              && r.activeKey == below.key
  {
    var i := IndexOf(s.layers, layer.key);
    if i == -1 then
      var below := s.layers[0];
      var merged := below.(bitmap := composite(below.bitmap, layer.bitmap, layer.opacity));
      ReplaceFacts(s.layers, 0, merged, s.width, s.height, s.nextKey);
      LayerStack(s.width, s.height, s.layers[0 := merged], below.key, s.nextKey)
    else if i < |s.layers| - 1 then
      var below := s.layers[i + 1];
      var merged := below.(bitmap := composite(below.bitmap, layer.bitmap, layer.opacity));
      MergedFacts(s, i, merged);
      LayerStack(s.width, s.height, s.layers[..i] + [merged] + s.layers[i + 2..], below.key, s.nextKey)
    else
      s
  }

  /** Overwriting the layer below position `i` with a same-identity,
      canvas-sized layer and then removing position `i` leaves a valid stack
      whose active layer is the merged one. The steps follow the source:
      the composite is drawn into the lower layer first, then the upper one
      is removed (the guard of `RemoveLayer` holds, and the active layer it
      picks is then overridden). */
  lemma MergedFacts(s: LayerStack, i: nat, merged: Layer)
    requires Valid(s) && i + 1 < |s.layers|
    requires merged.key == s.layers[i + 1].key
    requires merged.bitmap.width == s.width && merged.bitmap.height == s.height
    ensures var rest := s.layers[..i] + [merged] + s.layers[i + 2..];
            && |rest| == |s.layers| - 1 && rest[i] == merged
            && Valid(LayerStack(s.width, s.height, rest, merged.key, s.nextKey))
            && !Member(rest, s.layers[i].key)
  {
    var replaced := s.layers[i + 1 := merged];
    ReplaceFacts(s.layers, i + 1, merged, s.width, s.height, s.nextKey);
    var rest := RemoveAt(replaced, i);
    RemoveAtFacts(replaced, i, s.width, s.height, s.nextKey);
    assert rest == s.layers[..i] + [merged] + s.layers[i + 2..];
    assert rest[i] == merged;
  }

  /** `ClearLayer`: erases a member layer to transparent. A null layer, or a
      layer no longer in the stack, leaves the stack unchanged. */
  function ClearLayer(s: LayerStack, layer: Option<nat>): (r: LayerStack)
    requires Valid(s)
    ensures Valid(r)
    ensures layer.None? || !Member(s.layers, layer.value) ==> r == s
    ensures |r.layers| == |s.layers| && r.activeKey == s.activeKey
    ensures forall i | 0 <= i < |s.layers| ::
              && r.layers[i] == s.layers[i].(bitmap := r.layers[i].bitmap)
              && SameSize(r.layers[i].bitmap, s.layers[i].bitmap)
              && ((layer.Some? && s.layers[i].key == layer.value)
                  ==> forall p :: Get(r.layers[i].bitmap, p) == Transparent)
              && ((layer.None? || s.layers[i].key != layer.value) ==> r.layers[i] == s.layers[i])
  {
    if layer.Some? && Member(s.layers, layer.value) then
      var i := IndexOf(s.layers, layer.value);
      var l := s.layers[i];
      var cleared := l.(bitmap := PixelCanvas.New(l.bitmap.width, l.bitmap.height));
      ReplaceFacts(s.layers, i, cleared, s.width, s.height, s.nextKey);
      s.(layers := s.layers[i := cleared])
    else
      s
  }

  /** The active layer. */
  function ActiveLayer(s: LayerStack): (l: Layer)
    requires Valid(s)
    ensures l in s.layers && l.key == s.activeKey
  {
    s.layers[IndexOf(s.layers, s.activeKey)]
  }
}

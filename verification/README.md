# PixelArtEditor pixel engine, modelled in Dafny

This project models the core of PixelArtEditor, a layered pixel-art editor. It covers:

- the per-layer pixel grid (`PixelCanvas`);
- layers and their display attributes (`Layer`);
- the layer stack (`LayerService`);
- undoable draw commands and the undo/redo history (`DrawCommand`, `HistoryService`);
- the symmetry settings;
- the drawing tools: Pencil, Eraser, Line, Rectangle, Fill, Blur, Eyedropper and Rectangle Select;
- the tool registry (`ToolService`);
- the layer-selection part of the renderer;
- the colour text boxes of the palette view: the RGB boxes and the hex box.

A small `Editor` module wires these together the way the canvas view model does. Pointer events go to the active tool with the active layer. The edited layer is written back, a recorded command goes onto the history, and a picked colour becomes the active colour.

**How things are represented**

- **Bitmaps.** A bitmap is a width, a height and a map from every in-bounds point to an RGBA colour.
  - A read outside the grid gives SkiaSharp's transparent colour, which is white with zero alpha.
  - A write outside the grid is dropped.
- **Layer identity.** The C# code compares layers by object identity. Here each layer carries a `key`, and the stack hands out fresh keys.
- **Tools.** A tool is a pure step function. Given the tool's state, the active layer (absent for `null`) and the event, it returns:
  - the new tool state;
  - the layer with its new pixels;
  - the draw command the event records on the history, if any.
- **History.** The history holds two stacks of commands. The top of each stack is its last element.

**Behaviour of the code worth noting**

- **Out-of-range reads** return `SKColors.Transparent`, which is white with zero alpha. `SKCanvas.Clear()`, used when a command restores a snapshot, fills with black with zero alpha instead.
- **Selection edges.** `GetSelectionRect` passes the larger coordinates as the right and bottom edges of an `SKRectI`, which SkiaSharp treats as exclusive. Read that way, a click selects nothing and a drag leaves out its last column and row (`RectangleSelectTool.SkiaReadingDropsLastEdges`). The model keeps the four edges exactly as the code builds them.
- **Tools the service does not register.** `AvailableTools` holds Pencil, Eraser, Eyedropper, Fill and Rectangle Select. No file builds a Line, Rectangle or Blur tool. The model still lets the service dispatch to them. A Line or Rectangle tool records which settings object it was built with: the service's own or a separate one (possibly `null`).
- **Resize.** Neither the canvas nor the layer stack has a resize operation; every bitmap keeps the size it was created with.
- **`MergeDown` on a layer that is not in the stack.** `IndexOf` gives -1, so the layer is composited onto the top layer, nothing is removed, and the top layer becomes active.
- **Two paths throw:**
  - The Pencil, Eraser and Blur tools dereference a `null` layer on pointer-up while a stroke is in progress.
  - `DuplicateLayer` throws on a layer that is not in the stack.

  The model excludes these paths by preconditions.

**Two as-written behaviours are stated as lemmas rather than corrected**

- **Line tool, stale preview.** Releasing the Line tool somewhere other than the last pointer-move keeps the stale preview line in the committed bitmap (`LineTool.UpElsewhereKeepsStalePreview`).
- **Rectangle tool with a mirror.** A mirrored Rectangle outline can paint cells inside the rectangle (`RectangleTool.MirrorCanReachInterior`).

## Model

| member | source | states |
|---|---|---|
| PixelCanvas.New | PixelArtEditor.Core/Models/PixelCanvas.cs:27-33 | a new canvas has the requested size and every pixel, in or out of bounds, reads as transparent |
| PixelCanvas.Set | PixelArtEditor.Core/Models/PixelCanvas.cs:41-47 | a write keeps the size, changes exactly the written in-bounds pixel, and is dropped outside the grid |
| PixelCanvas.GetAfterSet | PixelArtEditor.Core/Models/PixelCanvas.cs:41-60 | reading back an in-bounds write yields the written colour |
| PixelCanvas.SetOutOfBounds | PixelArtEditor.Core/Models/PixelCanvas.cs:43 | an out-of-bounds write leaves the whole canvas equal to what it was |
| PixelCanvas.SetFrame | PixelArtEditor.Core/Models/PixelCanvas.cs:41-47 | a write never disturbs any other pixel |
| PixelCanvas.SetSameColor | PixelArtEditor.Core/Models/PixelCanvas.cs:41-60 | writing back the colour just read is the identity on the canvas |
| Layers.NewLayer | PixelArtEditor.Core/Models/Layer.cs:96-101 | a new layer keeps its name, is visible, fully opaque, Normal, unlocked, and its canvas-sized bitmap is all transparent |
| Layers.Assign | PixelArtEditor.Core/Models/Layer.cs:39-88 | each setter stores its value without clamping, leaves every other attribute alone and raises exactly one change notification naming the property |
| Layers.AssignSameValue | PixelArtEditor.Core/Models/Layer.cs:57-61 | assigning the value already held changes nothing yet still notifies once |
| Layers.BlendModesComplete | PixelArtEditor.Core/Models/Layer.cs:11-21 | there are exactly eight distinct blend modes |
| Symmetry.SetMode | PixelArtEditor.Core/Models/SymmetrySettings.cs:45-52 | the mode setter stores the mode and notifies exactly when the value changes |
| Symmetry.SetModeIdempotent | PixelArtEditor.Core/Models/SymmetrySettings.cs:47-51 | setting the same mode twice notifies at most once and the second set changes nothing |
| Symmetry.ModesComplete | PixelArtEditor.Core/Models/SymmetrySettings.cs:9-30 | there are exactly four distinct symmetry modes |
| Symmetry.WritesAreMirrors | PixelArtEditor.Core/Tools/PencilTool.cs:102-133 | the points a symmetric write touches are exactly the cursor point and its mirror images allowed by the mode |
| Symmetry.Plot | PixelArtEditor.Core/Tools/LineTool.cs:91-133 | a symmetric write paints an in-bounds point and its in-bounds mirrors, and leaves every other pixel unchanged |
| Symmetry.PlotAll | PixelArtEditor.Core/Tools/LineTool.cs:71-88 | symmetric writes over a sequence of points paint exactly the pixels covered by some in-bounds point's mirrors |
| Symmetry.BothModeCorners | PixelArtEditor.Core/Tools/PencilTool.cs:125-133 | with mode Both, a write at a corner of a 32 x 32 canvas reaches all four corners |
| DrawCommands.Create | PixelArtEditor.Core/Commands/DrawCommand.cs:28-33 | a command targets the given layer and holds the given before and after snapshots |
| DrawCommands.Restore | PixelArtEditor.Core/Commands/DrawCommand.cs:40-44 | clearing and drawing a snapshot at the origin gives the snapshot's pixels where it covers the target, the cleared colour (black, zero alpha) where it does not, and keeps the target's size |
| DrawCommands.RestoreSameSize | PixelArtEditor.Core/Commands/DrawCommand.cs:40-44 | restoring onto a bitmap of the snapshot's size yields exactly the snapshot |
| DrawCommands.RestoreIgnoresContent | PixelArtEditor.Core/Commands/DrawCommand.cs:52-56 | the result of a restore depends on the target's size only, never on its previous pixels |
| DrawCommands.RestoreIdempotent | PixelArtEditor.Core/Commands/DrawCommand.cs:40-44 | restoring the same snapshot twice is the same as restoring it once |
| DrawCommands.RestoreLayers | PixelArtEditor.Core/Commands/DrawCommand.cs:38-45 | only the command's layer receives the snapshot, and every other layer is untouched |
| DrawCommands.ExecuteRestoresAfter | PixelArtEditor.Core/Commands/DrawCommand.cs:38-45 | after Execute the command's layer shows exactly the after snapshot and other layers are unchanged |
| DrawCommands.UndoRestoresBefore | PixelArtEditor.Core/Commands/DrawCommand.cs:50-57 | after Undo the command's layer shows exactly the before snapshot and other layers are unchanged |
| DrawCommands.RestoreLayersIgnoresContent | PixelArtEditor.Core/Commands/DrawCommand.cs:38-57 | layer lists differing only in the target layer's pixels end up equal after a restore |
| DrawCommands.ExecuteIdempotent | PixelArtEditor.Core/Commands/DrawCommand.cs:38-45 | executing a command twice is the same as executing it once |
| DrawCommands.UndoIdempotent | PixelArtEditor.Core/Commands/DrawCommand.cs:50-57 | undoing a command twice is the same as undoing it once |
| DrawCommands.UndoThenExecute | PixelArtEditor.Core/Commands/DrawCommand.cs:38-57 | Execute after Undo is indistinguishable from Execute alone |
| DrawCommands.ExecuteThenUndo | PixelArtEditor.Core/Commands/DrawCommand.cs:38-57 | Undo after Execute is indistinguishable from Undo alone |
| DrawCommands.ExecuteWhenShown | PixelArtEditor.Core/Commands/DrawCommand.cs:38-45 | executing a command whose after state is already shown leaves the layers unchanged |
| History.Push | PixelArtEditor.Core/Services/HistoryService.cs:47-52 | recording a command puts it on top of the undo stack, empties the redo stack, leaves the layers alone and raises HistoryChanged |
| History.Execute | PixelArtEditor.Core/Services/HistoryService.cs:35-40 | Execute does not run the command and is observably the same as Push |
| History.Undo | PixelArtEditor.Core/Services/HistoryService.cs:57-66 | with an empty undo stack nothing happens and no event fires; otherwise the top command is undone and moved to the redo stack, and the event fires |
| History.Redo | PixelArtEditor.Core/Services/HistoryService.cs:71-80 | with an empty redo stack nothing happens and no event fires; otherwise the top command is re-executed and moved back to the undo stack, and the event fires |
| History.UndoThenRedo | PixelArtEditor.Core/Services/HistoryService.cs:57-80 | Undo followed by Redo restores both stacks and leaves the layers as if the command had only been re-executed |
| History.RedoThenUndo | PixelArtEditor.Core/Services/HistoryService.cs:57-80 | Redo followed by Undo restores both stacks and leaves the layers as if the command had only been undone |
| History.PushAfterUndoDropsRedo | PixelArtEditor.Core/Services/HistoryService.cs:47-52 | recording a new command after an undo discards the undone command for good |
| History.UndoStepSameUpTo | PixelArtEditor.Core/Services/HistoryService.cs:59-65 | one undo changes only the pixels of the layer its command targets |
| History.RedoStep | PixelArtEditor.Core/Services/HistoryService.cs:73-79 | with a command on top of the redo stack, Redo executes it and moves it to the top of the undo stack |
| History.UndoTimesShape | PixelArtEditor.Core/Services/HistoryService.cs:57-66 | n undos remove the top n commands from the undo stack, push them reversed onto the redo stack, and change only the pixels of the layers they target |
| History.UndoTimesStacks | PixelArtEditor.Core/Services/HistoryService.cs:57-66 | undoing a run of commands moves that run, reversed, from the undo stack to the redo stack |
| History.UndoTimesFrame | PixelArtEditor.Core/Services/HistoryService.cs:57-66 | n undos change nothing but the pixels of the layers the undone commands target |
| History.RedoTimesShape | PixelArtEditor.Core/Services/HistoryService.cs:71-80 | redoing a reversed run puts the run back on the undo stack in its original order and re-executes it oldest first |
| History.UndoRedoTimes | PixelArtEditor.Core/Services/HistoryService.cs:57-80 | n undos followed by n redos restore both stacks exactly and leave the layers as the re-executed commands make them |
| LayerService.IndexOf | PixelArtEditor.Core/Services/LayerService.cs:112 | the index is the first position holding the layer, or -1 exactly when the layer is absent |
| LayerService.New | PixelArtEditor.Core/Services/LayerService.cs:45-50 | a new stack is valid, holds one transparent layer named "Layer 1", and that layer is active |
| LayerService.AddLayer | PixelArtEditor.Core/Services/LayerService.cs:56-61 | a fresh canvas-sized transparent layer goes on top of the unchanged old layers and becomes active |
| LayerService.RemoveLayer | PixelArtEditor.Core/Services/LayerService.cs:67-79 | the last layer and non-members are never removed; otherwise exactly that layer goes, and if it was active the new top layer becomes active |
| LayerService.Move | PixelArtEditor.Core/Services/LayerService.cs:90 | a move places the element at the new index, keeps the other elements in order, and permutes the sequence |
| LayerService.MoveIndices | PixelArtEditor.Core/Services/LayerService.cs:90 | each position of the moved sequence holds the element from its source position |
| LayerService.MoveLayer | PixelArtEditor.Core/Services/LayerService.cs:86-92 | indices in range reorder the layers and anything else is a no-op; the stack stays valid |
| LayerService.MovePreservesValid | PixelArtEditor.Core/Services/LayerService.cs:86-92 | moving a layer keeps identities distinct, sizes intact and the active layer a member |
| LayerService.DuplicateLayer | PixelArtEditor.Core/Services/LayerService.cs:98-115 | a null layer is a no-op; otherwise a fresh unlocked copy named "<name> Copy" with the same opacity, blend mode, visibility and pixels is inserted at the original's index and becomes active |
| LayerService.MergeDown | PixelArtEditor.Core/Services/LayerService.cs:121-138 | the bottom layer is left alone; a member layer is composited onto the one below and removed, and the one below becomes active; a non-member is composited onto the top layer, which becomes active |
| LayerService.ClearLayer | PixelArtEditor.Core/Services/LayerService.cs:144-147 | a member layer becomes all transparent with everything else unchanged; a null or non-member layer leaves the stack unchanged |
| ToolCommon.StrokeCommand | PixelArtEditor.Core/Tools/PencilTool.cs:81 | the recorded command targets the stroked layer with the stroke-start snapshot as before and the current pixels as after |
| PencilTool.DrawPixel | PixelArtEditor.Core/Tools/PencilTool.cs:96-136 | only pixels change: the in-bounds cursor pixel and its mirrors take the colour, and nothing else does |
| PencilTool.OnMouseDown | PixelArtEditor.Core/Tools/PencilTool.cs:41-49 | a null, locked or hidden layer is ignored; otherwise the tool snapshots the layer, starts drawing and paints the cursor pixel |
| PencilTool.OnMouseMove | PixelArtEditor.Core/Tools/PencilTool.cs:58-64 | only while drawing on an editable layer is the cursor pixel painted; otherwise nothing changes |
| PencilTool.OnMouseUp | PixelArtEditor.Core/Tools/PencilTool.cs:73-87 | the tool becomes idle, and exactly when it was drawing one command from the snapshot to the current pixels is pushed |
| PencilTool.Moves | PixelArtEditor.Core/Tools/PencilTool.cs:58-64 | a run of moves never changes the tool state, never pushes, and only changes pixels |
| PencilTool.MovesPaint | PixelArtEditor.Core/Tools/PencilTool.cs:58-64 | while drawing on an editable layer, a run of moves paints exactly the visited points and their mirrors |
| PencilTool.StrokeRecordsOneCommand | PixelArtEditor.Core/Tools/PencilTool.cs:41-87 | a whole stroke pushes exactly one command whose before is the layer at pointer-down and whose after is the painted layer |
| EraserTool.ErasePixel | PixelArtEditor.Core/Tools/EraserTool.cs:91-97 | only the in-bounds cursor pixel becomes transparent, with no mirroring |
| EraserTool.OnMouseDown | PixelArtEditor.Core/Tools/EraserTool.cs:37-45 | a null, locked or hidden layer is ignored; otherwise the tool snapshots, starts erasing and erases the cursor pixel |
| EraserTool.OnMouseMove | PixelArtEditor.Core/Tools/EraserTool.cs:54-60 | only while erasing on an editable layer is the cursor pixel erased |
| EraserTool.OnMouseUp | PixelArtEditor.Core/Tools/EraserTool.cs:69-83 | the tool becomes idle, and exactly when it was erasing one command from the snapshot is pushed |
| EraserTool.Moves | PixelArtEditor.Core/Tools/EraserTool.cs:54-60 | a run of moves never changes the tool state, never pushes, and only changes pixels |
| EraserTool.MovesErase | PixelArtEditor.Core/Tools/EraserTool.cs:54-60 | while erasing on an editable layer, a run of moves clears exactly the visited in-bounds points |
| EraserTool.StrokeRecordsOneCommand | PixelArtEditor.Core/Tools/EraserTool.cs:37-83 | a whole stroke pushes exactly one command from the pointer-down snapshot to the erased layer |
| LineTool.LoopStep | PixelArtEditor.Core/Tools/LineTool.cs:77-87 | each iteration short of the end moves at least one unit toward the end point, at most one per axis, and keeps the error-term invariant |
| LineTool.LineFrom | PixelArtEditor.Core/Tools/LineTool.cs:71-88 | the loop plots a sequence that starts at the current point, ends at the target, and only ever steps toward it |
| LineTool.Line | PixelArtEditor.Core/Tools/LineTool.cs:60-89 | the plotted points start at the first endpoint, end at the second, and every step is a unit step toward the end |
| LineTool.LineVisitsEachPointOnce | PixelArtEditor.Core/Tools/LineTool.cs:71-88 | no point is plotted twice |
| LineTool.LineStaysInBox | PixelArtEditor.Core/Tools/LineTool.cs:62-87 | every plotted point is at least as close to the end point, on each axis, as the start point is |
| LineTool.LineToSelf | PixelArtEditor.Core/Tools/LineTool.cs:71-75 | a line from a point to itself plots that one point |
| LineTool.OffLine | PixelArtEditor.Core/Tools/LineTool.cs:62-87 | a point farther along x from the end point than the start point is never plotted |
| LineTool.DrawLine | PixelArtEditor.Core/Tools/LineTool.cs:60-89 | both in-bounds endpoints are painted, and exactly the plotted points and their mirrors take the colour |
| LineTool.DrawLineIdempotent | PixelArtEditor.Core/Tools/LineTool.cs:60-89 | drawing the same line twice is drawing it once |
| LineTool.OnMouseDown | PixelArtEditor.Core/Tools/LineTool.cs:25-33 | a null, locked or hidden layer is ignored; otherwise the anchor and a snapshot are recorded, and no pixel changes |
| LineTool.OnMouseMove | PixelArtEditor.Core/Tools/LineTool.cs:35-46 | while drawing on an editable layer, the bitmap becomes the restored snapshot with the line from the anchor to the cursor; otherwise nothing changes |
| LineTool.OnMouseUp | PixelArtEditor.Core/Tools/LineTool.cs:48-58 | an ignored release changes nothing; otherwise the line is drawn over the current pixels, the tool goes idle and one command from the snapshot is pushed |
| LineTool.MovePreviewIgnoresContent | PixelArtEditor.Core/Tools/LineTool.cs:39-45 | the preview after a move depends only on the snapshot, never on what the layer showed before |
| LineTool.MoveShowsSnapshotPlusLine | PixelArtEditor.Core/Tools/LineTool.cs:35-46 | on a layer of the snapshot's size, the preview is exactly the snapshot with the line drawn |
| LineTool.UpAtLastMoveCommitsPreview | PixelArtEditor.Core/Tools/LineTool.cs:48-58 | releasing where the last move was records the snapshot with exactly that one line as the after state |
| LineTool.UpElsewhereKeepsStalePreview | PixelArtEditor.Core/Tools/LineTool.cs:48-58 | releasing elsewhere keeps a pixel of the last preview painted although the committed line never reaches it |
| RectangleTool.BoxOf | PixelArtEditor.Core/Tools/RectangleTool.cs:61-64 | the box is normalised, and its edges are the corners' coordinates |
| RectangleTool.Rows | PixelArtEditor.Core/Tools/RectangleTool.cs:66-70 | the first loop visits exactly the top- and bottom-edge cells |
| RectangleTool.Columns | PixelArtEditor.Core/Tools/RectangleTool.cs:72-76 | the second loop visits exactly the left- and right-edge cells |
| RectangleTool.Outline | PixelArtEditor.Core/Tools/RectangleTool.cs:66-76 | the cells written are exactly the border cells of the box |
| RectangleTool.DrawRectangle | PixelArtEditor.Core/Tools/RectangleTool.cs:59-77 | a pixel is painted exactly when it is the in-bounds mirror of some in-bounds border cell, and every other pixel keeps its colour |
| RectangleTool.AnchorIndependent | PixelArtEditor.Core/Tools/RectangleTool.cs:61-64 | the box and the drawing are the same whichever pair of opposite corners spans them |
| RectangleTool.PlainOutlineExact | PixelArtEditor.Core/Tools/RectangleTool.cs:79-88 | without mirroring, exactly the in-bounds border cells take the colour |
| RectangleTool.BorderMirrorPainted | PixelArtEditor.Core/Tools/RectangleTool.cs:79-121 | every mirror image of an in-bounds border cell is painted |
| RectangleTool.MirrorCanReachInterior | PixelArtEditor.Core/Tools/RectangleTool.cs:93-100 | with horizontal symmetry, a mirrored edge can paint a cell strictly inside the box |
| RectangleTool.OnMouseDown | PixelArtEditor.Core/Tools/RectangleTool.cs:24-32 | a null, locked or hidden layer is ignored; otherwise the anchor and a snapshot are recorded |
| RectangleTool.OnMouseMove | PixelArtEditor.Core/Tools/RectangleTool.cs:34-45 | while drawing on an editable layer, the bitmap becomes the restored snapshot with the outline from the anchor to the cursor |
| RectangleTool.OnMouseUp | PixelArtEditor.Core/Tools/RectangleTool.cs:47-57 | an ignored release changes nothing; otherwise the outline is drawn, the tool goes idle and one command from the snapshot is pushed |
| RectangleTool.MoveShowsSnapshotPlusOutline | PixelArtEditor.Core/Tools/RectangleTool.cs:34-45 | on a layer of the snapshot's size, the preview is exactly the snapshot with the outline drawn |
| RectangleTool.DrawRectangleIdempotent | PixelArtEditor.Core/Tools/RectangleTool.cs:59-77 | drawing the same outline twice is drawing it once |
| RectangleTool.UpAtLastMoveCommitsPreview | PixelArtEditor.Core/Tools/RectangleTool.cs:47-57 | releasing where the last move was records the snapshot with exactly that outline as the after state |
| FillTool.FloodLoop | PixelArtEditor.Core/Tools/FillTool.cs:84-99 | the stack loop terminates, because every write reduces the number of start-coloured pixels, and it keeps the bitmap's size |
| FillTool.FloodLoopCorrect | PixelArtEditor.Core/Tools/FillTool.cs:84-99 | from the loop invariant, the finished loop has recoloured exactly the seed's 4-connected region of the start colour |
| FillTool.SkipKeepsInvariant | PixelArtEditor.Core/Tools/FillTool.cs:87-90 | popping an out-of-bounds or already-recoloured point keeps the loop invariant |
| FillTool.WriteKeepsInvariant | PixelArtEditor.Core/Tools/FillTool.cs:89-98 | filling a popped start-coloured point and pushing its four neighbours keeps the loop invariant |
| FillTool.WriteNeighboursPushed | PixelArtEditor.Core/Tools/FillTool.cs:94-97 | after a fill step, every open neighbour of a filled pixel is on the stack |
| FillTool.FloodFill | PixelArtEditor.Core/Tools/FillTool.cs:74-100 | an out-of-bounds seed or a seed already of the target colour changes nothing; otherwise exactly the seed's 4-connected same-colour region takes the target colour |
| FillTool.FloodFillIdempotent | PixelArtEditor.Core/Tools/FillTool.cs:74-100 | the seed ends with the target colour, and filling again from the same seed changes nothing |
| FillTool.OnMouseDown | PixelArtEditor.Core/Tools/FillTool.cs:36-47 | a null, locked or hidden layer is ignored; otherwise the layer is flood-filled and one command from the pre-fill snapshot to the filled pixels is pushed |
| FillTool.OnMouseMove | PixelArtEditor.Core/Tools/FillTool.cs:56 | a move changes nothing |
| FillTool.OnMouseUp | PixelArtEditor.Core/Tools/FillTool.cs:65 | a release changes nothing |
| BlurTool.Radius | PixelArtEditor.Core/Tools/BlurTool.cs:54 | the radius is half the strength, truncated toward zero, for negative strengths too |
| BlurTool.RadiusExamples | PixelArtEditor.Core/Tools/BlurTool.cs:10 | the default strength 3 gives radius 1, and strengths -1 and -3 give 0 and -1 |
| BlurTool.BoxCells | PixelArtEditor.Core/Tools/BlurTool.cs:72-75 | the window loops visit exactly the cells of the square around the pixel |
| BlurTool.BoxCellsOrdered | PixelArtEditor.Core/Tools/BlurTool.cs:55-58 | the nested loops visit the square's cells in strictly increasing row-major order, so no cell twice |
| BlurTool.InBoundsColors | PixelArtEditor.Core/Tools/BlurTool.cs:72-86 | only in-bounds cells of the window contribute a colour |
| BlurTool.InBoundsColorsFacts | PixelArtEditor.Core/Tools/BlurTool.cs:76-83 | every collected colour is the colour of an in-bounds cell, and a window with an in-bounds cell has a positive count |
| BlurTool.Mean | PixelArtEditor.Core/Tools/BlurTool.cs:88 | the truncated channel mean lies between the channel's smallest and largest value, so the byte cast never wraps |
| BlurTool.MeanInRange | PixelArtEditor.Core/Tools/BlurTool.cs:88 | each channel of the averaged colour lies within the range of that channel over the window |
| BlurTool.BlurredColor | PixelArtEditor.Core/Tools/BlurTool.cs:67-89 | the window of an in-bounds pixel is never empty, and each channel of the result is the truncated mean of that channel over the window's in-bounds cells |
| BlurTool.UniformMean | PixelArtEditor.Core/Tools/BlurTool.cs:67-89 | where every in-bounds cell of the window has one colour, the blurred colour is that colour |
| BlurTool.BlurCells | PixelArtEditor.Core/Tools/BlurTool.cs:55-64 | the blur loops keep the size and never touch a cell outside the window |
| BlurTool.ApplyBlur | PixelArtEditor.Core/Tools/BlurTool.cs:52-65 | only in-bounds cells of the window around the cursor can change, and a negative radius changes nothing |
| BlurTool.BlurCellsSplit | PixelArtEditor.Core/Tools/BlurTool.cs:55-63 | the loops over a cell list are the loops over its first part followed by the loops over the rest, starting from what the first part left |
| BlurTool.BlurCellsInPlace | PixelArtEditor.Core/Tools/BlurTool.cs:55-63 | an in-bounds cell visited once ends with the blurred colour computed from the bitmap as already updated by the cells before it |
| BlurTool.NotLater | PixelArtEditor.Core/Tools/BlurTool.cs:55-58 | in a list sorted in row-major order no cell reappears later, which is what the in-place statement needs of the box |
| BlurTool.UniformUnchanged | PixelArtEditor.Core/Tools/BlurTool.cs:52-89 | blurring an area of one colour, as far as the blur windows reach, leaves the bitmap unchanged |
| BlurTool.OnMouseDown | PixelArtEditor.Core/Tools/BlurTool.cs:20-27 | a null, locked or hidden layer is ignored; otherwise the tool snapshots, starts applying and blurs around the cursor |
| BlurTool.OnMouseMove | PixelArtEditor.Core/Tools/BlurTool.cs:29-35 | only while applying on an editable layer is the area around the cursor blurred |
| BlurTool.OnMouseUp | PixelArtEditor.Core/Tools/BlurTool.cs:37-50 | the tool becomes idle with its strength kept, and exactly when it was applying one command from the snapshot is pushed |
| EyedropperTool.PickColor | PixelArtEditor.Core/Tools/EyedropperTool.cs:69-76 | a colour is reported exactly when the layer exists and the point is in bounds, and it is that pixel's colour |
| EyedropperTool.OnMouseDown | PixelArtEditor.Core/Tools/EyedropperTool.cs:36-39 | pointer-down reports the picked colour and changes neither the layer nor the history |
| EyedropperTool.OnMouseMove | PixelArtEditor.Core/Tools/EyedropperTool.cs:48-50 | a move changes nothing |
| EyedropperTool.OnMouseUp | PixelArtEditor.Core/Tools/EyedropperTool.cs:59-61 | a release changes nothing |
| EyedropperTool.PicksFromIneligibleLayer | PixelArtEditor.Core/Tools/EyedropperTool.cs:69-76 | picking has no lock or visibility guard: a locked or hidden layer still yields its colour |
| EyedropperTool.PickAfterSet | PixelArtEditor.Core/Tools/EyedropperTool.cs:71-73 | picking a pixel just written with a colour yields that colour |
| RectangleSelectTool.SelectionRect | PixelArtEditor.Core/Tools/RectangleSelectTool.cs:87-95 | the rectangle is normalised and its edges are the two points' coordinates |
| RectangleSelectTool.SelectionRectSymmetric | PixelArtEditor.Core/Tools/RectangleSelectTool.cs:89-92 | swapping the start and end points gives the same rectangle |
| RectangleSelectTool.SelectionRectContains | PixelArtEditor.Core/Tools/RectangleSelectTool.cs:87-95 | reading the right and bottom edges as inclusive, a point is inside the rectangle exactly when each coordinate lies between the two points' coordinates |
| RectangleSelectTool.SkiaReadingDropsLastEdges | PixelArtEditor.Core/Tools/RectangleSelectTool.cs:87-95 | read the way SkiaSharp reads an `SKRectI` (right and bottom exclusive), the selection never contains a pixel of the last column or row the points span, and a click's rectangle contains no pixel |
| RectangleSelectTool.OnMouseDown | PixelArtEditor.Core/Tools/RectangleSelectTool.cs:33-39 | pointer-down always starts a selection at the cursor and reports the rectangle whose four edges are the cursor's coordinates |
| RectangleSelectTool.OnMouseMove | PixelArtEditor.Core/Tools/RectangleSelectTool.cs:48-55 | while selecting, the end point follows the cursor and one rectangle is reported; otherwise nothing happens |
| RectangleSelectTool.OnMouseUp | PixelArtEditor.Core/Tools/RectangleSelectTool.cs:64-72 | while selecting, the selection ends at the cursor and one final rectangle is reported; otherwise nothing happens |
| RectangleSelectTool.DragReportsSpannedRect | PixelArtEditor.Core/Tools/RectangleSelectTool.cs:33-72 | a drag from one point to another reports the rectangle the two points span |
| ToolService.New | PixelArtEditor.Core/Services/ToolService.cs:44-59 | the service offers Pencil, Eraser, Eyedropper, Fill and Rectangle Select in that order, Pencil is active, and symmetry is off |
| ToolService.SelectTool | PixelArtEditor.Core/Services/ToolService.cs:18 | selecting an available tool makes it active and changes nothing else |
| ToolService.SetSymmetry | PixelArtEditor.Core/Services/ToolService.cs:33 | changing the shared mode leaves the tools and the active choice alone |
| ToolService.OnMouseDown | PixelArtEditor.UI/ViewModels/CanvasViewModel.cs:147-153 | pointer-down goes to the active tool only: only pixels change, any recorded command targets the given layer, only the Eyedropper picks a colour, and only Rectangle Select reports a rectangle |
| ToolService.OnMouseMove | PixelArtEditor.UI/ViewModels/CanvasViewModel.cs:160-166 | a move never records a command and never picks a colour, and it changes only pixels |
| ToolService.OnMouseUp | PixelArtEditor.UI/ViewModels/CanvasViewModel.cs:173-179 | a release never picks a colour, and any recorded command targets the given layer |
| ToolService.LineSeesItsOwnSettings | PixelArtEditor.Core/Tools/LineTool.cs:17-23 | a Line tool mirrors with the settings object it was constructed with: a `SetSymmetry` on the service reaches it only when that object is the service's |
| ToolService.PencilSeesServiceSymmetry | PixelArtEditor.Core/Services/ToolService.cs:47-51 | the Pencil draws with the service's own symmetry settings, so a mode change reaches it |
| ToolService.PickedColorForwarded | PixelArtEditor.Core/Services/ToolService.cs:65-68 | with the Eyedropper active, the picked colour is forwarded unchanged |
| CanvasRenderer.SkiaBlendMode | PixelArtEditor.Core/Services/CanvasRenderer.cs:70-84 | Normal maps to SrcOver, Add maps to Plus, and each other mode maps to the Skia mode of the same name |
| CanvasRenderer.SkiaBlendModeInjective | PixelArtEditor.Core/Services/CanvasRenderer.cs:72-83 | different layer blend modes never map to the same Skia mode |
| CanvasRenderer.SkiaBlendModeImage | PixelArtEditor.Core/Services/CanvasRenderer.cs:72-83 | the mapping reaches exactly eight Skia modes |
| CanvasRenderer.DrawOrder | PixelArtEditor.Core/Services/CanvasRenderer.cs:34-36 | exactly the visible layers with positive opacity are drawn, from the highest index down |
| CanvasRenderer.TopLayerDrawnLast | PixelArtEditor.Core/Services/CanvasRenderer.cs:34 | a drawn top layer (index 0) is drawn last, over all the others |
| CanvasRenderer.DrawCalls | PixelArtEditor.Core/Services/CanvasRenderer.cs:34-47 | there is one call per visible layer with positive opacity; drawn layer i's call carries its bitmap, opacity and mapped blend mode, and comes right after the calls of the drawn layers with higher indices |
| CanvasRenderer.HigherLayerDrawnFirst | PixelArtEditor.Core/Services/CanvasRenderer.cs:34 | of two drawn layers, the one with the higher index is drawn first |
| CanvasRenderer.PositionsDistinct | PixelArtEditor.Core/Services/CanvasRenderer.cs:34-47 | two drawn layers never share a draw call |
| CanvasRenderer.HidingRemovesOnlyThatLayer | PixelArtEditor.Core/Services/CanvasRenderer.cs:36 | hiding a layer, or giving it zero opacity, removes exactly that layer from the drawing |
| ColorText.TrimBy | PixelArtEditor.UI/Views/ColorPaletteView.xaml.cs:140 | the result has no white space at either end, is non-empty whenever the text has a non-white character, and equals a text that has no white space at its ends |
| ColorText.TrimBySlice | PixelArtEditor.UI/Views/ColorPaletteView.xaml.cs:140 | the result is a slice of the text with only white space before and after it |
| ColorText.TrimByUnique | PixelArtEditor.UI/Views/ColorPaletteView.xaml.cs:140 | any slice with only white space around it and none at its ends is the trimmed text |
| ColorText.Unpack | PixelArtEditor.UI/Views/ColorPaletteView.xaml.cs:143-145 | the shifts and masks recover the three bytes packed into a 24-bit value |
| ColorText.ParseHex | PixelArtEditor.UI/Views/ColorPaletteView.xaml.cs:140-146 | the hex box is accepted exactly when the trimmed text is six hex digits, and the result is opaque |
| ColorText.ParseHexDigits | PixelArtEditor.UI/Views/ColorPaletteView.xaml.cs:141-146 | an accepted text gives the colour whose bytes are its three digit pairs |
| ColorText.X2 | PixelArtEditor.UI/Views/ColorPaletteView.xaml.cs:201 | a byte formats as two hex digits whose value is that byte |
| ColorText.FormatHex | PixelArtEditor.UI/Views/ColorPaletteView.xaml.cs:199-202 | the hex text is six upper-case hex digits |
| ColorText.HexRoundTrip | PixelArtEditor.UI/Views/ColorPaletteView.xaml.cs:138-202 | parsing the formatted hex of a colour gives back its red, green and blue, fully opaque |
| ColorText.HexFormatOfParsed | PixelArtEditor.UI/Views/ColorPaletteView.xaml.cs:138-202 | the colour parsed from an accepted text formats back as that text, upper-cased |
| ColorText.ApplyHex | PixelArtEditor.UI/Views/ColorPaletteView.xaml.cs:138-157 | a rejected text keeps the selected colour, and an accepted one replaces it with the parsed opaque colour |
| ColorText.FormatDecimal | PixelArtEditor.UI/Views/ColorPaletteView.xaml.cs:190-192 | a channel's text is its decimal digits with no sign and no leading zero |
| ColorText.ParseByte | PixelArtEditor.UI/Views/ColorPaletteView.xaml.cs:119-121 | a byte parses only from text that is not blank once trimmed |
| ColorText.ByteRoundTrip | PixelArtEditor.UI/Views/ColorPaletteView.xaml.cs:119-192 | parsing the decimal text of a byte gives back the byte |
| ColorText.ParseBytePadded | PixelArtEditor.UI/Views/ColorPaletteView.xaml.cs:119 | spaces around the digits are accepted |
| ColorText.ParseBytePlus | PixelArtEditor.UI/Views/ColorPaletteView.xaml.cs:119 | a leading plus sign is accepted |
| ColorText.ParseByteLeadingZero | PixelArtEditor.UI/Views/ColorPaletteView.xaml.cs:119 | a leading zero is accepted |
| ColorText.ParseByteNegative | PixelArtEditor.UI/Views/ColorPaletteView.xaml.cs:119 | a minus sign is accepted on zero and rejected on any other value |
| ColorText.ParseByteTooLarge | PixelArtEditor.UI/Views/ColorPaletteView.xaml.cs:119 | values above 255 are rejected |
| ColorText.ColorFromRgb | PixelArtEditor.UI/Views/ColorPaletteView.xaml.cs:117-123 | each box that parses gives its channel, each box that does not gives 0, and the colour is opaque |
| ColorText.RgbRoundTrip | PixelArtEditor.UI/Views/ColorPaletteView.xaml.cs:117-192 | writing a colour into the RGB boxes and reading them back gives its red, green and blue, fully opaque |
| Editor.New | PixelArtEditor.UI/ViewModels/CanvasViewModel.cs:47-62 | a new session holds a fresh layer stack, an empty history, the idle Pencil as the active tool, and black as the active colour |
| Editor.Replace | PixelArtEditor.UI/ViewModels/CanvasViewModel.cs:152 | the edited layer replaces the member with its identity, and every other layer and the stack's attributes are unchanged |
| Editor.Apply | PixelArtEditor.UI/ViewModels/CanvasViewModel.cs:116-120 | only the active layer's pixels change, and they become the tool's pixels; a recorded command is pushed onto the history, and a picked colour becomes the active colour |
| Editor.PointerDown | PixelArtEditor.UI/ViewModels/CanvasViewModel.cs:147-153 | pointer-down keeps the session valid, changes at most the active layer's pixels, and records at most one command |
| Editor.PointerMove | PixelArtEditor.UI/ViewModels/CanvasViewModel.cs:160-166 | a move keeps the session valid, changes at most the active layer's pixels, and never touches the history or the active colour |
| Editor.PointerUp | PixelArtEditor.UI/ViewModels/CanvasViewModel.cs:173-179 | a release keeps the session valid and the active colour, changes at most the active layer's pixels, and records at most one command |
| Editor.Undo | PixelArtEditor.UI/ViewModels/ToolbarViewModel.cs:69-73 | undo changes only the layers' pixels and the history, and does nothing when there is nothing to undo |
| Editor.Redo | PixelArtEditor.UI/ViewModels/ToolbarViewModel.cs:75-79 | redo changes only the layers' pixels and the history, and does nothing when there is nothing to redo |
| Editor.Click | PixelArtEditor.UI/ViewModels/CanvasViewModel.cs:147-179 | a pointer-down then pointer-up keeps the session valid and changes at most the active layer's pixels |
| Editor.ClickUndoRedo | PixelArtEditor.Core/Tools/PencilTool.cs:41-87 | a Pencil click paints the point and its mirrors and records one command; undo restores the stack, and redo restores both the painted stack and the history |
| Editor.ClickRecords | PixelArtEditor.Core/Tools/PencilTool.cs:73-87 | a Pencil click replaces the active layer by the painted one and pushes the command from the old pixels to the new |
| Editor.StrokeUndoRedo | PixelArtEditor.Core/Services/HistoryService.cs:57-80 | undoing a recorded stroke gives back the stack before it, and redoing gives back the stroke's stack and history |
| Editor.StrokeUndoLayers | PixelArtEditor.Core/Commands/DrawCommand.cs:50-57 | undoing the stroke's command on the painted layers gives back the layers before the stroke |
| Editor.PencilScenario | PixelArtEditor.Core/Tools/PencilTool.cs:96-100 | on a 32 x 32 session, a red click at (5, 5) paints it red, undo makes it transparent again, and redo makes it red |

## Left out

- Pixel compositing of layers: Skia's blending arithmetic, paint alpha and premultiplied storage. The renderer model stops at which layers are drawn, in what order and with which blend mode. `MergeDown` takes the compositing step as a function parameter that keeps the lower bitmap's size.
- Premultiplied alpha: a pixel read back gives exactly the colour written (`PixelCanvas.GetAfterSet`), although Skia stores premultiplied values and may round colour channels of partly transparent pixels.
- Opacity is a `real`: float/double rounding and the `(byte)(opacity * 255)` alpha conversion are not modelled.
- The Text tool: it depends on font rasterisation.
- The palette's HSV sliders: floating point.
- Zoom, pan and the float-to-int screen-to-canvas conversion in the view model. Pointer events arrive in canvas coordinates.
- The 32 x 32 start-up test pattern the canvas view model paints into the first layer: UI scaffolding, not editing behaviour. `Editor.New` and `Editor.PencilScenario` start from a blank layer.
- Event plumbing: property-change and `InvalidateRequest` notifications, the colour messenger, and bitmap `Dispose` calls.
  - Layer setters report the notified property name.
  - `HistoryChanged` is a boolean on each history result.
  - Symmetry notifications are counted.
- `DrawCommands.Name`: a constant display string with no behaviour to state.
- Paths where the C# code throws. The model excludes them by preconditions:
  - pointer-up on a `null` layer while the Pencil, Eraser or Blur tool is mid-stroke (`ToolService.OnMouseUp` requires `UpAllowed`);
  - `DuplicateLayer` on a layer that is not in the stack;
  - `MergeDown` on a `null` layer.
- An `ActiveTool` assigned from outside the available tools list: the service always holds an index into its list.
- 32-bit overflow of the Blur sums: integers are unbounded. The sums cannot overflow for windows below about 8 million cells.
- LineTool.LineFrom and LineTool.Line: coordinates are unbounded. The C# `Math.Abs(x1 - x0)` throws when the difference is `int.MinValue`, and `2 * err` wraps once the error passes 2^30. Lines with coordinates beyond about ±2^30 can therefore step differently in C#.
- RectangleTool.Rows and RectangleTool.Columns: coordinates are unbounded. The C# loops `x <= right` and `y <= bottom` never end when the bound is `int.MaxValue`, while the model's loops do.
- BlurTool.BoxCells: coordinates are unbounded. In C#, `centerX + radius` and `centerY + radius` wrap past `int.MaxValue`, and a loop whose bound is exactly `int.MaxValue` never ends. The model's loops always end.
- `byte.TryParse` culture settings: the invariant culture is assumed, with ASCII digits and its white-space set.
- Trailing NUL characters: .NET's `byte.TryParse` and `uint.TryParse` also accept `'\0'` characters after the number (`"12\0"`). `ColorText.ParseByte` and `ColorText.ParseHex` reject such text; a text box cannot normally hold a NUL.
- ColorText.ParseByte: its contract states only when parsing can succeed. The exact grammar is stated by the lemmas that accept padding, `+`, leading zeros and `-0`, and reject other negatives and values above 255.

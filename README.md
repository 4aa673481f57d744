# GIFCraft frame-sequence editor, modelled in Dafny

GIFCraft is a desktop editor for animated GIFs. The state it edits is three
parallel lists kept in step:

- the frames;
- their delays in milliseconds;
- one check box per frame that marks it as selected.

Alongside these it keeps the index of the frame on display, the current file
name, an undo stack and a redo stack of snapshots, a clipboard, and a playing
flag.

This project models that editing engine in three revisions of the program:

- `GIFCraft.py`, the earliest;
- `GIFCraft-REF.py`;
- `GIFCraft_v2.py`, the richest.

Each revision is modelled as a module holding a `GifEditor` class: `GifCraft`,
`GifCraftRef` and `GifCraftV2`. The class has the program's fields as `seq`
fields, and every editing action is a method that changes them with the
program's own loops. Each method's contract ties the new fields to a
specification function of the old ones, and the properties the program
promises are proved about those functions.

The shared modules:

- `Model` holds images, snapshots and statuses.
- `Selection` holds the checked indices and picking and dropping by selection.
- `Lists` holds Python's list operations.
- `Edits` holds the specification of every structural edit: move to a
  position, move up and down, paste, crossfade, reverse, and per-frame
  effects.
- `History` holds save, undo and redo.
- `Playback` holds the timer's frame index.
- `Text` holds Python's `int()`, `str()`, `split()` and `isdigit()` on the
  dialog strings.
- `Geometry` holds the crop box, `center_image` and the guard of
  `resize_image`.

Images are values, not pixels:

- An image carries its width and height.
- Its content is opaque: loaded, centred inside a canvas, or resampled.
- Pixel effects (grayscale, inversion, tint, sepia, rotation, crop) are
  function parameters applied to the selected frames.

Behaviour of the code worth noting:

- Deleting or reversing with nothing checked still pushes a snapshot onto the
  undo stack.
- The crossfade keeps the original frame's full delay and adds nine frames of
  `delay // 10`, so it does not conserve the animation's duration (see
  `Edits.SegmentDuration`).
- In `GIFCraft_v2.py`, pasted frames come in unchecked. In `GIFCraft-REF.py`
  they come in checked.
- `crop_frames` in GIFCraft_v2.py pushes its snapshot before PIL sees the
  box. A negative width or height makes PIL refuse the box of the first
  checked frame. The dialog then reports invalid input, the frames are
  unchanged, and the snapshot stays on the undo stack.
- `apply_crossfade_effect` and `apply_tint` also push their snapshot before
  an exception they do not catch. Image.blend raises when two consecutive
  checked frames differ in size. `tint_image` raises at the first checked
  frame when the colour's six characters are not all hexadecimal. In both
  cases no frame has changed, and the status is `Failed`.
- The crossfade removes every checked frame. It inserts a single block where
  the first checked frame was. The last checked frame is not part of that
  block, and the block's frames come in checked (see `Edits.FadeFramesAt` and
  `Edits.CrossfadeFlags`).

## Model

| member | source | states |
|---|---|---|
| Selection.Indices | GIFCraft_v2.py:465 | the checked indices: strictly increasing, in range, and each with its flag set (the converse is Selection.InIndices) |
| Selection.PickDropLength | GIFCraft_v2.py:458-480 | the selected and the kept frames together are as many as before |
| Selection.PickDropMultiset | GIFCraft_v2.py:458-480 | deleting the checked frames and the deleted frames together are a permutation of the original list |
| Selection.PickDropFlags | GIFCraft_v2.py:458-480 | the removed boxes are all checked and the boxes left are all unchecked |
| Selection.DropNone | GIFCraft_v2.py:458-480 | delete with nothing checked leaves the list as it was |
| Selection.DropAll | GIFCraft_v2.py:458-480 | delete with everything checked empties the list |
| Selection.PickConcat | GIFCraft_v2.py:511-513 | the frames picked from a concatenation are the picks from each part, in order |
| Selection.DropConcat | GIFCraft_v2.py:516-519 | the frames kept from a concatenation are the kept frames of each part, in order |
| Selection.PickIsGather | GIFCraft_v2.py:511-513 | picking by flags equals gathering by the checked indices, as the list comprehension does |
| Selection.InIndices | GIFCraft_v2.py:465 | an index is among the checked indices exactly when its flag is set |
| Selection.IndicesEmpty | GIFCraft_v2.py:465-469 | there are no checked indices exactly when no flag is set |
| Lists.ReverseReverse | GIFCraft_v2.py:958-981 | reversing a list twice gives it back |
| Lists.SwapMultiset | GIFCraft_v2.py:559-568 | a swap is a permutation of the list |
| Lists.GatherScatter | GIFCraft_v2.py:968-978 | writing values back at the checked indices and reading them again gives those values |
| Lists.PickZip | GIFCraft_v2.py:685-691 | the clipboard of frame and delay pairs holds the checked frames and, beside them, the checked delays |
| Lists.DeleteAt | GIFCraft_v2.py:471-474 | deleting a checked index with no checked index above it is one turn of the top-down delete loop |
| Lists.DropKeepsPrefix | GIFCraft_v2.py:471-474 | deleting leaves the frames before the first checked one where they were |
| Edits.MapSelected | GIFCraft_v2.py:827-860 | definition of the per-frame effect loop: the same length, each checked entry replaced by the effect of itself (Edits.MapSelectedEffect states it) |
| Edits.SetSelected | GIFCraft_v2.py:594-596 | definition of the set_delay loop: the same length, each checked entry replaced by the value |
| Edits.BlockStart | GIFCraft_v2.py:522-526 | definition of where the moved block starts in the shortened list: just after the target, or at the end when inserting there would append |
| Edits.MoveToPosition | GIFCraft_v2.py:482-529 | definition of move_frames_to_position on one list: the checked entries, in order, spliced into the unchecked ones just after the target (Edits.MoveToPositionLayout and Edits.MoveToPositionFlags state it) |
| Edits.MoveUp | GIFCraft_v2.py:531-543 | definition of move_frame_up on one list: the same length, the result of every swap of a checked entry with an unchecked one above it, from the top (Edits.MoveUpSwaps and Edits.MovePermutes state it) |
| Edits.MoveDown | GIFCraft_v2.py:545-557 | definition of move_frame_down on one list: the same length, the mirror image of MoveUp from the bottom |
| Edits.PastePoint | GIFCraft_v2.py:699-704 | definition of the paste point: at most the list length; one past the last checked index, or the end when nothing is checked |
| Edits.Paste | GIFCraft_v2.py:693-717 | definition of paste_frames on one list: the block spliced in at the paste point, so the list grows by the block's length |
| Edits.Segment | GIFCraft_v2.py:756-764 | definition of one pair's frames: the first frame, then its blends towards the second at weights 1/10 to 9/10 |
| Edits.DelaySegment | GIFCraft_v2.py:757-765 | definition of one pair's delays: the first frame's delay, then nine times `delay // 10` |
| Edits.SameSize | GIFCraft_v2.py:748 | definition of what Image.blend needs of its two frames: equal width and height |
| Edits.Blendable | GIFCraft_v2.py:750-765 | definition of the crossfade's precondition in PIL: every consecutive pair of checked frames has the same size |
| Edits.FadeFrames | GIFCraft_v2.py:750-765 | definition of the crossfade block: for each consecutive pair of checked frames, the first and nine blends towards the second (Edits.FadeFramesLength and Edits.FadeFramesAt state it) |
| Edits.FadeDelays | GIFCraft_v2.py:750-765 | definition of the crossfade delays: for each consecutive pair of checked frames, the first's delay and nine times its tenth (Edits.FadeDelaysAt states it) |
| Edits.MapSelectedEffect | GIFCraft_v2.py:827-860 | each checked frame becomes the effect of the old one, and every other frame is unchanged |
| Edits.SetSelectedEffect | GIFCraft_v2.py:594-596 | every checked delay becomes the entered value and the unchecked delays are unchanged |
| Edits.MoveToPositionLayout | GIFCraft_v2.py:482-529 | the moved frames end up as a block just after the target frame, keeping their order, with the others in order around them |
| Edits.MoveToPositionFlags | GIFCraft_v2.py:482-529 | the check boxes move with their frames: the block is checked and nothing outside it is |
| Edits.MoveInsertStep | GIFCraft_v2.py:522-526 | each insertion in the re-insert loop extends the block by one frame |
| Edits.UpFromInvolution | GIFCraft_v2.py:531-568 | the position map of a multi-selection move up is its own inverse, so it is a bijection |
| Edits.DownFromInvolution | GIFCraft_v2.py:545-568 | the same for moving down |
| Edits.MoveUpSwaps | GIFCraft_v2.py:531-568 | a checked frame whose upper neighbour is unchecked changes places with it, and a frame in no such pair stays put |
| Edits.MoveDownSwaps | GIFCraft_v2.py:545-568 | a checked frame whose lower neighbour is unchecked changes places with it, and a frame in no such pair stays put |
| Edits.MoveUpTracks | GIFCraft.py:327-336 | the frame at UpTarget of an index is the one that was at that index |
| Edits.MoveDownTracks | GIFCraft.py:345-354 | the frame at DownTarget of an index is the one that was at that index |
| Edits.MovePermutes | GIFCraft_v2.py:531-568 | moving up or down is a permutation of the frames |
| Edits.MoveFlags | GIFCraft_v2.py:531-568 | moving up or down keeps the number of checked frames |
| Edits.UpTurn | GIFCraft_v2.py:535-541 | one turn of the upward swap loop produces the next stage of MoveUp |
| Edits.DownTurn | GIFCraft_v2.py:549-555 | one turn of the downward swap loop produces the next stage of MoveDown |
| Edits.SoleSelected | GIFCraft-REF.py:272-278 | the checked index when exactly one frame is checked |
| Edits.SoleMoveUp | GIFCraft-REF.py:284-295 | with exactly one frame checked, moving up swaps it with the frame above it, and the check box moves with it |
| Edits.SoleMoveDown | GIFCraft-REF.py:314-325 | with exactly one frame checked, moving down swaps it with the frame below it, and the check box moves with it |
| Edits.PastePointAfterSelection | GIFCraft_v2.py:699-704 | the paste point lies just past the last checked frame, past every checked index; with nothing checked it is the end of the list |
| Edits.PasteSplit | GIFCraft_v2.py:708-714 | the checked entries after a paste are the old checked ones followed by the checked ones of the pasted block, and with a fully checked block the unchecked entries are unchanged |
| Edits.PasteUncheckedSelection | GIFCraft_v2.py:708-714 | after an unchecked paste the checked frames are exactly those checked before |
| Edits.PasteCheckedSelection | GIFCraft-REF.py:378-384 | after a checked paste the checked frames are the old checked ones followed by the clipboard, and the unchecked frames are unchanged |
| Edits.CopyPaste | GIFCraft_v2.py:685-717 | copying and then pasting with the selection unchanged inserts the checked frames and their delays at the paste point |
| Edits.FadeFramesLength | GIFCraft_v2.py:750-765 | the new block has ten frames for each checked frame but the last, which gets no segment of its own |
| Edits.FadeFramesAt | GIFCraft_v2.py:750-765 | frame 10k of the block is the k-th checked frame and frames 10k+1 to 10k+9 are its blends towards the next checked frame; the last checked frame does not appear |
| Edits.FadeDelaysAt | GIFCraft_v2.py:750-765 | each segment's delays are the checked frame's delay and then nine tenths of it |
| Edits.Crossfade | GIFCraft_v2.py:768-781 | every checked frame is removed and the block is inserted where the first of them was, so the length changes by the block size minus the checked count |
| Edits.CrossfadeLayout | GIFCraft_v2.py:768-781 | the frames before the first checked one stay put, the block follows, then every unchecked frame that came after, in order |
| Edits.CrossfadeFlags | GIFCraft_v2.py:774-781 | after a crossfade exactly the inserted block is checked |
| Edits.SegmentDuration | GIFCraft_v2.py:756-765 | a segment lasts its delay plus nine times its tenth, which is not the original delay whenever the delay is at least 10 |
| Edits.ReverseSelected | GIFCraft_v2.py:958-981 | definition of reverse_frames on one list: the same length, the checked entries gathered, reversed and written back at the checked indices (Edits.ReverseSelectedHalves states it) |
| Edits.ReverseSelectedHalves | GIFCraft_v2.py:958-981 | the checked frames come back in reverse order at the same checked positions, and the unchecked ones stay put |
| Edits.ReverseSelectedTwice | GIFCraft_v2.py:958-981 | reversing the checked frames twice restores the list |
| History.StackSizes | GIFCraft_v2.py:680-731 | save grows the undo stack by one and empties the redo stack; undo and redo each move one snapshot from one stack to the other |
| History.RedoUndo | GIFCraft_v2.py:719-731 | redo right after undo restores the exact document and both stacks |
| History.UndoRedo | GIFCraft_v2.py:719-731 | undo right after redo restores the exact document and both stacks |
| History.UndoEdit | GIFCraft_v2.py:680-724 | undo after a save and an edit gives back the saved document with the edit on the redo stack, and redo brings the edit back |
| History.UndosSizes | GIFCraft_v2.py:719-724 | n undos move n snapshots from the undo stack to the redo stack |
| History.RedosUndos | GIFCraft_v2.py:719-731 | n redos after n undos restore the exact session |
| History.UndosLast | GIFCraft_v2.py:719-724 | undoing everything gives back the oldest saved document |
| History.Preserved | GIFCraft_v2.py:680-731 | save, undo and redo keep every snapshot well formed |
| Playback.Next | GIFCraft_v2.py:581-587 | the next frame index wraps to 0 after the last frame and stays in range |
| Playback.AfterWraps | GIFCraft_v2.py:581-587 | k timer ticks, k at most the frame count, move the index to i + k wrapped past the end once |
| Playback.FullLoop | GIFCraft_v2.py:581-587 | as many ticks as there are frames bring the index back to where it started |
| Playback.FullLoopSchedule | GIFCraft_v2.py:581-587 | the delays waited through one loop from index i are those from i to the end followed by those from the start up to i |
| Text.ParseInt | GIFCraft_v2.py:592 | definition of `int()` on a string: surrounding white space stripped, an optional sign, ASCII digits with single underscores between them; anything else is no value (its properties are the lemmas below) |
| Text.ValidateDelay | GIFCraft_v2.py:177-182 | definition of the delay entry's validator: the empty string or ASCII digits only |
| Text.Tokens | GIFCraft_v2.py:489 | definition of `split()` with no argument: the maximal runs of non-space characters, in order (Text.TwoTokens and Text.TokensWord state it) |
| Text.ParseFrameName | GIFCraft_v2.py:488-492 | definition of the "Frame n" parse: the second word through `int()`, and no value when there is no second word (Text.ParseFrameNameOf is its round trip) |
| Text.ParseStr | GIFCraft_v2.py:592 | `int()` of `str(n)` is n for every integer |
| Text.DigitStringParses | GIFCraft_v2.py:592 | `int()` accepts a string of digits, with its decimal value |
| Text.NegativeParses | GIFCraft_v2.py:592 | `int()` accepts a minus sign followed by digits, with the negated value |
| Text.ValidatedDelayParses | GIFCraft_v2.py:177-182 | a string of ASCII digits, which the delay validator accepts, fails to parse only when empty, and never parses to a negative number |
| Text.ValidateDelayStr | GIFCraft_v2.py:177-182 | the validator accepts the decimal form of every natural number |
| Text.ParseFrameNameOf | GIFCraft_v2.py:489 | the second word of "Frame n" parses back to n |
| Text.TwoTokens | GIFCraft_v2.py:489 | two space-free words joined by one space split into exactly those two words |
| Geometry.Refused | GIFCraft_v2.py:823 | definition of the boxes PIL's crop refuses: right edge left of the left edge, or lower edge above the upper edge |
| Geometry.Resample | GIFCraft-REF.py:347 | definition of `resize((w, h), LANCZOS)`: an image of exactly the requested size |
| Geometry.CropBox | GIFCraft_v2.py:811-825 | the crop box has exactly the requested width and height, and PIL refuses it exactly when one of them is negative |
| Geometry.CropBoxCentred | GIFCraft_v2.py:811-825 | a crop no larger than the frame lies inside it, centred to within a pixel |
| Geometry.CropBoxOversized | GIFCraft_v2.py:811-825 | a crop wider than the frame reaches past both sides |
| Geometry.MaxWidth | GIFCraft.py:223 | the largest width in the list |
| Geometry.MaxHeight | GIFCraft.py:224 | the largest height in the list |
| Geometry.CenterImage | GIFCraft.py:221-229 | definition of center_image: a canvas as wide and as tall as the largest of the frames and the new image, with the image pasted at the floor-halved margins (Geometry.CenterImageFits states it) |
| Geometry.CenterImageFits | GIFCraft.py:221-229 | the canvas covers every frame and the new image, is no larger than needed, and holds the image centred to within a pixel |
| Geometry.ResizeImage | GIFCraft.py:212-219 | definition of resize_image: an image within 800 x 600 is kept; a larger one is resampled to ScaledSize; a zero side of an oversized image is the division by zero, and a scaled side truncated to 0 is PIL's refusal to resize to it (both None) |
| Geometry.ScaledSize | GIFCraft.py:215-217 | definition of the new size: both sides times min(800 / w, 600 / h), truncated |
| Geometry.ResizeImageFits | GIFCraft.py:212-219 | a fitting image is kept; an oversized one fails exactly when a side is 0 or its short side scales below one pixel (800 h < w or 600 w < h); every result fits 800 x 600 and is never larger than the image; an oversized image gets one side on its bound and the other, never 0, at the aspect ratio rounded down by less than a pixel |
| GifCraft.GifEditor.constructor | GIFCraft.py:14-22 | the editor starts empty, not playing, with empty stacks |
| GifCraft.GifEditor.SaveState | GIFCraft.py:444-447 | pushes the current document and clears the redo stack |
| GifCraft.GifEditor.Undo | GIFCraft.py:450-460 | with history, the current document goes on the redo stack and the last snapshot becomes the document (History.Undo); otherwise nothing changes |
| GifCraft.GifEditor.Redo | GIFCraft.py:462-472 | with a redo entry, the current document goes on the undo stack and the redo entry becomes the document (History.Redo); otherwise nothing changes |
| GifCraft.GifEditor.PreviousFrame | GIFCraft.py:170-174 | the index steps back by one, and stays at the first frame |
| GifCraft.GifEditor.NextFrame | GIFCraft.py:176-180 | the index steps forward by one, and stays at the last frame |
| GifCraft.GifEditor.DeleteFrames | GIFCraft.py:298-321 | no frames: error, nothing changes; otherwise a snapshot is pushed, the checked frames, delays and boxes are removed with the rest in order, and the index is clamped into the new range |
| GifCraft.GifEditor.DeleteChecked | GIFCraft.py:311-318 | the top-down delete loop removes exactly the checked entries |
| GifCraft.GifEditor.PopChecked | GIFCraft.py:311-314 | deleting the checked positions from the highest down leaves exactly the unchecked entries of frames, delays and boxes, in order |
| GifCraft.GifEditor.MoveFrameUp | GIFCraft.py:323-339 | frames, delays and boxes become MoveUp of the old ones, and the index follows the frame it showed |
| GifCraft.GifEditor.MoveCheckedUp | GIFCraft.py:326-336 | the upward swap loop computes MoveUp |
| GifCraft.GifEditor.UpSwapAt | GIFCraft.py:328-336 | one turn of the upward loop carries the loop invariant: the entries so far form MoveUpBelow and the index is where UpFrom puts it |
| GifCraft.GifEditor.MoveFrameDown | GIFCraft.py:341-357 | frames, delays and boxes become MoveDown of the old ones, and the index follows the frame it showed |
| GifCraft.GifEditor.MoveCheckedDown | GIFCraft.py:344-354 | the downward swap loop computes MoveDown |
| GifCraft.GifEditor.DownSwapAt | GIFCraft.py:346-354 | one turn of the downward loop carries the loop invariant: the entries so far form MoveDownAbove and the index is where DownFrom puts it |
| GifCraft.GifEditor.TogglePlayPause | GIFCraft.py:163-168 | stops playback when playing, and otherwise starts it and runs the first tick |
| GifCraft.GifEditor.PlayAnimation | GIFCraft.py:359-363 | starts playing and runs the first tick at once |
| GifCraft.GifEditor.StopAnimation | GIFCraft.py:365-368 | stops playing |
| GifCraft.GifEditor.PlayNextFrame | GIFCraft.py:370-376 | while playing, the index advances by Playback.Next; when stopped, a tick does nothing |
| GifCraft.GifEditor.SetDelay | GIFCraft.py:378-388 | a string that `int()` accepts (ASCII digits only) becomes the delay of every checked frame after a save; any other string changes nothing |
| GifCraft.GifEditor.SetCheckedDelays | GIFCraft.py:383-385 | the loop sets exactly the checked delays |
| GifCraft.GifEditor.ToggleCheckAll | GIFCraft.py:474-481 | pushes a snapshot, flips the check-all flag and sets every box to it |
| GifCraft.GifEditor.ToggleCheckbox | GIFCraft.py:483-487 | flips the one box at the index, and nothing else |
| GifCraftRef.NewFileResets | GIFCraft-REF.py:99-119 | definition of when new_file as written clears the editor: no frames, or the answer "No" |
| GifCraftRef.NewFileResetsAfterSave | GIFCraft-REF.py:99-119 | definition of when new_file as its comment describes clears the editor: no frames, "No", or "Yes" followed by a successful save |
| GifCraftRef.NewFileYesIsCancel | GIFCraft-REF.py:99-119 | as written, answering "Yes" with frames present never clears the editor, just like "Cancel" |
| GifCraftRef.NewFileSavesBeforeDiscarding | GIFCraft-REF.py:99-119 | as intended, frames are discarded only after "No" or a successful save, and "Cancel" keeps them |
| GifCraftRef.GifEditor.constructor | GIFCraft-REF.py:15-23 | the editor starts empty, with an empty clipboard and no base size |
| GifCraftRef.GifEditor.NewFile | GIFCraft-REF.py:99-119 | clears frames, delays, boxes, file and base size exactly when NewFileResets holds, keeping the undo and redo stacks |
| GifCraftRef.GifEditor.NewFileAfterSave | GIFCraft-REF.py:99-119 | clears the editor exactly when NewFileResetsAfterSave holds |
| GifCraftRef.GifEditor.SaveState | GIFCraft-REF.py:675-678 | pushes the current document and clears the redo stack |
| GifCraftRef.GifEditor.Undo | GIFCraft-REF.py:390-402 | performs History.Undo, sets the base size from the restored first frame and clears check-all; with no history nothing changes |
| GifCraftRef.GifEditor.Redo | GIFCraft-REF.py:404-415 | performs History.Redo and clears check-all, leaving the base size as it was |
| GifCraftRef.GifEditor.DeleteFrames | GIFCraft-REF.py:245-268 | the checked frames are removed, the rest keep their order, and the index is clamped |
| GifCraftRef.GifEditor.DeleteChecked | GIFCraft-REF.py:258-265 | the delete loop removes exactly the checked entries |
| GifCraftRef.GifEditor.PopChecked | GIFCraft-REF.py:258-261 | deleting the checked positions from the highest down leaves exactly the unchecked entries of frames, delays and boxes, in order |
| GifCraftRef.GifEditor.MoveFrameUp | GIFCraft-REF.py:270-298 | with exactly one box checked and not at the top, that frame swaps with the one above it, after a save; otherwise the status says why nothing changed |
| GifCraftRef.GifEditor.MoveFrameDown | GIFCraft-REF.py:300-328 | the same one place down, refusing the last frame |
| GifCraftRef.GifEditor.ResizeFramesDialog | GIFCraft-REF.py:330-340 | nothing checked: nothing changes; otherwise resizes only when both sizes were entered and are non-zero |
| GifCraftRef.GifEditor.ResizeFrames | GIFCraft-REF.py:342-349 | after a save, every checked frame is resampled to exactly the new width and height and the others are untouched |
| GifCraftRef.GifEditor.CopyFrames | GIFCraft-REF.py:351-357 | the clipboard becomes the checked frames paired with their delays, in order |
| GifCraftRef.GifEditor.PasteFrames | GIFCraft-REF.py:359-388 | inserts the clipboard after the last checked frame, checked, after a save; an empty clipboard changes nothing |
| GifCraftRef.GifEditor.InsertChecked | GIFCraft-REF.py:378-384 | the insertion loop produces Paste with checked boxes |
| GifCraftRef.GifEditor.ToggleCheckAll | GIFCraft-REF.py:417-434 | pushes a snapshot, flips the check-all flag and sets every box to it |
| GifCraftRef.GifEditor.TogglePlayPause | GIFCraft-REF.py:436-441 | stops playback when playing, and otherwise starts it and runs the first tick |
| GifCraftRef.GifEditor.PlayAnimation | GIFCraft-REF.py:443-447 | starts playing and runs the first tick at once |
| GifCraftRef.GifEditor.StopAnimation | GIFCraft-REF.py:449-452 | stops playing |
| GifCraftRef.GifEditor.PlayNextFrame | GIFCraft-REF.py:454-460 | while playing, advances the index by Playback.Next |
| GifCraftRef.GifEditor.SetDelay | GIFCraft-REF.py:462-472 | a string `int()` accepts (ASCII digits only) becomes the delay of every checked frame after a save, and any other string changes nothing; for ASCII-digit text, which the validator lets through, only the empty string fails and the delay is never negative |
| GifCraftRef.GifEditor.SetCheckedDelays | GIFCraft-REF.py:467-469 | the loop sets exactly the checked delays |
| GifCraftRef.GifEditor.ToggleCheckbox | GIFCraft-REF.py:590-594 | flips the one box at the index |
| GifCraftRef.GifEditor.PreviousFrame | GIFCraft-REF.py:596-600 | steps back by one, and stays at the first frame |
| GifCraftRef.GifEditor.NextFrame | GIFCraft-REF.py:602-606 | steps forward by one, and stays at the last frame |
| GifCraftV2.Follow | GIFCraft_v2.py:565-568 | swap_frames' index update leaves an index outside the swapped pair alone |
| GifCraftV2.FollowTwice | GIFCraft_v2.py:538-541 | applying the index update twice gives the old index back |
| GifCraftV2.MoveUpLeavesIndexBehind | GIFCraft_v2.py:531-543 | with only the explicit index assignments, moving the second of two frames up leaves the index at 1, which now shows the other frame |
| GifCraftV2.MoveDownLeavesIndexBehind | GIFCraft_v2.py:545-557 | the same for moving the first of two frames down |
| GifCraftV2.Rotated | GIFCraft_v2.py:1034-1045 | definition of what the rotation dialog makes of one frame: flip, mirror, or a rotation with expand by the angle of RotationAngle |
| GifCraftV2.Cropped | GIFCraft_v2.py:816-823 | definition of one cropped frame: PIL's crop of the CropBox for the frame's size |
| GifCraftV2.ValidColorCode | GIFCraft_v2.py:866 | definition of the tint dialog's colour check: "#" and six more characters |
| GifCraftV2.HexColor | GIFCraft_v2.py:886 | definition of the colours PIL accepts among those: "#" and six hexadecimal digits in either case |
| GifCraftV2.ValidIntensity | GIFCraft_v2.py:870-871 | definition of the intensity range the tint and sepia dialogs accept: 0 to 100 |
| GifCraftV2.RotationAngle | GIFCraft_v2.py:1034-1045 | the two flips turn by no angle, and the custom choice turns by the entered angle |
| GifCraftV2.GifEditor.constructor | GIFCraft_v2.py:13-21 | the editor starts empty |
| GifCraftV2.GifEditor.SaveState | GIFCraft_v2.py:680-683 | pushes the current document and clears the redo stack |
| GifCraftV2.GifEditor.RestoreState | GIFCraft_v2.py:1050-1059 | the snapshot becomes the document as it is, and the base size comes from its first frame |
| GifCraftV2.GifEditor.Undo | GIFCraft_v2.py:719-724 | performs History.Undo, then the base size comes from the restored first frame and check-all is cleared; with no history nothing changes |
| GifCraftV2.GifEditor.Redo | GIFCraft_v2.py:726-731 | performs History.Redo, then the base size comes from the restored first frame and check-all is cleared; with no redo entry nothing changes |
| GifCraftV2.GifEditor.DeleteFrames | GIFCraft_v2.py:458-480 | no frames: error, nothing changes; otherwise a snapshot is pushed, the checked frames are removed with the rest in order, and the index is clamped |
| GifCraftV2.GifEditor.DeleteChecked | GIFCraft_v2.py:471-477 | the delete loop removes exactly the checked entries |
| GifCraftV2.GifEditor.PopChecked | GIFCraft_v2.py:516-519 | deletes the checked entries back to front; the frames, delays and boxes left are Drop of the old ones |
| GifCraftV2.GifEditor.MoveFramesToPosition | GIFCraft_v2.py:482-529 | a valid "Frame n" moves the checked frames into a block after frame n, after a save; each invalid input is reported and changes nothing |
| GifCraftV2.GifEditor.MoveCheckedTo | GIFCraft_v2.py:505-526 | after a save, the remove and re-insert loops leave frames, delays and boxes as MoveToPosition of the old ones, with the index and file unchanged |
| GifCraftV2.GifEditor.Reinsert | GIFCraft_v2.py:522-526 | the insertion loop puts the block in place |
| GifCraftV2.GifEditor.SwapFrames | GIFCraft_v2.py:559-568 | exchanges two frames and delays, unchecks the first, checks the second, and updates the index by Follow |
| GifCraftV2.GifEditor.FollowSwap | GIFCraft_v2.py:565-568 | an index on one of the two swapped positions moves to the other, and any other index stays |
| GifCraftV2.GifEditor.SwapTurn | GIFCraft_v2.py:536-541 | swap_frames followed by the caller's repeated index update: the entries are swapped, the check mark moves, and the index ends where it was |
| GifCraftV2.GifEditor.MoveFrameUp | GIFCraft_v2.py:531-543 | frames, delays and boxes become MoveUp of the old ones, and the index stays where it was |
| GifCraftV2.GifEditor.MoveCheckedUp | GIFCraft_v2.py:534-541 | the upward swap loop computes MoveUp and, with both index updates, leaves the index where it was |
| GifCraftV2.GifEditor.UpSwapAt | GIFCraft_v2.py:535-541 | one turn of the upward loop swaps exactly when the position above is unchecked, advancing MoveUpBelow by one checked position and leaving the index where it was |
| GifCraftV2.GifEditor.MoveFrameDown | GIFCraft_v2.py:545-557 | frames, delays and boxes become MoveDown of the old ones, and the index stays where it was |
| GifCraftV2.GifEditor.MoveCheckedDown | GIFCraft_v2.py:548-555 | the downward swap loop computes MoveDown and leaves the index where it was |
| GifCraftV2.GifEditor.DownSwapAt | GIFCraft_v2.py:549-555 | one turn of the downward loop swaps exactly when the position below is unchecked, advancing MoveDownAbove by one checked position and leaving the index where it was |
| GifCraftV2.GifEditor.CopyFrames | GIFCraft_v2.py:685-691 | the clipboard becomes the checked frames paired with their delays |
| GifCraftV2.GifEditor.PasteFrames | GIFCraft_v2.py:693-717 | inserts the clipboard unchecked after the last checked frame, after a save; an empty clipboard changes nothing |
| GifCraftV2.GifEditor.InsertRun | GIFCraft_v2.py:708-714 | the insertion loop produces Paste |
| GifCraftV2.GifEditor.ApplyCrossfadeEffect | GIFCraft_v2.py:733-784 | with fewer than two checked frames nothing changes; otherwise a save, then Failed with no change exactly when two consecutive checked frames differ in size, and otherwise frames, delays and boxes become Crossfade of the old ones with the block of blends, the index left as it was |
| GifCraftV2.GifEditor.BuildCrossfade | GIFCraft_v2.py:750-765 | the loop is refused exactly when the checked frames are not Blendable, and otherwise builds FadeFrames and FadeDelays |
| GifCraftV2.GifEditor.CrossfadeChecked | GIFCraft_v2.py:750-781 | refused with every list unchanged exactly when a blend fails; otherwise removing the checked entries and inserting the block, checked, produces Crossfade: ten frames for each consecutive checked pair replace the checked frames, so k checked frames add 9k - 10 frames |
| GifCraftV2.GifEditor.ReverseFrames | GIFCraft_v2.py:958-981 | after a save, even with nothing checked, the checked frames and delays are written back in reverse order at the checked positions and nothing else changes |
| GifCraftV2.GifEditor.ScatterRun | GIFCraft_v2.py:976-978 | the write-back loop puts the reversed values at the checked indices |
| GifCraftV2.GifEditor.CropFramesDialog | GIFCraft_v2.py:786-809 | text that does not parse changes nothing; a negative size with something checked leaves a snapshot and the frames as they were and reports invalid input; otherwise the checked frames are cropped |
| GifCraftV2.GifEditor.CropFrames | GIFCraft_v2.py:811-825 | after a save, PIL's refusal comes exactly when a size is negative and a frame is checked, and then no frame has changed; otherwise every checked frame is cut by a box of exactly the requested size centred on it, and the others are untouched |
| GifCraftV2.GifEditor.DesaturateFrames | GIFCraft_v2.py:827-835 | every checked frame becomes its grayscale, after a save |
| GifCraftV2.GifEditor.ApplyInvertColorsEffect | GIFCraft_v2.py:851-860 | every checked frame becomes its inversion, after a save |
| GifCraftV2.GifEditor.CropChecked | GIFCraft_v2.py:814-823 | the crop loop is refused exactly when a size is negative and some frame is checked, with the frames untouched, and otherwise replaces exactly the checked frames by their centred crops |
| GifCraftV2.GifEditor.ReplaceSelected | GIFCraft_v2.py:830-833 | the loop the effects share replaces exactly the checked frames by the effect of themselves |
| GifCraftV2.GifEditor.ApplyTint | GIFCraft_v2.py:862-901 | a colour that is not "#" and six characters, or an intensity outside 0 to 100, changes nothing; otherwise a save, then Failed with no change exactly when the colour is not hexadecimal and some frame is checked, and otherwise every checked frame tinted |
| GifCraftV2.GifEditor.ReplaceSelectedOrRaise | GIFCraft_v2.py:875-877 | the tint loop raises exactly when the colour is refused and some frame is checked, with the frames untouched, and otherwise replaces exactly the checked frames by their tints |
| GifCraftV2.GifEditor.ApplySepiaEffectDialog | GIFCraft_v2.py:903-926 | with an entry that parses to 0 to 100, a save and then sepia on every checked frame; otherwise nothing changes |
| GifCraftV2.GifEditor.ApplySepiaEffect | GIFCraft_v2.py:928-956 | every checked frame becomes its sepia and the rest are untouched; the dialog, not this method, saves |
| GifCraftV2.GifEditor.RotateFramesDialog | GIFCraft_v2.py:983-1026 | the custom choice needs an angle that parses; every other choice rotates at once |
| GifCraftV2.GifEditor.ApplyRotationEffect | GIFCraft_v2.py:1028-1048 | every checked frame is rotated, after a save |
| GifCraftV2.GifEditor.SetDelay | GIFCraft_v2.py:589-599 | a string `int()` accepts (ASCII digits only) becomes the delay of every checked frame after a save, and any other string changes nothing; for ASCII-digit text, which the validator lets through, only the empty string fails and the delay is never negative |
| GifCraftV2.GifEditor.SetCheckedDelays | GIFCraft_v2.py:594-596 | the loop sets exactly the checked delays |
| GifCraftV2.GifEditor.ToggleCheckAll | GIFCraft_v2.py:1061-1078 | pushes a snapshot, flips the check-all flag and sets every box to it |
| GifCraftV2.GifEditor.ToggleFrame | GIFCraft_v2.py:1080-1083 | flips one box |
| GifCraftV2.GifEditor.ToggleCheckbox | GIFCraft_v2.py:1085-1090 | flips the one box at the index |
| GifCraftV2.GifEditor.TogglePlayPause | GIFCraft_v2.py:214-219 | stops playback when playing, and otherwise starts it and runs the first tick |
| GifCraftV2.GifEditor.PlayAnimation | GIFCraft_v2.py:570-574 | starts playing and runs the first tick at once |
| GifCraftV2.GifEditor.StopAnimation | GIFCraft_v2.py:576-579 | stops playing |
| GifCraftV2.GifEditor.PlayNextFrame | GIFCraft_v2.py:581-587 | while playing, advances the index by Playback.Next |
| GifCraftV2.GifEditor.PreviousFrame | GIFCraft_v2.py:221-225 | steps back by one, and stays at the first frame |
| GifCraftV2.GifEditor.NextFrame | GIFCraft_v2.py:227-231 | steps forward by one, and stays at the last frame |

## Left out

- Tkinter widgets, dialogs, menus, key bindings and message boxes are not modelled. Dialog answers are method parameters, and each error box is a returned `Status`.
- The check boxes are Tk `IntVar`s. Here each is a boolean in `flags`.
- Each box carries a write trace that calls `set_current_frame` with the index the box had when the trace was attached. That trace also fires on writes made by the code: the swaps in the move loops, `toggle_check_all` in GIFCraft.py, and `toggle_checkbox`. The model leaves these traces out, so `frameIndex` changes only through the assignments the edit methods make themselves.
- File loading and saving (`load_file`, `save`, `save_as`, `add_image`, `extract_frames`), the GIF codec and the title bar are not modelled. The current file name is only carried in snapshots.
- Pixel arithmetic (grayscale, inversion, tint, sepia, rotation, crop, blending, LANCZOS resampling) is not modelled. Each is a function parameter applied to the checked frames, or an opaque pixel value.
- The Tk timer (`after`) is not modelled. A tick is a call of `PlayNextFrame`, and the scheduled delay is not.
- Frames are image values, so the model does not capture aliasing between list entries or snapshots that share one PIL image, nor the in-place pixel writes of `apply_sepia_effect` (see the ApplySepiaEffectDialog line below).
- `new_file` in GIFCraft_v2.py is line for line the one in GIFCraft-REF.py. It is modelled once, in `GifCraftRef`.
- GIFCraft_v2.py's `resize_all_frames`, `add_empty_frame` and `resize_to_base_size` are not modelled. They are loading and pixel operations outside the frame-sequence edits.
- Geometry.ResizeImage: the scale factor is computed with exact fractions. Python computes `min(800 / w, 600 / h)` in floating point, so a side can come out one pixel smaller than ScaledSize says, and at 1 that smaller side is 0 and the resize raises.
- GifCraftV2.GifEditor.ApplyCrossfadeEffect: Image.blend also raises when two frames differ in PIL mode. Images carry no mode here, so the model reports the block where the program fails after its snapshot.
- GifCraftV2.GifEditor.ApplyTint: `tint_image` reads a fourth channel from every pixel and raises for a frame without alpha. Images carry no mode here, so the model tints such frames where the program fails after its snapshot.
- `update_frame_list`, `show_frame` and `set_current_frame` only redraw the view and are not modelled.
- Text.IsDigit / Text.ParseInt: a digit is an ASCII digit here. Python's `str.isdigit()` and `int()` also take other Unicode digits, and the two sets differ (`isdigit` accepts superscripts such as "²", which `int()` rejects; `int()` accepts Arabic-Indic digits such as "٣"). The members below inherit this, and so do Text.ValidateDelay, Text.ParseFrameName, GifCraftV2.GifEditor.CropFramesDialog (GIFCraft_v2.py:801-802), GifCraftV2.GifEditor.ApplySepiaEffectDialog (GIFCraft_v2.py:915) and GifCraftV2.GifEditor.RotateFramesDialog (GIFCraft_v2.py:1017), each of which reports an entry such as "٣" as invalid where `int()` accepts it.
- Text.ValidatedDelayParses: holds for ASCII-digit text only. A superscript digit passes `isdigit()` and then makes `int()` raise.
- GifCraft.GifEditor.SetDelay: non-ASCII digit strings that `int()` accepts, such as "٣", are treated as unparseable, so the model reports an error where the program sets delay 3.
- GifCraftRef.GifEditor.SetDelay: as GifCraft.GifEditor.SetDelay, and the validator lemma applies to ASCII digits only.
- GifCraftV2.GifEditor.SetDelay: as GifCraftRef.GifEditor.SetDelay.
- GifCraftV2.GifEditor.MoveFramesToPosition: a frame name with a non-ASCII digit, such as "Frame ٣", is reported as invalid, where the program moves the frames below frame 3.
- GifCraftV2.GifEditor.ApplySepiaEffectDialog: `apply_sepia` writes the pixels of the frame it is given in place, and `save_state` keeps a shallow copy of the frame list. So the snapshot taken before sepia holds the same image objects, already tinted, and undo after sepia does not bring the old pixels back. Because frames are values here, History.UndoEdit's promise is stated for every action, and this action breaks it in the program.

## Findings

| source | as written | input that shows it | evidently intended | confidence | as-written member | corrected member |
|---|---|---|---|---|---|---|
| GIFCraft-REF.py:99-119 | after "Yes", `new_file` calls `save` and then returns whenever frames are still present, which is always | frames present, answer "Yes", save succeeds | save the work, then start the new file | high, not executed | GifCraftRef.NewFileYesIsCancel | GifCraftRef.NewFileSavesBeforeDiscarding |


/** GIFCraft_v2.py: the revision with multi-selection moves through
    swap_frames, moving the checked frames to a named position, unchecked
    pasting, the crossfade, reverse, crop and effect actions, and undo/redo
    through restore_state. */
module GifCraftV2 {
  import opened Model
  import opened Selection
  import opened Lists
  import opened Edits
  import Text
  import Geometry
  import History
  import Playback

  // =====================================================================
  // The active index under a swap

  /** swap_frames' update of the active index: it follows the frame that
      moved away from it. */
  function Follow(fi: nat, i: nat, j: nat): (r: nat)
    ensures fi != i && fi != j ==> r == fi
  {
    if i == fi then j else if j == fi then i else fi
  }

  /** Applying the same update twice, as move_frame_up and move_frame_down
      do after swap_frames, puts the index back where it was. */
  lemma FollowTwice(fi: nat, i: nat, j: nat)
    ensures Follow(Follow(fi, i, j), i, j) == fi
  {
  }

  /** Two frames, the second checked and active: move_frame_up puts it
      first, yet the index, left at 1 by the double update, now shows the
      other frame; the frame that was shown is at UpTarget = 0. */
  lemma MoveUpLeavesIndexBehind()
    ensures var xs, fs := [10, 20], [false, true];
      MoveUp(xs, fs) == [20, 10] && MoveUp(xs, fs)[1] != xs[1] &&
      UpTarget(fs, 1) == 0 && MoveUp(xs, fs)[UpTarget(fs, 1)] == xs[1]
  {
    var xs, fs := [10, 20], [false, true];
    assert UpFrom(fs, 2, 0) == 1 && UpFrom(fs, 2, 1) == 0;
    assert MoveUp(xs, fs)[0] == 20 && MoveUp(xs, fs)[1] == 10;
  }

  /** The mirror image for move_frame_down. */
  lemma MoveDownLeavesIndexBehind()
    ensures var xs, fs := [10, 20], [true, false];
      MoveDown(xs, fs) == [20, 10] && MoveDown(xs, fs)[0] != xs[0] &&
      DownTarget(fs, 0) == 1 && MoveDown(xs, fs)[DownTarget(fs, 0)] == xs[0]
  {
    var xs, fs := [10, 20], [true, false];
    assert DownFrom(fs, 0, 0) == 1 && DownFrom(fs, 0, 1) == 0;
    assert MoveDown(xs, fs)[0] == 20 && MoveDown(xs, fs)[1] == 10;
  }

  // =====================================================================
  // Dialog values

  /** The choices of the rotation dialog's drop-down list. */
  datatype Rotation =
    | FlipVertical
    | FlipHorizontal
    | Rotate90Clockwise
    | Rotate90CounterClockwise
    | Rotate180
    | RotateCustom

  /** The angle the rotate choices turn a frame by, in degrees
      counter-clockwise, as Image.rotate takes it; None for the flips. */
  function RotationAngle(option: Rotation, customAngle: int): (a: Option<int>)
    ensures a.None? <==> option == FlipVertical || option == FlipHorizontal
    ensures option == RotateCustom ==> a == Some(customAngle)
  {
    match option
    case FlipVertical => None
    case FlipHorizontal => None
    case Rotate90Clockwise => Some(-90)
    case Rotate90CounterClockwise => Some(90)
    case Rotate180 => Some(180)
    case RotateCustom => Some(customAngle)
  }

  /** What apply_rotation_effect makes of one checked frame: ImageOps.flip,
      ImageOps.mirror, or `rotate(angle, expand=True)`. */
  function Rotated(img: Img, option: Rotation, customAngle: int,
                   flip: Img -> Img, mirror: Img -> Img, rotate: (Img, int) -> Img): Img
  {
    match RotationAngle(option, customAngle)
    case Some(a) => rotate(img, a)
    case None => if option == FlipVertical then flip(img) else mirror(img)
  }

  /** What crop_frames makes of one checked frame: PIL's `crop` of the box
      centred on it with the requested width and height. */
  function Cropped(img: Img, cropWidth: int, cropHeight: int, crop: (Img, Geometry.Box) -> Img): Img {
    crop(img, Geometry.CropBox(img.width, img.height, cropWidth, cropHeight))
  }

  /** The tint dialog's check on the colour text: "#" and six more characters. */
  predicate ValidColorCode(c: string) {
    |c| == 7 && c[0] == '#'
  }

  predicate IsHexDigit(ch: char) {
    '0' <= ch <= '9' || 'a' <= ch <= 'f' || 'A' <= ch <= 'F'
  }

  /** The colour texts among those ValidColorCode lets through that PIL's
      `Image.new("RGB", (1, 1), color)` accepts: "#" and six hexadecimal
      digits in either case. Any other raises ValueError. */
  predicate HexColor(c: string) {
    ValidColorCode(c) && forall i :: 1 <= i < |c| ==> IsHexDigit(c[i])
  }

  /** The document `e` is `d` with its checked frames, delays and check
      marks moved into one block after frame `target`; the active index and
      the file name are unchanged. */
  predicate MovedToPosition(d: Snapshot, e: Snapshot, target: nat) {
    WellFormed(d) &&
    e.frames == MoveToPosition(d.frames, d.flags, target) &&
    e.delays == MoveToPosition(d.delays, d.flags, target) &&
    e.flags == MoveToPosition(d.flags, d.flags, target) &&
    e.frameIndex == d.frameIndex && e.currentFile == d.currentFile
  }

  /** The intensities the tint and sepia actions accept. */
  predicate ValidIntensity(k: int) {
    0 <= k <= 100
  }

  class GifEditor {
    var frames: seq<Img>
    var delays: seq<int>
    var flags: seq<bool>
    var frameIndex: nat
    var currentFile: Option<string>
    var history: seq<Snapshot>
    var redoStack: seq<Snapshot>
    var isPlaying: bool
    var checkAll: bool
    var clipboard: seq<(Img, int)>
    var baseSize: Option<(nat, nat)>

    /** The document as save_state records it. */
    function Doc(): Snapshot
      reads this
    {
      Snapshot(frames, delays, flags, frameIndex, currentFile)
    }

    /** The document together with both history stacks. */
    function State(): History.Session
      reads this
    {
      History.Session(Doc(), history, redoStack)
    }

    predicate Valid()
      reads this
    {
      History.SessionOk(State())
    }

    /** The initial settings. The clipboard and base_size only come into
        being later in the source; here they start empty. */
    constructor ()
      ensures Valid()
      ensures frames == [] && delays == [] && flags == [] && frameIndex == 0 && currentFile == None
      ensures history == [] && redoStack == [] && !isPlaying && !checkAll
      ensures clipboard == [] && baseSize == None
    {
      frameIndex := 0;
      frames := [];
      delays := [];
      isPlaying := false;
      history := [];
      redoStack := [];
      currentFile := None;
      flags := [];
      checkAll := false;
      clipboard := [];
      baseSize := None;
    }

    // -------------------------------------------------------------------
    // History

    /** save_state: push a copy of the document, empty the redo stack. */
    method SaveState()
      requires Valid()
      modifies this`history, this`redoStack
      ensures Valid()
      ensures State() == History.Save(old(State()))
    {
      history := history + [Doc()];
      redoStack := [];
    }

    /** restore_state: the snapshot becomes the document, with fresh check
        boxes holding its flags, and base_size is the size of its first
        frame, or None without frames. */
    method RestoreState(s: Snapshot)
      modifies this`frames, this`delays, this`flags, this`frameIndex, this`currentFile, this`baseSize
      ensures Doc() == s
      ensures baseSize == if |s.frames| > 0 then Some((s.frames[0].width, s.frames[0].height)) else None
    {
      frames, delays, flags, frameIndex, currentFile := s.frames, s.delays, s.flags, s.frameIndex, s.currentFile;
      baseSize := if |frames| > 0 then Some((frames[0].width, frames[0].height)) else None;
    }

    /** undo: with history, push the document on the redo stack, restore the
        latest snapshot and clear check-all; otherwise do nothing. */
    method Undo()
      requires Valid()
      modifies this`frames, this`delays, this`flags, this`frameIndex, this`currentFile, this`history, this`redoStack, this`checkAll, this`baseSize
      ensures Valid()
      ensures State() == History.Undo(old(State()))
      ensures |old(history)| > 0 ==>
        baseSize == (if |frames| > 0 then Some((frames[0].width, frames[0].height)) else None) && !checkAll
      ensures |old(history)| == 0 ==> baseSize == old(baseSize) && checkAll == old(checkAll)
    {
      ghost var s0 := State();
      History.Preserved(s0);
      if |history| > 0 {
        redoStack := redoStack + [Doc()];
        var s := history[|history| - 1];
        history := history[..|history| - 1];
        RestoreState(s);
        checkAll := false;
      }
    }

    /** redo: the mirror image of undo, through restore_state as well. */
    method Redo()
      requires Valid()
      modifies this`frames, this`delays, this`flags, this`frameIndex, this`currentFile, this`history, this`redoStack, this`checkAll, this`baseSize
      ensures Valid()
      ensures State() == History.Redo(old(State()))
      ensures |old(redoStack)| > 0 ==>
        baseSize == (if |frames| > 0 then Some((frames[0].width, frames[0].height)) else None) && !checkAll
      ensures |old(redoStack)| == 0 ==> baseSize == old(baseSize) && checkAll == old(checkAll)
    {
      ghost var s0 := State();
      History.Preserved(s0);
      if |redoStack| > 0 {
        history := history + [Doc()];
        var s := redoStack[|redoStack| - 1];
        redoStack := redoStack[..|redoStack| - 1];
        RestoreState(s);
        checkAll := false;
      }
    }

    // -------------------------------------------------------------------
    // Deleting

    /** delete_frames: with no frames, an error and no change. Otherwise a
        snapshot, then every checked frame deleted from the highest index
        down, and the active index pulled back into the shorter list. With
        nothing checked the snapshot is still taken. */
    method DeleteFrames() returns (st: Status)
      requires Valid()
      modifies this`frames, this`delays, this`flags, this`frameIndex, this`history, this`redoStack
      ensures Valid()
      ensures old(|frames|) == 0 ==> st == NoFrames && State() == old(State())
      ensures old(|frames|) > 0 ==>
        st == (if NoneSelected(old(flags)) then NoSelection else Done) &&
        history == old(history) + [old(Doc())] && redoStack == [] &&
        frames == Drop(old(frames), old(flags)) &&
        delays == Drop(old(delays), old(flags)) &&
        flags == Drop(old(flags), old(flags)) &&
        currentFile == old(currentFile) &&
        frameIndex == (if old(frameIndex) < |frames| then old(frameIndex) else if |frames| == 0 then 0 else |frames| - 1)
    {
      if |frames| == 0 {
        return NoFrames;
      }
      SaveState();
      var L := Indices(flags);
      ghost var F, D, G := frames, delays, flags;
      if |L| == 0 {
        IndicesEmpty(G);
        DropNone(F, G);
        DropNone(D, G);
        DropNone(G, G);
        return NoSelection;
      }
      DeleteChecked(L);
      IndicesEmpty(G);
      st := Done;
    }

    /** The deletion loop of delete_frames followed by the clamp of the
        active index. */
    method DeleteChecked(L: seq<nat>)
      requires |delays| == |frames| && |flags| == |frames| && L == Indices(flags)
      modifies this`frames, this`delays, this`flags, this`frameIndex
      ensures frames == Drop(old(frames), old(flags))
      ensures delays == Drop(old(delays), old(flags))
      ensures flags == Drop(old(flags), old(flags))
      ensures |delays| == |frames| && |flags| == |frames|
      ensures frameIndex == if old(frameIndex) < |frames| then old(frameIndex) else if |frames| == 0 then 0 else |frames| - 1
    {
      PopChecked(L);
      if frameIndex >= |frames| {
        frameIndex := if |frames| == 0 then 0 else |frames| - 1;
      }
    }

    /** `del` (or `pop`) at each listed index from the highest down, on the
        three parallel lists: the loop delete_frames, move_frames_to_position
        and apply_crossfade_effect share. */
    method PopChecked(L: seq<nat>)
      requires |delays| == |frames| && |flags| == |frames| && L == Indices(flags)
      modifies this`frames, this`delays, this`flags
      ensures frames == Drop(old(frames), old(flags))
      ensures delays == Drop(old(delays), old(flags))
      ensures flags == Drop(old(flags), old(flags))
      ensures |frames| == old(|frames|) - |L| && |delays| == |frames| && |flags| == |frames|
    {
      ghost var F, D, G := frames, delays, flags;
      var n := |frames|;
      DropFromStart(F, G);
      DropFromStart(D, G);
      DropFromStart(G, G);
      var fr, de, fl := frames, delays, flags;
      var j := |L|;
      while j > 0
        invariant 0 <= j <= |L| && Cut(L, j, n) <= n
        invariant fr == DropFrom(F, G, Cut(L, j, n))
        invariant de == DropFrom(D, G, Cut(L, j, n))
        invariant fl == DropFrom(G, G, Cut(L, j, n))
      {
        var index := L[j - 1];
        DeleteStep(F, G, j);
        DeleteStep(D, G, j);
        DeleteStep(G, G, j);
        fr := Remove(fr, index);
        de := Remove(de, index);
        fl := Remove(fl, index);
        j := j - 1;
      }
      frames, delays, flags := fr, de, fl;
      DropFromEnd(F, G);
      DropFromEnd(D, G);
      DropFromEnd(G, G);
      PickDropLength(F, G);
      PickDropLength(D, G);
      PickDropLength(G, G);
    }

    // -------------------------------------------------------------------
    // Moving the checked frames to a position

    /** move_frames_to_position. `name` is the dialog's answer (None when it
        was cancelled). An empty or cancelled answer does nothing; a name
        whose second word is missing or not an integer, and a frame number
        outside 1..n, are errors; with nothing checked there is a notice.
        None of these takes a snapshot. Otherwise a snapshot, then the
        checked frames, with their delays and check marks, are taken out
        and re-inserted in order at target + 1 + i of the shortened list;
        the active index is left as it is. */
    method MoveFramesToPosition(name: Option<string>) returns (st: Status)
      requires Valid()
      modifies this`frames, this`delays, this`flags, this`frameIndex, this`history, this`redoStack
      ensures Valid()
      ensures name.None? || name.value == "" ==> st == Cancelled && State() == old(State())
      ensures name.Some? && name.value != "" && Text.ParseFrameName(name.value).None? ==>
        st == InvalidInput && State() == old(State())
      ensures name.Some? && name.value != "" && Text.ParseFrameName(name.value).Some? ==>
        var number := Text.ParseFrameName(name.value).value;
        (!(1 <= number <= old(|frames|)) ==> st == OutOfRange && State() == old(State())) &&
        (1 <= number <= old(|frames|) && NoneSelected(old(flags)) ==> st == NoSelection && State() == old(State())) &&
        (1 <= number <= old(|frames|) && !NoneSelected(old(flags)) ==>
          st == Done && history == old(history) + [old(Doc())] && redoStack == [] &&
          MovedToPosition(old(Doc()), Doc(), number - 1))
    {
      if name.None? || name.value == "" {
        return Cancelled;
      }
      var number := Text.ParseFrameName(name.value);
      if number.None? {
        return InvalidInput;
      }
      if number.value < 1 || number.value > |frames| {
        return OutOfRange;
      }
      var target: nat := number.value - 1;
      if NoneSelected(flags) {
        return NoSelection;
      }
      MoveCheckedTo(target);
      st := Done;
    }

    /** The edit move_frames_to_position makes once the answer is accepted:
        a snapshot, then the checked frames moved to follow frame target. */
    method MoveCheckedTo(target: nat)
      requires Valid() && target < |frames|
      modifies this`frames, this`delays, this`flags, this`frameIndex, this`history, this`redoStack
      ensures Valid()
      ensures history == old(history) + [old(Doc())] && redoStack == []
      ensures MovedToPosition(old(Doc()), Doc(), target)
    {
      var L := Indices(flags);
      SaveState();
      ghost var F, D, G := frames, delays, flags;
      var framesToMove := Gather(frames, L);
      var delaysToMove := Gather(delays, L);
      var flagsToMove := Gather(flags, L);
      PickIsGather(F, G);
      PickIsGather(D, G);
      PickIsGather(G, G);
      PopChecked(L);
      Reinsert(target, framesToMove, delaysToMove, flagsToMove, F, D, G);
      MoveToPositionLayout(F, G, target);
      MoveToPositionLayout(D, G, target);
      MoveToPositionLayout(G, G, target);
    }

    /** The insertion loop of move_frames_to_position: element i of the
        moved block goes in at target + 1 + i. */
    method Reinsert(target: nat, framesToMove: seq<Img>, delaysToMove: seq<int>, flagsToMove: seq<bool>,
                    ghost F: seq<Img>, ghost D: seq<int>, ghost G: seq<bool>)
      requires |F| == |D| == |G|
      requires framesToMove == Pick(F, G) && delaysToMove == Pick(D, G) && flagsToMove == Pick(G, G)
      requires frames == Drop(F, G) && delays == Drop(D, G) && flags == Drop(G, G)
      modifies this`frames, this`delays, this`flags
      ensures frames == MoveToPosition(F, G, target)
      ensures delays == MoveToPosition(D, G, target)
      ensures flags == MoveToPosition(G, G, target)
    {
      PickDropLength(F, G);
      PickDropLength(D, G);
      PickDropLength(G, G);
      ghost var p := BlockStart(G, target);
      ghost var dF, dD, dG := frames, delays, flags;
      assert frames == Splice(dF, p, framesToMove[..0]);
      assert delays == Splice(dD, p, delaysToMove[..0]);
      assert flags == Splice(dG, p, flagsToMove[..0]);
      var i := 0;
      while i < |framesToMove|
        invariant 0 <= i <= |framesToMove|
        invariant frames == Splice(dF, p, framesToMove[..i])
        invariant delays == Splice(dD, p, delaysToMove[..i])
        invariant flags == Splice(dG, p, flagsToMove[..i])
      {
        var insertionIndex := target + 1 + i;
        MoveInsertStep(F, G, target, i);
        MoveInsertStep(D, G, target, i);
        MoveInsertStep(G, G, target, i);
        frames := Insert(frames, insertionIndex, framesToMove[i]);
        delays := Insert(delays, insertionIndex, delaysToMove[i]);
        flags := Insert(flags, insertionIndex, flagsToMove[i]);
        i := i + 1;
      }
      assert framesToMove[..i] == framesToMove;
      assert delaysToMove[..i] == delaysToMove;
      assert flagsToMove[..i] == flagsToMove;
    }

    // -------------------------------------------------------------------
    // Moving the checked frames up and down

    /** swap_frames: frames and delays at i and j trade places, the check
        mark goes from i to j, and the active index follows the frame that
        moved away from it. */
    method SwapFrames(i: nat, j: nat)
      requires i < |frames| && j < |frames| && |delays| == |frames| && |flags| == |frames|
      modifies this`frames, this`delays, this`flags, this`frameIndex
      ensures frames == Swap(old(frames), i, j) && delays == Swap(old(delays), i, j)
      ensures flags == old(flags)[i := false][j := true]
      ensures frameIndex == Follow(old(frameIndex), i, j)
    {
      frames := Swap(frames, i, j);
      delays := Swap(delays, i, j);
      flags := flags[i := false][j := true];
      FollowSwap(i, j);
    }

    /** The body of one swap in the move loops: swap_frames(i, j), then the
        caller's own copy of its index update, which undoes the first one;
        the active index ends where it was. */
    method SwapTurn(i: nat, j: nat)
      requires i < |frames| && j < |frames| && |delays| == |frames| && |flags| == |frames|
      modifies this`frames, this`delays, this`flags, this`frameIndex
      ensures frames == Swap(old(frames), i, j) && delays == Swap(old(delays), i, j)
      ensures flags == old(flags)[i := false][j := true]
      ensures frameIndex == old(frameIndex)
    {
      SwapFrames(i, j);
      FollowSwap(i, j);
      FollowTwice(old(frameIndex), i, j);
    }

    /** The index update of swap_frames, which its callers repeat: an index
        on one of the two swapped positions moves to the other. */
    method FollowSwap(i: nat, j: nat)
      modifies this`frameIndex
      ensures frameIndex == Follow(old(frameIndex), i, j)
    {
      if i == frameIndex {
        frameIndex := j;
      } else if j == frameIndex {
        frameIndex := i;
      }
    }

    /** move_frame_up as written: a snapshot, then each checked frame, from
        the top, trades places with the one above when that one is not
        checked, the check mark moving with it. The index update inside
        swap_frames and the caller's own update cancel, so the active index
        stays where it was and shows whichever frame now sits there. */
    method MoveFrameUp()
      requires Valid()
      modifies this`frames, this`delays, this`flags, this`frameIndex, this`history, this`redoStack
      ensures Valid()
      ensures history == old(history) + [old(Doc())] && redoStack == [] && currentFile == old(currentFile)
      ensures frames == MoveUp(old(frames), old(flags))
      ensures delays == MoveUp(old(delays), old(flags))
      ensures flags == MoveUp(old(flags), old(flags))
      ensures frameIndex == old(frameIndex)
      ensures |frames| > 0 ==> frames[frameIndex] == old(frames)[UpTarget(old(flags), old(frameIndex))]
    {
      SaveState();
      MoveCheckedUp();
    }

    /** The swap loop of move_frame_up. */
    method MoveCheckedUp()
      requires |delays| == |frames| && |flags| == |frames|
      modifies this`frames, this`delays, this`flags, this`frameIndex
      ensures frames == MoveUp(old(frames), old(flags))
      ensures delays == MoveUp(old(delays), old(flags))
      ensures flags == MoveUp(old(flags), old(flags))
      ensures frameIndex == old(frameIndex)
    {
      var L := Indices(flags);
      ghost var F, D, G := frames, delays, flags;
      var n := |frames|;
      UpStart(F, G);
      UpStart(D, G);
      UpStart(G, G);
      var idx := 0;
      while idx < |L|
        invariant 0 <= idx <= |L| && Cut(L, idx, |G|) <= n
        invariant frames == MoveUpBelow(F, G, Cut(L, idx, |G|))
        invariant delays == MoveUpBelow(D, G, Cut(L, idx, |G|))
        invariant flags == MoveUpBelow(G, G, Cut(L, idx, |G|))
        invariant frameIndex == old(frameIndex)
      {
        UpSwapAt(L, idx, F, D, G);
        idx := idx + 1;
      }
    }

    /** One turn of the upward loop: the checked position i = L[idx] trades
        places with i - 1 through swap_frames when i - 1 is not checked; the
        entries so far form MoveUpBelow and the index stays put. */
    method UpSwapAt(L: seq<nat>, idx: nat, ghost F: seq<Img>, ghost D: seq<int>, ghost G: seq<bool>)
      requires |F| == |D| == |G| && L == Indices(G) && idx < |L|
      requires frames == MoveUpBelow(F, G, Cut(L, idx, |G|))
      requires delays == MoveUpBelow(D, G, Cut(L, idx, |G|))
      requires flags == MoveUpBelow(G, G, Cut(L, idx, |G|))
      modifies this`frames, this`delays, this`flags, this`frameIndex
      ensures Cut(L, idx + 1, |G|) <= |G|
      ensures frames == MoveUpBelow(F, G, Cut(L, idx + 1, |G|))
      ensures delays == MoveUpBelow(D, G, Cut(L, idx + 1, |G|))
      ensures flags == MoveUpBelow(G, G, Cut(L, idx + 1, |G|))
      ensures frameIndex == old(frameIndex)
    {
      var i := L[idx];
      if i > 0 && i - 1 !in L {
        SwapTurn(i, i - 1);
      }
      UpTurn(F, G, idx);
      UpTurn(D, G, idx);
      UpTurnFlags(G, idx);
    }

    /** move_frame_down as written: the mirror image of move_frame_up, from
        the bottom; again the active index stays where it was. */
    method MoveFrameDown()
      requires Valid()
      modifies this`frames, this`delays, this`flags, this`frameIndex, this`history, this`redoStack
      ensures Valid()
      ensures history == old(history) + [old(Doc())] && redoStack == [] && currentFile == old(currentFile)
      ensures frames == MoveDown(old(frames), old(flags))
      ensures delays == MoveDown(old(delays), old(flags))
      ensures flags == MoveDown(old(flags), old(flags))
      ensures frameIndex == old(frameIndex)
      ensures |frames| > 0 ==> frames[frameIndex] == old(frames)[DownTarget(old(flags), old(frameIndex))]
    {
      SaveState();
      MoveCheckedDown();
    }

    /** The swap loop of move_frame_down. */
    method MoveCheckedDown()
      requires |delays| == |frames| && |flags| == |frames|
      modifies this`frames, this`delays, this`flags, this`frameIndex
      ensures frames == MoveDown(old(frames), old(flags))
      ensures delays == MoveDown(old(delays), old(flags))
      ensures flags == MoveDown(old(flags), old(flags))
      ensures frameIndex == old(frameIndex)
    {
      var L := Indices(flags);
      ghost var F, D, G := frames, delays, flags;
      var n := |frames|;
      DownStart(F, G);
      DownStart(D, G);
      DownStart(G, G);
      var idx := |L|;
      while idx > 0
        invariant 0 <= idx <= |L| && Cut(L, idx, |G|) <= n
        invariant frames == MoveDownAbove(F, G, Cut(L, idx, |G|))
        invariant delays == MoveDownAbove(D, G, Cut(L, idx, |G|))
        invariant flags == MoveDownAbove(G, G, Cut(L, idx, |G|))
        invariant frameIndex == old(frameIndex)
      {
        DownSwapAt(L, idx, F, D, G);
        idx := idx - 1;
      }
      assert idx == 0;
      DownEnd(F, G);
      DownEnd(D, G);
      DownEnd(G, G);
    }

    /** One turn of the downward loop: the checked position i = L[idx - 1]
        trades places with i + 1 through swap_frames when i + 1 is not
        checked; the entries so far form MoveDownAbove and the index stays
        put. */
    method DownSwapAt(L: seq<nat>, idx: nat, ghost F: seq<Img>, ghost D: seq<int>, ghost G: seq<bool>)
      requires |F| == |D| == |G| && L == Indices(G) && 0 < idx <= |L|
      requires frames == MoveDownAbove(F, G, Cut(L, idx, |G|))
      requires delays == MoveDownAbove(D, G, Cut(L, idx, |G|))
      requires flags == MoveDownAbove(G, G, Cut(L, idx, |G|))
      modifies this`frames, this`delays, this`flags, this`frameIndex
      ensures Cut(L, idx - 1, |G|) <= |G|
      ensures frames == MoveDownAbove(F, G, Cut(L, idx - 1, |G|))
      ensures delays == MoveDownAbove(D, G, Cut(L, idx - 1, |G|))
      ensures flags == MoveDownAbove(G, G, Cut(L, idx - 1, |G|))
      ensures frameIndex == old(frameIndex)
    {
      var i := L[idx - 1];
      DownTurn(F, G, idx);
      DownTurn(D, G, idx);
      DownTurnFlags(G, idx);
      if i < |frames| - 1 && i + 1 !in L {
        SwapTurn(i, i + 1);
      }
    }

    // -------------------------------------------------------------------
    // Clipboard

    /** copy_frames: the clipboard becomes the checked (frame, delay) pairs,
        in order; nothing else changes. The status is the message shown. */
    method CopyFrames() returns (st: Status)
      requires Valid()
      modifies this`clipboard
      ensures clipboard == Pick(Zip(frames, delays), flags)
      ensures Firsts(clipboard) == Pick(frames, flags) && Seconds(clipboard) == Pick(delays, flags)
      ensures st == if |clipboard| == 0 then NoSelection else Done
    {
      clipboard := Pick(Zip(frames, delays), flags);
      PickZip(frames, delays, flags);
      st := if |clipboard| == 0 then NoSelection else Done;
    }

    /** paste_frames: with an empty clipboard, an error and no change.
        Otherwise a snapshot, then the clipboard's frames and delays
        inserted one by one just past the highest checked position (at the
        end when nothing is checked), each with a new, unchecked check box.
        The clipboard is kept, so the paste can be repeated. */
    method PasteFrames() returns (st: Status)
      requires Valid()
      modifies this`frames, this`delays, this`flags, this`frameIndex, this`history, this`redoStack
      ensures Valid()
      ensures |clipboard| == 0 ==> st == EmptyClipboard && State() == old(State())
      ensures |clipboard| > 0 ==>
        st == Done && history == old(history) + [old(Doc())] && redoStack == [] &&
        frames == Paste(old(frames), old(flags), Firsts(clipboard)) &&
        delays == Paste(old(delays), old(flags), Seconds(clipboard)) &&
        flags == Paste(old(flags), old(flags), Falses(|clipboard|)) &&
        frameIndex == old(frameIndex) && currentFile == old(currentFile)
    {
      if |clipboard| == 0 {
        return EmptyClipboard;
      }
      var insertIndex := PastePoint(flags);
      SaveState();
      InsertRun(insertIndex, Firsts(clipboard), Seconds(clipboard), false);
      st := Done;
    }

    /** The insertion loops of paste_frames and apply_crossfade_effect: the
        frames and delays inserted one by one from position p on, each with
        a new check box holding `checked`. */
    method InsertRun(p: nat, fs: seq<Img>, ds: seq<int>, checked: bool)
      requires p <= |frames| && |fs| == |ds| && |delays| == |frames| && |flags| == |frames|
      modifies this`frames, this`delays, this`flags
      ensures frames == Splice(old(frames), p, fs)
      ensures delays == Splice(old(delays), p, ds)
      ensures flags == Splice(old(flags), p, if checked then Trues(|fs|) else Falses(|fs|))
    {
      ghost var F, D, G := frames, delays, flags;
      ghost var bf := if checked then Trues(|fs|) else Falses(|fs|);
      assert frames == Splice(F, p, fs[..0]);
      assert delays == Splice(D, p, ds[..0]);
      assert flags == Splice(G, p, bf[..0]);
      var insertIndex := p;
      var k := 0;
      while k < |fs|
        invariant 0 <= k <= |fs| && insertIndex == p + k
        invariant frames == Splice(F, p, fs[..k])
        invariant delays == Splice(D, p, ds[..k])
        invariant flags == Splice(G, p, bf[..k])
      {
        InsertNext(F, p, fs, k);
        InsertNext(D, p, ds, k);
        InsertNext(G, p, bf, k);
        frames := Insert(frames, insertIndex, fs[k]);
        delays := Insert(delays, insertIndex, ds[k]);
        flags := Insert(flags, insertIndex, checked);
        insertIndex := insertIndex + 1;
        k := k + 1;
      }
      assert fs[..k] == fs && ds[..k] == ds && bf[..k] == bf;
    }

    // -------------------------------------------------------------------
    // Crossfade

    /** apply_crossfade_effect. `blend(a, b, s)` is Image.blend with weight
        s / 10. With fewer than two checked frames, a notice and no change.
        Otherwise a snapshot; each consecutive checked pair contributes its
        first frame with its delay and nine blends with a tenth of it; the
        checked frames are removed and that block, all checked, is inserted
        where the first checked frame was. The active index is left as it
        is. When two consecutive checked frames differ in size, Image.blend
        raises while the block is being built: the snapshot is already
        pushed, no frame has changed, and the exception is not caught. */
    method ApplyCrossfadeEffect(blend: (Img, Img, nat) -> Img) returns (st: Status)
      requires Valid()
      modifies this`frames, this`delays, this`flags, this`frameIndex, this`history, this`redoStack
      ensures Valid()
      ensures |Indices(old(flags))| < 2 ==> st == TooFewChecked && State() == old(State())
      ensures |Indices(old(flags))| >= 2 ==>
        history == old(history) + [old(Doc())] && redoStack == [] &&
        (st == Failed <==> !Blendable(old(frames), Indices(old(flags))))
      ensures |Indices(old(flags))| >= 2 && st == Failed ==> Doc() == old(Doc())
      ensures |Indices(old(flags))| >= 2 && st != Failed ==>
        var L := Indices(old(flags));
        st == Done &&
        frames == Crossfade(old(frames), old(flags), FadeFrames(old(frames), L, blend)) &&
        delays == Crossfade(old(delays), old(flags), FadeDelays(old(delays), L)) &&
        flags == Crossfade(old(flags), old(flags), Trues(|FadeFrames(old(frames), L, blend)|)) &&
        frameIndex == old(frameIndex) && currentFile == old(currentFile)
    {
      var L := Indices(flags);
      if |L| < 2 {
        return TooFewChecked;
      }
      SaveState();
      var refused := CrossfadeChecked(L, blend);
      st := if refused then Failed else Done;
    }

    /** The edit apply_crossfade_effect makes after its snapshot: the block
        built, the checked frames removed, the block inserted, all checked;
        or, when a blend is refused, nothing. */
    method CrossfadeChecked(L: seq<nat>, blend: (Img, Img, nat) -> Img) returns (refused: bool)
      requires |delays| == |frames| && |flags| == |frames| && L == Indices(flags) && |L| >= 2
      modifies this`frames, this`delays, this`flags
      ensures refused <==> !Blendable(old(frames), L)
      ensures refused ==> frames == old(frames) && delays == old(delays) && flags == old(flags)
      ensures !refused ==> frames == Crossfade(old(frames), old(flags), FadeFrames(old(frames), L, blend))
      ensures !refused ==> delays == Crossfade(old(delays), old(flags), FadeDelays(old(delays), L))
      ensures !refused ==> flags == Crossfade(old(flags), old(flags), Trues(|FadeFrames(old(frames), L, blend)|))
      ensures !refused ==> |frames| == old(|frames|) + (Steps - 1) * |L| - Steps > old(|frames|)
      ensures |delays| == |frames| && |flags| == |frames|
    {
      ghost var F, D, G := frames, delays, flags;
      var crossfadeFrames, crossfadeDelays;
      crossfadeFrames, crossfadeDelays, refused := BuildCrossfade(L, blend);
      if refused {
        return;
      }
      FadeFramesLength(F, L, blend);
      FadeDelaysLength(D, L);
      PopChecked(L);
      CrossfadeLayout(F, G, crossfadeFrames);
      CrossfadeLayout(D, G, crossfadeDelays);
      CrossfadeLayout(G, G, Trues(|crossfadeFrames|));
      InsertRun(L[0], crossfadeFrames, crossfadeDelays, true);
    }

    /** The building loops of apply_crossfade_effect: for each consecutive
        checked pair, the first frame and its delay, then the nine blends
        with a tenth of that delay each. The first blend of a pair whose
        sizes differ raises, and the partial block is lost. */
    method BuildCrossfade(L: seq<nat>, blend: (Img, Img, nat) -> Img) returns (cf: seq<Img>, cd: seq<int>, refused: bool)
      requires |delays| == |frames| && |flags| == |frames| && L == Indices(flags) && |L| >= 2
      ensures refused <==> !Blendable(frames, L)
      ensures !refused ==> cf == FadeFrames(frames, L, blend)
      ensures !refused ==> cd == FadeDelays(delays, L)
    {
      cf, cd := [], [];
      var idx := 0;
      while idx < |L| - 1
        invariant 0 <= idx <= |L| - 1
        invariant cf == FadeFrames(frames, L[..idx + 1], blend)
        invariant cd == FadeDelays(delays, L[..idx + 1])
        invariant forall k :: 0 <= k < idx ==> SameSize(frames[L[k]], frames[L[k + 1]])
      {
        var i, j := L[idx], L[idx + 1];
        if !SameSize(frames[i], frames[j]) {
          return cf, cd, true;
        }
        FadeFramesNext(frames, L, blend, idx);
        FadeDelaysNext(delays, L, idx);
        cf, cd := AppendSegment(cf, cd, frames[i], frames[j], delays[i], blend);
        idx := idx + 1;
      }
      assert L[..idx + 1] == L;
      refused := false;
    }

    /** The inner loop: frame1 and its delay, then the blends for steps 1 to
        9 with delay // 10. */
    static method AppendSegment(cf0: seq<Img>, cd0: seq<int>, frame1: Img, frame2: Img, delay: int,
                                blend: (Img, Img, nat) -> Img) returns (cf: seq<Img>, cd: seq<int>)
      ensures cf == cf0 + Segment(frame1, frame2, blend)
      ensures cd == cd0 + DelaySegment(delay)
    {
      ghost var seg, dseg := Segment(frame1, frame2, blend), DelaySegment(delay);
      cf := cf0 + [frame1];
      cd := cd0 + [delay];
      assert seg[..1] == [frame1] && dseg[..1] == [delay];
      var step := 1;
      while step < Steps
        invariant 1 <= step <= Steps
        invariant cf == cf0 + seg[..step]
        invariant cd == cd0 + dseg[..step]
      {
        assert seg[..step + 1] == seg[..step] + [blend(frame1, frame2, step)];
        assert dseg[..step + 1] == dseg[..step] + [FloorDiv(delay, Steps)];
        cf := cf + [blend(frame1, frame2, step)];
        cd := cd + [FloorDiv(delay, Steps)];
        step := step + 1;
      }
      assert seg[..step] == seg && dseg[..step] == dseg;
    }

    // -------------------------------------------------------------------
    // Reversing

    /** reverse_frames: a snapshot, then, unless nothing is checked, the
        frames and delays at the checked positions written back in reverse
        order. The snapshot is taken even when nothing is checked. */
    method ReverseFrames() returns (st: Status)
      requires Valid()
      modifies this`frames, this`delays, this`flags, this`frameIndex, this`history, this`redoStack
      ensures Valid()
      ensures history == old(history) + [old(Doc())] && redoStack == []
      ensures st == if NoneSelected(old(flags)) then NoSelection else Done
      ensures frames == ReverseSelected(old(frames), old(flags))
      ensures delays == ReverseSelected(old(delays), old(flags))
      ensures Doc() == old(Doc()).(frames := frames, delays := delays)
    {
      SaveState();
      var L := Indices(flags);
      IndicesEmpty(flags);
      if |L| == 0 {
        assert Scatter(frames, L, Reverse(Gather(frames, L))) == frames;
        assert Scatter(delays, L, Reverse(Gather(delays, L))) == delays;
        return NoSelection;
      }
      var framesToReverse := Reverse(Gather(frames, L));
      var delaysToReverse := Reverse(Gather(delays, L));
      ScatterRun(L, framesToReverse, delaysToReverse);
      st := Done;
    }

    /** The write-back loop of reverse_frames: the k-th checked position
        receives the k-th of the given frames and delays. */
    method ScatterRun(L: seq<nat>, fv: seq<Img>, dv: seq<int>)
      requires |delays| == |frames| && |fv| == |L| && |dv| == |L|
      requires forall k :: 0 <= k < |L| ==> L[k] < |frames|
      modifies this`frames, this`delays
      ensures frames == Scatter(old(frames), L, fv)
      ensures delays == Scatter(old(delays), L, dv)
    {
      ghost var F, D := frames, delays;
      var idx := 0;
      assert L[..0] == [] && fv[..0] == [] && dv[..0] == [];
      while idx < |L|
        invariant 0 <= idx <= |L| && |delays| == |frames| == |F|
        invariant frames == Scatter(F, L[..idx], fv[..idx])
        invariant delays == Scatter(D, L[..idx], dv[..idx])
      {
        assert L[..idx + 1][..idx] == L[..idx];
        assert fv[..idx + 1][..idx] == fv[..idx];
        assert dv[..idx + 1][..idx] == dv[..idx];
        var i := L[idx];
        frames := frames[i := fv[idx]];
        delays := delays[i := dv[idx]];
        idx := idx + 1;
      }
      assert L[..idx] == L && fv[..idx] == fv && dv[..idx] == dv;
    }

    // -------------------------------------------------------------------
    // Crop and the effects

    /** The loop the effect actions share: every checked frame replaced by
        `f` of itself. */
    method ReplaceSelected(f: Img -> Img)
      requires |flags| == |frames|
      modifies this`frames
      ensures frames == MapSelected(old(frames), flags, f)
    {
      ghost var F := frames;
      var i := 0;
      while i < |flags|
        invariant 0 <= i <= |flags| && |frames| == |F| == |flags|
        invariant forall k :: 0 <= k < i ==> frames[k] == if flags[k] then f(F[k]) else F[k]
        invariant forall k :: i <= k < |frames| ==> frames[k] == F[k]
      {
        if flags[i] {
          frames := frames[i := f(frames[i])];
        }
        i := i + 1;
      }
      assert frames == MapSelected(F, flags, f);
    }

    /** crop_frames_dialog: both entries converted with int(); text that
        does not convert is an error with no change and no snapshot. A
        negative size passes int() but PIL refuses the box: crop_frames has
        already saved the state, the frames stay as they were, and the
        dialog shows the same error. */
    method CropFramesDialog(widthText: string, heightText: string, crop: (Img, Geometry.Box) -> Img) returns (st: Status)
      requires Valid()
      modifies this`frames, this`delays, this`flags, this`frameIndex, this`history, this`redoStack
      ensures Valid()
      ensures Text.ParseInt(widthText).None? || Text.ParseInt(heightText).None? ==>
        st == InvalidInput && State() == old(State())
      ensures Text.ParseInt(widthText).Some? && Text.ParseInt(heightText).Some? ==>
        var cw, ch := Text.ParseInt(widthText).value, Text.ParseInt(heightText).value;
        history == old(history) + [old(Doc())] && redoStack == [] &&
        (if (cw < 0 || ch < 0) && !NoneSelected(old(flags)) then st == InvalidInput && Doc() == old(Doc())
         else st == Done && Doc() == old(Doc()).(frames := MapSelected(old(frames), old(flags), img => Cropped(img, cw, ch, crop))))
    {
      var cw := Text.ParseInt(widthText);
      if cw.None? {
        return InvalidInput;
      }
      var ch := Text.ParseInt(heightText);
      if ch.None? {
        return InvalidInput;
      }
      var refused := CropFrames(cw.value, ch.value, crop);
      st := if refused then InvalidInput else Done;
    }

    /** crop_frames: a snapshot, then every checked frame cut to the box
        centred on it whose width and height are the requested ones (PIL's
        `crop` is the parameter). Delays, check marks and the other frames
        are unchanged. `refused` is the ValueError PIL raises at the first
        checked frame when a size is negative; it leaves the snapshot
        pushed and every frame as it was. */
    method CropFrames(cropWidth: int, cropHeight: int, crop: (Img, Geometry.Box) -> Img) returns (refused: bool)
      requires Valid()
      modifies this`frames, this`delays, this`flags, this`frameIndex, this`history, this`redoStack
      ensures Valid()
      ensures history == old(history) + [old(Doc())] && redoStack == []
      ensures refused <==> (cropWidth < 0 || cropHeight < 0) && !NoneSelected(old(flags))
      ensures refused ==> frames == old(frames)
      ensures !refused ==> frames == MapSelected(old(frames), old(flags), img => Cropped(img, cropWidth, cropHeight, crop))
      ensures !refused ==> forall i :: 0 <= i < |frames| && flags[i] ==>
        exists b: Geometry.Box ::
          (frames[i] == crop(old(frames)[i], b) && b.right - b.left == cropWidth && b.bottom - b.top == cropHeight)
      ensures Doc() == old(Doc()).(frames := frames)
    {
      SaveState();
      ghost var F := frames;
      refused := CropChecked(cropWidth, cropHeight, crop);
      if !refused {
        forall i | 0 <= i < |frames| && flags[i]
          ensures exists b: Geometry.Box ::
            (frames[i] == crop(F[i], b) && b.right - b.left == cropWidth && b.bottom - b.top == cropHeight)
        {
          var b := Geometry.CropBox(F[i].width, F[i].height, cropWidth, cropHeight);
          assert frames[i] == crop(F[i], b);
        }
      }
    }

    /** The loop of crop_frames: from the top, each checked frame is
        replaced by its crop, until PIL refuses a box. Since the box is
        refused exactly when a size is negative, the refusal comes at the
        first checked frame, before anything has changed. */
    method CropChecked(cropWidth: int, cropHeight: int, crop: (Img, Geometry.Box) -> Img) returns (refused: bool)
      requires |flags| == |frames|
      modifies this`frames
      ensures refused <==> (cropWidth < 0 || cropHeight < 0) && !NoneSelected(flags)
      ensures refused ==> frames == old(frames)
      ensures !refused ==> frames == MapSelected(old(frames), flags, img => Cropped(img, cropWidth, cropHeight, crop))
    {
      ghost var F := frames;
      var i := 0;
      while i < |flags|
        invariant 0 <= i <= |flags| && |frames| == |F| == |flags|
        invariant forall k :: 0 <= k < i ==> frames[k] == if flags[k] then Cropped(F[k], cropWidth, cropHeight, crop) else F[k]
        invariant forall k :: i <= k < |frames| ==> frames[k] == F[k]
        invariant cropWidth < 0 || cropHeight < 0 ==> forall k :: 0 <= k < i ==> !flags[k]
      {
        if flags[i] {
          var b := Geometry.CropBox(frames[i].width, frames[i].height, cropWidth, cropHeight);
          if Geometry.Refused(b) {
            assert frames == F;
            return true;
          }
          frames := frames[i := crop(frames[i], b)];
        }
        i := i + 1;
      }
      assert frames == MapSelected(F, flags, img => Cropped(img, cropWidth, cropHeight, crop));
      return false;
    }

    /** desaturate_frames: a snapshot, then every checked frame converted to
        grey and back (the conversion is the parameter). */
    method DesaturateFrames(desaturate: Img -> Img)
      requires Valid()
      modifies this`frames, this`delays, this`flags, this`frameIndex, this`history, this`redoStack
      ensures Valid()
      ensures history == old(history) + [old(Doc())] && redoStack == []
      ensures frames == MapSelected(old(frames), old(flags), desaturate)
      ensures Doc() == old(Doc()).(frames := frames)
    {
      SaveState();
      ReplaceSelected(desaturate);
    }

    /** apply_invert_colors_effect: a snapshot, then every checked frame
        replaced by its negative (ImageOps.invert is the parameter). */
    method ApplyInvertColorsEffect(invert: Img -> Img)
      requires Valid()
      modifies this`frames, this`delays, this`flags, this`frameIndex, this`history, this`redoStack
      ensures Valid()
      ensures history == old(history) + [old(Doc())] && redoStack == []
      ensures frames == MapSelected(old(frames), old(flags), invert)
      ensures Doc() == old(Doc()).(frames := frames)
    {
      SaveState();
      ReplaceSelected(invert);
    }

    /** apply_tint. `color` and `intensity` are the two dialogs' answers
        (None when cancelled); tint_image is the parameter. A colour that is
        missing, empty or not "#" and six characters is an error, and so is
        a missing intensity or one outside 0..100; neither takes a snapshot.
        Otherwise a snapshot and every checked frame tinted. A colour whose
        six characters are not all hexadecimal makes tint_image raise at the
        first checked frame: the snapshot is pushed, no frame has changed,
        and the exception is not caught. */
    method ApplyTint(color: Option<string>, intensity: Option<int>, tint: (Img, string, int) -> Img) returns (st: Status)
      requires Valid()
      modifies this`frames, this`delays, this`flags, this`frameIndex, this`history, this`redoStack
      ensures Valid()
      ensures !(color.Some? && ValidColorCode(color.value) && intensity.Some? && ValidIntensity(intensity.value)) ==>
        st == InvalidInput && State() == old(State())
      ensures color.Some? && ValidColorCode(color.value) && intensity.Some? && ValidIntensity(intensity.value) ==>
        history == old(history) + [old(Doc())] && redoStack == [] &&
        (st == Failed <==> !HexColor(color.value) && !NoneSelected(old(flags))) &&
        (st == Failed ==> Doc() == old(Doc())) &&
        (st != Failed ==>
           st == Done &&
           Doc() == old(Doc()).(frames := MapSelected(old(frames), old(flags), img => tint(img, color.value, intensity.value))))
    {
      if color.None? || color.value == "" || !ValidColorCode(color.value) {
        return InvalidInput;
      }
      if intensity.None? || !ValidIntensity(intensity.value) {
        return InvalidInput;
      }
      var c, k := color.value, intensity.value;
      SaveState();
      var refused := ReplaceSelectedOrRaise(img => tint(img, c, k), !HexColor(c));
      st := if refused then Failed else Done;
    }

    /** The per-frame loop of an effect that raises, on every frame alike,
        when `raises` holds: the exception comes at the first checked frame,
        before any frame has changed. Otherwise the checked frames are
        replaced as in ReplaceSelected. */
    method ReplaceSelectedOrRaise(f: Img -> Img, raises: bool) returns (refused: bool)
      requires |flags| == |frames|
      modifies this`frames
      ensures refused <==> raises && !NoneSelected(flags)
      ensures refused ==> frames == old(frames)
      ensures !refused ==> frames == MapSelected(old(frames), flags, f)
    {
      ghost var F := frames;
      var i := 0;
      while i < |flags|
        invariant 0 <= i <= |flags| && |frames| == |F| == |flags|
        invariant forall k :: 0 <= k < i ==> frames[k] == if flags[k] then f(F[k]) else F[k]
        invariant forall k :: i <= k < |frames| ==> frames[k] == F[k]
        invariant raises ==> forall k :: 0 <= k < i ==> !flags[k]
      {
        if flags[i] {
          if raises {
            assert frames == F;
            return true;
          }
          frames := frames[i := f(frames[i])];
        }
        i := i + 1;
      }
      assert frames == MapSelected(F, flags, f);
      return false;
    }

    /** The sepia dialog's Apply button: the entry converted with int();
        text that does not convert, or an intensity outside 0..100, is an
        error with no change and no snapshot. Otherwise a snapshot, then
        apply_sepia_effect. */
    method ApplySepiaEffectDialog(entry: string, sepia: (Img, int) -> Img) returns (st: Status)
      requires Valid()
      modifies this`frames, this`delays, this`flags, this`frameIndex, this`history, this`redoStack
      ensures Valid()
      ensures !(Text.ParseInt(entry).Some? && ValidIntensity(Text.ParseInt(entry).value)) ==>
        st == InvalidInput && State() == old(State())
      ensures Text.ParseInt(entry).Some? && ValidIntensity(Text.ParseInt(entry).value) ==>
        st == Done && history == old(history) + [old(Doc())] && redoStack == [] &&
        frames == MapSelected(old(frames), old(flags), img => sepia(img, Text.ParseInt(entry).value)) &&
        Doc() == old(Doc()).(frames := frames)
    {
      var parsed := Text.ParseInt(entry);
      if parsed.None? || !ValidIntensity(parsed.value) {
        return InvalidInput;
      }
      SaveState();
      ApplySepiaEffect(parsed.value, sepia);
      st := Done;
    }

    /** apply_sepia_effect: every checked frame turned sepia at the given
        intensity; it takes no snapshot itself. */
    method ApplySepiaEffect(intensity: int, sepia: (Img, int) -> Img)
      requires |flags| == |frames|
      modifies this`frames
      ensures frames == MapSelected(old(frames), flags, img => sepia(img, intensity))
    {
      ReplaceSelected(img => sepia(img, intensity));
    }

    /** The rotation dialog's Apply button: for "Rotate Custom" the angle
        entry is converted with int(), and text that does not convert is an
        error with no change and no snapshot; the other choices use angle 0. */
    method RotateFramesDialog(option: Rotation, angleText: string,
                              flip: Img -> Img, mirror: Img -> Img, rotate: (Img, int) -> Img) returns (st: Status)
      requires Valid()
      modifies this`frames, this`delays, this`flags, this`frameIndex, this`history, this`redoStack
      ensures Valid()
      ensures option == RotateCustom && Text.ParseInt(angleText).None? ==> st == InvalidInput && State() == old(State())
      ensures !(option == RotateCustom && Text.ParseInt(angleText).None?) ==>
        var angle := if option == RotateCustom then Text.ParseInt(angleText).value else 0;
        st == Done && history == old(history) + [old(Doc())] && redoStack == [] &&
        frames == MapSelected(old(frames), old(flags), img => Rotated(img, option, angle, flip, mirror, rotate)) &&
        Doc() == old(Doc()).(frames := frames)
    {
      var angle := 0;
      if option == RotateCustom {
        var parsed := Text.ParseInt(angleText);
        if parsed.None? {
          return InvalidInput;
        }
        angle := parsed.value;
      }
      ApplyRotationEffect(option, angle, flip, mirror, rotate);
      st := Done;
    }

    /** apply_rotation_effect: a snapshot, then every checked frame flipped,
        mirrored or rotated as the choice says. */
    method ApplyRotationEffect(option: Rotation, customAngle: int,
                               flip: Img -> Img, mirror: Img -> Img, rotate: (Img, int) -> Img)
      requires Valid()
      modifies this`frames, this`delays, this`flags, this`frameIndex, this`history, this`redoStack
      ensures Valid()
      ensures history == old(history) + [old(Doc())] && redoStack == []
      ensures frames == MapSelected(old(frames), old(flags), img => Rotated(img, option, customAngle, flip, mirror, rotate))
      ensures Doc() == old(Doc()).(frames := frames)
    {
      SaveState();
      ReplaceSelected(img => Rotated(img, option, customAngle, flip, mirror, rotate));
    }

    // -------------------------------------------------------------------
    // Delays

    /** set_delay: the entry text is converted with int() before anything
        changes; text that does not convert is an error with no change and no
        snapshot. Otherwise a snapshot and the value on every checked frame.
        The entry's validator only admits digit strings and the empty text,
        so of those only the empty text is refused, and the delay set is
        never negative. */
    method SetDelay(entry: string) returns (st: Status)
      requires Valid()
      modifies this`frames, this`delays, this`flags, this`frameIndex, this`history, this`redoStack
      ensures Valid()
      ensures Text.ParseInt(entry).None? ==> st == InvalidInput && State() == old(State())
      ensures Text.ParseInt(entry).Some? ==>
        st == Done && history == old(history) + [old(Doc())] && redoStack == [] &&
        delays == SetSelected(old(delays), old(flags), Text.ParseInt(entry).value) &&
        Doc() == old(Doc()).(delays := delays)
      ensures Text.ValidateDelay(entry) ==>
        (st == InvalidInput <==> entry == "") && (st == Done ==> Text.ParseInt(entry).value >= 0)
    {
      if Text.ValidateDelay(entry) {
        Text.ValidatedDelayParses(entry);
      }
      var parsed := Text.ParseInt(entry);
      if parsed.None? {
        return InvalidInput;
      }
      var delay := parsed.value;
      SaveState();
      SetCheckedDelays(delay);
      st := Done;
    }

    /** The loop of set_delay: every checked frame's delay set to `delay`. */
    method SetCheckedDelays(delay: int)
      requires |delays| == |flags|
      modifies this`delays
      ensures delays == SetSelected(old(delays), flags, delay)
    {
      ghost var D := delays;
      var i := 0;
      while i < |flags|
        invariant 0 <= i <= |flags| && |delays| == |D| == |flags|
        invariant forall k :: 0 <= k < i ==> delays[k] == if flags[k] then delay else D[k]
        invariant forall k :: i <= k < |delays| ==> delays[k] == D[k]
      {
        if flags[i] {
          delays := delays[i := delay];
        }
        i := i + 1;
      }
      assert delays == SetSelected(D, flags, delay);
    }

    // -------------------------------------------------------------------
    // Check boxes

    /** toggle_check_all: a snapshot, then the check-all state flipped and
        every check box set to the new state. */
    method ToggleCheckAll()
      requires Valid()
      modifies this`flags, this`checkAll, this`history, this`redoStack
      ensures Valid()
      ensures history == old(history) + [old(Doc())] && redoStack == []
      ensures checkAll == !old(checkAll)
      ensures flags == if checkAll then Trues(|frames|) else Falses(|frames|)
      ensures Doc() == old(Doc()).(flags := flags)
    {
      SaveState();
      var newState := !checkAll;
      checkAll := newState;
      var i := 0;
      while i < |flags|
        invariant 0 <= i <= |flags| && |flags| == |frames|
        invariant forall k :: 0 <= k < i ==> flags[k] == newState
        modifies this`flags
      {
        flags := flags[i := newState];
        i := i + 1;
      }
      assert flags == if newState then Trues(|frames|) else Falses(|frames|);
    }

    /** toggle_frame: flip the check box of the given frame, without a
        snapshot (the index comes from the frame list and is always one of
        its rows). */
    method ToggleFrame(index: nat)
      requires Valid() && index < |flags|
      modifies this`flags
      ensures Valid()
      ensures flags == old(flags)[index := !old(flags)[index]]
    {
      flags := flags[index := !flags[index]];
    }

    /** toggle_checkbox: flip the active frame's check box, without a
        snapshot; nothing happens when there are no frames. */
    method ToggleCheckbox()
      requires Valid()
      modifies this`flags
      ensures Valid()
      ensures |flags| > 0 ==> flags == old(flags)[frameIndex := !old(flags)[frameIndex]]
      ensures |flags| == 0 ==> flags == old(flags)
    {
      if |flags| > 0 {
        flags := flags[frameIndex := !flags[frameIndex]];
      }
    }

    // -------------------------------------------------------------------
    // Playback and navigation

    /** toggle_play_pause: stop when playing, start otherwise. */
    method TogglePlayPause() returns (wait: Option<int>)
      requires Valid()
      modifies this`isPlaying, this`frameIndex
      ensures Valid() && isPlaying == !old(isPlaying)
      ensures Doc() == old(Doc()).(frameIndex := frameIndex)
      ensures old(isPlaying) ==> wait == None && frameIndex == old(frameIndex)
      ensures !old(isPlaying) && |frames| > 0 ==>
        wait == Some(old(delays[frameIndex])) && frameIndex == Playback.Next(old(frameIndex), |frames|)
      ensures !old(isPlaying) && |frames| == 0 ==> wait == None && frameIndex == old(frameIndex)
    {
      if isPlaying {
        StopAnimation();
        wait := None;
      } else {
        wait := PlayAnimation();
      }
    }

    /** play_animation: start playing and run the first tick at once. */
    method PlayAnimation() returns (wait: Option<int>)
      requires Valid()
      modifies this`isPlaying, this`frameIndex
      ensures Valid() && isPlaying
      ensures Doc() == old(Doc()).(frameIndex := frameIndex)
      ensures |frames| > 0 ==> wait == Some(old(delays[frameIndex])) && frameIndex == Playback.Next(old(frameIndex), |frames|)
      ensures |frames| == 0 ==> wait == None && frameIndex == old(frameIndex)
    {
      isPlaying := true;
      wait := PlayNextFrame();
    }

    /** stop_animation: later ticks do nothing. */
    method StopAnimation()
      modifies this`isPlaying
      ensures !isPlaying
    {
      isPlaying := false;
    }

    /** play_next_frame: while playing with frames present, report the active
        frame's delay as the wait before the next tick and advance the index,
        wrapping round at the end. */
    method PlayNextFrame() returns (wait: Option<int>)
      requires Valid()
      modifies this`frameIndex
      ensures Valid()
      ensures isPlaying && |frames| > 0 ==>
        wait == Some(delays[old(frameIndex)]) && frameIndex == Playback.Next(old(frameIndex), |frames|)
      ensures !(isPlaying && |frames| > 0) ==> wait == None && frameIndex == old(frameIndex)
    {
      if isPlaying && |frames| > 0 {
        wait := Some(delays[frameIndex]);
        frameIndex := (frameIndex + 1) % |frames|;
      } else {
        wait := None;
      }
    }

    /** previous_frame: step back unless at the first frame. */
    method PreviousFrame()
      requires Valid()
      modifies this`frameIndex
      ensures Valid()
      ensures frameIndex == if old(frameIndex) > 0 then old(frameIndex) - 1 else old(frameIndex)
    {
      if frameIndex > 0 {
        frameIndex := frameIndex - 1;
      }
    }

    /** next_frame: step forward unless at the last frame. */
    method NextFrame()
      requires Valid()
      modifies this`frameIndex
      ensures Valid()
      ensures frameIndex == if old(frameIndex) + 1 < |frames| then old(frameIndex) + 1 else old(frameIndex)
    {
      if frameIndex < |frames| - 1 {
        frameIndex := frameIndex + 1;
      }
    }
  }
}

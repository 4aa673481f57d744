/** GIFCraft-REF.py: the revision that moves exactly one checked frame at a
    time, pastes the clipboard checked, resizes the checked frames, and
    remembers the size of the first frame (base_size). */
module GifCraftRef {
  import opened Model
  import opened Selection
  import opened Lists
  import opened Edits
  import Text
  import Geometry
  import History
  import Playback

  /** The answer to "Do you want to save the current file before creating a
      new one?". */
  datatype Answer = Yes | No | Cancel

  /** Whether new_file, as written, goes on to clear the editor. With frames
      present only "No" gets there: after "Yes" the frames are still there
      once save returns, so the method returns early. */
  function NewFileResets(hasFrames: bool, answer: Answer): bool {
    !hasFrames || answer == No
  }

  /** Whether new_file clears the editor once the early return is taken
      only when the save did not happen, as its comment describes. */
  function NewFileResetsAfterSave(hasFrames: bool, answer: Answer, saved: bool): bool {
    !hasFrames || answer == No || (answer == Yes && saved)
  }

  /** As written, answering "Yes" ends like answering "Cancel", whatever the
      save did: the work is saved but the editor is never cleared. */
  lemma NewFileYesIsCancel()
    ensures NewFileResets(true, Yes) == NewFileResets(true, Cancel) == false
    ensures NewFileResetsAfterSave(true, Yes, true) != NewFileResets(true, Yes)
  {
  }

  /** The intended behaviour: frames are only ever discarded when the user
      said "No" or after they were saved, "Cancel" always keeps them, and a
      successful save is followed by the reset. */
  lemma NewFileSavesBeforeDiscarding(hasFrames: bool, answer: Answer, saved: bool)
    ensures NewFileResetsAfterSave(hasFrames, answer, saved) && hasFrames ==> answer == No || saved
    ensures hasFrames && answer == Cancel ==> !NewFileResetsAfterSave(hasFrames, answer, saved)
    ensures hasFrames && answer == Yes ==> NewFileResetsAfterSave(hasFrames, answer, saved) == saved
    ensures NewFileResets(hasFrames, answer) ==> NewFileResetsAfterSave(hasFrames, answer, saved)
  {
  }

  class GifEditor {
    var frames: seq<Img>
    var delays: seq<int>
    var flags: seq<bool>
    var frameIndex: nat
    var currentFile: Option<string>
    var history: seq<Snapshot>
    var redoStack: seq<Snapshot>
    var isPlaying: bool
    var checkAll: bool
    var clipboard: seq<(Img, int)>
    var baseSize: Option<(nat, nat)>

    /** The document as save_state records it. */
    function Doc(): Snapshot
      reads this
    {
      Snapshot(frames, delays, flags, frameIndex, currentFile)
    }

    /** The document together with both history stacks. */
    function State(): History.Session
      reads this
    {
      History.Session(Doc(), history, redoStack)
    }

    predicate Valid()
      reads this
    {
      History.SessionOk(State())
    }

    /** The initial settings. The clipboard and base_size only come into
        being later in the source; here they start empty. */
    constructor ()
      ensures Valid()
      ensures frames == [] && delays == [] && flags == [] && frameIndex == 0 && currentFile == None
      ensures history == [] && redoStack == [] && !isPlaying && !checkAll
      ensures clipboard == [] && baseSize == None
    {
      frameIndex := 0;
      frames := [];
      delays := [];
      isPlaying := false;
      history := [];
      redoStack := [];
      currentFile := None;
      flags := [];
      checkAll := false;
      clipboard := [];
      baseSize := None;
    }

    /** new_file as written. `afterSave` is the current file once save has
        run (save_as sets it to the chosen path); the writing itself is file
        I/O. The undo stacks, the clipboard and the playback state are kept. */
    method NewFile(answer: Answer, afterSave: Option<string>) returns (reset: bool)
      requires Valid()
      modifies this
      ensures Valid()
      ensures reset == NewFileResets(old(|frames|) > 0, answer)
      ensures reset ==>
        frames == [] && delays == [] && flags == [] && currentFile == None && frameIndex == 0 && baseSize == None
      ensures !reset ==>
        frames == old(frames) && delays == old(delays) && flags == old(flags) &&
        frameIndex == old(frameIndex) && baseSize == old(baseSize) &&
        currentFile == if answer == Yes then afterSave else old(currentFile)
      ensures history == old(history) && redoStack == old(redoStack) && clipboard == old(clipboard)
      ensures isPlaying == old(isPlaying) && checkAll == old(checkAll)
    {
      if |frames| > 0 {
        if answer == Yes {
          currentFile := afterSave;
          if |frames| > 0 {
            return false;
          }
        } else if answer == Cancel {
          return false;
        }
      }
      frames := [];
      delays := [];
      flags := [];
      currentFile := None;
      frameIndex := 0;
      baseSize := None;
      reset := true;
    }

    /** new_file with the early return taken only when the save did not
        happen (`saved` is the outcome of the file I/O). */
    method NewFileAfterSave(answer: Answer, afterSave: Option<string>, saved: bool) returns (reset: bool)
      requires Valid()
      modifies this
      ensures Valid()
      ensures reset == NewFileResetsAfterSave(old(|frames|) > 0, answer, saved)
      ensures reset ==>
        frames == [] && delays == [] && flags == [] && currentFile == None && frameIndex == 0 && baseSize == None
      ensures !reset ==>
        frames == old(frames) && delays == old(delays) && flags == old(flags) &&
        frameIndex == old(frameIndex) && baseSize == old(baseSize) &&
        currentFile == if answer == Yes then afterSave else old(currentFile)
      ensures history == old(history) && redoStack == old(redoStack) && clipboard == old(clipboard)
      ensures isPlaying == old(isPlaying) && checkAll == old(checkAll)
    {
      if |frames| > 0 {
        if answer == Yes {
          currentFile := afterSave;
          if !saved {
            return false;
          }
        } else if answer == Cancel {
          return false;
        }
      }
      frames := [];
      delays := [];
      flags := [];
      currentFile := None;
      frameIndex := 0;
      baseSize := None;
      reset := true;
    }

    /** save_state: push a copy of the document, empty the redo stack. */
    method SaveState()
      requires Valid()
      modifies this`history, this`redoStack
      ensures Valid()
      ensures State() == History.Save(old(State()))
    {
      history := history + [Doc()];
      redoStack := [];
    }

    /** undo: with history, push the document on the redo stack, restore the
        latest snapshot, take base_size from the first restored frame and
        clear check-all; otherwise do nothing. */
    method Undo()
      requires Valid()
      modifies this`frames, this`delays, this`flags, this`frameIndex, this`currentFile, this`history, this`redoStack, this`checkAll, this`baseSize
      ensures Valid()
      ensures State() == History.Undo(old(State()))
      ensures |old(history)| > 0 ==>
        baseSize == (if |frames| > 0 then Some((frames[0].width, frames[0].height)) else None) && !checkAll
      ensures |old(history)| == 0 ==> baseSize == old(baseSize) && checkAll == old(checkAll)
    {
      ghost var s0 := State();
      History.Preserved(s0);
      if |history| > 0 {
        redoStack := redoStack + [Doc()];
        var s := history[|history| - 1];
        history := history[..|history| - 1];
        frames, delays, flags, frameIndex, currentFile := s.frames, s.delays, s.flags, s.frameIndex, s.currentFile;
        baseSize := if |frames| > 0 then Some((frames[0].width, frames[0].height)) else None;
        checkAll := false;
      }
    }

    /** redo: the mirror image of undo, except that base_size is left alone. */
    method Redo()
      requires Valid()
      modifies this`frames, this`delays, this`flags, this`frameIndex, this`currentFile, this`history, this`redoStack, this`checkAll
      ensures Valid()
      ensures State() == History.Redo(old(State()))
      ensures |old(redoStack)| > 0 ==> !checkAll
      ensures |old(redoStack)| == 0 ==> checkAll == old(checkAll)
    {
      ghost var s0 := State();
      History.Preserved(s0);
      if |redoStack| > 0 {
        history := history + [Doc()];
        var s := redoStack[|redoStack| - 1];
        redoStack := redoStack[..|redoStack| - 1];
        frames, delays, flags, frameIndex, currentFile := s.frames, s.delays, s.flags, s.frameIndex, s.currentFile;
        checkAll := false;
      }
    }

    /** delete_frames: with no frames, an error and no change. Otherwise a
        snapshot, then every checked frame deleted from the highest index
        down, and the active index pulled back into the shorter list. With
        nothing checked the snapshot is still taken. */
    method DeleteFrames() returns (st: Status)
      requires Valid()
      modifies this`frames, this`delays, this`flags, this`frameIndex, this`history, this`redoStack
      ensures Valid()
      ensures old(|frames|) == 0 ==> st == NoFrames && State() == old(State())
      ensures old(|frames|) > 0 ==>
        st == (if NoneSelected(old(flags)) then NoSelection else Done) &&
        history == old(history) + [old(Doc())] && redoStack == [] &&
        frames == Drop(old(frames), old(flags)) &&
        delays == Drop(old(delays), old(flags)) &&
        flags == Drop(old(flags), old(flags)) &&
        currentFile == old(currentFile) &&
        frameIndex == (if old(frameIndex) < |frames| then old(frameIndex) else if |frames| == 0 then 0 else |frames| - 1)
    {
      if |frames| == 0 {
        return NoFrames;
      }
      SaveState();
      var L := Indices(flags);
      ghost var F, D, G := frames, delays, flags;
      if |L| == 0 {
        IndicesEmpty(G);
        DropNone(F, G);
        DropNone(D, G);
        DropNone(G, G);
        return NoSelection;
      }
      DeleteChecked(L);
      IndicesEmpty(G);
      st := Done;
    }

    /** The deletion loop of delete_frames, del at each listed index from
        the highest down, and the clamp of the active index that follows it. */
    method DeleteChecked(L: seq<nat>)
      requires |delays| == |frames| && |flags| == |frames| && L == Indices(flags)
      modifies this`frames, this`delays, this`flags, this`frameIndex
      ensures frames == Drop(old(frames), old(flags))
      ensures delays == Drop(old(delays), old(flags))
      ensures flags == Drop(old(flags), old(flags))
      ensures |delays| == |frames| && |flags| == |frames|
      ensures frameIndex == if old(frameIndex) < |frames| then old(frameIndex) else if |frames| == 0 then 0 else |frames| - 1
    {
      PopChecked(L);
      if frameIndex >= |frames| {
        frameIndex := if |frames| == 0 then 0 else |frames| - 1;
      }
    }

    /** `del` at each listed index from the highest down, on the three
        parallel lists. */
    method PopChecked(L: seq<nat>)
      requires |delays| == |frames| && |flags| == |frames| && L == Indices(flags)
      modifies this`frames, this`delays, this`flags
      ensures frames == Drop(old(frames), old(flags))
      ensures delays == Drop(old(delays), old(flags))
      ensures flags == Drop(old(flags), old(flags))
      ensures |frames| == old(|frames|) - |L| && |delays| == |frames| && |flags| == |frames|
    {
      ghost var F, D, G := frames, delays, flags;
      var n := |frames|;
      DropFromStart(F, G);
      DropFromStart(D, G);
      DropFromStart(G, G);
      var fr, de, fl := frames, delays, flags;
      var j := |L|;
      while j > 0
        invariant 0 <= j <= |L| && Cut(L, j, n) <= n
        invariant fr == DropFrom(F, G, Cut(L, j, n))
        invariant de == DropFrom(D, G, Cut(L, j, n))
        invariant fl == DropFrom(G, G, Cut(L, j, n))
      {
        var index := L[j - 1];
        DeleteStep(F, G, j);
        DeleteStep(D, G, j);
        DeleteStep(G, G, j);
        fr := Remove(fr, index);
        de := Remove(de, index);
        fl := Remove(fl, index);
        j := j - 1;
      }
      frames, delays, flags := fr, de, fl;
      DropFromEnd(F, G);
      DropFromEnd(D, G);
      DropFromEnd(G, G);
      PickDropLength(F, G);
      PickDropLength(D, G);
      PickDropLength(G, G);
    }

    /** move_frame_up: unless exactly one frame is checked, a warning and no
        change; a checked first frame, a notice and no change. Otherwise a
        snapshot, the frame and its delay trade places with the ones above,
        the check mark follows, and the moved frame becomes the active one.
        That is the multi-selection rearrangement restricted to one frame. */
    method MoveFrameUp() returns (st: Status)
      requires Valid()
      modifies this`frames, this`delays, this`flags, this`frameIndex, this`history, this`redoStack
      ensures Valid()
      ensures SoleSelected(old(flags)).None? ==> st == SelectionCount && State() == old(State())
      ensures SoleSelected(old(flags)) == Some(0) ==> st == AtEdge && State() == old(State())
      ensures SoleSelected(old(flags)).Some? && SoleSelected(old(flags)).value > 0 ==>
        var i := SoleSelected(old(flags)).value;
        st == Done && history == old(history) + [old(Doc())] && redoStack == [] &&
        frames == Swap(old(frames), i, i - 1) && delays == Swap(old(delays), i, i - 1) &&
        flags == old(flags)[i := false][i - 1 := true] && frameIndex == i - 1 &&
        frames == MoveUp(old(frames), old(flags)) && delays == MoveUp(old(delays), old(flags)) &&
        flags == MoveUp(old(flags), old(flags)) && frames[frameIndex] == old(frames)[i] &&
        currentFile == old(currentFile)
    {
      var selected := SoleSelected(flags);
      if selected.None? {
        return SelectionCount;
      }
      var i := selected.value;
      if i == 0 {
        return AtEdge;
      }
      ghost var F, D, G := frames, delays, flags;
      SoleMoveUp(F, G, i);
      SoleMoveUp(D, G, i);
      SaveState();
      frames := Swap(frames, i, i - 1);
      delays := Swap(delays, i, i - 1);
      flags := flags[i := false][i - 1 := true];
      frameIndex := i - 1;
      st := Done;
    }

    /** move_frame_down: the mirror image, with the last frame as the edge. */
    method MoveFrameDown() returns (st: Status)
      requires Valid()
      modifies this`frames, this`delays, this`flags, this`frameIndex, this`history, this`redoStack
      ensures Valid()
      ensures SoleSelected(old(flags)).None? ==> st == SelectionCount && State() == old(State())
      ensures SoleSelected(old(flags)).Some? && SoleSelected(old(flags)).value == |old(frames)| - 1 ==>
        st == AtEdge && State() == old(State())
      ensures SoleSelected(old(flags)).Some? && SoleSelected(old(flags)).value < |old(frames)| - 1 ==>
        var i := SoleSelected(old(flags)).value;
        st == Done && history == old(history) + [old(Doc())] && redoStack == [] &&
        frames == Swap(old(frames), i, i + 1) && delays == Swap(old(delays), i, i + 1) &&
        flags == old(flags)[i := false][i + 1 := true] && frameIndex == i + 1 &&
        frames == MoveDown(old(frames), old(flags)) && delays == MoveDown(old(delays), old(flags)) &&
        flags == MoveDown(old(flags), old(flags)) && frames[frameIndex] == old(frames)[i] &&
        currentFile == old(currentFile)
    {
      var selected := SoleSelected(flags);
      if selected.None? {
        return SelectionCount;
      }
      var i := selected.value;
      if i == |frames| - 1 {
        return AtEdge;
      }
      ghost var F, D, G := frames, delays, flags;
      SoleMoveDown(F, G, i);
      SoleMoveDown(D, G, i);
      SaveState();
      frames := Swap(frames, i, i + 1);
      delays := Swap(delays, i, i + 1);
      flags := flags[i := false][i + 1 := true];
      frameIndex := i + 1;
      st := Done;
    }

    /** resize_frames_dialog: with nothing checked, a notice and no change.
        Otherwise the two answers of the size dialogs (None when a dialog
        was cancelled; the dialogs refuse values below 1) are used only when
        both are present and non-zero. */
    method ResizeFramesDialog(width: Option<nat>, height: Option<nat>) returns (st: Status)
      requires Valid()
      modifies this`frames, this`delays, this`flags, this`frameIndex, this`history, this`redoStack
      ensures Valid()
      ensures NoneSelected(old(flags)) ==> st == NoSelection && State() == old(State())
      ensures !NoneSelected(old(flags)) && !(width.Some? && width.value != 0 && height.Some? && height.value != 0) ==>
        st == Cancelled && State() == old(State())
      ensures !NoneSelected(old(flags)) && width.Some? && width.value != 0 && height.Some? && height.value != 0 ==>
        st == Done && history == old(history) + [old(Doc())] && redoStack == [] &&
        frames == MapSelected(old(frames), old(flags), img => Geometry.Resample(img, width.value, height.value)) &&
        Doc() == old(Doc()).(frames := frames)
    {
      if NoneSelected(flags) {
        return NoSelection;
      }
      if width.Some? && width.value != 0 && height.Some? && height.value != 0 {
        ResizeFrames(width.value, height.value);
        st := Done;
      } else {
        st := Cancelled;
      }
    }

    /** resize_frames: a snapshot, then every checked frame resampled to
        w x h; delays, check marks and the other frames are unchanged. */
    method ResizeFrames(w: nat, h: nat)
      requires Valid()
      modifies this`frames, this`delays, this`flags, this`frameIndex, this`history, this`redoStack
      ensures Valid()
      ensures history == old(history) + [old(Doc())] && redoStack == []
      ensures frames == MapSelected(old(frames), old(flags), img => Geometry.Resample(img, w, h))
      ensures forall i :: 0 <= i < |frames| && flags[i] ==> frames[i].width == w && frames[i].height == h
      ensures Doc() == old(Doc()).(frames := frames)
    {
      SaveState();
      ghost var F := frames;
      var i := 0;
      while i < |frames|
        invariant 0 <= i <= |frames| && |frames| == |F| == |flags|
        invariant forall k :: 0 <= k < i ==> frames[k] == if flags[k] then Geometry.Resample(F[k], w, h) else F[k]
        invariant forall k :: i <= k < |frames| ==> frames[k] == F[k]
        modifies this`frames
      {
        if flags[i] {
          frames := frames[i := Geometry.Resample(frames[i], w, h)];
        }
        i := i + 1;
      }
      assert frames == MapSelected(F, flags, img => Geometry.Resample(img, w, h));
    }

    /** copy_frames: the clipboard becomes the checked (frame, delay) pairs,
        in order; nothing else changes. The status is the message shown. */
    method CopyFrames() returns (st: Status)
      requires Valid()
      modifies this`clipboard
      ensures clipboard == Pick(Zip(frames, delays), flags)
      ensures Firsts(clipboard) == Pick(frames, flags) && Seconds(clipboard) == Pick(delays, flags)
      ensures st == if |clipboard| == 0 then NoSelection else Done
    {
      clipboard := Pick(Zip(frames, delays), flags);
      PickZip(frames, delays, flags);
      st := if |clipboard| == 0 then NoSelection else Done;
    }

    /** paste_frames: with an empty clipboard, an error and no change.
        Otherwise a snapshot, then the clipboard's frames and delays
        inserted one by one just past the highest checked position (at the
        end when nothing is checked), each with its check box checked. */
    method PasteFrames() returns (st: Status)
      requires Valid()
      modifies this`frames, this`delays, this`flags, this`frameIndex, this`history, this`redoStack
      ensures Valid()
      ensures |clipboard| == 0 ==> st == EmptyClipboard && State() == old(State())
      ensures |clipboard| > 0 ==>
        st == Done && history == old(history) + [old(Doc())] && redoStack == [] &&
        frames == Paste(old(frames), old(flags), Firsts(clipboard)) &&
        delays == Paste(old(delays), old(flags), Seconds(clipboard)) &&
        flags == Paste(old(flags), old(flags), Trues(|clipboard|)) &&
        frameIndex == old(frameIndex) && currentFile == old(currentFile)
    {
      if |clipboard| == 0 {
        return EmptyClipboard;
      }
      var insertIndex := PastePoint(flags);
      SaveState();
      InsertChecked(insertIndex, clipboard);
      st := Done;
    }

    /** The insertion loop of paste_frames: each copied frame and delay
        inserted at the next position from p on, with its box checked. */
    method InsertChecked(p: nat, copied: seq<(Img, int)>)
      requires p <= |frames| && |delays| == |frames| && |flags| == |frames|
      modifies this`frames, this`delays, this`flags
      ensures frames == Splice(old(frames), p, Firsts(copied))
      ensures delays == Splice(old(delays), p, Seconds(copied))
      ensures flags == Splice(old(flags), p, Trues(|copied|))
    {
      ghost var F, D, G := frames, delays, flags;
      ghost var fs, ds, bf := Firsts(copied), Seconds(copied), Trues(|copied|);
      assert frames == Splice(F, p, fs[..0]);
      assert delays == Splice(D, p, ds[..0]);
      assert flags == Splice(G, p, bf[..0]);
      var insertIndex := p;
      var k := 0;
      while k < |copied|
        invariant 0 <= k <= |copied| && insertIndex == p + k
        invariant frames == Splice(F, p, fs[..k])
        invariant delays == Splice(D, p, ds[..k])
        invariant flags == Splice(G, p, bf[..k])
      {
        var (frame, delay) := copied[k];
        InsertNext(F, p, fs, k);
        InsertNext(D, p, ds, k);
        InsertNext(G, p, bf, k);
        frames := Insert(frames, insertIndex, frame);
        delays := Insert(delays, insertIndex, delay);
        flags := Insert(flags, insertIndex, true);
        insertIndex := insertIndex + 1;
        k := k + 1;
      }
      assert fs[..k] == fs && ds[..k] == ds && bf[..k] == bf;
    }

    /** toggle_check_all: a snapshot, then the check-all state flipped and
        every check box set to the new state. */
    method ToggleCheckAll()
      requires Valid()
      modifies this`flags, this`checkAll, this`history, this`redoStack
      ensures Valid()
      ensures history == old(history) + [old(Doc())] && redoStack == []
      ensures checkAll == !old(checkAll)
      ensures flags == if checkAll then Trues(|frames|) else Falses(|frames|)
      ensures Doc() == old(Doc()).(flags := flags)
    {
      SaveState();
      var newState := !checkAll;
      checkAll := newState;
      var i := 0;
      while i < |flags|
        invariant 0 <= i <= |flags| && |flags| == |frames|
        invariant forall k :: 0 <= k < i ==> flags[k] == newState
        modifies this`flags
      {
        flags := flags[i := newState];
        i := i + 1;
      }
      assert flags == if newState then Trues(|frames|) else Falses(|frames|);
    }

    /** toggle_play_pause: stop when playing, start otherwise. */
    method TogglePlayPause() returns (wait: Option<int>)
      requires Valid()
      modifies this`isPlaying, this`frameIndex
      ensures Valid() && isPlaying == !old(isPlaying)
      ensures Doc() == old(Doc()).(frameIndex := frameIndex)
      ensures old(isPlaying) ==> wait == None && frameIndex == old(frameIndex)
      ensures !old(isPlaying) && |frames| > 0 ==>
        wait == Some(old(delays[frameIndex])) && frameIndex == Playback.Next(old(frameIndex), |frames|)
      ensures !old(isPlaying) && |frames| == 0 ==> wait == None && frameIndex == old(frameIndex)
    {
      if isPlaying {
        StopAnimation();
        wait := None;
      } else {
        wait := PlayAnimation();
      }
    }

    /** play_animation: start playing and run the first tick at once. */
    method PlayAnimation() returns (wait: Option<int>)
      requires Valid()
      modifies this`isPlaying, this`frameIndex
      ensures Valid() && isPlaying
      ensures Doc() == old(Doc()).(frameIndex := frameIndex)
      ensures |frames| > 0 ==> wait == Some(old(delays[frameIndex])) && frameIndex == Playback.Next(old(frameIndex), |frames|)
      ensures |frames| == 0 ==> wait == None && frameIndex == old(frameIndex)
    {
      isPlaying := true;
      wait := PlayNextFrame();
    }

    /** stop_animation: later ticks do nothing. */
    method StopAnimation()
      modifies this`isPlaying
      ensures !isPlaying
    {
      isPlaying := false;
    }

    /** play_next_frame: while playing with frames present, report the active
        frame's delay as the wait before the next tick and advance the index,
        wrapping round at the end. */
    method PlayNextFrame() returns (wait: Option<int>)
      requires Valid()
      modifies this`frameIndex
      ensures Valid()
      ensures isPlaying && |frames| > 0 ==>
        wait == Some(delays[old(frameIndex)]) && frameIndex == Playback.Next(old(frameIndex), |frames|)
      ensures !(isPlaying && |frames| > 0) ==> wait == None && frameIndex == old(frameIndex)
    {
      if isPlaying && |frames| > 0 {
        wait := Some(delays[frameIndex]);
        frameIndex := (frameIndex + 1) % |frames|;
      } else {
        wait := None;
      }
    }

    /** set_delay: the entry text is converted with int() before anything
        changes; text that does not convert is an error with no change and no
        snapshot. Otherwise a snapshot and the value on every checked frame.
        The entry's validator only admits digit strings and the empty text,
        so of those only the empty text is refused, and the delay set is
        never negative. */
    method SetDelay(entry: string) returns (st: Status)
      requires Valid()
      modifies this`frames, this`delays, this`flags, this`frameIndex, this`history, this`redoStack
      ensures Valid()
      ensures Text.ParseInt(entry).None? ==> st == InvalidInput && State() == old(State())
      ensures Text.ParseInt(entry).Some? ==>
        st == Done && history == old(history) + [old(Doc())] && redoStack == [] &&
        delays == SetSelected(old(delays), old(flags), Text.ParseInt(entry).value) &&
        Doc() == old(Doc()).(delays := delays)
      ensures Text.ValidateDelay(entry) ==>
        (st == InvalidInput <==> entry == "") && (st == Done ==> Text.ParseInt(entry).value >= 0)
    {
      if Text.ValidateDelay(entry) {
        Text.ValidatedDelayParses(entry);
      }
      var parsed := Text.ParseInt(entry);
      if parsed.None? {
        return InvalidInput;
      }
      var delay := parsed.value;
      SaveState();
      SetCheckedDelays(delay);
      st := Done;
    }

    /** The loop of set_delay: every checked frame's delay set to `delay`. */
    method SetCheckedDelays(delay: int)
      requires |delays| == |flags|
      modifies this`delays
      ensures delays == SetSelected(old(delays), flags, delay)
    {
      ghost var D := delays;
      var i := 0;
      while i < |flags|
        invariant 0 <= i <= |flags| && |delays| == |D| == |flags|
        invariant forall k :: 0 <= k < i ==> delays[k] == if flags[k] then delay else D[k]
        invariant forall k :: i <= k < |delays| ==> delays[k] == D[k]
      {
        if flags[i] {
          delays := delays[i := delay];
        }
        i := i + 1;
      }
      assert delays == SetSelected(D, flags, delay);
    }

    /** toggle_checkbox: flip the active frame's check box, without a
        snapshot; nothing happens when there are no frames. */
    method ToggleCheckbox()
      requires Valid()
      modifies this`flags
      ensures Valid()
      ensures |flags| > 0 ==> flags == old(flags)[frameIndex := !old(flags)[frameIndex]]
      ensures |flags| == 0 ==> flags == old(flags)
    {
      if |flags| > 0 {
        flags := flags[frameIndex := !flags[frameIndex]];
      }
    }

    /** previous_frame: step back unless at the first frame. */
    method PreviousFrame()
      requires Valid()
      modifies this`frameIndex
      ensures Valid()
      ensures frameIndex == if old(frameIndex) > 0 then old(frameIndex) - 1 else old(frameIndex)
    {
      if frameIndex > 0 {
        frameIndex := frameIndex - 1;
      }
    }

    /** next_frame: step forward unless at the last frame. */
    method NextFrame()
      requires Valid()
      modifies this`frameIndex
      ensures Valid()
      ensures frameIndex == if old(frameIndex) + 1 < |frames| then old(frameIndex) + 1 else old(frameIndex)
    {
      if frameIndex < |frames| - 1 {
        frameIndex := frameIndex + 1;
      }
    }
  }
}

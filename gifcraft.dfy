/** GIFCraft.py: the first revision of the editor. Its engine holds the frame
    list, the delay list, one check box per frame, the active index, the
    undo history and redo stack, and the playback flag; every action below
    mutates those fields the way the corresponding method of the source does. */
module GifCraft {
  import opened Model
  import opened Selection
  import opened Lists
  import opened Edits
  import Text
  import History
  import Playback

  class GifEditor {
    var frames: seq<Img>
    var delays: seq<int>
    var flags: seq<bool>
    var frameIndex: nat
    var currentFile: Option<string>
    var history: seq<Snapshot>
    var redoStack: seq<Snapshot>
    var isPlaying: bool
    var checkAll: bool

    /** The document as save_state records it. */
    function Doc(): Snapshot
      reads this
    {
      Snapshot(frames, delays, flags, frameIndex, currentFile)
    }

    /** The document together with both history stacks. */
    function State(): History.Session
      reads this
    {
      History.Session(Doc(), history, redoStack)
    }

    /** One delay and one check box per frame, the active index in range, and
        the same for every stored snapshot. */
    predicate Valid()
      reads this
    {
      History.SessionOk(State())
    }

    /** The initial settings: nothing loaded, nothing recorded, stopped. */
    constructor ()
      ensures Valid()
      ensures frames == [] && delays == [] && flags == [] && frameIndex == 0 && currentFile == None
      ensures history == [] && redoStack == [] && !isPlaying && !checkAll
    {
      frameIndex := 0;
      frames := [];
      delays := [];
      isPlaying := false;
      history := [];
      redoStack := [];
      currentFile := None;
      flags := [];
      checkAll := false;
    }

    /** save_state: push a copy of the document, empty the redo stack. */
    method SaveState()
      requires Valid()
      modifies this`history, this`redoStack
      ensures Valid()
      ensures State() == History.Save(old(State()))
    {
      history := history + [Doc()];
      redoStack := [];
    }

    /** undo: with history, push the document on the redo stack and restore
        the latest snapshot; otherwise do nothing. */
    method Undo()
      requires Valid()
      modifies this`frames, this`delays, this`flags, this`frameIndex, this`currentFile, this`history, this`redoStack
      ensures Valid()
      ensures State() == History.Undo(old(State()))
    {
      ghost var s0 := State();
      History.Preserved(s0);
      if |history| > 0 {
        redoStack := redoStack + [Doc()];
        var s := history[|history| - 1];
        history := history[..|history| - 1];
        frames, delays, flags, frameIndex, currentFile := s.frames, s.delays, s.flags, s.frameIndex, s.currentFile;
      }
    }

    /** redo: the mirror image of undo. */
    method Redo()
      requires Valid()
      modifies this`frames, this`delays, this`flags, this`frameIndex, this`currentFile, this`history, this`redoStack
      ensures Valid()
      ensures State() == History.Redo(old(State()))
    {
      ghost var s0 := State();
      History.Preserved(s0);
      if |redoStack| > 0 {
        history := history + [Doc()];
        var s := redoStack[|redoStack| - 1];
        redoStack := redoStack[..|redoStack| - 1];
        frames, delays, flags, frameIndex, currentFile := s.frames, s.delays, s.flags, s.frameIndex, s.currentFile;
      }
    }

    /** previous_frame: step back unless at the first frame. */
    method PreviousFrame()
      requires Valid()
      modifies this`frameIndex
      ensures Valid()
      ensures frameIndex == if old(frameIndex) > 0 then old(frameIndex) - 1 else old(frameIndex)
    {
      if frameIndex > 0 {
        frameIndex := frameIndex - 1;
      }
    }

    /** next_frame: step forward unless at the last frame. */
    method NextFrame()
      requires Valid()
      modifies this`frameIndex
      ensures Valid()
      ensures frameIndex == if old(frameIndex) + 1 < |frames| then old(frameIndex) + 1 else old(frameIndex)
    {
      if frameIndex < |frames| - 1 {
        frameIndex := frameIndex + 1;
      }
    }

    /** delete_frames: with no frames, an error and no change. Otherwise a
        snapshot, then every checked frame deleted from the highest index
        down, and the active index pulled back into the shorter list. With
        nothing checked the snapshot is still taken. */
    method DeleteFrames() returns (st: Status)
      requires Valid()
      modifies this`frames, this`delays, this`flags, this`frameIndex, this`history, this`redoStack
      ensures Valid()
      ensures old(|frames|) == 0 ==> st == NoFrames && State() == old(State())
      ensures old(|frames|) > 0 ==>
        st == (if NoneSelected(old(flags)) then NoSelection else Done) &&
        history == old(history) + [old(Doc())] && redoStack == [] &&
        frames == Drop(old(frames), old(flags)) &&
        delays == Drop(old(delays), old(flags)) &&
        flags == Drop(old(flags), old(flags)) &&
        currentFile == old(currentFile) &&
        frameIndex == (if old(frameIndex) < |frames| then old(frameIndex) else if |frames| == 0 then 0 else |frames| - 1)
    {
      if |frames| == 0 {
        return NoFrames;
      }
      SaveState();
      var L := Indices(flags);
      ghost var F, D, G := frames, delays, flags;
      if |L| == 0 {
        IndicesEmpty(G);
        DropNone(F, G);
        DropNone(D, G);
        DropNone(G, G);
        return NoSelection;
      }
      DeleteChecked(L);
      IndicesEmpty(G);
      st := Done;
    }

    /** The deletion loop of delete_frames, del at each listed index from
        the highest down, and the clamp of the active index that follows it. */
    method DeleteChecked(L: seq<nat>)
      requires |delays| == |frames| && |flags| == |frames| && L == Indices(flags)
      modifies this`frames, this`delays, this`flags, this`frameIndex
      ensures frames == Drop(old(frames), old(flags))
      ensures delays == Drop(old(delays), old(flags))
      ensures flags == Drop(old(flags), old(flags))
      ensures |delays| == |frames| && |flags| == |frames|
      ensures frameIndex == if old(frameIndex) < |frames| then old(frameIndex) else if |frames| == 0 then 0 else |frames| - 1
    {
      PopChecked(L);
      if frameIndex >= |frames| {
        frameIndex := if |frames| == 0 then 0 else |frames| - 1;
      }
    }

    /** `del` at each listed index from the highest down, on the three
        parallel lists. */
    method PopChecked(L: seq<nat>)
      requires |delays| == |frames| && |flags| == |frames| && L == Indices(flags)
      modifies this`frames, this`delays, this`flags
      ensures frames == Drop(old(frames), old(flags))
      ensures delays == Drop(old(delays), old(flags))
      ensures flags == Drop(old(flags), old(flags))
      ensures |frames| == old(|frames|) - |L| && |delays| == |frames| && |flags| == |frames|
    {
      ghost var F, D, G := frames, delays, flags;
      var n := |frames|;
      DropFromStart(F, G);
      DropFromStart(D, G);
      DropFromStart(G, G);
      var fr, de, fl := frames, delays, flags;
      var j := |L|;
      while j > 0
        invariant 0 <= j <= |L| && Cut(L, j, n) <= n
        invariant fr == DropFrom(F, G, Cut(L, j, n))
        invariant de == DropFrom(D, G, Cut(L, j, n))
        invariant fl == DropFrom(G, G, Cut(L, j, n))
      {
        var index := L[j - 1];
        DeleteStep(F, G, j);
        DeleteStep(D, G, j);
        DeleteStep(G, G, j);
        fr := Remove(fr, index);
        de := Remove(de, index);
        fl := Remove(fl, index);
        j := j - 1;
      }
      frames, delays, flags := fr, de, fl;
      DropFromEnd(F, G);
      DropFromEnd(D, G);
      DropFromEnd(G, G);
      PickDropLength(F, G);
      PickDropLength(D, G);
      PickDropLength(G, G);
    }

    /** move_frame_up: a snapshot, then, for each checked position i from the
        top, the frame, delay and check mark at i trade places with those at
        i - 1 when i - 1 was not checked. The active index follows the frame
        it showed. */
    method MoveFrameUp()
      requires Valid()
      modifies this`frames, this`delays, this`flags, this`frameIndex, this`history, this`redoStack
      ensures Valid()
      ensures history == old(history) + [old(Doc())] && redoStack == [] && currentFile == old(currentFile)
      ensures frames == MoveUp(old(frames), old(flags))
      ensures delays == MoveUp(old(delays), old(flags))
      ensures flags == MoveUp(old(flags), old(flags))
      ensures |frames| > 0 ==>
        frameIndex == UpTarget(old(flags), old(frameIndex)) && frames[frameIndex] == old(frames)[old(frameIndex)]
      ensures |frames| == 0 ==> frameIndex == old(frameIndex)
    {
      SaveState();
      ghost var F, fi0 := frames, frameIndex;
      MoveCheckedUp();
      if |F| > 0 {
        MoveUpTracks(F, old(flags), fi0);
      }
    }

    /** The swap loop of move_frame_up. */
    method MoveCheckedUp()
      requires |delays| == |frames| && |flags| == |frames| && IndexOk(frameIndex, |frames|)
      modifies this`frames, this`delays, this`flags, this`frameIndex
      ensures frames == MoveUp(old(frames), old(flags))
      ensures delays == MoveUp(old(delays), old(flags))
      ensures flags == MoveUp(old(flags), old(flags))
      ensures |frames| > 0 ==> frameIndex == UpTarget(old(flags), old(frameIndex))
      ensures |frames| == 0 ==> frameIndex == old(frameIndex)
    {
      var L := Indices(flags);
      ghost var F, D, G, fi0 := frames, delays, flags, frameIndex;
      var n := |frames|;
      UpStart(F, G);
      UpStart(D, G);
      UpStart(G, G);
      if n > 0 {
        UpStartIndex(G, fi0);
      }
      var idx := 0;
      while idx < |L|
        invariant 0 <= idx <= |L| && Cut(L, idx, |G|) <= n
        invariant frames == MoveUpBelow(F, G, Cut(L, idx, |G|))
        invariant delays == MoveUpBelow(D, G, Cut(L, idx, |G|))
        invariant flags == MoveUpBelow(G, G, Cut(L, idx, |G|))
        invariant n > 0 ==> frameIndex == UpFrom(G, Cut(L, idx, |G|), fi0)
        invariant n == 0 ==> frameIndex == fi0
      {
        UpSwapAt(L, idx, F, D, G, fi0);
        idx := idx + 1;
      }
    }

    /** One turn of the upward loop: the checked position i = L[idx] trades
        places with i - 1 when i - 1 is not checked, and the current frame
        follows the frame it showed. */
    method UpSwapAt(L: seq<nat>, idx: nat, ghost F: seq<Img>, ghost D: seq<int>, ghost G: seq<bool>, ghost fi0: nat)
      requires |F| == |D| == |G| && L == Indices(G) && idx < |L| && fi0 < |G|
      requires frames == MoveUpBelow(F, G, Cut(L, idx, |G|))
      requires delays == MoveUpBelow(D, G, Cut(L, idx, |G|))
      requires flags == MoveUpBelow(G, G, Cut(L, idx, |G|))
      requires frameIndex == UpFrom(G, Cut(L, idx, |G|), fi0)
      modifies this`frames, this`delays, this`flags, this`frameIndex
      ensures Cut(L, idx + 1, |G|) <= |G|
      ensures frames == MoveUpBelow(F, G, Cut(L, idx + 1, |G|))
      ensures delays == MoveUpBelow(D, G, Cut(L, idx + 1, |G|))
      ensures flags == MoveUpBelow(G, G, Cut(L, idx + 1, |G|))
      ensures frameIndex == UpFrom(G, Cut(L, idx + 1, |G|), fi0)
    {
      var i := L[idx];
      var fr, de, fl, fi := frames, delays, flags, frameIndex;
      if i > 0 && i - 1 !in L {
        fr := Swap(fr, i, i - 1);
        de := Swap(de, i, i - 1);
        fl := fl[i := false][i - 1 := true];
        if i == fi {
          fi := i - 1;
        } else if i - 1 == fi {
          fi := i;
        }
      }
      frames, delays, flags, frameIndex := fr, de, fl, fi;
      UpTurn(F, G, idx);
      UpTurn(D, G, idx);
      UpTurnFlags(G, idx);
      UpTurnIndex(G, idx, fi0);
    }

    /** move_frame_down: the mirror image, for each checked position i from
        the bottom, trading places with i + 1 when i + 1 was not checked. */
    method MoveFrameDown()
      requires Valid()
      modifies this`frames, this`delays, this`flags, this`frameIndex, this`history, this`redoStack
      ensures Valid()
      ensures history == old(history) + [old(Doc())] && redoStack == [] && currentFile == old(currentFile)
      ensures frames == MoveDown(old(frames), old(flags))
      ensures delays == MoveDown(old(delays), old(flags))
      ensures flags == MoveDown(old(flags), old(flags))
      ensures |frames| > 0 ==>
        frameIndex == DownTarget(old(flags), old(frameIndex)) && frames[frameIndex] == old(frames)[old(frameIndex)]
      ensures |frames| == 0 ==> frameIndex == old(frameIndex)
    {
      SaveState();
      ghost var F, fi0 := frames, frameIndex;
      MoveCheckedDown();
      if |F| > 0 {
        MoveDownTracks(F, old(flags), fi0);
      }
    }

    /** The swap loop of move_frame_down. */
    method MoveCheckedDown()
      requires |delays| == |frames| && |flags| == |frames| && IndexOk(frameIndex, |frames|)
      modifies this`frames, this`delays, this`flags, this`frameIndex
      ensures frames == MoveDown(old(frames), old(flags))
      ensures delays == MoveDown(old(delays), old(flags))
      ensures flags == MoveDown(old(flags), old(flags))
      ensures |frames| > 0 ==> frameIndex == DownTarget(old(flags), old(frameIndex))
      ensures |frames| == 0 ==> frameIndex == old(frameIndex)
    {
      var L := Indices(flags);
      ghost var F, D, G, fi0 := frames, delays, flags, frameIndex;
      var n := |frames|;
      DownStart(F, G);
      DownStart(D, G);
      DownStart(G, G);
      var idx := |L|;
      while idx > 0
        invariant 0 <= idx <= |L| && Cut(L, idx, |G|) <= n
        invariant frames == MoveDownAbove(F, G, Cut(L, idx, |G|))
        invariant delays == MoveDownAbove(D, G, Cut(L, idx, |G|))
        invariant flags == MoveDownAbove(G, G, Cut(L, idx, |G|))
        invariant n > 0 ==> frameIndex == DownFrom(G, Cut(L, idx, |G|), fi0)
        invariant n == 0 ==> frameIndex == fi0
      {
        DownSwapAt(L, idx, F, D, G, fi0);
        idx := idx - 1;
      }
      DownEnd(F, G);
      DownEnd(D, G);
      DownEnd(G, G);
      if n > 0 {
        DownEndIndex(G, fi0);
      }
    }

    /** One turn of the downward loop: the checked position i = L[idx - 1]
        trades places with i + 1 when i + 1 is not checked. */
    method DownSwapAt(L: seq<nat>, idx: nat, ghost F: seq<Img>, ghost D: seq<int>, ghost G: seq<bool>, ghost fi0: nat)
      requires |F| == |D| == |G| && L == Indices(G) && 0 < idx <= |L| && fi0 < |G|
      requires frames == MoveDownAbove(F, G, Cut(L, idx, |G|))
      requires delays == MoveDownAbove(D, G, Cut(L, idx, |G|))
      requires flags == MoveDownAbove(G, G, Cut(L, idx, |G|))
      requires frameIndex == DownFrom(G, Cut(L, idx, |G|), fi0)
      modifies this`frames, this`delays, this`flags, this`frameIndex
      ensures Cut(L, idx - 1, |G|) <= |G|
      ensures frames == MoveDownAbove(F, G, Cut(L, idx - 1, |G|))
      ensures delays == MoveDownAbove(D, G, Cut(L, idx - 1, |G|))
      ensures flags == MoveDownAbove(G, G, Cut(L, idx - 1, |G|))
      ensures frameIndex == DownFrom(G, Cut(L, idx - 1, |G|), fi0)
    {
      var i := L[idx - 1];
      DownTurn(F, G, idx);
      DownTurn(D, G, idx);
      DownTurnFlags(G, idx);
      DownTurnIndex(G, idx, fi0);
      var fr, de, fl, fi := frames, delays, flags, frameIndex;
      if i < |fr| - 1 && i + 1 !in L {
        fr := Swap(fr, i, i + 1);
        de := Swap(de, i, i + 1);
        fl := fl[i := false][i + 1 := true];
        if i == fi {
          fi := i + 1;
        } else if i + 1 == fi {
          fi := i;
        }
      }
      frames, delays, flags, frameIndex := fr, de, fl, fi;
    }

    /** toggle_play_pause: stop when playing, start otherwise. */
    method TogglePlayPause() returns (wait: Option<int>)
      requires Valid()
      modifies this`isPlaying, this`frameIndex
      ensures Valid() && isPlaying == !old(isPlaying)
      ensures Doc() == old(Doc()).(frameIndex := frameIndex)
      ensures old(isPlaying) ==> wait == None && frameIndex == old(frameIndex)
      ensures !old(isPlaying) && |frames| > 0 ==>
        wait == Some(old(delays[frameIndex])) && frameIndex == Playback.Next(old(frameIndex), |frames|)
      ensures !old(isPlaying) && |frames| == 0 ==> wait == None && frameIndex == old(frameIndex)
    {
      if isPlaying {
        StopAnimation();
        wait := None;
      } else {
        wait := PlayAnimation();
      }
    }

    /** play_animation: start playing and run the first tick at once. */
    method PlayAnimation() returns (wait: Option<int>)
      requires Valid()
      modifies this`isPlaying, this`frameIndex
      ensures Valid() && isPlaying
      ensures Doc() == old(Doc()).(frameIndex := frameIndex)
      ensures |frames| > 0 ==> wait == Some(old(delays[frameIndex])) && frameIndex == Playback.Next(old(frameIndex), |frames|)
      ensures |frames| == 0 ==> wait == None && frameIndex == old(frameIndex)
    {
      isPlaying := true;
      wait := PlayNextFrame();
    }

    /** stop_animation: later ticks do nothing. */
    method StopAnimation()
      modifies this`isPlaying
      ensures !isPlaying
    {
      isPlaying := false;
    }

    /** play_next_frame: while playing with frames present, report the active
        frame's delay as the wait before the next tick and advance the index,
        wrapping round at the end. */
    method PlayNextFrame() returns (wait: Option<int>)
      requires Valid()
      modifies this`frameIndex
      ensures Valid()
      ensures isPlaying && |frames| > 0 ==>
        wait == Some(delays[old(frameIndex)]) && frameIndex == Playback.Next(old(frameIndex), |frames|)
      ensures !(isPlaying && |frames| > 0) ==> wait == None && frameIndex == old(frameIndex)
    {
      if isPlaying && |frames| > 0 {
        wait := Some(delays[frameIndex]);
        frameIndex := (frameIndex + 1) % |frames|;
      } else {
        wait := None;
      }
    }

    /** set_delay: the entry text is converted with int() first; text that
        does not convert is an error with no change and no snapshot. A
        converted value, negative or not, becomes the delay of every checked
        frame after a snapshot. */
    method SetDelay(entry: string) returns (st: Status)
      requires Valid()
      modifies this`frames, this`delays, this`flags, this`frameIndex, this`history, this`redoStack
      ensures Valid()
      ensures Text.ParseInt(entry).None? ==> st == InvalidInput && State() == old(State())
      ensures Text.ParseInt(entry).Some? ==>
        st == Done && history == old(history) + [old(Doc())] && redoStack == [] &&
        delays == SetSelected(old(delays), old(flags), Text.ParseInt(entry).value) &&
        Doc() == old(Doc()).(delays := delays)
    {
      var parsed := Text.ParseInt(entry);
      if parsed.None? {
        return InvalidInput;
      }
      var delay := parsed.value;
      SaveState();
      SetCheckedDelays(delay);
      st := Done;
    }

    /** The loop of set_delay: every checked frame's delay set to `delay`. */
    method SetCheckedDelays(delay: int)
      requires |delays| == |flags|
      modifies this`delays
      ensures delays == SetSelected(old(delays), flags, delay)
    {
      ghost var D := delays;
      var i := 0;
      while i < |flags|
        invariant 0 <= i <= |flags| && |delays| == |D| == |flags|
        invariant forall k :: 0 <= k < i ==> delays[k] == if flags[k] then delay else D[k]
        invariant forall k :: i <= k < |delays| ==> delays[k] == D[k]
      {
        if flags[i] {
          delays := delays[i := delay];
        }
        i := i + 1;
      }
      assert delays == SetSelected(D, flags, delay);
    }

    /** toggle_check_all: a snapshot, then the check-all state flipped and
        every check box set to the new state. */
    method ToggleCheckAll()
      requires Valid()
      modifies this`flags, this`checkAll, this`history, this`redoStack
      ensures Valid()
      ensures history == old(history) + [old(Doc())] && redoStack == []
      ensures checkAll == !old(checkAll)
      ensures flags == if checkAll then Trues(|frames|) else Falses(|frames|)
      ensures Doc() == old(Doc()).(flags := flags)
    {
      SaveState();
      var newState := !checkAll;
      checkAll := newState;
      var i := 0;
      while i < |flags|
        invariant 0 <= i <= |flags| && |flags| == |frames|
        invariant forall k :: 0 <= k < i ==> flags[k] == newState
        modifies this`flags
      {
        flags := flags[i := newState];
        i := i + 1;
      }
      assert flags == if newState then Trues(|frames|) else Falses(|frames|);
    }

    /** toggle_checkbox: flip the active frame's check box, without a
        snapshot; nothing happens when there are no frames. */
    method ToggleCheckbox()
      requires Valid()
      modifies this`flags
      ensures Valid()
      ensures |flags| > 0 ==> flags == old(flags)[frameIndex := !old(flags)[frameIndex]]
      ensures |flags| == 0 ==> flags == old(flags)
    {
      if |flags| > 0 {
        flags := flags[frameIndex := !flags[frameIndex]];
      }
    }
  }
}

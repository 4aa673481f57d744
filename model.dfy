/** Values shared by the three revisions of the GIF editor: images, snapshots
    of the document, and the status an editor action reports. */
module Model {

  datatype Option<T> = None | Some(value: T)

  /** An image buffer. Its pixels are opaque except for the constructions
      whose geometry the editor decides itself: pasting an image centred on
      a transparent canvas (center_image) and resampling an image to a size
      it asks for (resize_frames). */
  datatype Img = Img(width: nat, height: nat, pixels: Pixels)

  datatype Pixels =
    | Opaque(id: int)
    | Centered(inner: Img, left: nat, top: nat)
    | Resampled(source: Img)

  /** The outcome an action reports to the user (the message box it shows,
      if any). */
  datatype Status =
    | Done
    | NoFrames          // "No frames to delete."
    | NoSelection       // "No frames selected ..."
    | SelectionCount    // "Please select exactly one frame to move."
    | AtEdge            // "The selected frame is already at the top/bottom."
    | InvalidInput      // a dialog entry that does not parse or is out of range
    | OutOfRange        // "Frame number out of range."
    | EmptyClipboard    // "No frames to paste. Please copy frames first."
    | TooFewChecked     // "Need at least two checked frames ..."
    | Cancelled         // the user dismissed a dialog
    | Failed            // an exception the action does not catch: Tk prints the
                        // traceback and the action stops where it was

  /** What save_state records: the frame list, the delay list, the check
      box values, the active index and the current file. */
  datatype Snapshot = Snapshot(
    frames: seq<Img>,
    delays: seq<int>,
    flags: seq<bool>,
    frameIndex: nat,
    currentFile: Option<string>)

  /** The active index is 0 on an empty sequence and a valid index otherwise. */
  predicate IndexOk(i: nat, n: nat) {
    if n == 0 then i == 0 else i < n
  }

  /** The three parallel lists have one entry per frame and the active index fits. */
  predicate WellFormed(s: Snapshot) {
    |s.delays| == |s.frames| && |s.flags| == |s.frames| && IndexOk(s.frameIndex, |s.frames|)
  }

  predicate AllWellFormed(ss: seq<Snapshot>) {
    forall i :: 0 <= i < |ss| ==> WellFormed(ss[i])
  }

  /** Python's a // b for a positive divisor: the floor of the quotient. */
  function FloorDiv(a: int, b: int): (q: int)
    requires b > 0
    ensures q * b <= a < q * b + b
  {
    a / b
  }
}

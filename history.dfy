/** The undo machinery shared by the three revisions: the live document,
    the undo history and the redo stack, and what save_state, undo and redo
    do to them. */
module History {
  import opened Model

  datatype Session = Session(doc: Snapshot, history: seq<Snapshot>, redo: seq<Snapshot>)

  /** save_state: the current document pushed on the history; redo emptied. */
  function Save(s: Session): (r: Session)
    ensures r.doc == s.doc && r.history == s.history + [s.doc] && r.redo == []
  {
    Session(s.doc, s.history + [s.doc], [])
  }

  /** undo: with history, the current document goes on the redo stack and
      the latest snapshot becomes the document; otherwise nothing happens. */
  function Undo(s: Session): Session {
    if |s.history| == 0 then s
    else Session(s.history[|s.history| - 1], s.history[..|s.history| - 1], s.redo + [s.doc])
  }

  /** redo: the mirror image of undo. */
  function Redo(s: Session): Session {
    if |s.redo| == 0 then s
    else Session(s.redo[|s.redo| - 1], s.history + [s.doc], s.redo[..|s.redo| - 1])
  }

  /** Both operations move one snapshot between the stacks and keep the total. */
  lemma StackSizes(s: Session)
    ensures |s.history| > 0 ==> |Undo(s).history| == |s.history| - 1 && |Undo(s).redo| == |s.redo| + 1
    ensures |s.redo| > 0 ==> |Redo(s).redo| == |s.redo| - 1 && |Redo(s).history| == |s.history| + 1
    ensures |Undo(s).history| + |Undo(s).redo| == |s.history| + |s.redo|
    ensures |Redo(s).history| + |Redo(s).redo| == |s.history| + |s.redo|
  {
  }

  /** Redo after undo returns the exact pre-undo session. */
  lemma RedoUndo(s: Session)
    requires |s.history| > 0
    ensures Redo(Undo(s)) == s
  {
    assert s.history[..|s.history| - 1] + [s.history[|s.history| - 1]] == s.history;
  }

  /** Undo after redo returns the exact pre-redo session. */
  lemma UndoRedo(s: Session)
    requires |s.redo| > 0
    ensures Undo(Redo(s)) == s
  {
    assert s.redo[..|s.redo| - 1] + [s.redo[|s.redo| - 1]] == s.redo;
  }

  /** An edit recorded with save_state is undone exactly: the document
      before it is back, the history is as before, and the edited document
      can be redone. */
  lemma UndoEdit(s: Session, edited: Snapshot)
    ensures var e := Save(s).(doc := edited);
      Undo(e) == Session(s.doc, s.history, [edited]) &&
      Redo(Undo(e)) == e
  {
    assert (s.history + [s.doc])[..|s.history|] == s.history;
  }

  /** k undos. */
  function Undos(s: Session, k: nat): Session
    decreases k
  {
    if k == 0 then s else Undos(Undo(s), k - 1)
  }

  /** k redos. */
  function Redos(s: Session, k: nat): Session
    decreases k
  {
    if k == 0 then s else Redos(Redo(s), k - 1)
  }

  /** k undos leave k more snapshots on the redo stack... */
  lemma {:induction false} UndosSizes(s: Session, k: nat)
    requires k <= |s.history|
    ensures |Undos(s, k).history| == |s.history| - k
    ensures |Undos(s, k).redo| == |s.redo| + k
    decreases k
  {
    if k > 0 {
      StackSizes(s);
      UndosSizes(Undo(s), k - 1);
    }
  }

  /** ... and as many redos bring back the exact session. */
  lemma {:induction false} RedosUndos(s: Session, k: nat)
    requires k <= |s.history|
    ensures Redos(Undos(s, k), k) == s
    decreases k
  {
    if k > 0 {
      UndosLast(s, k);
      UndosSizes(s, k - 1);
      RedoUndo(Undos(s, k - 1));
      RedosUndos(s, k - 1);
    }
  }

  /** Undoing k times is undoing k - 1 times and once more. */
  lemma {:induction false} UndosLast(s: Session, k: nat)
    requires 0 < k
    ensures Undos(s, k) == Undo(Undos(s, k - 1))
    decreases k
  {
    if k > 1 {
      UndosLast(Undo(s), k - 1);
    }
  }

  /** The snapshots on both stacks and the document keep their lists
      parallel and their index in range. */
  predicate SessionOk(s: Session) {
    WellFormed(s.doc) && AllWellFormed(s.history) && AllWellFormed(s.redo)
  }

  lemma Preserved(s: Session)
    requires SessionOk(s)
    ensures SessionOk(Save(s)) && SessionOk(Undo(s)) && SessionOk(Redo(s))
  {
  }
}

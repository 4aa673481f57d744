/** What each structural edit does to one of the parallel lists, as a
    function of the list and the selection flags, with the properties the
    editor relies on. The editor classes apply these to `frames`, `delays`
    and the flags alike. */
module Edits {
  import opened Model
  import opened Selection
  import opened Lists

  // =====================================================================
  // Replacing the selected elements

  /** Each selected element replaced by `f` of itself (the effect loops and
      resize_frames). */
  function MapSelected<T>(xs: seq<T>, fs: seq<bool>, f: T -> T): (r: seq<T>)
    requires |xs| == |fs|
    ensures |r| == |xs|
  {
    seq(|xs|, i requires 0 <= i < |xs| => if fs[i] then f(xs[i]) else xs[i])
  }

  /** Each selected element replaced by one value (set_delay). */
  function SetSelected<T>(xs: seq<T>, fs: seq<bool>, v: T): (r: seq<T>)
    requires |xs| == |fs|
    ensures |r| == |xs|
  {
    MapSelected(xs, fs, _ => v)
  }

  /** Only the selected positions change, and each becomes `f` of its old value. */
  lemma MapSelectedEffect<T>(xs: seq<T>, fs: seq<bool>, f: T -> T)
    requires |xs| == |fs|
    ensures Pick(MapSelected(xs, fs, f), fs) == Seq1Map(Pick(xs, fs), f)
    ensures Drop(MapSelected(xs, fs, f), fs) == Drop(xs, fs)
  {
    var r := MapSelected(xs, fs, f);
    PickIsGather(r, fs);
    PickIsGather(xs, fs);
    DropUnselectedOnly(xs, r, fs);
  }

  /** Every selected position takes the value and the others keep theirs. */
  lemma SetSelectedEffect<T>(xs: seq<T>, fs: seq<bool>, v: T)
    requires |xs| == |fs|
    ensures Pick(SetSelected(xs, fs, v), fs) == seq(|Indices(fs)|, _ => v)
    ensures Drop(SetSelected(xs, fs, v), fs) == Drop(xs, fs)
  {
    MapSelectedEffect(xs, fs, _ => v);
    PickDropLength(xs, fs);
  }

  function Seq1Map<T>(xs: seq<T>, f: T -> T): (r: seq<T>)
    ensures |r| == |xs| && forall i :: 0 <= i < |xs| ==> r[i] == f(xs[i])
  {
    seq(|xs|, i requires 0 <= i < |xs| => f(xs[i]))
  }

  /** Two lists that agree on the unselected positions have the same dropped half. */
  lemma {:induction false} DropUnselectedOnly<T>(xs: seq<T>, ys: seq<T>, fs: seq<bool>)
    requires |xs| == |ys| == |fs|
    requires forall i :: 0 <= i < |fs| && !fs[i] ==> xs[i] == ys[i]
    ensures Drop(xs, fs) == Drop(ys, fs)
  {
    if |xs| > 0 {
      DropUnselectedOnly(xs[..|xs| - 1], ys[..|ys| - 1], fs[..|fs| - 1]);
    }
  }

  // =====================================================================
  // Moving the selection to a position (move_frames_to_position)

  function Min(a: nat, b: nat): nat {
    if a <= b then a else b
  }

  /** Where the moved block starts in the shortened list: just after the
      target index, or at the end when that is past it. */
  function BlockStart(fs: seq<bool>, target: nat): nat {
    Min(target + 1, |fs| - |Indices(fs)|)
  }

  /** The selected elements taken out and re-inserted, in order, at
      target + 1 + i of the shortened list. */
  function MoveToPosition<T>(xs: seq<T>, fs: seq<bool>, target: nat): (r: seq<T>)
    requires |xs| == |fs|
  {
    PickDropLength(xs, fs);
    Splice(Drop(xs, fs), BlockStart(fs, target), Pick(xs, fs))
  }

  /** The moved elements form one contiguous block in their old order, the
      others keep their relative order around it, and nothing is lost. */
  lemma MoveToPositionLayout<T>(xs: seq<T>, fs: seq<bool>, target: nat)
    requires |xs| == |fs|
    ensures |MoveToPosition(xs, fs, target)| == |xs|
    ensures BlockStart(fs, target) + |Indices(fs)| <= |xs|
    ensures BlockStart(fs, target) == target + 1 || BlockStart(fs, target) + |Indices(fs)| == |xs|
    ensures var r, p, m := MoveToPosition(xs, fs, target), BlockStart(fs, target), |Indices(fs)|;
      r[p..p + m] == Pick(xs, fs) && r[..p] + r[p + m..] == Drop(xs, fs)
    ensures multiset(MoveToPosition(xs, fs, target)) == multiset(xs)
  {
    PickDropLength(xs, fs);
    PickDropMultiset(xs, fs);
    SpliceParts(Drop(xs, fs), BlockStart(fs, target), Pick(xs, fs));
  }

  /** The flags move with their frames: the block is exactly the selected
      positions afterwards. */
  lemma MoveToPositionFlags(fs: seq<bool>, target: nat)
    ensures var p, m := BlockStart(fs, target), |Indices(fs)|;
      MoveToPosition(fs, fs, target) == Falses(p) + Trues(m) + Falses(|fs| - m - p)
  {
    PickDropFlags(fs);
    var p, m := BlockStart(fs, target), |Indices(fs)|;
    assert Falses(|fs| - m)[..p] == Falses(p);
    assert Falses(|fs| - m)[p..] == Falses(|fs| - m - p);
  }

  /** One turn of the re-insertion loop of move_frames_to_position: element
      k of the moved block goes in at target + 1 + k, which `insert` turns
      into an append once that is past the end of the shortened list. */
  lemma MoveInsertStep<T>(xs: seq<T>, fs: seq<bool>, target: nat, k: nat)
    requires |xs| == |fs| && k < |Indices(fs)|
    ensures var d, p, b := Drop(xs, fs), BlockStart(fs, target), Pick(xs, fs);
      p <= |d| && k < |b| &&
      Insert(Splice(d, p, b[..k]), target + 1 + k, b[k]) == Splice(d, p, b[..k + 1])
  {
    PickDropLength(xs, fs);
    var d, p, b := Drop(xs, fs), BlockStart(fs, target), Pick(xs, fs);
    if target + 1 <= |d| {
      InsertNext(d, p, b, k);
    } else {
      assert d[..p] == d && d[p..] == [];
      assert Splice(d, p, b[..k]) == d + b[..k];
      assert Splice(d, p, b[..k + 1]) == d + b[..k + 1];
      InsertPastEnd(d, b, k, target + 1);
    }
  }

  // =====================================================================
  // Moving each selected element past its unselected neighbour
  // (the multi-selection move_frame_up / move_frame_down)

  /** The position whose element ends up at j once the upward swaps of the
      selected positions below c are done. Each selected i > 0 whose upper
      neighbour i - 1 is unselected trades places with it. */
  function UpFrom(fs: seq<bool>, c: nat, j: nat): nat
    requires j < |fs|
  {
    if j + 1 < c && j + 1 < |fs| && fs[j + 1] && !fs[j] then j + 1
    else if 0 < j < c && fs[j] && !fs[j - 1] then j - 1
    else j
  }

  /** The position whose element ends up at j once the downward swaps of the
      selected positions at or above c are done. Each selected i < n - 1
      whose lower neighbour i + 1 is unselected trades places with it. */
  function DownFrom(fs: seq<bool>, c: nat, j: nat): nat
    requires j < |fs|
  {
    if 0 < j && c <= j - 1 && fs[j - 1] && !fs[j] then j - 1
    else if c <= j && j + 1 < |fs| && fs[j] && !fs[j + 1] then j + 1
    else j
  }

  function MoveUpBelow<T>(xs: seq<T>, fs: seq<bool>, c: nat): (r: seq<T>)
    requires |xs| == |fs|
    ensures |r| == |xs|
  {
    seq(|xs|, j requires 0 <= j < |xs| => xs[UpFrom(fs, c, j)])
  }

  function MoveDownAbove<T>(xs: seq<T>, fs: seq<bool>, c: nat): (r: seq<T>)
    requires |xs| == |fs|
    ensures |r| == |xs|
  {
    seq(|xs|, j requires 0 <= j < |xs| => xs[DownFrom(fs, c, j)])
  }

  /** move_frame_up applied to one list. */
  function MoveUp<T>(xs: seq<T>, fs: seq<bool>): (r: seq<T>)
    requires |xs| == |fs|
    ensures |r| == |xs|
  {
    MoveUpBelow(xs, fs, |xs|)
  }

  /** move_frame_down applied to one list. */
  function MoveDown<T>(xs: seq<T>, fs: seq<bool>): (r: seq<T>)
    requires |xs| == |fs|
    ensures |r| == |xs|
  {
    MoveDownAbove(xs, fs, 0)
  }

  /** Where the element at i is after move_frame_up. */
  function UpTarget(fs: seq<bool>, i: nat): nat
    requires i < |fs|
  {
    UpFrom(fs, |fs|, i)
  }

  /** Where the element at i is after move_frame_down. */
  function DownTarget(fs: seq<bool>, i: nat): nat
    requires i < |fs|
  {
    DownFrom(fs, 0, i)
  }

  /** The swaps are disjoint transpositions: the rearrangement undoes itself. */
  lemma UpFromInvolution(fs: seq<bool>, c: nat, j: nat)
    requires j < |fs|
    ensures UpFrom(fs, c, j) < |fs| && UpFrom(fs, c, UpFrom(fs, c, j)) == j
  {
  }

  lemma DownFromInvolution(fs: seq<bool>, c: nat, j: nat)
    requires j < |fs|
    ensures DownFrom(fs, c, j) < |fs| && DownFrom(fs, c, DownFrom(fs, c, j)) == j
  {
  }

  /** The element at i is found at UpTarget afterwards, so an index updated
      that way keeps pointing at the same frame. */
  lemma MoveUpTracks<T>(xs: seq<T>, fs: seq<bool>, i: nat)
    requires |xs| == |fs| && i < |xs|
    ensures UpTarget(fs, i) < |xs| && MoveUp(xs, fs)[UpTarget(fs, i)] == xs[i]
  {
    UpFromInvolution(fs, |fs|, i);
  }

  lemma MoveDownTracks<T>(xs: seq<T>, fs: seq<bool>, i: nat)
    requires |xs| == |fs| && i < |xs|
    ensures DownTarget(fs, i) < |xs| && MoveDown(xs, fs)[DownTarget(fs, i)] == xs[i]
  {
    DownFromInvolution(fs, 0, i);
  }

  /** Which elements trade places under move_frame_up, in the terms of the
      source's condition: a selected i > 0 with i - 1 unselected. */
  lemma MoveUpSwaps<T>(xs: seq<T>, fs: seq<bool>, i: nat)
    requires |xs| == |fs| && i < |xs|
    ensures 0 < i && fs[i] && !fs[i - 1] ==> MoveUp(xs, fs)[i - 1] == xs[i] && MoveUp(xs, fs)[i] == xs[i - 1]
    ensures !(0 < i && fs[i] && !fs[i - 1]) && !(i + 1 < |fs| && fs[i + 1] && !fs[i]) ==> MoveUp(xs, fs)[i] == xs[i]
  {
  }

  lemma MoveDownSwaps<T>(xs: seq<T>, fs: seq<bool>, i: nat)
    requires |xs| == |fs| && i < |xs|
    ensures i + 1 < |fs| && fs[i] && !fs[i + 1] ==> MoveDown(xs, fs)[i + 1] == xs[i] && MoveDown(xs, fs)[i] == xs[i + 1]
    ensures !(i + 1 < |fs| && fs[i] && !fs[i + 1]) && !(0 < i && fs[i - 1] && !fs[i]) ==> MoveDown(xs, fs)[i] == xs[i]
  {
  }

  /** The positions before the first selected one are all clear. */
  lemma FirstCut(fs: seq<bool>)
    ensures Cut(Indices(fs), 0, |fs|) <= |fs|
    ensures forall t :: 0 <= t < Cut(Indices(fs), 0, |fs|) ==> !fs[t]
  {
    var L := Indices(fs);
    forall t | 0 <= t < Cut(L, 0, |fs|) ensures !fs[t] {
      if |L| > 0 { NoneBefore(fs, t); } else { IndicesEmpty(fs); }
    }
  }

  /** With nothing selected below c, no swap involves a position below c. */
  lemma ClearPrefixFixed(fs: seq<bool>, c: nat)
    requires c <= |fs| && forall t :: 0 <= t < c ==> !fs[t]
    ensures forall j :: 0 <= j < |fs| ==> UpFrom(fs, c, j) == j
    ensures forall j :: 0 <= j < |fs| ==> DownFrom(fs, c, j) == DownFrom(fs, 0, j)
  {
  }

  /** Before the first upward swap nothing has moved. */
  lemma UpStart<T>(xs: seq<T>, fs: seq<bool>)
    requires |xs| == |fs|
    ensures Cut(Indices(fs), 0, |xs|) <= |xs|
    ensures MoveUpBelow(xs, fs, Cut(Indices(fs), 0, |xs|)) == xs
  {
    FirstCut(fs);
    ClearPrefixFixed(fs, Cut(Indices(fs), 0, |fs|));
  }

  /** Once the last downward swap is done, the full rearrangement is reached. */
  lemma DownEnd<T>(xs: seq<T>, fs: seq<bool>)
    requires |xs| == |fs|
    ensures Cut(Indices(fs), 0, |xs|) <= |xs|
    ensures MoveDownAbove(xs, fs, Cut(Indices(fs), 0, |xs|)) == MoveDown(xs, fs)
  {
    FirstCut(fs);
    ClearPrefixFixed(fs, Cut(Indices(fs), 0, |fs|));
  }

  /** Before the first upward swap every position holds its own element. */
  lemma UpStartIndex(fs: seq<bool>, j: nat)
    requires j < |fs|
    ensures Cut(Indices(fs), 0, |fs|) <= |fs|
    ensures UpFrom(fs, Cut(Indices(fs), 0, |fs|), j) == j
  {
    FirstCut(fs);
    ClearPrefixFixed(fs, Cut(Indices(fs), 0, |fs|));
  }

  /** Before the first downward swap nothing has moved. */
  lemma DownStart<T>(xs: seq<T>, fs: seq<bool>)
    requires |xs| == |fs|
    ensures MoveDownAbove(xs, fs, |xs|) == xs
    ensures forall j :: 0 <= j < |fs| ==> DownFrom(fs, |fs|, j) == j
  {
  }

  /** Once the last downward swap is done, every position has its final source. */
  lemma DownEndIndex(fs: seq<bool>, j: nat)
    requires j < |fs|
    ensures Cut(Indices(fs), 0, |fs|) <= |fs|
    ensures DownFrom(fs, Cut(Indices(fs), 0, |fs|), j) == DownTarget(fs, j)
  {
    var L := Indices(fs);
    var c := Cut(L, 0, |fs|);
    if j < c {
      ClearBelow(fs, j);
      if 0 < j { ClearBelow(fs, j - 1); }
    } else if j == c && 0 < j {
      ClearBelow(fs, j - 1);
    }
  }

  lemma ClearBelow(fs: seq<bool>, t: nat)
    requires t < Cut(Indices(fs), 0, |fs|)
    ensures !fs[t]
  {
    var L := Indices(fs);
    if |L| > 0 { NoneBefore(fs, t); } else { IndicesEmpty(fs); }
  }

  /** One upward step, for the selected position i = L[idx]: the source map
      gains the swap of i with i - 1 when i - 1 is unselected. */
  lemma UpFromStep(fs: seq<bool>, i: nat, c': nat, j: nat)
    requires i < c' <= |fs| && fs[i] && j < |fs|
    requires forall t :: i + 1 <= t < c' ==> !fs[t]
    ensures UpFrom(fs, i, i) == i && (0 < i && !fs[i - 1] ==> UpFrom(fs, i, i - 1) == i - 1)
    ensures UpFrom(fs, c', j) ==
      if 0 < i && !fs[i - 1] && j == i then i - 1
      else if 0 < i && !fs[i - 1] && j == i - 1 then i
      else UpFrom(fs, i, j)
  {
  }

  /** One downward step, for the selected position i = L[idx - 1]. */
  lemma DownFromStep(fs: seq<bool>, i: nat, c: nat, j: nat)
    requires i < c <= |fs| && fs[i] && j < |fs|
    requires forall t :: i + 1 <= t < c ==> !fs[t]
    ensures DownFrom(fs, c, i) == i && (i + 1 < |fs| && !fs[i + 1] ==> DownFrom(fs, c, i + 1) == i + 1)
    ensures DownFrom(fs, i, j) ==
      if i + 1 < |fs| && !fs[i + 1] && j == i then i + 1
      else if i + 1 < |fs| && !fs[i + 1] && j == i + 1 then i
      else DownFrom(fs, c, j)
  {
  }

  /** The loop of move_frame_up, one selected position at a time. */
  lemma UpStep<T>(xs: seq<T>, fs: seq<bool>, idx: nat)
    requires |xs| == |fs| && idx < |Indices(fs)|
    ensures var L := Indices(fs); var i, c' := L[idx], Cut(L, idx + 1, |xs|);
      c' <= |xs| &&
      if 0 < i && !fs[i - 1] then MoveUpBelow(xs, fs, c') == Swap(MoveUpBelow(xs, fs, i), i, i - 1)
      else MoveUpBelow(xs, fs, c') == MoveUpBelow(xs, fs, i)
  {
    var L := Indices(fs);
    var i, c' := L[idx], Cut(L, idx + 1, |xs|);
    ClearAbove(fs, idx + 1);
    forall j | 0 <= j < |xs| ensures UpFrom(fs, c', j) ==
      if 0 < i && !fs[i - 1] && j == i then i - 1
      else if 0 < i && !fs[i - 1] && j == i - 1 then i
      else UpFrom(fs, i, j)
    {
      UpFromStep(fs, i, c', j);
    }
    UpFromStep(fs, i, c', i);
    if 0 < i { UpFromStep(fs, i, c', i - 1); }
  }

  /** The loop of move_frame_down, one selected position at a time from the top. */
  lemma DownStep<T>(xs: seq<T>, fs: seq<bool>, idx: nat)
    requires |xs| == |fs| && 0 < idx <= |Indices(fs)|
    ensures var L := Indices(fs); var i, c := L[idx - 1], Cut(L, idx, |xs|);
      c <= |xs| &&
      if i + 1 < |xs| && !fs[i + 1] then MoveDownAbove(xs, fs, i) == Swap(MoveDownAbove(xs, fs, c), i, i + 1)
      else MoveDownAbove(xs, fs, i) == MoveDownAbove(xs, fs, c)
  {
    var L := Indices(fs);
    var i, c := L[idx - 1], Cut(L, idx, |xs|);
    ClearAbove(fs, idx);
    forall j | 0 <= j < |xs| ensures DownFrom(fs, i, j) ==
      if i + 1 < |fs| && !fs[i + 1] && j == i then i + 1
      else if i + 1 < |fs| && !fs[i + 1] && j == i + 1 then i
      else DownFrom(fs, c, j)
    {
      DownFromStep(fs, i, c, j);
    }
    DownFromStep(fs, i, c, i);
  }

  /** Before the upward step for i, positions i and i - 1 still hold their
      own elements. */
  lemma UpStepFixed(fs: seq<bool>, idx: nat)
    requires idx < |Indices(fs)|
    ensures var i := Indices(fs)[idx];
      UpFrom(fs, i, i) == i && (0 < i && !fs[i - 1] ==> UpFrom(fs, i, i - 1) == i - 1)
  {
  }

  /** Before the downward step for i, positions i and i + 1 still hold their
      own elements. */
  lemma DownStepFixed(fs: seq<bool>, idx: nat)
    requires 0 < idx <= |Indices(fs)|
    ensures var L := Indices(fs); var i, c := L[idx - 1], Cut(L, idx, |fs|);
      DownFrom(fs, c, i) == i && (i + 1 < |fs| && !fs[i + 1] ==> DownFrom(fs, c, i + 1) == i + 1)
  {
    var L := Indices(fs);
    ClearAbove(fs, idx);
    DownFromStep(fs, L[idx - 1], Cut(L, idx, |fs|), L[idx - 1]);
  }

  /** The index update of the upward loop, applied to the position p that
      the element starting at j has reached, moves p to where that element
      goes next: the index keeps following the same element. */
  lemma UpIndexStep(fs: seq<bool>, idx: nat, j: nat)
    requires idx < |Indices(fs)| && j < |fs|
    ensures var L := Indices(fs); var i, c' := L[idx], Cut(L, idx + 1, |fs|);
      var p := UpFrom(fs, i, j);
      UpFrom(fs, c', j) ==
        if 0 < i && !fs[i - 1] && p == i then i - 1
        else if 0 < i && !fs[i - 1] && p == i - 1 then i
        else p
  {
    var L := Indices(fs);
    var i, c' := L[idx], Cut(L, idx + 1, |fs|);
    ClearAbove(fs, idx + 1);
    UpFromStep(fs, i, c', j);
    UpFromInvolution(fs, i, j);
  }

  /** One turn of the upward loop on one list, phrased as the source tests
      it: position i = L[idx] trades places with i - 1 exactly when i > 0 and
      i - 1 is not among the checked positions. */
  lemma UpTurn<T>(xs: seq<T>, fs: seq<bool>, idx: nat)
    requires |xs| == |fs| && idx < |Indices(fs)|
    ensures var L := Indices(fs); var i, c0, c1 := L[idx], Cut(L, idx, |fs|), Cut(L, idx + 1, |fs|);
      c0 == i && c1 <= |fs| &&
      (i > 0 && i - 1 !in L ==> MoveUpBelow(xs, fs, c1) == Swap(MoveUpBelow(xs, fs, c0), i, i - 1)) &&
      (!(i > 0 && i - 1 !in L) ==> MoveUpBelow(xs, fs, c1) == MoveUpBelow(xs, fs, c0))
  {
    var L := Indices(fs);
    var i := L[idx];
    ClearAbove(fs, idx + 1);
    UpStep(xs, fs, idx);
    if i > 0 { InIndices(fs, i - 1); }
  }

  /** The same turn on the checkbox list itself: the swap is the check mark
      moving from i to i - 1. */
  lemma UpTurnFlags(fs: seq<bool>, idx: nat)
    requires idx < |Indices(fs)|
    ensures var L := Indices(fs); var i, c0, c1 := L[idx], Cut(L, idx, |fs|), Cut(L, idx + 1, |fs|);
      c0 == i && c1 <= |fs| &&
      (i > 0 && i - 1 !in L ==> MoveUpBelow(fs, fs, c1) == MoveUpBelow(fs, fs, c0)[i := false][i - 1 := true]) &&
      (!(i > 0 && i - 1 !in L) ==> MoveUpBelow(fs, fs, c1) == MoveUpBelow(fs, fs, c0))
  {
    var L := Indices(fs);
    var i := L[idx];
    UpTurn(fs, fs, idx);
    UpStepFixed(fs, idx);
    if i > 0 { InIndices(fs, i - 1); }
  }

  /** The same turn on the current frame index. */
  lemma UpTurnIndex(fs: seq<bool>, idx: nat, j: nat)
    requires idx < |Indices(fs)| && j < |fs|
    ensures var L := Indices(fs); var i, c0, c1 := L[idx], Cut(L, idx, |fs|), Cut(L, idx + 1, |fs|);
      var p := UpFrom(fs, c0, j);
      UpFrom(fs, c1, j) ==
        if i > 0 && i - 1 !in L && p == i then i - 1
        else if i > 0 && i - 1 !in L && p == i - 1 then i
        else p
  {
    var L := Indices(fs);
    var i := L[idx];
    ClearAbove(fs, idx + 1);
    UpIndexStep(fs, idx, j);
    if i > 0 { InIndices(fs, i - 1); }
  }

  /** The index update of the downward loop, likewise. */
  lemma DownIndexStep(fs: seq<bool>, idx: nat, j: nat)
    requires 0 < idx <= |Indices(fs)| && j < |fs|
    ensures var L := Indices(fs); var i, c := L[idx - 1], Cut(L, idx, |fs|);
      var p := DownFrom(fs, c, j);
      DownFrom(fs, i, j) ==
        if i + 1 < |fs| && !fs[i + 1] && p == i then i + 1
        else if i + 1 < |fs| && !fs[i + 1] && p == i + 1 then i
        else p
  {
    var L := Indices(fs);
    var i, c := L[idx - 1], Cut(L, idx, |fs|);
    ClearAbove(fs, idx);
    DownFromStep(fs, i, c, j);
    DownFromInvolution(fs, c, j);
  }

  /** One turn of the downward loop on one list, phrased as the source tests
      it: position i = L[idx - 1] trades places with i + 1 exactly when
      i < n - 1 and i + 1 is not among the checked positions. */
  lemma DownTurn<T>(xs: seq<T>, fs: seq<bool>, idx: nat)
    requires |xs| == |fs| && 0 < idx <= |Indices(fs)|
    ensures var L := Indices(fs); var i, c0, c1 := L[idx - 1], Cut(L, idx, |fs|), Cut(L, idx - 1, |fs|);
      c1 == i && c0 <= |fs| &&
      (i < |fs| - 1 && i + 1 !in L ==> MoveDownAbove(xs, fs, c1) == Swap(MoveDownAbove(xs, fs, c0), i, i + 1)) &&
      (!(i < |fs| - 1 && i + 1 !in L) ==> MoveDownAbove(xs, fs, c1) == MoveDownAbove(xs, fs, c0))
  {
    var L := Indices(fs);
    var i := L[idx - 1];
    DownStep(xs, fs, idx);
    if i + 1 < |fs| { InIndices(fs, i + 1); }
  }

  /** The same turn on the checkbox list itself. */
  lemma DownTurnFlags(fs: seq<bool>, idx: nat)
    requires 0 < idx <= |Indices(fs)|
    ensures var L := Indices(fs); var i, c0, c1 := L[idx - 1], Cut(L, idx, |fs|), Cut(L, idx - 1, |fs|);
      c1 == i && c0 <= |fs| &&
      (i < |fs| - 1 && i + 1 !in L ==> MoveDownAbove(fs, fs, c1) == MoveDownAbove(fs, fs, c0)[i := false][i + 1 := true]) &&
      (!(i < |fs| - 1 && i + 1 !in L) ==> MoveDownAbove(fs, fs, c1) == MoveDownAbove(fs, fs, c0))
  {
    var L := Indices(fs);
    var i := L[idx - 1];
    DownTurn(fs, fs, idx);
    DownStepFixed(fs, idx);
    if i + 1 < |fs| { InIndices(fs, i + 1); }
  }

  /** The same turn on the current frame index. */
  lemma DownTurnIndex(fs: seq<bool>, idx: nat, j: nat)
    requires 0 < idx <= |Indices(fs)| && j < |fs|
    ensures var L := Indices(fs); var i, c0, c1 := L[idx - 1], Cut(L, idx, |fs|), Cut(L, idx - 1, |fs|);
      var p := DownFrom(fs, c0, j);
      DownFrom(fs, c1, j) ==
        if i < |fs| - 1 && i + 1 !in L && p == i then i + 1
        else if i < |fs| - 1 && i + 1 !in L && p == i + 1 then i
        else p
  {
    var L := Indices(fs);
    var i := L[idx - 1];
    ClearAbove(fs, idx);
    DownIndexStep(fs, idx, j);
    if i + 1 < |fs| { InIndices(fs, i + 1); }
  }

  /** Every intermediate state of the upward loop is a permutation. */
  lemma {:induction false} UpPrefixPermutes<T>(xs: seq<T>, fs: seq<bool>, idx: nat)
    requires |xs| == |fs| && idx <= |Indices(fs)|
    ensures Cut(Indices(fs), idx, |xs|) <= |xs|
    ensures multiset(MoveUpBelow(xs, fs, Cut(Indices(fs), idx, |xs|))) == multiset(xs)
  {
    var L := Indices(fs);
    if idx == 0 {
      UpStart(xs, fs);
    } else {
      UpPrefixPermutes(xs, fs, idx - 1);
      UpTurnMultiset(xs, fs, idx - 1);
    }
  }

  /** One turn of the upward loop keeps the multiset of elements. */
  lemma UpTurnMultiset<T>(xs: seq<T>, fs: seq<bool>, idx: nat)
    requires |xs| == |fs| && idx < |Indices(fs)|
    ensures var L := Indices(fs);
      Cut(L, idx, |fs|) <= |fs| && Cut(L, idx + 1, |fs|) <= |fs| &&
      multiset(MoveUpBelow(xs, fs, Cut(L, idx + 1, |fs|))) == multiset(MoveUpBelow(xs, fs, Cut(L, idx, |fs|)))
  {
    var L := Indices(fs);
    UpTurn(xs, fs, idx);
    var i := L[idx];
    var a := MoveUpBelow(xs, fs, Cut(L, idx, |fs|));
    if i > 0 && i - 1 !in L {
      SwapMultiset(a, i, i - 1);
    }
  }

  /** Every intermediate state of the downward loop is a permutation. */
  lemma {:induction false} DownSuffixPermutes<T>(xs: seq<T>, fs: seq<bool>, idx: nat)
    requires |xs| == |fs| && idx <= |Indices(fs)|
    ensures Cut(Indices(fs), idx, |xs|) <= |xs|
    ensures multiset(MoveDownAbove(xs, fs, Cut(Indices(fs), idx, |xs|))) == multiset(xs)
    decreases |Indices(fs)| - idx
  {
    var L := Indices(fs);
    if idx == |L| {
      DownStart(xs, fs);
    } else {
      DownSuffixPermutes(xs, fs, idx + 1);
      DownTurnMultiset(xs, fs, idx + 1);
    }
  }

  /** One turn of the downward loop keeps the multiset of elements. */
  lemma DownTurnMultiset<T>(xs: seq<T>, fs: seq<bool>, idx: nat)
    requires |xs| == |fs| && 0 < idx <= |Indices(fs)|
    ensures var L := Indices(fs);
      Cut(L, idx, |fs|) <= |fs| && Cut(L, idx - 1, |fs|) <= |fs| &&
      multiset(MoveDownAbove(xs, fs, Cut(L, idx - 1, |fs|))) == multiset(MoveDownAbove(xs, fs, Cut(L, idx, |fs|)))
  {
    var L := Indices(fs);
    DownTurn(xs, fs, idx);
    var i := L[idx - 1];
    var a := MoveDownAbove(xs, fs, Cut(L, idx, |fs|));
    if i < |xs| - 1 && i + 1 !in L {
      SwapMultiset(a, i, i + 1);
    }
  }

  /** Moving up or down rearranges the list without losing or duplicating
      anything. */
  lemma MovePermutes<T>(xs: seq<T>, fs: seq<bool>)
    requires |xs| == |fs|
    ensures multiset(MoveUp(xs, fs)) == multiset(xs)
    ensures multiset(MoveDown(xs, fs)) == multiset(xs)
  {
    UpPrefixPermutes(xs, fs, |Indices(fs)|);
    DownSuffixPermutes(xs, fs, 0);
    DownEnd(xs, fs);
  }

  /** The flags follow their frames under both moves. */
  lemma MoveFlags(fs: seq<bool>)
    ensures |Indices(MoveUp(fs, fs))| == |Indices(fs)|
    ensures |Indices(MoveDown(fs, fs))| == |Indices(fs)|
  {
    MovePermutes(fs, fs);
    CountTrue(fs);
    CountTrue(MoveUp(fs, fs));
    CountTrue(MoveDown(fs, fs));
  }

  /** The number of selected positions is the number of set flags. */
  lemma {:induction false} CountTrue(fs: seq<bool>)
    ensures |Indices(fs)| == multiset(fs)[true]
  {
    if |fs| > 0 {
      CountTrue(fs[..|fs| - 1]);
      assert fs == fs[..|fs| - 1] + [fs[|fs| - 1]];
    }
  }

  // =====================================================================
  // Moving the one selected element (GIFCraft-REF move_frame_up / down)

  /** The single selected position, when exactly one is selected. */
  function SoleSelected(fs: seq<bool>): (r: Option<nat>)
    ensures r.Some? <==> |Indices(fs)| == 1
    ensures r.Some? ==> r.value < |fs| && fs[r.value] && forall i :: 0 <= i < |fs| && i != r.value ==> !fs[i]
  {
    var L := Indices(fs);
    if |L| == 1 then
      assert forall i :: 0 <= i < |fs| && fs[i] ==> i == L[0] by {
        forall i | 0 <= i < |fs| && fs[i] ensures i == L[0] {
          InIndices(fs, i);
        }
      }
      Some(L[0])
    else None
  }

  /** With one position selected, the multi-selection rearrangement of
      move_frame_up is the single swap with the position above, and the
      check mark moves with the frame. */
  lemma SoleMoveUp<T>(xs: seq<T>, fs: seq<bool>, i: nat)
    requires |xs| == |fs| && SoleSelected(fs) == Some(i) && i > 0
    ensures MoveUp(xs, fs) == Swap(xs, i, i - 1)
    ensures MoveUp(fs, fs) == fs[i := false][i - 1 := true]
    ensures UpTarget(fs, i) == i - 1
  {
    forall j | 0 <= j < |xs| ensures MoveUp(xs, fs)[j] == Swap(xs, i, i - 1)[j] {
      if j != i && j != i - 1 {
        assert !fs[j];
        assert j + 1 != i ==> j + 1 >= |fs| || !fs[j + 1];
      }
    }
    forall j | 0 <= j < |fs| ensures MoveUp(fs, fs)[j] == fs[i := false][i - 1 := true][j] {
      if j != i && j != i - 1 {
        assert !fs[j];
      }
    }
  }

  /** The same for move_frame_down and the position below. */
  lemma SoleMoveDown<T>(xs: seq<T>, fs: seq<bool>, i: nat)
    requires |xs| == |fs| && SoleSelected(fs) == Some(i) && i + 1 < |fs|
    ensures MoveDown(xs, fs) == Swap(xs, i, i + 1)
    ensures MoveDown(fs, fs) == fs[i := false][i + 1 := true]
    ensures DownTarget(fs, i) == i + 1
  {
    forall j | 0 <= j < |xs| ensures MoveDown(xs, fs)[j] == Swap(xs, i, i + 1)[j] {
      if j != i && j != i + 1 {
        assert !fs[j];
        assert j != i + 1 ==> j == 0 || !fs[j - 1];
      }
    }
    forall j | 0 <= j < |fs| ensures MoveDown(fs, fs)[j] == fs[i := false][i + 1 := true][j] {
      if j != i && j != i + 1 {
        assert !fs[j];
      }
    }
  }

  // =====================================================================
  // Pasting after the selection (paste_frames)

  /** Just past the highest selected position, or the end when nothing is
      selected. */
  function PastePoint(fs: seq<bool>): (k: nat)
    ensures k <= |fs|
  {
    var L := Indices(fs);
    if |L| == 0 then |fs| else L[|L| - 1] + 1
  }

  /** The paste point is past every selected position and, when something is
      selected, right after a selected one. */
  lemma PastePointAfterSelection(fs: seq<bool>)
    ensures forall i :: 0 <= i < |fs| && fs[i] ==> i < PastePoint(fs)
    ensures NoneSelected(fs) <==> PastePoint(fs) == |fs| && (|fs| == 0 || !fs[|fs| - 1])
    ensures !NoneSelected(fs) ==> 0 < PastePoint(fs) && fs[PastePoint(fs) - 1]
  {
    var L := Indices(fs);
    IndicesEmpty(fs);
    forall i | 0 <= i < |fs| && fs[i] ensures i < PastePoint(fs) {
      InIndices(fs, i);
      var t :| 0 <= t < |L| && L[t] == i;
      if t < |L| - 1 { assert L[t] < L[|L| - 1]; }
    }
  }

  /** The pasted block spliced in at the paste point. */
  function Paste<T>(xs: seq<T>, fs: seq<bool>, block: seq<T>): (r: seq<T>)
    requires |xs| == |fs|
    ensures |r| == |xs| + |block|
  {
    Splice(xs, PastePoint(fs), block)
  }

  /** Pasting unchecked frames leaves the same frames selected. */
  lemma PasteUncheckedSelection<T>(xs: seq<T>, fs: seq<bool>, block: seq<T>)
    requires |xs| == |fs|
    ensures Pick(Paste(xs, fs, block), Paste(fs, fs, Falses(|block|))) == Pick(xs, fs)
  {
    PasteSplit(xs, fs, block, Falses(|block|));
    DropNone(block, Falses(|block|));
  }

  /** Pasting checked frames adds exactly the pasted block to the selection. */
  lemma PasteCheckedSelection<T>(xs: seq<T>, fs: seq<bool>, block: seq<T>)
    requires |xs| == |fs|
    ensures Pick(Paste(xs, fs, block), Paste(fs, fs, Trues(|block|))) == Pick(xs, fs) + block
    ensures Drop(Paste(xs, fs, block), Paste(fs, fs, Trues(|block|))) == Drop(xs, fs)
  {
    PasteSplit(xs, fs, block, Trues(|block|));
    DropAll(block, Trues(|block|));
  }

  /** Nothing at or after the paste point is selected, so the block's own
      flags decide what the paste adds to the selected half. */
  lemma PasteSplit<T>(xs: seq<T>, fs: seq<bool>, block: seq<T>, bf: seq<bool>)
    requires |xs| == |fs| && |block| == |bf|
    ensures Pick(Paste(xs, fs, block), Paste(fs, fs, bf)) == Pick(xs, fs) + Pick(block, bf)
    ensures AllSelected(bf) ==> Drop(Paste(xs, fs, block), Paste(fs, fs, bf)) == Drop(xs, fs)
  {
    var k := PastePoint(fs);
    PastePointAfterSelection(fs);
    SpliceClearTail(xs, fs, k, block, bf);
    if AllSelected(bf) { DropAll(block, bf); }
  }

  lemma SpliceClearTail<T>(xs: seq<T>, fs: seq<bool>, k: nat, block: seq<T>, bf: seq<bool>)
    requires |xs| == |fs| && k <= |xs| && |block| == |bf|
    requires forall i :: k <= i < |fs| ==> !fs[i]
    ensures Pick(Splice(xs, k, block), Splice(fs, k, bf)) == Pick(xs, fs) + Pick(block, bf)
    ensures Drop(block, bf) == [] ==> Drop(Splice(xs, k, block), Splice(fs, k, bf)) == Drop(xs, fs)
  {
    assert NoneSelected(fs[k..]);
    DropNone(xs[k..], fs[k..]);
    TailSplit(xs, fs, k);
    SpliceHalves(xs, fs, k, block, bf);
    Unit3(Pick(xs[..k], fs[..k]), Pick(block, bf), Pick(xs[k..], fs[k..]));
    if Drop(block, bf) == [] {
      Unit2(Drop(xs[..k], fs[..k]), Drop(block, bf), Drop(xs[k..], fs[k..]));
    }
  }

  lemma Unit3<T>(a: seq<T>, b: seq<T>, c: seq<T>)
    requires c == []
    ensures a + b + c == (a + c) + b
  {
  }

  lemma Unit2<T>(a: seq<T>, b: seq<T>, c: seq<T>)
    requires b == []
    ensures a + b + c == a + c
  {
  }

  lemma TailSplit<T>(xs: seq<T>, fs: seq<bool>, k: nat)
    requires |xs| == |fs| && k <= |xs|
    ensures Pick(xs, fs) == Pick(xs[..k], fs[..k]) + Pick(xs[k..], fs[k..])
    ensures Drop(xs, fs) == Drop(xs[..k], fs[..k]) + Drop(xs[k..], fs[k..])
  {
    assert xs == xs[..k] + xs[k..] && fs == fs[..k] + fs[k..];
    PickConcat(xs[..k], fs[..k], xs[k..], fs[k..]);
    DropConcat(xs[..k], fs[..k], xs[k..], fs[k..]);
  }

  lemma SpliceHalves<T>(xs: seq<T>, fs: seq<bool>, k: nat, block: seq<T>, bf: seq<bool>)
    requires |xs| == |fs| && k <= |xs| && |block| == |bf|
    ensures Pick(Splice(xs, k, block), Splice(fs, k, bf))
         == Pick(xs[..k], fs[..k]) + Pick(block, bf) + Pick(xs[k..], fs[k..])
    ensures Drop(Splice(xs, k, block), Splice(fs, k, bf))
         == Drop(xs[..k], fs[..k]) + Drop(block, bf) + Drop(xs[k..], fs[k..])
  {
    PickConcat(xs[..k], fs[..k], block, bf);
    DropConcat(xs[..k], fs[..k], block, bf);
    PickConcat(xs[..k] + block, fs[..k] + bf, xs[k..], fs[k..]);
    DropConcat(xs[..k] + block, fs[..k] + bf, xs[k..], fs[k..]);
  }

  /** Copying gathers the selected (frame, delay) pairs; pasting them puts
      the selected frames and their delays after the selection. */
  lemma CopyPaste(frames: seq<Img>, delays: seq<int>, fs: seq<bool>)
    requires |frames| == |delays| == |fs|
    ensures var clip := Pick(Zip(frames, delays), fs);
      Paste(frames, fs, Firsts(clip)) == Splice(frames, PastePoint(fs), Pick(frames, fs)) &&
      Paste(delays, fs, Seconds(clip)) == Splice(delays, PastePoint(fs), Pick(delays, fs))
  {
    PickZip(frames, delays, fs);
  }

  // =====================================================================
  // Crossfading the checked frames (apply_crossfade_effect)

  /** The number of frames each consecutive checked pair expands to. */
  const Steps: nat := 10

  /** The first frame of a pair followed by its nine blends towards the
      second; blend(a, b, s) mixes with weight s / Steps. */
  function Segment(a: Img, b: Img, blend: (Img, Img, nat) -> Img): (r: seq<Img>)
    ensures |r| == Steps
  {
    [a] + seq(Steps - 1, s requires 0 <= s < Steps - 1 => blend(a, b, s + 1))
  }

  /** The first frame keeps its delay; each blend gets delay // Steps. */
  function DelaySegment(d: int): (r: seq<int>)
    ensures |r| == Steps
  {
    [d] + seq(Steps - 1, _ => FloorDiv(d, Steps))
  }

  /** Image.blend raises ValueError unless its two images have the same
      size. */
  predicate SameSize(a: Img, b: Img) {
    a.width == b.width && a.height == b.height
  }

  /** Every consecutive pair of the frames at L can be blended. */
  predicate Blendable(frames: seq<Img>, L: seq<nat>)
    requires forall k :: 0 <= k < |L| ==> L[k] < |frames|
  {
    forall k :: 0 <= k < |L| - 1 ==> SameSize(frames[L[k]], frames[L[k + 1]])
  }

  function FadeFrames(frames: seq<Img>, L: seq<nat>, blend: (Img, Img, nat) -> Img): seq<Img>
    requires forall k :: 0 <= k < |L| ==> L[k] < |frames|
    decreases |L|
  {
    if |L| < 2 then []
    else FadeFrames(frames, L[..|L| - 1], blend) + Segment(frames[L[|L| - 2]], frames[L[|L| - 1]], blend)
  }

  function FadeDelays(delays: seq<int>, L: seq<nat>): seq<int>
    requires forall k :: 0 <= k < |L| ==> L[k] < |delays|
    decreases |L|
  {
    if |L| < 2 then []
    else FadeDelays(delays, L[..|L| - 1]) + DelaySegment(delays[L[|L| - 2]])
  }

  /** m checked frames expand to Steps * (m - 1) frames ... */
  lemma {:induction false} FadeFramesLength(frames: seq<Img>, L: seq<nat>, blend: (Img, Img, nat) -> Img)
    requires forall k :: 0 <= k < |L| ==> L[k] < |frames|
    ensures |FadeFrames(frames, L, blend)| == if |L| < 2 then 0 else Steps * (|L| - 1)
  {
    if |L| >= 2 {
      FadeFramesLength(frames, L[..|L| - 1], blend);
    }
  }

  /** ... and as many delays. */
  lemma {:induction false} FadeDelaysLength(delays: seq<int>, L: seq<nat>)
    requires forall k :: 0 <= k < |L| ==> L[k] < |delays|
    ensures |FadeDelays(delays, L)| == if |L| < 2 then 0 else Steps * (|L| - 1)
  {
    if |L| >= 2 {
      FadeDelaysLength(delays, L[..|L| - 1]);
    }
  }

  /** Frame Steps * k + s of the block is the k-th checked frame (s = 0) or
      its s-th blend towards the next checked frame; the last checked frame
      itself does not appear. */
  lemma {:induction false} FadeFramesAt(frames: seq<Img>, L: seq<nat>, blend: (Img, Img, nat) -> Img, k: nat, s: nat)
    requires forall t :: 0 <= t < |L| ==> L[t] < |frames|
    requires k + 1 < |L| && s < Steps
    ensures Steps * k + s < |FadeFrames(frames, L, blend)|
    ensures FadeFrames(frames, L, blend)[Steps * k + s] ==
      if s == 0 then frames[L[k]] else blend(frames[L[k]], frames[L[k + 1]], s)
  {
    var L' := L[..|L| - 1];
    FadeFramesLength(frames, L', blend);
    if k + 1 < |L'| {
      FadeFramesAt(frames, L', blend, k, s);
    } else {
      assert |L'| == k + 1;
    }
  }

  lemma {:induction false} FadeDelaysAt(delays: seq<int>, L: seq<nat>, k: nat, s: nat)
    requires forall t :: 0 <= t < |L| ==> L[t] < |delays|
    requires k + 1 < |L| && s < Steps
    ensures Steps * k + s < |FadeDelays(delays, L)|
    ensures FadeDelays(delays, L)[Steps * k + s] ==
      if s == 0 then delays[L[k]] else FloorDiv(delays[L[k]], Steps)
  {
    var L' := L[..|L| - 1];
    FadeDelaysLength(delays, L');
    if k + 1 < |L'| {
      FadeDelaysAt(delays, L', k, s);
    } else {
      assert |L'| == k + 1;
    }
  }

  /** The block grows by one segment for each further checked frame. */
  lemma FadeFramesNext(frames: seq<Img>, L: seq<nat>, blend: (Img, Img, nat) -> Img, idx: nat)
    requires forall t :: 0 <= t < |L| ==> L[t] < |frames|
    requires idx + 1 < |L|
    ensures FadeFrames(frames, L[..idx + 2], blend) ==
      FadeFrames(frames, L[..idx + 1], blend) + Segment(frames[L[idx]], frames[L[idx + 1]], blend)
  {
    assert L[..idx + 2][..idx + 1] == L[..idx + 1];
  }

  lemma FadeDelaysNext(delays: seq<int>, L: seq<nat>, idx: nat)
    requires forall t :: 0 <= t < |L| ==> L[t] < |delays|
    requires idx + 1 < |L|
    ensures FadeDelays(delays, L[..idx + 2]) == FadeDelays(delays, L[..idx + 1]) + DelaySegment(delays[L[idx]])
  {
    assert L[..idx + 2][..idx + 1] == L[..idx + 1];
  }

  /** The checked elements removed and a block inserted where the first one was. */
  function Crossfade<T>(xs: seq<T>, fs: seq<bool>, block: seq<T>): (r: seq<T>)
    requires |xs| == |fs| && |Indices(fs)| > 0
    ensures |r| == |xs| - |Indices(fs)| + |block|
  {
    DropKeepsPrefix(xs, fs);
    PickDropLength(xs, fs);
    Splice(Drop(xs, fs), Indices(fs)[0], block)
  }

  /** After a crossfade the frames before the first checked one are as they
      were, the block follows, then the unchecked frames that came after. */
  lemma CrossfadeLayout<T>(xs: seq<T>, fs: seq<bool>, block: seq<T>)
    requires |xs| == |fs| && |Indices(fs)| > 0
    ensures Indices(fs)[0] <= |Drop(xs, fs)|
    ensures var r, p := Crossfade(xs, fs, block), Indices(fs)[0];
      r[..p] == xs[..p] && r[p..p + |block|] == block && r[p + |block|..] == Drop(xs, fs)[p..]
  {
    DropKeepsPrefix(xs, fs);
    SpliceParts(Drop(xs, fs), Indices(fs)[0], block);
  }

  /** Exactly the inserted block is checked after a crossfade. */
  lemma CrossfadeFlags(fs: seq<bool>, n: nat)
    requires |Indices(fs)| > 0
    ensures var p := Indices(fs)[0];
      p <= |fs| - |Indices(fs)| &&
      Crossfade(fs, fs, Trues(n)) == Falses(p) + Trues(n) + Falses(|fs| - |Indices(fs)| - p)
  {
    DropKeepsPrefix(fs, fs);
    PickDropFlags(fs);
    PickDropLength(fs, fs);
    SpliceIntoFalses(|fs| - |Indices(fs)|, Indices(fs)[0], n);
  }

  lemma SpliceIntoFalses(m: nat, p: nat, n: nat)
    requires p <= m
    ensures Splice(Falses(m), p, Trues(n)) == Falses(p) + Trues(n) + Falses(m - p)
  {
    assert Falses(m)[..p] == Falses(p) && Falses(m)[p..] == Falses(m - p);
  }

  function Sum(ds: seq<int>): int {
    if |ds| == 0 then 0 else Sum(ds[..|ds| - 1]) + ds[|ds| - 1]
  }

  lemma {:induction false} SumConst(n: nat, v: int)
    ensures Sum(seq(n, _ => v)) == n * v
  {
    if n > 0 {
      assert seq(n, _ => v)[..n - 1] == seq(n - 1, _ => v);
      SumConst(n - 1, v);
    }
  }

  lemma {:induction false} SumConcat(a: seq<int>, b: seq<int>)
    ensures Sum(a + b) == Sum(a) + Sum(b)
  {
    if |b| > 0 {
      assert (a + b)[..|a + b| - 1] == a + b[..|b| - 1];
      SumConcat(a, b[..|b| - 1]);
    } else {
      assert a + b == a;
    }
  }

  /** One pair of checked frames lasts d + 9 * (d // 10) after the crossfade
      instead of d: the blends add to the pair's time rather than share it. */
  lemma SegmentDuration(d: int)
    ensures Sum(DelaySegment(d)) == d + (Steps - 1) * FloorDiv(d, Steps)
    ensures d >= Steps ==> Sum(DelaySegment(d)) > d
  {
    SumConcat([d], seq(Steps - 1, _ => FloorDiv(d, Steps)));
    SumConst(Steps - 1, FloorDiv(d, Steps));
    assert Sum([d]) == d by {
      assert [d][..0] == [];
    }
  }

  // =====================================================================
  // Reversing the selected values (reverse_frames)

  /** The values at the selected positions written back in reverse order. */
  function ReverseSelected<T>(xs: seq<T>, fs: seq<bool>): (r: seq<T>)
    requires |xs| == |fs|
    ensures |r| == |xs|
  {
    var L := Indices(fs);
    Scatter(xs, L, Reverse(Gather(xs, L)))
  }

  /** The selected half comes out reversed and the unselected half unchanged. */
  lemma ReverseSelectedHalves<T>(xs: seq<T>, fs: seq<bool>)
    requires |xs| == |fs|
    ensures Pick(ReverseSelected(xs, fs), fs) == Reverse(Pick(xs, fs))
    ensures Drop(ReverseSelected(xs, fs), fs) == Drop(xs, fs)
    ensures forall i :: 0 <= i < |xs| && !fs[i] ==> ReverseSelected(xs, fs)[i] == xs[i]
  {
    var L := Indices(fs);
    var r := ReverseSelected(xs, fs);
    PickIsGather(r, fs);
    PickIsGather(xs, fs);
    GatherScatter(xs, L, Reverse(Gather(xs, L)));
    forall i | 0 <= i < |xs| && !fs[i] ensures r[i] == xs[i] {
      InIndices(fs, i);
      ScatterAt(xs, L, Reverse(Gather(xs, L)), i);
    }
    DropUnselectedOnly(xs, r, fs);
  }

  /** Reversing the selection twice restores the list. */
  lemma ReverseSelectedTwice<T>(xs: seq<T>, fs: seq<bool>)
    requires |xs| == |fs|
    ensures ReverseSelected(ReverseSelected(xs, fs), fs) == xs
  {
    var L := Indices(fs);
    var r := ReverseSelected(xs, fs);
    var rr := ReverseSelected(r, fs);
    ReverseSelectedHalves(xs, fs);
    ReverseSelectedHalves(r, fs);
    GatherScatter(xs, L, Reverse(Gather(xs, L)));
    GatherScatter(r, L, Reverse(Gather(r, L)));
    ReverseReverse(Gather(xs, L));
    assert Gather(rr, L) == Gather(xs, L);
    forall i | 0 <= i < |xs| ensures rr[i] == xs[i] {
      InIndices(fs, i);
      if fs[i] {
        var k :| 0 <= k < |L| && L[k] == i;
        assert Gather(rr, L)[k] == Gather(xs, L)[k];
      }
    }
  }
}

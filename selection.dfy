/** The selection model: the check box flags, the ascending list of checked
    indices that every editor action computes first, and the two halves of a
    list that a selection splits it into. */
module Selection {

  /** The positions of the checked boxes, ascending, as the source's list
      comprehensions over the check boxes collect them. */
  function Indices(fs: seq<bool>): (L: seq<nat>)
    ensures |L| <= |fs|
    ensures forall k :: 0 <= k < |L| ==> L[k] < |fs| && fs[L[k]]
    ensures forall k, l :: 0 <= k < l < |L| ==> L[k] < L[l]
  {
    if |fs| == 0 then []
    else Indices(fs[..|fs| - 1]) + (if fs[|fs| - 1] then [|fs| - 1] else [])
  }

  /** The elements at the selected positions, in order (what copy_frames and
      move_frames_to_position collect). */
  function Pick<T>(xs: seq<T>, fs: seq<bool>): seq<T>
    requires |xs| == |fs|
  {
    if |xs| == 0 then []
    else Pick(xs[..|xs| - 1], fs[..|fs| - 1]) + (if fs[|fs| - 1] then [xs[|xs| - 1]] else [])
  }

  /** The elements at the unselected positions, in order (what delete_frames keeps). */
  function Drop<T>(xs: seq<T>, fs: seq<bool>): seq<T>
    requires |xs| == |fs|
  {
    if |xs| == 0 then []
    else Drop(xs[..|xs| - 1], fs[..|fs| - 1]) + (if fs[|fs| - 1] then [] else [xs[|xs| - 1]])
  }

  /** Python's `[xs[i] for i in L]`. */
  function Gather<T>(xs: seq<T>, L: seq<nat>): (r: seq<T>)
    requires forall k :: 0 <= k < |L| ==> L[k] < |xs|
    ensures |r| == |L| && forall k :: 0 <= k < |L| ==> r[k] == xs[L[k]]
  {
    seq(|L|, k requires 0 <= k < |L| => xs[L[k]])
  }

  predicate NoneSelected(fs: seq<bool>) {
    forall i :: 0 <= i < |fs| ==> !fs[i]
  }

  predicate AllSelected(fs: seq<bool>) {
    forall i :: 0 <= i < |fs| ==> fs[i]
  }

  function Falses(n: nat): (r: seq<bool>)
    ensures |r| == n && NoneSelected(r)
  {
    seq(n, _ => false)
  }

  function Trues(n: nat): (r: seq<bool>)
    ensures |r| == n && AllSelected(r)
  {
    seq(n, _ => true)
  }

  // ---------------------------------------------------------------------
  // Facts about the selected positions

  /** A selection is empty exactly when no flag is set. */
  lemma IndicesEmpty(fs: seq<bool>)
    ensures |Indices(fs)| == 0 <==> NoneSelected(fs)
  {
    var L := Indices(fs);
    if |L| == 0 {
      forall i | 0 <= i < |fs| ensures !fs[i] {
        InIndices(fs, i);
      }
    }
  }

  /** Membership in the selected list is exactly the flag. */
  lemma {:induction false} InIndices(fs: seq<bool>, i: int)
    ensures i in Indices(fs) <==> 0 <= i < |fs| && fs[i]
  {
    var L := Indices(fs);
    if i in L {
      var k :| 0 <= k < |L| && L[k] == i;
    }
    if |fs| > 0 && 0 <= i < |fs| && fs[i] {
      var fs' := fs[..|fs| - 1];
      if i < |fs| - 1 {
        InIndices(fs', i);
        assert fs'[i] == fs[i];
      }
    }
  }

  /** No position strictly between two consecutive selected positions is selected. */
  lemma NoneBetween(fs: seq<bool>, k: nat, j: int)
    requires k + 1 < |Indices(fs)|
    requires Indices(fs)[k] < j < Indices(fs)[k + 1]
    ensures !fs[j]
  {
    var L := Indices(fs);
    forall t | 0 <= t < |L| ensures L[t] != j {
      if t < k {
        assert L[t] < L[k];
      } else if t > k + 1 {
        assert L[k + 1] < L[t];
      }
    }
    assert j !in L;
    InIndices(fs, j);
  }

  /** No position before the first selected one is selected. */
  lemma NoneBefore(fs: seq<bool>, j: int)
    requires |Indices(fs)| > 0 && 0 <= j < Indices(fs)[0]
    ensures !fs[j]
  {
    var L := Indices(fs);
    forall t | 0 <= t < |L| ensures L[t] != j {
      if t > 0 {
        assert L[0] < L[t];
      }
    }
    assert j !in L;
    InIndices(fs, j);
  }

  /** No position after the last selected one is selected. */
  lemma NoneAfter(fs: seq<bool>, j: int)
    requires |Indices(fs)| > 0 && Indices(fs)[|Indices(fs)| - 1] < j < |fs|
    ensures !fs[j]
  {
    var L := Indices(fs);
    forall t | 0 <= t < |L| ensures L[t] != j {
      if t < |L| - 1 {
        assert L[t] < L[|L| - 1];
      }
    }
    assert j !in L;
    InIndices(fs, j);
  }

  // ---------------------------------------------------------------------
  // Pick and Drop

  lemma {:induction false} PickDropLength<T>(xs: seq<T>, fs: seq<bool>)
    requires |xs| == |fs|
    ensures |Pick(xs, fs)| == |Indices(fs)|
    ensures |Drop(xs, fs)| == |xs| - |Indices(fs)|
  {
    if |xs| > 0 {
      PickDropLength(xs[..|xs| - 1], fs[..|fs| - 1]);
    }
  }

  lemma {:induction false} PickConcat<T>(a: seq<T>, fa: seq<bool>, b: seq<T>, fb: seq<bool>)
    requires |a| == |fa| && |b| == |fb|
    ensures Pick(a + b, fa + fb) == Pick(a, fa) + Pick(b, fb)
  {
    if |b| > 0 {
      var b', fb' := b[..|b| - 1], fb[..|fb| - 1];
      assert (a + b)[..|a + b| - 1] == a + b' && (fa + fb)[..|fa + fb| - 1] == fa + fb';
      PickConcat(a, fa, b', fb');
    } else {
      assert a + b == a && fa + fb == fa;
    }
  }

  lemma {:induction false} DropConcat<T>(a: seq<T>, fa: seq<bool>, b: seq<T>, fb: seq<bool>)
    requires |a| == |fa| && |b| == |fb|
    ensures Drop(a + b, fa + fb) == Drop(a, fa) + Drop(b, fb)
  {
    if |b| > 0 {
      var b', fb' := b[..|b| - 1], fb[..|fb| - 1];
      assert (a + b)[..|a + b| - 1] == a + b' && (fa + fb)[..|fa + fb| - 1] == fa + fb';
      DropConcat(a, fa, b', fb');
    } else {
      assert a + b == a && fa + fb == fa;
    }
  }

  lemma {:induction false} DropNone<T>(xs: seq<T>, fs: seq<bool>)
    requires |xs| == |fs| && NoneSelected(fs)
    ensures Drop(xs, fs) == xs && Pick(xs, fs) == []
  {
    if |xs| > 0 {
      DropNone(xs[..|xs| - 1], fs[..|fs| - 1]);
      assert xs == xs[..|xs| - 1] + [xs[|xs| - 1]];
    }
  }

  lemma {:induction false} DropAll<T>(xs: seq<T>, fs: seq<bool>)
    requires |xs| == |fs| && AllSelected(fs)
    ensures Drop(xs, fs) == [] && Pick(xs, fs) == xs
  {
    if |xs| > 0 {
      DropAll(xs[..|xs| - 1], fs[..|fs| - 1]);
      assert xs == xs[..|xs| - 1] + [xs[|xs| - 1]];
    }
  }

  /** The k-th picked element is the element at the k-th selected position. */
  lemma {:induction false} PickIsGather<T>(xs: seq<T>, fs: seq<bool>)
    requires |xs| == |fs|
    ensures Pick(xs, fs) == Gather(xs, Indices(fs))
  {
    if |xs| > 0 {
      var xs', fs' := xs[..|xs| - 1], fs[..|fs| - 1];
      PickIsGather(xs', fs');
      PickDropLength(xs', fs');
      assert Indices(fs) == Indices(fs') + (if fs[|fs| - 1] then [|fs| - 1] else []);
    }
  }

  /** Picking the flags themselves yields only set flags; dropping them only clear ones. */
  lemma {:induction false} PickDropFlags(fs: seq<bool>)
    ensures AllSelected(Pick(fs, fs)) && NoneSelected(Drop(fs, fs))
    ensures Pick(fs, fs) == Trues(|Indices(fs)|)
    ensures Drop(fs, fs) == Falses(|fs| - |Indices(fs)|)
  {
    if |fs| > 0 {
      PickDropFlags(fs[..|fs| - 1]);
    }
    PickDropLength(fs, fs);
  }

  /** Together the two halves hold exactly the elements of the list. */
  lemma {:induction false} PickDropMultiset<T>(xs: seq<T>, fs: seq<bool>)
    requires |xs| == |fs|
    ensures multiset(Pick(xs, fs)) + multiset(Drop(xs, fs)) == multiset(xs)
  {
    if |xs| > 0 {
      var xs', fs' := xs[..|xs| - 1], fs[..|fs| - 1];
      PickDropMultiset(xs', fs');
      PickDropLastMultiset(xs, fs);
    }
  }

  /** The last element goes to exactly one of the two halves. */
  lemma PickDropLastMultiset<T>(xs: seq<T>, fs: seq<bool>)
    requires |xs| == |fs| && |xs| > 0
    ensures var xs', fs' := xs[..|xs| - 1], fs[..|fs| - 1];
      multiset(xs) == multiset(xs') + multiset{xs[|xs| - 1]} &&
      multiset(Pick(xs, fs)) + multiset(Drop(xs, fs)) ==
        multiset(Pick(xs', fs')) + multiset(Drop(xs', fs')) + multiset{xs[|xs| - 1]}
  {
    var xs', fs' := xs[..|xs| - 1], fs[..|fs| - 1];
    var x := xs[|xs| - 1];
    assert xs == xs' + [x];
    var P, D := Pick(xs', fs'), Drop(xs', fs');
    if fs[|fs| - 1] {
      assert Pick(xs, fs) == P + [x];
      assert Drop(xs, fs) == D;
    } else {
      assert Pick(xs, fs) == P;
      assert Drop(xs, fs) == D + [x];
    }
  }

  /** Splitting a list on all-clear flags after some point. */
  lemma DropPrefixClear<T>(xs: seq<T>, fs: seq<bool>, k: nat, c: nat)
    requires |xs| == |fs| && k <= c <= |xs|
    requires forall j :: k <= j < c ==> !fs[j]
    ensures Drop(xs[k..], fs[k..]) == xs[k..c] + Drop(xs[c..], fs[c..])
  {
    assert xs[k..] == xs[k..c] + xs[c..];
    assert fs[k..] == fs[k..c] + fs[c..];
    DropConcat(xs[k..c], fs[k..c], xs[c..], fs[c..]);
    DropNone(xs[k..c], fs[k..c]);
  }
}

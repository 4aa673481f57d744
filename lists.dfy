/** Python list primitives the editor applies to its parallel lists:
    `insert`, `del`/`pop`, `reverse`, and indexed assignment along a list of
    positions. */
module Lists {
  import opened Selection

  /** `xs.insert(k, x)` for k >= 0: an index past the end appends. */
  function Insert<T>(xs: seq<T>, k: nat, x: T): (r: seq<T>)
    ensures |r| == |xs| + 1
  {
    if k <= |xs| then xs[..k] + [x] + xs[k..] else xs + [x]
  }

  /** `del xs[k]` and `xs.pop(k)`. */
  function Remove<T>(xs: seq<T>, k: nat): (r: seq<T>)
    requires k < |xs|
    ensures |r| == |xs| - 1
  {
    xs[..k] + xs[k + 1..]
  }

  /** `xs.reverse()`. */
  function Reverse<T>(xs: seq<T>): (r: seq<T>)
    ensures |r| == |xs|
  {
    seq(|xs|, i requires 0 <= i < |xs| => xs[|xs| - 1 - i])
  }

  /** A block spliced in at position k. */
  function Splice<T>(xs: seq<T>, k: nat, block: seq<T>): (r: seq<T>)
    requires k <= |xs|
    ensures |r| == |xs| + |block|
  {
    xs[..k] + block + xs[k..]
  }

  /** `xs` with position L[k] overwritten by vals[k], for each k in turn. */
  function Scatter<T>(xs: seq<T>, L: seq<nat>, vals: seq<T>): (r: seq<T>)
    requires |vals| == |L| && forall k :: 0 <= k < |L| ==> L[k] < |xs|
    ensures |r| == |xs|
  {
    if |L| == 0 then xs
    else Scatter(xs, L[..|L| - 1], vals[..|vals| - 1])[L[|L| - 1] := vals[|vals| - 1]]
  }

  /** `xs[i], xs[j] = xs[j], xs[i]`. */
  function Swap<T>(xs: seq<T>, i: nat, j: nat): (r: seq<T>)
    requires i < |xs| && j < |xs|
    ensures |r| == |xs|
  {
    xs[i := xs[j]][j := xs[i]]
  }

  function Zip<A, B>(a: seq<A>, b: seq<B>): (r: seq<(A, B)>)
    requires |a| == |b|
    ensures |r| == |a|
  {
    seq(|a|, i requires 0 <= i < |a| => (a[i], b[i]))
  }

  function Firsts<A, B>(ps: seq<(A, B)>): (r: seq<A>)
    ensures |r| == |ps|
  {
    seq(|ps|, i requires 0 <= i < |ps| => ps[i].0)
  }

  function Seconds<A, B>(ps: seq<(A, B)>): (r: seq<B>)
    ensures |r| == |ps|
  {
    seq(|ps|, i requires 0 <= i < |ps| => ps[i].1)
  }

  // ---------------------------------------------------------------------
  // Reversing

  /** Reversing twice gives the list back. */
  lemma ReverseReverse<T>(xs: seq<T>)
    ensures Reverse(Reverse(xs)) == xs
  {
  }

  /** Swapping two positions keeps the elements. */
  lemma SwapMultiset<T>(xs: seq<T>, i: nat, j: nat)
    requires i < |xs| && j < |xs|
    ensures multiset(Swap(xs, i, j)) == multiset(xs)
  {
  }

  /** A spliced block sits at its position, the rest is the old list, and
      the elements are the old ones together with the block's. */
  lemma SpliceParts<T>(xs: seq<T>, k: nat, block: seq<T>)
    requires k <= |xs|
    ensures var r := Splice(xs, k, block);
      r[k..k + |block|] == block && r[..k] + r[k + |block|..] == xs &&
      r[..k] == xs[..k] && r[k + |block|..] == xs[k..] &&
      multiset(r) == multiset(xs) + multiset(block)
  {
    var r := Splice(xs, k, block);
    assert r[..k] == xs[..k] && r[k + |block|..] == xs[k..];
    assert xs[..k] + xs[k..] == xs;
    calc {
      multiset(r);
      multiset(xs[..k] + block) + multiset(xs[k..]);
      multiset(xs[..k]) + multiset(block) + multiset(xs[k..]);
      { assert multiset(xs) == multiset(xs[..k] + xs[k..]); }
      multiset(xs) + multiset(block);
    }
  }

  // ---------------------------------------------------------------------
  // Inserting one element at a time

  /** Inserting the next element of a block just after the part already
      inserted at position p extends the spliced block by one. */
  lemma InsertNext<T>(xs: seq<T>, p: nat, block: seq<T>, i: nat)
    requires p <= |xs| && i < |block|
    ensures Insert(Splice(xs, p, block[..i]), p + i, block[i]) == Splice(xs, p, block[..i + 1])
  {
    assert block[..i + 1] == block[..i] + [block[i]];
  }

  /** Insertion at positions counted from a start past the end appends. */
  lemma InsertPastEnd<T>(xs: seq<T>, block: seq<T>, i: nat, k: nat)
    requires i < |block| && k >= |xs|
    ensures Insert(xs + block[..i], k + i, block[i]) == xs + block[..i + 1]
  {
    assert block[..i + 1] == block[..i] + [block[i]];
  }

  // ---------------------------------------------------------------------
  // Deleting the selected positions from the highest down

  /** The list after every selected position at or above b has been deleted. */
  function DropFrom<T>(xs: seq<T>, fs: seq<bool>, b: nat): seq<T>
    requires |xs| == |fs| && b <= |xs|
  {
    xs[..b] + Drop(xs[b..], fs[b..])
  }

  /** The position below which the selected positions are still present when
      j of them (the lowest j) remain. */
  function Cut(L: seq<nat>, j: nat, n: nat): nat {
    if j < |L| then L[j] else n
  }

  lemma DropFromStart<T>(xs: seq<T>, fs: seq<bool>)
    requires |xs| == |fs|
    ensures DropFrom(xs, fs, |xs|) == xs
  {
    assert xs[|xs|..] == [] && fs[|fs|..] == [];
  }

  /** Deleting the next selected position down keeps the shape of DropFrom. */
  lemma DeleteStep<T>(xs: seq<T>, fs: seq<bool>, j: nat)
    requires |xs| == |fs| && 0 < j <= |Indices(fs)|
    ensures var L := Indices(fs); var c0, c1 := Cut(L, j, |xs|), Cut(L, j - 1, |xs|);
      c0 <= |xs| && c1 == L[j - 1] && L[j - 1] < |DropFrom(xs, fs, c0)| &&
      Remove(DropFrom(xs, fs, c0), L[j - 1]) == DropFrom(xs, fs, c1)
  {
    var L := Indices(fs);
    ClearAbove(fs, j);
    DeleteAt(xs, fs, L[j - 1], Cut(L, j, |xs|));
  }

  /** Between the j-th selected position and the next cut nothing is selected. */
  lemma ClearAbove(fs: seq<bool>, j: nat)
    requires 0 < j <= |Indices(fs)|
    ensures Indices(fs)[j - 1] < Cut(Indices(fs), j, |fs|) <= |fs|
    ensures forall t :: Indices(fs)[j - 1] + 1 <= t < Cut(Indices(fs), j, |fs|) ==> !fs[t]
  {
    var L := Indices(fs);
    forall t | L[j - 1] + 1 <= t < Cut(L, j, |fs|) ensures !fs[t] {
      if j < |L| { NoneBetween(fs, j - 1, t); } else { NoneAfter(fs, t); }
    }
  }

  /** Deleting a selected position k with only clear positions between it and b. */
  lemma DeleteAt<T>(xs: seq<T>, fs: seq<bool>, k: nat, b: nat)
    requires |xs| == |fs| && k < b <= |xs| && fs[k]
    requires forall t :: k + 1 <= t < b ==> !fs[t]
    ensures k < |DropFrom(xs, fs, b)|
    ensures Remove(DropFrom(xs, fs, b), k) == DropFrom(xs, fs, k)
  {
    DropSelectedThenClear(xs, fs, k, b);
    RemoveInPrefix(xs[..b], Drop(xs[b..], fs[b..]), k);
    assert xs[..b][..k] == xs[..k] && xs[..b][k + 1..] == xs[k + 1..b];
    assert xs[..k] + xs[k + 1..b] + Drop(xs[b..], fs[b..])
        == xs[..k] + (xs[k + 1..b] + Drop(xs[b..], fs[b..]));
  }

  lemma RemoveInPrefix<T>(a: seq<T>, rest: seq<T>, k: nat)
    requires k < |a|
    ensures Remove(a + rest, k) == a[..k] + a[k + 1..] + rest
  {
    assert (a + rest)[..k] == a[..k];
    assert (a + rest)[k + 1..] == a[k + 1..] + rest;
  }

  /** Dropping from a selected position k followed by clear positions up to b. */
  lemma DropSelectedThenClear<T>(xs: seq<T>, fs: seq<bool>, k: nat, b: nat)
    requires |xs| == |fs| && k < b <= |xs| && fs[k]
    requires forall t :: k + 1 <= t < b ==> !fs[t]
    ensures Drop(xs[k..], fs[k..]) == xs[k + 1..b] + Drop(xs[b..], fs[b..])
  {
    DropPrefixClear(xs, fs, k + 1, b);
    assert xs[k..] == [xs[k]] + xs[k + 1..] && fs[k..] == [fs[k]] + fs[k + 1..];
    DropConcat([xs[k]], [fs[k]], xs[k + 1..], fs[k + 1..]);
    assert Drop([xs[k]], [fs[k]]) == [];
  }

  /** Once every selected position is gone, what is left is the dropped half. */
  lemma DropFromEnd<T>(xs: seq<T>, fs: seq<bool>)
    requires |xs| == |fs|
    ensures Cut(Indices(fs), 0, |xs|) <= |xs|
    ensures DropFrom(xs, fs, Cut(Indices(fs), 0, |xs|)) == Drop(xs, fs)
  {
    var L := Indices(fs);
    var b := Cut(L, 0, |xs|);
    forall t | 0 <= t < b ensures !fs[t] {
      if |L| > 0 { NoneBefore(fs, t); } else { IndicesEmpty(fs); }
    }
    DropPrefixClear(xs, fs, 0, b);
    assert xs[0..] == xs && fs[0..] == fs;
  }

  /** The part of the dropped half before the first selected position is the
      original prefix. */
  lemma DropKeepsPrefix<T>(xs: seq<T>, fs: seq<bool>)
    requires |xs| == |fs| && |Indices(fs)| > 0
    ensures Indices(fs)[0] <= |Drop(xs, fs)|
    ensures Drop(xs, fs)[..Indices(fs)[0]] == xs[..Indices(fs)[0]]
  {
    DropFromEnd(xs, fs);
    PickDropLength(xs[Indices(fs)[0]..], fs[Indices(fs)[0]..]);
  }

  // ---------------------------------------------------------------------
  // Assigning along a list of positions

  /** Assigning along strictly increasing positions: each listed position
      receives its value and the others keep theirs. */
  lemma {:induction false} ScatterAt<T>(xs: seq<T>, L: seq<nat>, vals: seq<T>, i: nat)
    requires |vals| == |L| && forall k :: 0 <= k < |L| ==> L[k] < |xs|
    requires forall k, l :: 0 <= k < l < |L| ==> L[k] < L[l]
    requires i < |xs|
    ensures forall k :: 0 <= k < |L| && L[k] == i ==> Scatter(xs, L, vals)[i] == vals[k]
    ensures i !in L ==> Scatter(xs, L, vals)[i] == xs[i]
  {
    if |L| > 0 {
      var L', vals' := L[..|L| - 1], vals[..|vals| - 1];
      ScatterAt(xs, L', vals', i);
      forall k | 0 <= k < |L| && L[k] == i ensures Scatter(xs, L, vals)[i] == vals[k] {
        if k < |L| - 1 {
          assert L[k] < L[|L| - 1];
          assert L'[k] == i;
        }
      }
      if i !in L {
        assert i !in L';
      }
    }
  }

  /** Reading back the assigned positions yields the assigned values. */
  lemma GatherScatter<T>(xs: seq<T>, L: seq<nat>, vals: seq<T>)
    requires |vals| == |L| && forall k :: 0 <= k < |L| ==> L[k] < |xs|
    requires forall k, l :: 0 <= k < l < |L| ==> L[k] < L[l]
    ensures Gather(Scatter(xs, L, vals), L) == vals
  {
    forall k | 0 <= k < |L| ensures Gather(Scatter(xs, L, vals), L)[k] == vals[k] {
      ScatterAt(xs, L, vals, L[k]);
    }
  }

  // ---------------------------------------------------------------------
  // Pairs

  lemma PickZip<A, B>(a: seq<A>, b: seq<B>, fs: seq<bool>)
    requires |a| == |b| == |fs|
    ensures Firsts(Pick(Zip(a, b), fs)) == Pick(a, fs)
    ensures Seconds(Pick(Zip(a, b), fs)) == Pick(b, fs)
  {
    PickIsGather(Zip(a, b), fs);
    PickIsGather(a, fs);
    PickIsGather(b, fs);
  }
}

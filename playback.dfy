/** The animation loop: each tick of play_next_frame shows the current
    frame, waits that frame's delay and moves to the next frame, wrapping
    round at the end. */
module Playback {
  /** The frame index after one tick. */
  function Next(i: nat, n: nat): (j: nat)
    requires i < n
    ensures j < n
    ensures j == if i + 1 == n then 0 else i + 1
  {
    (i + 1) % n
  }

  /** The frame index after k ticks. */
  function After(i: nat, n: nat, k: nat): (j: nat)
    requires i < n
    ensures j < n
    decreases k
  {
    if k == 0 then i else After(Next(i, n), n, k - 1)
  }

  /** The delays waited during k ticks starting at frame i. */
  function Schedule(delays: seq<int>, i: nat, k: nat): (ds: seq<int>)
    requires i < |delays|
    ensures |ds| == k
    decreases k
  {
    if k == 0 then [] else [delays[i]] + Schedule(delays, Next(i, |delays|), k - 1)
  }

  /** Reduction of i + k below n for k <= n: what (i + k) % n is there. */
  function Wrap(x: nat, n: nat): (j: nat)
    requires x < 2 * n
    ensures j < n && (j == x || j == x - n)
  {
    if x < n then x else x - n
  }

  /** Up to n ticks advance the index by k, wrapping round once at most. */
  lemma {:induction false} AfterWraps(i: nat, n: nat, k: nat)
    requires i < n && k <= n
    ensures After(i, n, k) == Wrap(i + k, n)
    decreases k
  {
    if k > 0 {
      AfterWraps(Next(i, n), n, k - 1);
    }
  }

  /** As many ticks as there are frames bring the animation back to the
      frame it started from. */
  lemma FullLoop(i: nat, n: nat)
    requires i < n
    ensures After(i, n, n) == i
  {
    AfterWraps(i, n, n);
  }

  /** Tick t of a schedule, within the first loop, waits the delay of the
      frame t places after i, wrapping round at the end. */
  lemma {:induction false} ScheduleAt(delays: seq<int>, i: nat, k: nat, t: nat)
    requires i < |delays| && t < k && t < |delays|
    ensures Schedule(delays, i, k)[t] == delays[Wrap(i + t, |delays|)]
    decreases k
  {
    if t > 0 {
      ScheduleAt(delays, Next(i, |delays|), k - 1, t - 1);
    }
  }

  /** One full loop from frame i waits every frame's delay once, in frame
      order rotated to start at i. */
  lemma FullLoopSchedule(delays: seq<int>, i: nat)
    requires i < |delays|
    ensures Schedule(delays, i, |delays|) == delays[i..] + delays[..i]
  {
    var n := |delays|;
    var ds := Schedule(delays, i, n);
    var rot := delays[i..] + delays[..i];
    forall t | 0 <= t < n ensures ds[t] == rot[t] {
      ScheduleAt(delays, i, n, t);
    }
  }
}

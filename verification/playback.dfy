/**
 The playback state machine of the zoetrope player: a play/pause flag and
 the index of the frame on show, advanced by a repeating timer while
 playing. Real time is not modelled; a timer firing is an abstract tick.
 */
module Playback {
  import opened Types

  /** The player's React state. The frame index starts at 0 and a tick only
      ever stores a remainder, so it is never negative. */
  datatype PlayerState = PlayerState(isPlaying: bool, currentFrame: nat)

  /** A freshly mounted player: playing, from the first frame. */
  const Initial: PlayerState := PlayerState(true, 0)

  /** The repeating timer, present only while playing. */
  datatype Timer = Stopped | Running(period: real)

  /** One firing of the timer. Only a playing player has a timer, so a paused
      player does not move. The stored index is `(prev + 1) % frameCount`;
      both operands are positive, where JavaScript's truncating `%` and
      Dafny's Euclidean `%` agree. */
  function Tick(st: PlayerState, frameCount: int): (r: PlayerState)
    requires frameCount >= 1
    ensures !st.isPlaying ==> r == st
    ensures st.isPlaying ==> r.isPlaying && r.currentFrame < frameCount
  {
    if st.isPlaying then st.(currentFrame := (st.currentFrame + 1) % frameCount) else st
  }

  /** While playing, a tick from an in-range index moves to the next frame,
      or back to the first one from the last. */
  lemma TickAdvancesOrWraps(st: PlayerState, frameCount: int)
    requires frameCount >= 1 && st.isPlaying && st.currentFrame < frameCount
    ensures st.currentFrame + 1 < frameCount ==> Tick(st, frameCount).currentFrame == st.currentFrame + 1
    ensures st.currentFrame + 1 == frameCount ==> Tick(st, frameCount).currentFrame == 0
  {
    if st.currentFrame + 1 < frameCount {
      DivModUnique(st.currentFrame + 1, frameCount, 0, st.currentFrame + 1);
    } else {
      DivModUnique(st.currentFrame + 1, frameCount, 1, 0);
    }
  }

  /** While playing, whatever the stored index (even one left beyond a
      lowered frame count), a tick lands on the index congruent to the next
      one modulo the frame count. */
  lemma TickCongruent(st: PlayerState, frameCount: int)
    requires frameCount >= 1 && st.isPlaying
    ensures (Tick(st, frameCount).currentFrame - st.currentFrame - 1) % frameCount == 0
  {
    var a := st.currentFrame + 1;
    var q := a / frameCount;
    assert a % frameCount - a == (-q) * frameCount + 0;
    DivModUnique(a % frameCount - a, frameCount, -q, 0);
  }

  /** The play/pause button. */
  function Toggle(st: PlayerState): (r: PlayerState)
    ensures r.isPlaying != st.isPlaying
    ensures r.currentFrame == st.currentFrame
  {
    st.(isPlaying := !st.isPlaying)
  }

  /** The timer that the animation effect leaves installed for the given
      playing flag and frame rate: none when paused, otherwise one firing
      every `1000 / fps` milliseconds. */
  function TimerFor(isPlaying: bool, fps: int): (t: Timer)
    requires fps >= 1
    ensures t.Running? <==> isPlaying
    ensures t.Running? ==> t.period * (fps as real) == 1000.0
  {
    if isPlaying then Running(1000.0 / (fps as real)) else Stopped
  }

  /** The frame badge: the one-based number of the frame on show and the
      number of frames. */
  function FrameBadge(st: PlayerState, frameCount: int): (badge: (int, int))
    ensures badge.0 == st.currentFrame + 1 && badge.1 == frameCount
    ensures 1 <= badge.0 <= badge.1 <==> st.currentFrame < frameCount
  {
    (st.currentFrame + 1, frameCount)
  }

  /** While playing, the badge counts up by one with each tick and goes back
      to "1" after showing the last frame. */
  lemma BadgeCountsUpAndWraps(st: PlayerState, frameCount: int)
    requires frameCount >= 1 && st.isPlaying && st.currentFrame < frameCount
    ensures var next := FrameBadge(Tick(st, frameCount), frameCount).0;
            var shown := FrameBadge(st, frameCount).0;
            && (shown < frameCount ==> next == shown + 1)
            && (shown == frameCount ==> next == 1)
  {
    TickAdvancesOrWraps(st, frameCount);
  }

  /** The state after `k` firings of the timer. */
  function Ticks(st: PlayerState, frameCount: int, k: nat): PlayerState
    requires frameCount >= 1
  {
    if k == 0 then st else Tick(Ticks(st, frameCount, k - 1), frameCount)
  }

  /** Toggling twice restores the state. */
  lemma ToggleTwice(st: PlayerState)
    ensures Toggle(Toggle(st)) == st
  {
  }

  /** After one tick while playing, the frame index is in range whatever it
      was before, for instance after the frame count was lowered. This
      repeats `Tick`'s own range ensures as a standalone fact. */
  lemma TickRestoresRange(st: PlayerState, frameCount: int)
    requires frameCount >= 1 && st.isPlaying
    ensures 0 <= Tick(st, frameCount).currentFrame < frameCount
  {
  }

  /** A paused player stays exactly as it is however many ticks pass. */
  lemma {:induction false} PausedTicksChangeNothing(st: PlayerState, frameCount: int, k: nat)
    requires frameCount >= 1 && !st.isPlaying
    ensures Ticks(st, frameCount, k) == st
  {
    if k > 0 {
      PausedTicksChangeNothing(st, frameCount, k - 1);
    }
  }

  /** From an in-range index, `k` ticks while playing move the index `k`
      places forward around the cycle of `frameCount` frames. */
  lemma {:induction false} TicksAdvance(st: PlayerState, frameCount: int, k: nat)
    requires frameCount >= 1 && st.isPlaying && st.currentFrame < frameCount
    ensures Ticks(st, frameCount, k) == PlayerState(true, (st.currentFrame + k) % frameCount)
  {
    if k > 0 {
      TicksAdvance(st, frameCount, k - 1);
      ModSuccessor(st.currentFrame + k - 1, frameCount);
    }
  }

  /** From an in-range index, `k` ticks while playing bring the player back
      to where it started exactly when `k` is a multiple of `frameCount`:
      `frameCount` ticks complete the cycle and no fewer positive number
      does. */
  lemma TicksReturnIff(st: PlayerState, frameCount: int, k: nat)
    requires frameCount >= 1 && st.isPlaying && st.currentFrame < frameCount
    ensures Ticks(st, frameCount, k) == st <==> k % frameCount == 0
  {
    TicksAdvance(st, frameCount, k);
    var c := st.currentFrame;
    var m := k / frameCount;
    var j := k % frameCount;
    assert k == m * frameCount + j;
    var v := (c + k) % frameCount;
    if c + j < frameCount {
      DivModUnique(c + k, frameCount, m, c + j);
      assert v == c <==> j == 0;
    } else {
      DivModUnique(c + k, frameCount, m + 1, c + j - frameCount);
      assert v != c && j != 0;
    }
    assert Ticks(st, frameCount, k) == st <==> v == c;
  }

  /** `frameCount` ticks from an in-range index return the player to its
      starting state, and no smaller positive number of ticks does. */
  lemma FullCycle(st: PlayerState, frameCount: int)
    requires frameCount >= 1 && st.isPlaying && st.currentFrame < frameCount
    ensures Ticks(st, frameCount, frameCount) == st
    ensures forall k: nat :: 0 < k < frameCount ==> Ticks(st, frameCount, k) != st
  {
    TicksReturnIff(st, frameCount, frameCount);
    DivModUnique(frameCount, frameCount, 1, 0);
    forall k: nat | 0 < k < frameCount
      ensures Ticks(st, frameCount, k) != st
    {
      TicksReturnIff(st, frameCount, k);
      DivModUnique(k, frameCount, 0, k);
    }
  }

  /** `(a % n + 1) % n == (a + 1) % n`. */
  lemma ModSuccessor(a: nat, n: int)
    requires n >= 1
    ensures (a % n + 1) % n == (a + 1) % n
  {
    var q := a / n;
    var r := a % n;
    if r + 1 < n {
      DivModUnique(a + 1, n, q, r + 1);
      DivModUnique(r + 1, n, 0, r + 1);
    } else {
      DivModUnique(a + 1, n, q + 1, 0);
      DivModUnique(r + 1, n, 1, 0);
    }
  }

  /** Quotient and remainder are the only ones: `x == q * n + r` with
      `0 <= r < n` determines `x / n == q` and `x % n == r`. */
  lemma DivModUnique(x: int, n: int, q: int, r: int)
    requires n >= 1 && x == q * n + r && 0 <= r < n
    ensures x / n == q && x % n == r
  {
    var q' := x / n;
    var r' := x % n;
    assert x == q' * n + r';
    if q > q' {
      MulMonotoneInt(q' + 1, q, n);
    } else if q < q' {
      MulMonotoneInt(q + 1, q', n);
    }
  }

  /** `a <= b` and `n >= 0` give `a * n <= b * n`. */
  lemma MulMonotoneInt(a: int, b: int, n: int)
    requires a <= b && n >= 0
    ensures a * n <= b * n
  {
    assert b * n - a * n == (b - a) * n;
  }
}

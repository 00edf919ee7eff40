/** The look-ahead buffers of the capture tick. The window keeps two of them
    side by side (the scaled samples and the cursor positions they were taken
    at); both go through the same push-then-pop-one step every tick, so they
    are modelled by one generic operation on sequences. */
module LookAhead {

  /** One tick's buffer update: append `x` at the back, then drop the front
      element if the buffer has become longer than `cap`. At most one
      element is dropped, even when `cap` has shrunk by more than one since
      the last tick. */
  function Push<T>(buf: seq<T>, x: T, cap: int): seq<T>
    requires cap >= 1
  {
    var s := buf + [x];
    if |s| > cap then s[1..] else s
  }

  /** What one push does: the sample ends up at the back, the result is
      the pushed sequence with at most its front element dropped, a buffer
      below capacity only grows, one within capacity stays within it, and
      one at or over capacity keeps its length. */
  lemma PushShape<T>(buf: seq<T>, x: T, cap: int)
    requires cap >= 1
    ensures var r := Push(buf, x, cap);
      |buf| <= |r| <= |buf| + 1 &&
      |r| >= 1 && r[|r| - 1] == x &&
      r == (buf + [x])[|buf| + 1 - |r|..] &&
      (|buf| < cap ==> r == buf + [x]) &&
      (|buf| <= cap ==> |r| <= cap) &&
      (|buf| >= cap ==> |r| == |buf|)
  {
  }

  /** The buffer after pushing every element of `xs` in order, one tick
      each, under a fixed capacity. */
  function PushAll<T>(buf: seq<T>, xs: seq<T>, cap: int): seq<T>
    requires cap >= 1
    decreases |xs|
  {
    if xs == [] then buf
    else Push(PushAll(buf, xs[..|xs| - 1], cap), xs[|xs| - 1], cap)
  }

  /** How many of the first `n` samples a buffer of capacity `cap` no
      longer holds. */
  function Dropped(n: int, cap: int): int
  {
    if n > cap then n - cap else 0
  }

  /** One push keeps a buffer that holds the last `cap` elements of `prev`
      holding the last `cap` elements of `prev + [x]`. */
  lemma PushSlides<T>(prev: seq<T>, x: T, cap: int)
    requires cap >= 1
    ensures Push(prev[Dropped(|prev|, cap)..], x, cap)
         == (prev + [x])[Dropped(|prev| + 1, cap)..]
  {
    var m := Dropped(|prev|, cap);
    var before := prev[m..];
    if |prev| < cap {
      assert before == prev;
    } else {
      assert (before + [x])[1..] == (prev + [x])[m + 1..];
    }
  }

  /** Starting from a buffer within capacity, the buffer always holds the
      last `cap` samples pushed (or all of them, while there are fewer):
      a sliding window over everything ever pushed. */
  lemma {:induction false} SlidingWindow<T>(buf: seq<T>, xs: seq<T>, cap: int)
    requires cap >= 1 && |buf| <= cap
    ensures var all := buf + xs;
      PushAll(buf, xs, cap) == all[Dropped(|all|, cap)..]
    decreases |xs|
  {
    if xs == [] {
      assert buf + xs == buf[0..];
    } else {
      var ys, x := xs[..|xs| - 1], xs[|xs| - 1];
      assert buf + xs == (buf + ys) + [x];
      SlidingWindow(buf, ys, cap);
      PushSlides(buf + ys, x, cap);
    }
  }

  /** The frame-accuracy promise of the look-ahead: once at least `cap`
      samples have been pushed, the buffer is full and its front (the
      sample a commit crops from) is the one pushed `cap - 1` ticks before
      the newest. */
  lemma OldestIsCapTicksBack<T>(buf: seq<T>, xs: seq<T>, cap: int)
    requires cap >= 1 && |buf| <= cap
    requires |buf| + |xs| >= cap
    ensures |PushAll(buf, xs, cap)| == cap
    ensures PushAll(buf, xs, cap)[0] == (buf + xs)[|buf| + |xs| - cap]
  {
    SlidingWindow(buf, xs, cap);
  }


  /** A buffer already at or over its capacity (the look-ahead setting was
      lowered by any amount) never shrinks back: every tick drops exactly
      one sample for the one it adds, so the buffer keeps its old length
      and its front is the sample pushed |buf| - 1 ticks before the newest,
      not cap - 1. */
  lemma {:induction false} OverfullKeepsLength<T>(buf: seq<T>, xs: seq<T>, cap: int)
    requires cap >= 1 && |buf| >= cap
    ensures PushAll(buf, xs, cap) == (buf + xs)[|xs|..]
    decreases |xs|
  {
    if xs == [] {
      assert buf + xs == buf;
    } else {
      var ys, x := xs[..|xs| - 1], xs[|xs| - 1];
      OverfullKeepsLength(buf, ys, cap);
      OverfullStep(PushAll(buf, ys, cap), buf + ys, x, cap);
      assert buf + xs == (buf + ys) + [x];
    }
  }

  /** One push onto an over-full buffer that is a suffix of everything
      pushed keeps it the suffix of the same length. */
  lemma OverfullStep<T>(prev: seq<T>, all: seq<T>, x: T, cap: int)
    requires cap >= 1 && cap <= |prev| <= |all|
    requires prev == all[|all| - |prev|..]
    ensures Push(prev, x, cap) == (all + [x])[|all| - |prev| + 1..]
  {
    assert prev + [x] == (all + [x])[|all| - |prev|..];
  }
}

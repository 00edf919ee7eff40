/** The recorded-frame preview: while frames exist, every tick shows one of
    them and advances a cyclic index between the first-frame and last-frame
    slider values. */
module Scrub {

  function Min(a: int, b: int): int { if a <= b then a else b }

  /** The index a tick reads from: the current one, unless it has run past
      the number of frames or past the last-frame slider, in which case it
      restarts at the first-frame slider. */
  function ScrubIndex(idx: nat, count: nat, first: nat, last: nat): (i: nat)
    ensures idx <= Min(count, last) ==> i == idx
    ensures idx > Min(count, last) ==> i == first
  {
    if idx > count || idx > last then first else idx
  }

  /** The stored index after a tick with at least one frame. */
  function ScrubNext(idx: nat, count: nat, first: nat, last: nat): nat
  {
    ScrubIndex(idx, count, first, last) + 1
  }

  /** The stored index after `k` ticks over an unchanged frame list. */
  function ScrubAfter(idx: nat, k: nat, count: nat, first: nat, last: nat): nat
    decreases k
  {
    if k == 0 then idx
    else ScrubNext(ScrubAfter(idx, k - 1, count, first, last), count, first, last)
  }

  /** One tick keeps the index inside its window: starting anywhere from
      the first-frame slider to one past min(last, count), the frame read
      is in [first, min(last, count)], the frame shown (only when the index
      is below the count) is at most min(last, count - 1), and the stored
      index stays in the window. */
  lemma ScrubStaysInWindow(idx: nat, count: nat, first: nat, last: nat)
    requires count > 0
    requires first <= Min(last, count)
    requires first <= idx <= Min(last, count) + 1
    ensures var i := ScrubIndex(idx, count, first, last);
      first <= i <= Min(last, count) &&
      (i < count ==> i <= last) &&
      first <= ScrubNext(idx, count, first, last) <= Min(last, count) + 1
  {
  }

  /** From inside the window the index counts up by one per tick until it
      reaches one past min(last, count). */
  lemma {:induction false} ScrubCountsUp(idx: nat, k: nat, count: nat, first: nat, last: nat)
    requires first <= idx
    requires idx + k <= Min(last, count) + 1
    ensures ScrubAfter(idx, k, count, first, last) == idx + k
  {
    if k > 0 {
      ScrubCountsUp(idx, k - 1, count, first, last);
    }
  }

  /** The preview is cyclic with period min(last, count) - first + 1: the
      index comes back to first + 1 after exactly that many ticks. */
  lemma ScrubWrapsAround(count: nat, first: nat, last: nat)
    requires first <= Min(last, count)
    ensures ScrubAfter(first + 1, Min(last, count) - first + 1, count, first, last) == first + 1
  {
    var period := Min(last, count) - first + 1;
    ScrubCountsUp(first + 1, period - 1, count, first, last);
  }
}

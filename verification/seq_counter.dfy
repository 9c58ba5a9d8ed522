/** The wrapping sequence counter used by both the RPC engine and gossip:
    it counts up by one and wraps from its maximum back to 1. */
module SeqCounter {

  /** One call of `getSeq` on a counter holding `cur`. */
  function Next(cur: int, max: int): (r: int)
    ensures 0 <= cur && 1 <= max ==> 1 <= r <= max
    ensures cur < max ==> r == cur + 1
    ensures cur >= max ==> r == 1
  {
    if cur < max then cur + 1 else 1
  }

  /** The counter after `n` calls of `getSeq`. */
  function Advance(cur: int, max: int, n: nat): int
  {
    if n == 0 then cur else Next(Advance(cur, max, n - 1), max)
  }

  /** Closed form of `n` calls from a counter in `[0, max]`, for up to
      `max` calls: count up to `max`, then start over from 1. */
  lemma {:induction false} AdvanceClosedForm(cur: int, max: int, n: nat)
    requires 1 <= max && 0 <= cur <= max
    requires n <= max
    ensures Advance(cur, max, n) == if cur + n <= max then cur + n else cur + n - max
  {
    if n > 0 {
      AdvanceClosedForm(cur, max, n - 1);
    }
  }

  /** Any `max` consecutive calls hand out pairwise different numbers, so a
      number is reused only after `max` further calls. */
  lemma WindowDistinct(cur: int, max: int, i: nat, j: nat)
    requires 1 <= max && 0 <= cur <= max
    requires 1 <= i < j <= max
    ensures Advance(cur, max, i) != Advance(cur, max, j)
    ensures 1 <= Advance(cur, max, i) <= max
  {
    AdvanceClosedForm(cur, max, i);
    AdvanceClosedForm(cur, max, j);
  }

  /** After exactly `max` calls the counter is back where it started (for a
      counter that has been used at least once). */
  lemma FullCycle(cur: int, max: int)
    requires 1 <= max && 1 <= cur <= max
    ensures Advance(cur, max, max) == cur
  {
    AdvanceClosedForm(cur, max, max);
  }
}

/** Turn order: the neighbour index of `get_next_player` and what repeating it does. */
module Turns {

  /**
   * The index of the next player: one step forward, or one step backward when
   * the direction is reversed, wrapping around a roster of `count` players.
   * Python's `%` floors and Dafny's is Euclidean; both agree for `count > 0`.
   */
  function NextIndex(current: int, count: nat, reversed: bool): (r: nat)
    requires count > 0
    ensures r < count
    ensures 0 <= current < count && !reversed ==> r == (if current == count - 1 then 0 else current + 1)
    ensures 0 <= current < count && reversed ==> r == (if current == 0 then count - 1 else current - 1)
  {
    var next := if reversed then current - 1 else current + 1;
    if 0 <= current < count then WrapsOnce(next, count); next % count
    else next % count
  }

  /** Taking `%` of an index at most one step outside `[0, n)` wraps it around once. */
  lemma WrapsOnce(a: int, n: nat)
    requires n > 0 && -1 <= a <= n
    ensures a % n == if a == n then 0 else if a == -1 then n - 1 else a
  {
    if a == n {
      assert a % n == (a - n) % n;
    } else if a == -1 {
      assert a % n == (a + n) % n;
    }
  }

  /** The index reached after `steps` turn changes in one direction. */
  function Advance(current: nat, count: nat, reversed: bool, steps: nat): nat
    requires count > 0
  {
    if steps == 0 then current else NextIndex(Advance(current, count, reversed, steps - 1), count, reversed)
  }

  lemma AdvanceTwice(current: nat, count: nat, reversed: bool)
    requires count > 0
    ensures Advance(current, count, reversed, 1) == NextIndex(current, count, reversed)
    ensures Advance(current, count, reversed, 2) == NextIndex(NextIndex(current, count, reversed), count, reversed)
  {
  }

  /** One step back in the other direction undoes a step: a Reverse card retraces the order. */
  lemma NextIndexUndone(current: nat, count: nat, reversed: bool)
    requires current < count
    ensures NextIndex(NextIndex(current, count, reversed), count, !reversed) == current
  {
  }

  /**
   * Within one round, going forward `steps` turns moves the pointer `steps`
   * places up, wrapping past the last player; going backward moves it down,
   * wrapping past the first.
   */
  lemma {:induction false} AdvanceWithinRound(current: nat, count: nat, reversed: bool, steps: nat)
    requires current < count && steps <= count
    ensures !reversed ==> Advance(current, count, reversed, steps)
                          == if current + steps < count then current + steps else current + steps - count
    ensures reversed ==> Advance(current, count, reversed, steps)
                         == if steps <= current then current - steps else current - steps + count
  {
    if steps > 0 {
      AdvanceWithinRound(current, count, reversed, steps - 1);
    }
  }

  /** A full round of `count` turns brings the pointer back to where it started. */
  lemma FullRound(current: nat, count: nat, reversed: bool)
    requires current < count
    ensures Advance(current, count, reversed, count) == current
    ensures forall k :: 0 < k < count ==> Advance(current, count, reversed, k) != current
  {
    AdvanceWithinRound(current, count, reversed, count);
    forall k | 0 < k < count
      ensures Advance(current, count, reversed, k) != current
    {
      AdvanceWithinRound(current, count, reversed, k);
    }
  }
}

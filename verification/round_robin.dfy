/**
 * The scheduler's selection rule: on every tick the next task is
 * `(currentTask + 1) % taskCount`, whatever the slots hold.
 */
module RoundRobin {

  /** The index the ISR selects after `cur` when `count` tasks are registered. */
  function NextIndex(cur: nat, count: nat): (n: nat)
    requires count > 0
    ensures n < count
    ensures cur < count ==> n == if cur + 1 == count then 0 else cur + 1
  {
    (cur + 1) % count
  }

  /** The index running after `k` ticks, starting from `start`. */
  function After(start: nat, count: nat, k: nat): (n: nat)
    requires count > 0
  {
    if k == 0 then start else NextIndex(After(start, count, k - 1), count)
  }

  /** Within one lap the rotation is a plain offset, wrapped once. */
  lemma {:induction false} AfterOffset(start: nat, count: nat, k: nat)
    requires start < count && k <= count
    ensures After(start, count, k) == if start + k < count then start + k else start + k - count
  {
    if k > 0 {
      AfterOffset(start, count, k - 1);
    }
  }

  /** Every tick leaves the selected index among the registered ones. */
  lemma {:induction false} AfterInRange(start: nat, count: nat, k: nat)
    requires start < count
    ensures After(start, count, k) < count
  {
    if k > 0 {
      AfterInRange(start, count, k - 1);
    }
  }

  /** After `count` ticks the rotation is back where it started. */
  lemma FullLapReturns(start: nat, count: nat)
    requires start < count
    ensures After(start, count, count) == start
  {
    AfterOffset(start, count, count);
  }

  /** Within one lap of `count` ticks no index is selected twice. */
  lemma LapVisitsOnce(start: nat, count: nat, a: nat, b: nat)
    requires start < count && 1 <= a < b <= count
    ensures After(start, count, a) != After(start, count, b)
  {
    AfterOffset(start, count, a);
    AfterOffset(start, count, b);
  }

  /** Within one lap of `count` ticks every registered index is selected, at tick `k`. */
  lemma LapVisitsAll(start: nat, count: nat, i: nat) returns (k: nat)
    requires start < count && i < count
    ensures 1 <= k <= count && After(start, count, k) == i
  {
    k := if start < i then i - start else i + count - start;
    AfterOffset(start, count, k);
  }

  /** Started at slot 0, the `k`-th tick of the first lap runs slot `k`, in registration order. */
  lemma RegistrationOrder(count: nat, k: nat)
    requires 0 < count && k < count
    ensures After(0, count, k) == k
  {
    AfterOffset(0, count, k);
  }
}

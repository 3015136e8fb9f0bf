/**
 * The growth policy of memory.h and the `reallocate` it feeds: a dynamic
 * array moves to a fresh buffer of the new capacity holding the old elements.
 * Allocation is taken to succeed (memory.c's failure exit is not modelled).
 */
module Memory {

  /** `GROW_CAPACITY`: 8 for a small (or absent) buffer, otherwise double. */
  function GrowCapacity(capacity: nat): (r: nat)
    ensures capacity < r && 8 <= r
    ensures r <= 8 || r <= 2 * capacity
  {
    if capacity < 8 then 8 else capacity * 2
  }

  /** Growing from empty takes 8, 16, 32, ... slots: always a multiple of 8. */
  lemma {:induction false} GrowFromEmpty(capacity: nat)
    requires capacity == 0 || GrowsFromEmpty(capacity)
    ensures GrowsFromEmpty(GrowCapacity(capacity))
  {
    if capacity == 0 {
      assert GrowCapacity(capacity) == 8 * Pow2(0);
    } else {
      var k: nat :| capacity == 8 * Pow2(k);
      assert GrowCapacity(capacity) == 8 * Pow2(k + 1);
    }
  }

  /** A capacity reached from 0 by repeated growth: 8 times a power of two. */
  ghost predicate GrowsFromEmpty(capacity: nat) {
    exists k: nat :: capacity == 8 * Pow2(k)
  }

  function Pow2(k: nat): (p: nat)
    ensures 1 <= p
  {
    if k == 0 then 1 else 2 * Pow2(k - 1)
  }

  /**
   * `GROW_ARRAY` through `reallocate`: a fresh buffer of `newCapacity`
   * slots whose first `a.Length` slots hold the old contents.
   */
  method GrowArray<T>(a: array<T>, newCapacity: nat, blank: T) returns (b: array<T>)
    requires a.Length <= newCapacity
    ensures fresh(b) && b.Length == newCapacity
    ensures b[..a.Length] == a[..]
  {
    b := new T[newCapacity](_ => blank);
    var i := 0;
    while i < a.Length
      invariant i <= a.Length
      invariant b[..i] == a[..i]
    {
      b[i] := a[i];
      i := i + 1;
    }
  }
}

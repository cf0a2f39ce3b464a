/** Indices that run around an array of `max` places. */
module Cyclic {
  /** Index `x`, for an `x` that has wrapped at most once. */
  function Place(x: int, max: int): int {
    if x < max then x else x - max
  }

  /** The source's remainder is one conditional subtraction. */
  lemma PlaceIsRemainder(x: int, max: int)
    requires 0 <= x < 2 * max
    ensures Place(x, max) == x % max
  {
    if x >= max {
      assert x == 1 * max + (x - max);
    }
  }

  /** The place of probe number `i`, and the number of the probe that reaches place `k`. */
  function ProbeAt(start: nat, i: nat, max: nat): int {
    Place(start + i, max)
  }

  function ProbeOf(start: nat, k: nat, max: nat): int {
    if k >= start then k - start else k - start + max
  }

  /** From any start, `max` probes in cyclic order visit every place, and none of them twice. */
  lemma CycleVisitsEachOnce(start: nat, max: nat)
    requires start < max
    ensures forall k: nat :: k < max ==> 0 <= ProbeOf(start, k, max) < max && ProbeAt(start, ProbeOf(start, k, max), max) == k
    ensures forall i: nat :: i < max ==> 0 <= ProbeAt(start, i, max) < max && ProbeOf(start, ProbeAt(start, i, max), max) == i
  {
  }
}

/** Counters that run through 1 .. max and wrap back to 1, never taking the value 0. */
module Cyclic {

  function Succ(max: nat, x: nat): (y: nat)
    requires 1 <= x <= max
    ensures 1 <= y <= max
  {
    if x == max then 1 else x + 1
  }

  /** The value reached from `x` by `k` increments. */
  function Advance(max: nat, x: nat, k: nat): (y: nat)
    requires 1 <= x <= max
    ensures 1 <= y <= max
  {
    if k == 0 then x else Succ(max, Advance(max, x, k - 1))
  }

  /** The downscaling (x - 1) % max + 1 of a counter to a smaller range. */
  function Project(max: nat, x: nat): (y: nat)
    requires 1 <= max && 1 <= x
    ensures 1 <= y <= max
  {
    (x - 1) % max + 1
  }

  /** Increments needed to get from `from` to `to`. */
  function Distance(max: nat, from: nat, to: nat): (d: nat)
    requires 1 <= from <= max && 1 <= to <= max
    ensures d < max
  {
    (to + max - from) % max
  }

  lemma DistanceZero(max: nat, from: nat, to: nat)
    requires 1 <= from <= max && 1 <= to <= max
    ensures Distance(max, from, to) == 0 <==> from == to
  {
    DistanceCases(max, from, to);
  }

  lemma DistanceCases(max: nat, from: nat, to: nat)
    requires 1 <= from <= max && 1 <= to <= max
    ensures Distance(max, from, to) == if from <= to then to - from else to + max - from
  {
    if from <= to {
      assert (to - from + max) % max == to - from;
    }
  }

  /** One increment moves the target one step further away, modulo a full turn. */
  lemma DistanceSucc(max: nat, from: nat, to: nat)
    requires 1 <= from <= max && 1 <= to <= max
    ensures var d := Distance(max, from, to);
            Distance(max, from, Succ(max, to)) == if d == max - 1 then 0 else d + 1
  {
    DistanceCases(max, from, to);
    DistanceCases(max, from, Succ(max, to));
  }

  lemma {:induction false} AdvanceAdds(max: nat, x: nat, j: nat, k: nat)
    requires 1 <= x <= max
    ensures Advance(max, Advance(max, x, j), k) == Advance(max, x, j + k)
  {
    if k > 0 {
      AdvanceAdds(max, x, j, k - 1);
    }
  }

  /** One increment brings a target one step nearer, unless it is already there. */
  lemma DistanceFromSucc(max: nat, from: nat, to: nat)
    requires 1 <= from <= max && 1 <= to <= max
    ensures var d := Distance(max, from, to);
            Distance(max, Succ(max, from), to) == if d == 0 then max - 1 else d - 1
  {
    DistanceCases(max, from, to);
    DistanceCases(max, Succ(max, from), to);
  }

  /** The distance is the number of increments that lead there. */
  lemma {:induction false} AdvanceReaches(max: nat, from: nat, to: nat)
    requires 1 <= from <= max && 1 <= to <= max
    ensures Advance(max, from, Distance(max, from, to)) == to
    decreases Distance(max, from, to)
  {
    var d := Distance(max, from, to);
    DistanceZero(max, from, to);
    if d > 0 {
      DistanceFromSucc(max, from, to);
      AdvanceReaches(max, Succ(max, from), to);
      assert Advance(max, from, 1) == Succ(max, Advance(max, from, 0));
      AdvanceAdds(max, from, 1, d - 1);
    }
  }
}

// Shared vocabulary of the ring queues: object slots and modular indexing.

module Wrappers {
  datatype Option<+T> = None | Some(value: T)

  datatype Result<+R, +E> = Success(value: R) | Failure(error: E)
}

/** Raw storage for one element: nothing constructed there, a live object, or a moved-from object. */
module Slots {
  datatype Slot<T> = Empty | Constructed(value: T) | MovedFrom

  /** How a value left a queue: handed to a caller of a pop, or destroyed by `clear`. */
  datatype Exit<T> = Exit(value: T, popped: bool)

  /** All that has left since is what `clear` destroyed. */
  ghost predicate OnlyDestroyed<T>(before: seq<Exit<T>>, after: seq<Exit<T>>) {
    before <= after && forall i | |before| <= i < |after| :: !after[i].popped
  }

  lemma OneMoreDestroyed<T>(before: seq<Exit<T>>, after: seq<Exit<T>>, value: T)
    requires OnlyDestroyed(before, after)
    ensures OnlyDestroyed(before, after + [Exit(value, false)])
  {
  }

  function ExitValues<T>(exits: seq<Exit<T>>): seq<T> {
    seq(|exits|, i requires 0 <= i < |exits| => exits[i].value)
  }
}

/** Facts about `index % capacity` over a window of `capacity` consecutive positions. */
module RingArithmetic {
  lemma SmallMultiple(cap: int, d: int)
    requires -cap < cap * d < cap
    ensures d == 0
  {
  }

  lemma Residue(x: int, q: int, r: nat, cap: nat)
    requires x == cap * q + r && r < cap
    ensures x / cap == q && x % cap == r
  {
    assert cap * (x / cap - q) == r - x % cap;
    SmallMultiple(cap, x / cap - q);
  }

  lemma MulDistributes(a: int, x: int, y: int)
    ensures a * (x + y) == a * x + a * y
  {
  }

  lemma MulAssociates(a: int, b: int, p: int)
    ensures a * (b * p) == (a * b) * p
  {
  }

  /** Distinct positions closer than the capacity never share a cell. */
  lemma DistinctCells(p: nat, q: nat, cap: nat)
    requires p != q && p < q + cap && q < p + cap
    ensures p % cap != q % cap
  {
    if p % cap == q % cap {
      assert q - p == cap * (q / cap - p / cap);
      SmallMultiple(cap, q / cap - p / cap);
    }
  }

  /** A position and the position one lap later share a cell. */
  lemma NextLap(p: nat, cap: nat)
    requires 0 < cap
    ensures (p + cap) % cap == p % cap
  {
    Residue(p + cap, p / cap + 1, p % cap, cap);
  }

  /** Adding one before or after taking the remainder is the same. */
  lemma Successor(x: nat, m: nat)
    requires 0 < m
    ensures (x % m + 1) % m == (x + 1) % m
  {
    SuccessorOf(x, x / m, x % m, m);
  }

  lemma SuccessorOf(x: nat, q: nat, r: nat, m: nat)
    requires r < m && x == m * q + r
    ensures (r + 1) % m == (x + 1) % m
  {
    if r + 1 == m {
      assert x + 1 == m * (q + 1) + 0;
      Residue(x + 1, q + 1, 0, m);
      Residue(r + 1, 1, 0, m);
    } else {
      Residue(x + 1, q, r + 1, m);
      Residue(r + 1, 0, r + 1, m);
    }
  }

  /** Every cell is hit by some position of the window that starts at `start`. */
  lemma WindowCovers(x: nat, start: nat, cap: nat) returns (p: nat)
    requires 0 < cap
    ensures start <= p < start + cap && p % cap == x % cap
  {
    p := start + (x - start) % cap;
    assert p == x - cap * ((x - start) / cap);
    assert p == cap * (x / cap - (x - start) / cap) + x % cap;
    Residue(p, x / cap - (x - start) / cap, x % cap, cap);
  }
}

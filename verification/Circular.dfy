/** Circular arrays: which slot an unbounded index occupies. */
module Circular {
  import opened Arith

  /** The slot of index `i` when index `base` sits in slot `head`. */
  function Slot(head: int, base: int, i: int, size: int): int {
    var x := head + (i - base);
    if x < 0 then x + size else if x < size then x else x - size
  }

  predicate Window(base: int, i: int, size: int) {
    -size < i - base < size
  }

  lemma SlotInRange(head: int, base: int, i: int, size: int)
    requires 0 <= head < size && Window(base, i, size)
    ensures 0 <= Slot(head, base, i, size) < size
  {
  }

  lemma SlotInjective(head: int, base: int, i: int, j: int, size: int)
    requires 0 <= head < size && Window(base, i, size) && Window(base, j, size)
    requires -size < i - j < size
    ensures Slot(head, base, i, size) == Slot(head, base, j, size) <==> i == j
  {
  }

  /** Counting slots from another node gives the same slots. */
  lemma SlotRebase(head: int, base: int, b: int, i: int, size: int)
    requires 0 <= head < size && Window(base, b, size) && Window(base, i, size) && Window(b, i, size)
    ensures Slot(Slot(head, base, b, size), b, i, size) == Slot(head, base, i, size)
  {
  }

  /** The slot behind the slot of `s`. */
  lemma NextSlot(head: int, base: int, s: int, size: int, loc: int)
    requires 0 <= head < size && base <= s && s + 1 - base < size && loc == Slot(head, base, s, size)
    ensures (loc + 1) % size == Slot(head, base, s + 1, size)
  {
    ModSmall(loc + 1, size);
  }

  /** Some index within one turn of the head sits in slot `p`. */
  lemma SlotOnto(head: int, base: int, p: int, size: int) returns (x: int)
    requires 0 <= head < size && 0 <= p < size
    ensures base <= x < base + size && Slot(head, base, x, size) == p
  {
    x := base + (if p >= head then p - head else p - head + size);
  }

  /** One slot back. */
  lemma PrevSlot(head: int, base: int, x: int, size: int)
    requires 0 <= head < size && base < x < base + size
    ensures (Slot(head, base, x, size) - 1 + size) % size == Slot(head, base, x - 1, size)
  {
    ModSmall(Slot(head, base, x, size) - 1 + size, size);
  }
}

/** Positions of an unbounded run of entries in a ring of `qs` slots.

    Every entry ever put into a ring has a logical index 0, 1, 2, ...; the wrapped
    head and tail fields hold the slot of such an index, and the phase bit tells
    whether the pass over the ring that the index belongs to is even or odd.
    Both are given by recursion (`Position`), so that the proofs about rings need
    linear arithmetic only; `SlotIsMod` ties them to division. */
module Slots {

  /** Slot and phase tag of logical index k: both start over with each pass, the tag
      flipped. */
  function Position(k: nat, qs: nat): (p: (nat, bool))
    requires qs > 0
    ensures p.0 < qs
  {
    if k == 0 then (0, true)
    else
      var (l, tag) := Position(k - 1, qs);
      if l + 1 == qs then (0, !tag) else (l + 1, tag)
  }

  /** The slot that holds logical index k. */
  function Slot(k: nat, qs: nat): (l: nat)
    requires qs > 0
    ensures l < qs
  {
    Position(k, qs).0
  }

  /** The slot after slot l. */
  function NextSlot(l: nat, qs: nat): nat {
    if l + 1 == qs then 0 else l + 1
  }

  /** The phase tag of logical index k: true (1) on the first pass, flipped on each wrap. */
  function Lap(k: nat, qs: nat): bool
    requires qs > 0
  {
    Position(k, qs).1
  }

  lemma {:induction false} MulBounds(x: int, d: int)
    requires x >= 0 && d >= 0
    ensures x >= 1 ==> x * d >= d && (-x) * d <= -d
  {
    if x > 1 {
      MulBounds(x - 1, d);
      assert x * d == (x - 1) * d + d;
      assert (-x) * d == (-(x - 1)) * d - d;
    }
  }

  lemma DivModUnique(v: int, d: int, q: int, r: int)
    requires 0 <= r < d
    requires v == q * d + r
    ensures v / d == q && v % d == r
  {
    var e := v / d - q;
    assert e * d == v / d * d - q * d;
    if e >= 1 {
      MulBounds(e, d);
    } else if e <= -1 {
      MulBounds(-e, d);
    }
  }

  /** Division of successive numbers. */
  lemma DivModNext(k: nat, d: nat)
    requires d > 0
    ensures if k % d + 1 == d then (k + 1) / d == k / d + 1 && (k + 1) % d == 0
            else (k + 1) / d == k / d && (k + 1) % d == k % d + 1
  {
    var q, r := k / d, k % d;
    if r + 1 == d {
      assert (q + 1) * d == q * d + d;
      DivModUnique(k + 1, d, q + 1, 0);
    } else {
      DivModUnique(k + 1, d, q, r + 1);
    }
  }

  /** The wrapped counter is the logical one modulo the ring size, and the tag is the
      parity of the number of completed passes. */
  lemma {:induction false} SlotIsMod(k: nat, qs: nat)
    requires qs > 0
    ensures Slot(k, qs) == k % qs
    ensures Lap(k, qs) <==> (k / qs) % 2 == 0
  {
    if k == 0 {
      DivModUnique(0, qs, 0, 0);
    } else {
      SlotIsMod(k - 1, qs);
      DivModNext(k - 1, qs);
    }
  }

  /** Fewer than a whole pass further on, the slot wraps at most once, and the tag
      flips exactly when it does. */
  lemma {:induction false} SlotOffset(h: nat, d: nat, qs: nat)
    requires d <= qs && qs > 0
    ensures Slot(h + d, qs) == if Slot(h, qs) + d < qs then Slot(h, qs) + d else Slot(h, qs) + d - qs
    ensures Lap(h + d, qs) == if Slot(h, qs) + d < qs then Lap(h, qs) else !Lap(h, qs)
    decreases d
  {
    if d > 0 {
      SlotOffset(h, d - 1, qs);
      assert h + d - 1 == h + (d - 1);
    }
  }

  /** No two of qs consecutive indices share a slot. */
  lemma SlotInjective(h: nat, a: nat, b: nat, qs: nat)
    requires qs > 0 && h <= a < h + qs && h <= b < h + qs
    requires Slot(a, qs) == Slot(b, qs)
    ensures a == b
  {
    SlotOffset(h, a - h, qs);
    SlotOffset(h, b - h, qs);
  }

  /** The index among the qs ones from h on that lives in slot l. */
  function IndexIn(h: nat, l: nat, qs: nat): (k: nat)
    requires l < qs
    ensures h <= k < h + qs && Slot(k, qs) == l
  {
    var hd := Slot(h, qs);
    var d := if l >= hd then l - hd else l - hd + qs;
    SlotOffset(h, d, qs);
    h + d
  }

  /** The number of entries between the wrapped head and tail. */
  function Occupancy(head: nat, tail: nat, qs: nat): nat
    requires head < qs && tail < qs
  {
    if tail >= head then tail - head else tail - head + qs
  }

  /** The occupancy as the driver computes it: the difference is cut to 16 bits
      before it is reduced modulo the ring size. */
  function TruncatedOccupancy(head: nat, tail: nat, qs: nat): nat
    requires qs > 0
  {
    (tail - head) % 65536 % qs
  }

  /** The driver's test for a full submission queue. */
  predicate SeemsFull(head: nat, tail: nat, qs: nat)
    requires qs > 0
  {
    TruncatedOccupancy(head, tail, qs) == qs - 1
  }

  /** Unless the tail has wrapped below the head, the truncation is harmless. */
  lemma TruncationUnwrapped(head: nat, tail: nat, qs: nat)
    requires head <= tail < qs <= 65536
    ensures TruncatedOccupancy(head, tail, qs) == Occupancy(head, tail, qs)
  {
    DivModUnique(tail - head, 65536, 0, tail - head);
    DivModUnique(tail - head, qs, 0, tail - head);
  }

  /** With the tail wrapped below the head, the truncated value is too large by the
      remainder of 65536, up to a multiple of the ring size. */
  lemma TruncatedIs(head: nat, tail: nat, qs: nat)
    requires tail < head < qs <= 65536
    ensures var x := Occupancy(head, tail, qs) + 65536 % qs;
            TruncatedOccupancy(head, tail, qs) == if x < qs then x else x - qs
  {
    var d := tail - head;
    var q, b := 65536 / qs, 65536 % qs;
    DivModUnique(d, 65536, -1, d + 65536);
    assert d + 65536 == (q - 1) * qs + (d + qs + b);
    if d + qs + b < qs {
      DivModUnique(d + 65536, qs, q - 1, d + qs + b);
    } else {
      assert d + 65536 == q * qs + (d + b);
      DivModUnique(d + 65536, qs, q, d + b);
    }
  }

  /** So it is the occupancy exactly for the ring sizes that divide 65536. */
  lemma TruncationWrapped(head: nat, tail: nat, qs: nat)
    requires tail < head < qs <= 65536
    ensures TruncatedOccupancy(head, tail, qs) == Occupancy(head, tail, qs) <==> 65536 % qs == 0
  {
    TruncatedIs(head, tail, qs);
  }

  predicate FullTestExact(head: nat, tail: nat, qs: nat)
    requires head < qs && tail < qs
  {
    SeemsFull(head, tail, qs) <==> Occupancy(head, tail, qs) == qs - 1
  }

  /** Position by position: below the wrap the test errs on a full ring, which it takes for
      one with room, and on the one occupancy that falls short of full by the remainder,
      which it takes for full; unless the ring size divides 65536. */
  lemma FullTestExactAtIff(head: nat, tail: nat, qs: nat)
    requires head < qs <= 65536 && tail < qs
    ensures FullTestExact(head, tail, qs)
            <==> var b, occ := 65536 % qs, Occupancy(head, tail, qs);
                 head <= tail || b == 0 || (occ != qs - 1 && occ + b != qs - 1)
  {
    if head <= tail {
      TruncationUnwrapped(head, tail, qs);
    } else {
      TruncatedIs(head, tail, qs);
    }
  }

  /** The full test is right in every position of the ring if and only if the ring
      size divides 65536; `admin_init` does not force that. */
  lemma FullTestExactIff(qs: nat)
    requires 1 <= qs <= 65536
    ensures (forall head: nat, tail: nat | head < qs && tail < qs :: FullTestExact(head, tail, qs))
            <==> 65536 % qs == 0
  {
    if 65536 % qs == 0 {
      forall head: nat, tail: nat | head < qs && tail < qs ensures FullTestExact(head, tail, qs) {
        FullTestExactAtIff(head, tail, qs);
      }
    } else {
      DivModUnique(65536, 1, 65536, 0);
      FullTestExactAtIff(1, 0, qs);
      assert !FullTestExact(1, 0, qs);
    }
  }

  /** A ring of three slots with two entries in it, one of them past the wrap, is full,
      yet the test lets a third one in; with one entry it is not full, yet refuses. */
  lemma FullTestFailsForThree()
    ensures Occupancy(2, 1, 3) == 2 && !SeemsFull(2, 1, 3)
    ensures Occupancy(2, 0, 3) == 1 && SeemsFull(2, 0, 3)
  {
    assert (1 - 2) % 65536 == 65535 && 65535 % 3 == 0;
    assert (0 - 2) % 65536 == 65534 && 65534 % 3 == 2;
  }

  lemma WrapOnce(x: nat, qs: nat)
    requires x < 2 * qs
    ensures x % qs == if x < qs then x else x - qs
  {
    if x < qs {
      DivModUnique(x, qs, 0, x);
    } else {
      DivModUnique(x, qs, 1, x - qs);
    }
  }
}

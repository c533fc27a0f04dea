/** One queue with mark bytes, and the out-of-order retirement that both queues of a
    pair share: a slot is marked when its user is done with it, and the head sweeps
    over the longest run of marked slots. */
module Rings {
  import opened Counting
  import opened Slots

  /** The part of `struct queue` the ring protocol works on. `slots` is the memory the
      queue address points to, `db` the last value written to the doorbell. */
  datatype Ring<E> = Ring(qs: nat, head: nat, tail: nat, phase: bool, mark: seq<bool>, slots: seq<E>, db: nat)

  predicate Shape<E>(r: Ring<E>) {
    1 <= r.qs <= 4096 && r.head < r.qs && r.tail < r.qs && |r.mark| == r.qs && |r.slots| == r.qs
  }

  /** One clearing iteration of the sweep. */
  function Advance<E>(r: Ring<E>): Ring<E>
    requires Shape(r)
  {
    if r.head + 1 == r.qs
    then r.(mark := r.mark[r.head := false], head := 0, phase := !r.phase)
    else r.(mark := r.mark[r.head := false], head := r.head + 1)
  }

  /** The whole sweep: clear marks from the head on, up to the first unmarked slot. */
  function Sweep<E>(r: Ring<E>): (r': Ring<E>)
    requires Shape(r)
    ensures Shape(r') && r' == r.(mark := r'.mark, head := r'.head, phase := r'.phase)
    decreases multiset(r.mark)[true]
  {
    if r.mark[r.head] then Sweep(Advance(r)) else r
  }

  function Retire<E>(r: Ring<E>, loc: nat): (r': Ring<E>)
    requires Shape(r) && loc < r.qs
    ensures Shape(r') && r' == r.(mark := r'.mark, head := r'.head, phase := r'.phase)
  {
    Sweep(r.(mark := r.mark[loc := true]))
  }

  /** Retirement of a completion also rings the doorbell when the head has moved. */
  function RetireAndRing<E>(r: Ring<E>, loc: nat): (r': Ring<E>)
    requires Shape(r) && loc < r.qs
    ensures Shape(r') && r' == r.(mark := r'.mark, head := r'.head, phase := r'.phase, db := r'.db)
  {
    var r1 := Retire(r, loc);
    if r1.head != r.head then r1.(db := r1.head) else r1
  }

  // ---------- the sweep in plain terms ----------

  /** How many slots after the head slot l is, around the ring. */
  function Ahead(head: nat, l: nat, qs: nat): nat
    requires head < qs
  {
    if l >= head then l - head else l + qs - head
  }

  /** The n slots from the head on were marked and no longer are, the other marks are as
      they were, the head has moved over them, around the ring if need be, the phase has
      flipped if it went past the end, and the slot it has come to is not marked. */
  ghost predicate SweptBy(n: nat, head: nat, phase: bool, mark: seq<bool>, head': nat, phase': bool, mark': seq<bool>) {
    var qs := |mark|;
    && head < qs && n <= qs && |mark'| == qs
    && (forall l | 0 <= l < qs :: Ahead(head, l, qs) < n ==> mark[l])
    && (forall l | 0 <= l < qs :: mark'[l] <==> mark[l] && Ahead(head, l, qs) >= n)
    && head' == (if head + n < qs then head + n else head + n - qs)
    && phase' == (if head + n < qs then phase else !phase)
    && head' < qs && !mark'[head']
  }

  ghost predicate Swept(head: nat, phase: bool, mark: seq<bool>, head': nat, phase': bool, mark': seq<bool>) {
    exists n: nat :: SweptBy(n, head, phase, mark, head', phase', mark')
  }

  lemma SweptOneMore(n: nat, head: nat, phase: bool, mark: seq<bool>, h1: nat, p1: bool, head': nat, phase': bool, mark': seq<bool>)
    requires head < |mark| && mark[head]
    requires h1 == (if head + 1 == |mark| then 0 else head + 1) && p1 == (if head + 1 == |mark| then !phase else phase)
    requires SweptBy(n, h1, p1, mark[head := false], head', phase', mark')
    ensures SweptBy(n + 1, head, phase, mark, head', phase', mark')
  {
    var qs := |mark|;
    assert Ahead(h1, head, qs) == qs - 1;
    assert n < qs by {
      assert !mark[head := false][head];
    }
    forall l | 0 <= l < qs && l != head ensures Ahead(head, l, qs) == Ahead(h1, l, qs) + 1 {
    }
  }

  lemma {:induction false} SweepIsSwept<E>(r: Ring<E>)
    requires Shape(r)
    ensures Swept(r.head, r.phase, r.mark, Sweep(r).head, Sweep(r).phase, Sweep(r).mark)
    decreases multiset(r.mark)[true]
  {
    var r' := Sweep(r);
    if r.mark[r.head] {
      var r1 := Advance(r);
      SweepIsSwept(r1);
      var n: nat :| SweptBy(n, r1.head, r1.phase, r1.mark, r'.head, r'.phase, r'.mark);
      SweptOneMore(n, r.head, r.phase, r.mark, r1.head, r1.phase, r'.head, r'.phase, r'.mark);
    } else {
      assert SweptBy(0, r.head, r.phase, r.mark, r'.head, r'.phase, r'.mark);
    }
  }

  // ---------- the logical view ----------

  /** Ring r stands for logical head h, with exactly the entries m above it marked. */
  ghost predicate Refines<E>(r: Ring<E>, h: nat, m: set<nat>) {
    && Shape(r)
    && r.head == Slot(h, r.qs)
    && r.phase == Lap(h, r.qs)
    && (forall k | k in m :: h <= k < h + r.qs)
    && (forall k | h <= k < h + r.qs :: r.mark[Slot(k, r.qs)] <==> k in m)
  }

  /** A logical head and the marked entries above it. */
  datatype Pending = Pending(head: nat, marked: set<nat>)

  /** The sweep over logical indices. */
  ghost function SweepIndices(h: nat, m: set<nat>): (p: Pending)
    ensures h <= p.head && p.head !in m
    ensures forall k | h <= k < p.head :: k in m
    ensures p.marked == set k | k in m && !(h <= k < p.head)
    decreases m
  {
    if h in m then SweepIndices(h + 1, m - {h}) else Pending(h, m)
  }

  lemma AdvanceRefines<E>(r: Ring<E>, h: nat, m: set<nat>)
    requires Refines(r, h, m) && h in m
    ensures Refines(Advance(r), h + 1, m - {h})
  {
    var r' := Advance(r);
    SlotOffset(h, 1, r.qs);
    forall k | h + 1 <= k < h + 1 + r.qs
      ensures r'.mark[Slot(k, r.qs)] <==> k in m - {h}
    {
      if k == h + r.qs {
        SlotOffset(h, r.qs, r.qs);
      } else if Slot(k, r.qs) == Slot(h, r.qs) {
        SlotInjective(h, h, k, r.qs);
      }
    }
  }

  /** The sweep over the mark bytes is the sweep over logical indices. */
  lemma {:induction false} SweepRefines<E>(r: Ring<E>, h: nat, m: set<nat>)
    requires Refines(r, h, m)
    ensures Refines(Sweep(r), SweepIndices(h, m).head, SweepIndices(h, m).marked)
    decreases m
  {
    assert r.mark[Slot(h, r.qs)] <==> h in m;
    if h in m {
      AdvanceRefines(r, h, m);
      SweepRefines(Advance(r), h + 1, m - {h});
    }
  }

  lemma MarkRefines<E>(r: Ring<E>, h: nat, m: set<nat>, k: nat)
    requires Refines(r, h, m) && h <= k < h + r.qs
    ensures Refines(r.(mark := r.mark[Slot(k, r.qs) := true]), h, m + {k})
  {
    var mark' := r.mark[Slot(k, r.qs) := true];
    forall j | h <= j < h + r.qs
      ensures mark'[Slot(j, r.qs)] <==> j in m + {k}
    {
      if Slot(j, r.qs) == Slot(k, r.qs) {
        SlotInjective(h, j, k, r.qs);
      }
    }
  }

  lemma RetireRefines<E>(r: Ring<E>, h: nat, m: set<nat>, k: nat)
    requires Refines(r, h, m) && h <= k < h + r.qs
    ensures var p := SweepIndices(h, m + {k});
            Refines(Retire(r, Slot(k, r.qs)), p.head, p.marked)
  {
    MarkRefines(r, h, m, k);
    SweepRefines(r.(mark := r.mark[Slot(k, r.qs) := true]), h, m + {k});
  }

  /** The logical view determines the wrapped fields. */
  lemma RefinesUnique<E>(r1: Ring<E>, r2: Ring<E>, h: nat, m: set<nat>)
    requires Refines(r1, h, m) && Refines(r2, h, m) && r1.qs == r2.qs
    ensures r1.head == r2.head && r1.phase == r2.phase && r1.mark == r2.mark
  {
    forall l | 0 <= l < r1.qs ensures r1.mark[l] == r2.mark[l] {
      var k := IndexIn(h, l, r1.qs);
      assert r1.mark[Slot(k, r1.qs)] <==> k in m;
    }
  }

  // ---------- the doorbell ----------

  /** As long as fewer than qs entries are unretired, the head cannot come round to
      where it was, so the doorbell is written whenever it has to be: it stays equal
      to the head. All entries it releases are marked ones. */
  lemma DoorbellFollowsHead<E>(r: Ring<E>, h: nat, m: set<nat>, k: nat)
    requires Refines(r, h, m) && r.db == r.head
    requires forall j | j in m + {k} :: h <= j < h + r.qs - 1
    ensures var r' := RetireAndRing(r, Slot(k, r.qs));
            var p := SweepIndices(h, m + {k});
            && Refines(r', p.head, p.marked) && r'.db == r'.head
            && r' == Retire(r, Slot(k, r.qs)).(db := r'.head)
            && (forall j | h <= j < p.head :: j in m + {k})
  {
    assert k in m + {k};
    RetireRefines(r, h, m, k);
    var p := SweepIndices(h, m + {k});
    if p.head > h {
      assert p.head - 1 in m + {k};
      if Slot(p.head, r.qs) == Slot(h, r.qs) {
        SlotInjective(h, h, p.head, r.qs);
      }
    }
  }

  /** The n indices from h on. */
  ghost function Range(h: nat, n: nat): (m: set<nat>)
    ensures forall k :: k in m <==> h <= k < h + n
  {
    if n == 0 then {} else Range(h, n - 1) + {h + n - 1}
  }

  /** With all qs slots in use the test `old_head != head` does skip a write: the head
      goes full circle, every slot is released and the doorbell is left alone. */
  lemma DoorbellSkippedOnFullCircle<E>(r: Ring<E>, h: nat, m: set<nat>, k: nat)
    requires Refines(r, h, m) && h <= k < h + r.qs
    requires m + {k} == Range(h, r.qs)
    ensures var r' := RetireAndRing(r, Slot(k, r.qs));
            r'.db == r.db && r'.phase != r.phase && r'.head == r.head && Refines(r', h + r.qs, {})
  {
    RetireRefines(r, h, m, k);
    SweepWholeRange(h, r.qs);
    SlotOffset(h, r.qs, r.qs);
  }

  lemma SweepWholeRange(h: nat, n: nat)
    ensures SweepIndices(h, Range(h, n)) == Pending(h + n, {})
  {
    var p := SweepIndices(h, Range(h, n));
    LeastUnique(h, Range(h, n), p.head, h + n);
    assert p.marked == {};
  }

  lemma LeastUnique(h: nat, m: set<nat>, x: nat, y: nat)
    requires h <= x && x !in m && forall k | h <= k < x :: k in m
    requires h <= y && y !in m && forall k | h <= k < y :: k in m
    ensures x == y
  {
  }

  // ---------- order independence ----------

  /** Retire the entries with logical indices ks, in that order. */
  function RetireAll<E>(r: Ring<E>, ks: seq<nat>): (r': Ring<E>)
    requires Shape(r)
    ensures Shape(r') && r' == r.(mark := r'.mark, head := r'.head, phase := r'.phase)
    decreases |ks|
  {
    if ks == [] then r else RetireAll(Retire(r, Slot(ks[0], r.qs)), ks[1..])
  }

  function RetireAllAndRing<E>(r: Ring<E>, ks: seq<nat>): (r': Ring<E>)
    requires Shape(r)
    ensures Shape(r') && r'.qs == r.qs
    decreases |ks|
  {
    if ks == [] then r else RetireAllAndRing(RetireAndRing(r, Slot(ks[0], r.qs)), ks[1..])
  }

  /** Distinct outstanding entries, none of them retired yet, in a window shorter than the ring. */
  ghost predicate Outstanding(ks: seq<nat>, h: nat, m: set<nat>, qs: nat) {
    && NoRepeats(ks)
    && (forall k | k in ks :: h <= k && k !in m)
    && (forall k | k in Elements(ks) + m :: k + 1 < h + qs)
  }

  /** Sweeping early changes nothing: what matters is the set of retired entries. */
  lemma SweepCompose(h: nat, m: set<nat>, a: set<nat>)
    requires forall k | k in a :: k !in m && h <= k
    ensures var p := SweepIndices(h, m);
            SweepIndices(p.head, p.marked + a) == SweepIndices(h, m + a)
  {
    var p := SweepIndices(h, m);
    var p1 := SweepIndices(p.head, p.marked + a);
    var p2 := SweepIndices(h, m + a);
    forall k | h <= k < p1.head ensures k in m + a {
      assert k >= p.head ==> k in p.marked + a;
    }
    assert p1.head in m ==> p1.head in p.marked;
    LeastUnique(h, m + a, p1.head, p2.head);
    assert p1.marked == p2.marked;
  }

  lemma OutstandingTail(ks: seq<nat>, h: nat, m: set<nat>, qs: nat)
    requires Outstanding(ks, h, m, qs) && ks != [] && qs > 0
    requires forall k | k in m :: h <= k
    ensures var p := SweepIndices(h, m + {ks[0]});
            && Outstanding(ks[1..], p.head, p.marked, qs) && h <= ks[0] < h + qs - 1
  {
    var k0 := ks[0];
    var p := SweepIndices(h, m + {k0});
    assert k0 in ks && k0 in Elements(ks) + m;
    forall k | k in ks[1..] ensures p.head <= k && k !in p.marked {
      var i :| 1 <= i < |ks| && ks[i] == k;
      assert k in ks && k != k0;
      assert k < p.head ==> k in m + {k0};
    }
    forall k | k in Elements(ks[1..]) + p.marked ensures k + 1 < p.head + qs {
      assert k in Elements(ks) + m;
    }
  }

  /** Retiring a set of entries, in whatever order: the new head is the least index
      not retired, the marks left are exactly the retired entries above it, and the
      phase is that of the new head. */
  lemma {:induction false} RetireAllRefines<E>(r: Ring<E>, h: nat, m: set<nat>, ks: seq<nat>)
    requires Refines(r, h, m) && h !in m && Outstanding(ks, h, m, r.qs)
    ensures var p := SweepIndices(h, m + Elements(ks));
            Refines(RetireAll(r, ks), p.head, p.marked)
    decreases |ks|
  {
    if ks == [] {
      assert m + Elements(ks) == m;
    } else {
      var k := ks[0];
      var p := SweepIndices(h, m + {k});
      OutstandingTail(ks, h, m, r.qs);
      RetireRefines(r, h, m, k);
      RetireAllRefines(Retire(r, Slot(k, r.qs)), p.head, p.marked, ks[1..]);
      forall j | j in Elements(ks[1..]) ensures j !in m + {k} && h <= j {
        var i :| 1 <= i < |ks| && ks[i] == j;
        assert j in ks;
      }
      SweepCompose(h, m + {k}, Elements(ks[1..]));
      assert m + {k} + Elements(ks[1..]) == m + Elements(ks) by {
        assert ks == [k] + ks[1..];
      }
    }
  }

  lemma SameElements(ks: seq<nat>, ks': seq<nat>)
    requires multiset(ks) == multiset(ks')
    ensures Elements(ks) == Elements(ks')
  {
    assert forall k :: k in ks <==> k in multiset(ks);
    assert forall k :: k in ks' <==> k in multiset(ks');
  }

  lemma OtherOrder(ks: seq<nat>, ks': seq<nat>, h: nat, m: set<nat>, qs: nat)
    requires Outstanding(ks, h, m, qs) && multiset(ks) == multiset(ks')
    ensures Outstanding(ks', h, m, qs) && Elements(ks') == Elements(ks)
  {
    SameElements(ks, ks');
    forall k | k in ks' ensures h <= k && k !in m {
      assert k in Elements(ks');
    }
    NoRepeatsCounts(ks);
    forall i, j | 0 <= i < j < |ks'| ensures ks'[i] != ks'[j] {
      assert ks' == ks'[..j] + ks'[j..];
      assert ks'[i] in ks'[..j] && ks'[j] in ks'[j..];
      assert multiset(ks')[ks'[j]] == multiset(ks'[..j])[ks'[j]] + multiset(ks'[j..])[ks'[j]];
    }
  }

  /** Two orders of retiring the same entries lead to the same ring. */
  lemma RetirementOrderIrrelevant<E>(r: Ring<E>, h: nat, m: set<nat>, ks: seq<nat>, ks': seq<nat>)
    requires Refines(r, h, m) && h !in m
    requires Outstanding(ks, h, m, r.qs) && multiset(ks) == multiset(ks')
    ensures RetireAll(r, ks) == RetireAll(r, ks')
  {
    OtherOrder(ks, ks', h, m, r.qs);
    var p := SweepIndices(h, m + Elements(ks));
    RetireAllRefines(r, h, m, ks);
    RetireAllRefines(r, h, m, ks');
    RefinesUnique(RetireAll(r, ks), RetireAll(r, ks'), p.head, p.marked);
  }

  lemma {:induction false} RetireAllRings<E>(r: Ring<E>, r0: Ring<E>, h: nat, m: set<nat>, ks: seq<nat>)
    requires Refines(r, h, m) && h !in m && Outstanding(ks, h, m, r.qs)
    requires r.db == r.head && r == r0.(db := r.db) && Shape(r0)
    ensures var r' := RetireAllAndRing(r, ks);
            r'.db == r'.head && r' == RetireAll(r0, ks).(db := r'.head)
    decreases |ks|
  {
    if ks != [] {
      var k := ks[0];
      var l := Slot(k, r.qs);
      var p := SweepIndices(h, m + {k});
      forall j | j in m + {k} ensures h <= j < h + r.qs - 1 {
        assert j in Elements(ks) + m;
      }
      DoorbellFollowsHead(r, h, m, k);
      OutstandingTail(ks, h, m, r.qs);
      SweepIgnoresDoorbell(r0.(mark := r0.mark[l := true]), r.db);
      RetireAllRings(RetireAndRing(r, l), Retire(r0, l), p.head, p.marked, ks[1..]);
    }
  }

  lemma {:induction false} SweepIgnoresDoorbell<E>(r: Ring<E>, db: nat)
    requires Shape(r)
    ensures Sweep(r.(db := db)) == Sweep(r).(db := db)
    decreases multiset(r.mark)[true]
  {
    if r.mark[r.head] {
      assert Advance(r.(db := db)) == Advance(r).(db := db);
      SweepIgnoresDoorbell(Advance(r), db);
    }
  }

  /** The same for completions: whatever the order, the same ring, and the device is
      told the same head. */
  lemma CompletionOrderIrrelevant<E>(r: Ring<E>, h: nat, m: set<nat>, ks: seq<nat>, ks': seq<nat>)
    requires Refines(r, h, m) && h !in m && r.db == r.head
    requires Outstanding(ks, h, m, r.qs) && multiset(ks) == multiset(ks')
    ensures RetireAllAndRing(r, ks) == RetireAllAndRing(r, ks')
    ensures RetireAllAndRing(r, ks).db == RetireAllAndRing(r, ks).head
  {
    OtherOrder(ks, ks', h, m, r.qs);
    RetireAllRings(r, r, h, m, ks);
    RetireAllRings(r, r, h, m, ks');
    RetirementOrderIrrelevant(r, h, m, ks, ks');
  }
}

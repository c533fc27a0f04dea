/** The admin queue pair of `admin.c`: what each function that takes the lock does to
    the memory and fields the driver shares with the device. `Queues` is the value of
    that state, the functions on it are the specification, and the methods of
    `AdminQueuePair` are the driver's loops, proved to meet it. */
module AdminQueue {
  import opened Slots
  import opened Rings
  import opened Words

  const MAX_CMD: nat := 65536

  type Cmd = s: seq<u32> | |s| == 16 witness [0, 0, 0, 0, 0, 0, 0, 0, 0, 0, 0, 0, 0, 0, 0, 0]
  type Cpl = s: seq<u32> | |s| == 4 witness [0, 0, 0, 0]

  const ZERO_CMD: Cmd := [0, 0, 0, 0, 0, 0, 0, 0, 0, 0, 0, 0, 0, 0, 0, 0]
  const ZERO_CPL: Cpl := [0, 0, 0, 0]

  datatype Queues = Queues(sq: Ring<Cmd>, cq: Ring<Cpl>, cids: seq<bool>)

  predicate ValidQueues(q: Queues) {
    Shape(q.sq) && Shape(q.cq) && q.sq.qs == q.cq.qs && |q.cids| == MAX_CMD
  }

  function EmptyRing<E>(qs: nat, zero: E): Ring<E> {
    Ring(qs, 0, 0, true, seq(qs, _ => false), seq(qs, _ => zero), 0)
  }

  /** The ring size that `admin_init` takes from the low word of the capability register:
      the size field is one less than the size, and larger rings are cut to 4096. */
  function QueueSize(cap: u32): (qs: nat)
    ensures 1 <= qs <= 4096
    ensures qs <= cap % 0x1_0000 + 1 && (qs == cap % 0x1_0000 + 1 || qs == 4096)
  {
    Pow2Values();
    ReadBitsIsField(cap, 15, 0);
    DivModUnique(cap, 1, cap, 0);
    var size := ReadBits(cap, 15, 0) + 1;
    if size > 4096 then 4096 else size
  }

  /** Both rings after `admin_init`. */
  function InitialQueues(qs: nat): (q: Queues)
    requires 1 <= qs <= 4096
    ensures ValidQueues(q)
  {
    Queues(EmptyRing(qs, ZERO_CMD), EmptyRing(qs, ZERO_CPL), seq(MAX_CMD, _ => false))
  }

  /** The command id the driver reads back from a command. */
  function CidOf(cmd: Cmd): (cid: nat)
    ensures cid < MAX_CMD && cid == cmd[0] / 0x1_0000
  {
    Pow2Values();
    ShrIsDiv(cmd[0], 16);
    Shr(cmd[0], 16)
  }

  function Stamp(cmd: Cmd, cid: nat): Cmd
    requires cid < MAX_CMD
  {
    cmd[0 := StampCid(cmd[0], cid)]
  }

  /** The id goes into dword 0, above whatever the caller put into its low half; nothing
      else of the command changes. */
  lemma Stamped(cmd: Cmd, cid: nat)
    requires cid < MAX_CMD
    ensures Stamp(cmd, cid)[1..] == cmd[1..] && Stamp(cmd, cid)[0] % 0x1_0000 == cmd[0] % 0x1_0000
    ensures cmd[0] < 0x1_0000 ==> Stamp(cmd, cid)[0] == cmd[0] + cid * 0x1_0000
  {
    StampKeepsOpcode(cmd[0], cid);
  }

  function CplCid(cpl: Cpl): nat { CidField(cpl[3]) }
  function CplTag(cpl: Cpl): bool { PhaseField(cpl[3]) }

  // ---------- the operations as functions ----------

  /** The least free command id from i on, or MAX_CMD. */
  function FirstFree(cids: seq<bool>, i: nat): (cid: nat)
    requires i <= |cids|
    ensures i <= cid <= |cids|
    ensures cid < |cids| ==> !cids[cid]
    ensures forall j | i <= j < cid :: cids[j]
    decreases |cids| - i
  {
    if i == |cids| || !cids[i] then i else FirstFree(cids, i + 1)
  }

  /** What `admin_enqueue_command` returns, and leaves in the caller's command. */
  datatype Enqueued = Enqueued(q: Queues, cmd: Cmd, ret: int)

  function Enqueue(q: Queues, cmd: Cmd): (e: Enqueued)
    requires ValidQueues(q)
    ensures ValidQueues(e.q)
  {
    var cid := FirstFree(q.cids, 0);
    if SeemsFull(q.sq.head, q.sq.tail, q.sq.qs) || cid == MAX_CMD then Enqueued(q, cmd, -1)
    else
      var tail' := NextSlot(q.sq.tail, q.sq.qs);
      Enqueued(Queues(q.sq.(slots := q.sq.slots[q.sq.tail := Stamp(cmd, cid)], tail := tail', db := tail'),
                      q.cq, q.cids[cid := true]),
               Stamp(cmd, cid), q.sq.tail)
  }

  function CleanSq(q: Queues, loc: nat): (q': Queues)
    requires ValidQueues(q) && loc < q.sq.qs
    ensures ValidQueues(q')
  {
    q.(sq := Retire(q.sq, loc), cids := q.cids[CidOf(q.sq.slots[loc]) := false])
  }

  function CleanCq(q: Queues, loc: nat): (q': Queues)
    requires ValidQueues(q) && loc < q.cq.qs
    ensures ValidQueues(q')
  {
    q.(cq := RetireAndRing(q.cq, loc))
  }

  /** Does the poll stop at slot l? */
  predicate Hit(cq: Ring<Cpl>, cid: nat, l: nat)
    requires Shape(cq) && l < cq.qs
  {
    CplCid(cq.slots[l]) == cid && CplTag(cq.slots[l]) == cq.phase
  }

  /** The poll, from slot l up to the last slot of the ring. */
  function PollFrom(cq: Ring<Cpl>, cid: nat, l: nat): (ret: int)
    requires Shape(cq) && l < cq.qs
    ensures ret == -1 <==> forall i | l <= i < cq.qs :: !Hit(cq, cid, i)
    ensures ret != -1 ==> l <= ret < cq.qs && Hit(cq, cid, ret) && forall i | l <= i < ret :: !Hit(cq, cid, i)
    decreases cq.qs - l
  {
    if Hit(cq, cid, l) then l
    else if l + 1 >= cq.qs then -1
    else PollFrom(cq, cid, l + 1)
  }

  /** The driver's comparison, in plain terms: the id in the low half of dword 3, the phase
      tag above it. */
  lemma HitMeans(cq: Ring<Cpl>, cid: nat, l: nat)
    requires Shape(cq) && l < cq.qs
    ensures Hit(cq, cid, l)
            <==> cq.slots[l][3] % 0x1_0000 == cid && (cq.slots[l][3] / 0x1_0000 % 2 == 1) == cq.phase
  {
    CompletionFields(cq.slots[l][3], 0);
  }

  function Poll(q: Queues, cid: nat): int
    requires ValidQueues(q)
  {
    PollFrom(q.cq, cid, q.cq.head)
  }

  // ---------- the driver ----------

  /** `struct queue` with the lock's view of the doorbell register. */
  class Queue<E> {
    const qs: nat
    var head: nat
    var tail: nat
    var phase: bool
    var db: nat
    const mark: array<bool>
    const addr: array<E>

    function Value(): Ring<E>
      reads this, mark, addr
    {
      Ring(qs, head, tail, phase, mark[..], addr[..], db)
    }

    ghost predicate Valid()
      reads this, mark, addr
    {
      Shape(Value()) && mark as object != addr as object
    }

    constructor (qs: nat, zero: E)
      requires 1 <= qs <= 4096
      ensures Valid() && Value() == EmptyRing(qs, zero)
      ensures fresh(mark) && fresh(addr)
    {
      this.qs := qs;
      head, tail, phase, db := 0, 0, true, 0;
      mark := new bool[qs](_ => false);
      addr := new E[qs](_ => zero);
      new;
      assert mark[..] == seq(qs, _ => false);
      assert addr[..] == seq(qs, _ => zero);
    }

    /** The body of the sweep loop: clear one mark and step the head. */
    method ClearAndAdvance(l: nat)
      requires Valid() && l == head && mark[l]
      modifies this`head, this`phase, mark
      ensures Valid() && Value() == Advance(old(Value()))
    {
      mark[l] := false;
      assert mark[..] == old(mark[..])[l := false];
      head := head + 1;
      if head == qs {
        head := 0;
        phase := !phase;
      }
    }

    /** The sweep loop of both cleanup functions. Its counters are 16 bits wide in the
        driver; they stay below the ring size plus one, so they never wrap. */
    method SweepHead()
      requires Valid()
      modifies this`head, this`phase, mark
      ensures Valid() && Value() == Sweep(old(Value()))
    {
      var oldHead := head;
      ghost var r := Value();
      ghost var marks := multiset(r.mark)[true];
      var i: nat := 0;
      MarksBound(r.mark);
      while true
        invariant r == Value() && Valid()
        invariant Sweep(r) == Sweep(old(Value()))
        invariant i + multiset(r.mark)[true] == marks <= qs
        invariant r.head == Wrapped(oldHead + i, qs)
        decreases multiset(r.mark)[true]
      {
        var l := Wrap(oldHead + i, qs);
        if mark[l] {
          AdvanceStep(r, oldHead + i);
          ClearAndAdvance(l);
          r := Advance(r);
          i := i + 1;
        } else {
          break;
        }
      }
    }
  }

  function Wrapped(x: nat, qs: nat): (l: nat)
    requires x < 2 * qs
  {
    if x < qs then x else x - qs
  }

  /** The reduction that turns a head plus an offset into a slot. */
  method Wrap(x: nat, qs: nat) returns (l: nat)
    requires x < 2 * qs
    ensures l == Wrapped(x, qs) == x % qs
  {
    WrapOnce(x, qs);
    l := x % qs;
  }

  lemma AdvanceStep<E>(r: Ring<E>, x: nat)
    requires Shape(r) && r.mark[r.head] && x + 1 < 2 * r.qs && Wrapped(x, r.qs) == r.head
    ensures Sweep(r) == Sweep(Advance(r))
    ensures multiset(Advance(r).mark)[true] + 1 == multiset(r.mark)[true]
    ensures Wrapped(x + 1, r.qs) == Advance(r).head
  {
    assert r.mark[r.head] in multiset(r.mark);
  }

  lemma {:induction false} MarksBound(mark: seq<bool>)
    ensures multiset(mark)[true] <= |mark|
  {
    if mark != [] {
      assert mark == [mark[0]] + mark[1..];
      MarksBound(mark[1..]);
    }
  }

  /** `struct admin_queue_pair`, the part behind the lock that the rings use. */
  class AdminQueuePair {
    const sq: Queue<Cmd>
    const cq: Queue<Cpl>
    const cid: array<bool>

    ghost predicate Valid()
      reads this, sq, cq, sq.mark, sq.addr, cq.mark, cq.addr, cid
    {
      && sq.Valid() && cq.Valid() && sq.qs == cq.qs && cid.Length == MAX_CMD
      && sq.mark != cq.mark && cid != sq.mark && cid != cq.mark
    }

    function Value(): Queues
      reads this, sq, cq, sq.mark, sq.addr, cq.mark, cq.addr, cid
    {
      Queues(sq.Value(), cq.Value(), cid[..])
    }

    /** The rings as `admin_init` sets them up, for the capabilities the device reports. */
    constructor (cap: u32)
      ensures Valid()
      ensures Value() == InitialQueues(QueueSize(cap))
      ensures sq.head == sq.tail == cq.head == cq.tail == 0 && sq.phase && cq.phase
      ensures forall l | 0 <= l < QueueSize(cap) :: !sq.mark[l] && !cq.mark[l] && cq.addr[l] == [0, 0, 0, 0]
      ensures forall i | 0 <= i < 0x1_0000 :: !cid[i]
    {
      var qs := QueueSize(cap);
      sq := new Queue(qs, ZERO_CMD);
      cq := new Queue(qs, ZERO_CPL);
      cid := new bool[MAX_CMD](_ => false);
      new;
      assert cid[..] == seq(MAX_CMD, _ => false);
    }

    /** The search loop of `admin_enqueue_command` for a free command id. */
    method TakeCid() returns (c: nat)
      requires cid.Length == MAX_CMD
      modifies cid
      ensures c == FirstFree(old(cid[..]), 0)
      ensures cid[..] == if c == MAX_CMD then old(cid[..]) else old(cid[..])[c := true]
    {
      var i := 0;
      while i < MAX_CMD
        invariant 0 <= i <= MAX_CMD && cid[..] == old(cid[..])
        invariant FirstFree(cid[..], 0) == FirstFree(cid[..], i)
      {
        if !cid[i] {
          cid[i] := true;
          return i;
        }
        i := i + 1;
      }
      return MAX_CMD;
    }

    /** `admin_enqueue_command`. It is refused on a seemingly full ring or for lack of an
        id, and then leaves everything as it was, the caller's command too. Otherwise the
        least free id is taken and put into the command, which goes into the tail slot, and
        the doorbell is written with the next tail. */
    method EnqueueCommand(cmd: array<u32>) returns (ret: int)
      requires Valid() && cmd.Length == 16
      modifies sq`tail, sq`db, sq.addr, cid, cmd
      ensures Valid()
      ensures var e := Enqueue(old(Value()), old(cmd[..]));
              Value() == e.q && cmd[..] == e.cmd && ret == e.ret
      ensures ret == -1 <==>
                || old((sq.tail - sq.head) % 0x1_0000 % sq.qs) == sq.qs - 1
                || forall i | 0 <= i < 0x1_0000 :: old(cid[i])
      ensures ret == -1 ==> Value() == old(Value()) && cmd[..] == old(cmd[..])
      ensures ret != -1 ==>
                && ret == old(sq.tail) && sq.tail == (ret + 1) % sq.qs == sq.db
                && sq.addr[..] == old(sq.addr[..])[ret := cmd[..]] && cmd[1..] == old(cmd[1..])
                && var c := FirstFree(old(cid[..]), 0);
                && c < 0x1_0000 && cid[..] == old(cid[..])[c := true]
                && cmd[0] % 0x1_0000 == old(cmd[0] % 0x1_0000)
                && (old(cmd[0]) < 0x1_0000 ==> cmd[0] == old(cmd[0]) + c * 0x1_0000)
    {
      if (sq.tail - sq.head) % 65536 % sq.qs == sq.qs - 1 {
        return -1;
      }
      var loc := sq.tail;
      var c := TakeCid();
      if c == MAX_CMD {
        return -1;
      }
      Stamped(cmd[..], c);
      cmd[0] := StampCid(cmd[0], c);
      assert cmd[..] == Stamp(old(cmd[..]), c);
      assert cmd[0] == cmd[..][0] && old(cmd[0]) == old(cmd[..])[0];
      sq.addr[loc] := cmd[..];
      assert sq.addr[..] == old(sq.addr[..])[loc := cmd[..]];
      WrapOnce(loc + 1, sq.qs);
      sq.tail := (sq.tail + 1) % sq.qs;
      sq.db := sq.tail;
      ret := loc;
    }

    /** `admin_sq_mark_cleanup`: frees the id that the slot carries, marks the slot and
        sweeps. */
    method SqMarkCleanup(loc: nat)
      requires Valid() && loc < sq.qs
      modifies sq`head, sq`phase, sq.mark, cid
      ensures Valid() && Value() == CleanSq(old(Value()), loc)
      ensures cid[..] == old(cid[..])[sq.addr[loc][0] / 0x1_0000 := false]
      ensures Swept(old(sq.head), old(sq.phase), old(sq.mark[..])[loc := true], sq.head, sq.phase, sq.mark[..])
    {
      var cmd := sq.addr[loc];
      var c := CidOf(cmd);
      cid[c] := false;
      sq.mark[loc] := true;
      SweepIsSwept(sq.Value());
      sq.SweepHead();
    }

    /** `admin_cq_mark_cleanup`: marks the slot, sweeps, and writes the doorbell if the head
        has moved. */
    method CqMarkCleanup(loc: nat)
      requires Valid() && loc < cq.qs
      modifies cq`head, cq`phase, cq`db, cq.mark
      ensures Valid() && Value() == CleanCq(old(Value()), loc)
      ensures Swept(old(cq.head), old(cq.phase), old(cq.mark[..])[loc := true], cq.head, cq.phase, cq.mark[..])
      ensures cq.db == if cq.head != old(cq.head) then cq.head else old(cq.db)
    {
      cq.mark[loc] := true;
      var oldHead := cq.head;
      SweepIsSwept(cq.Value());
      cq.SweepHead();
      if oldHead != cq.head {
        cq.db := cq.head;
      }
    }

    /** `admin_cq_poll`: the first slot from the head to the end of the ring that carries
        the id under the driver's phase, or -1. */
    method CqPoll(c: nat) returns (ret: int)
      requires Valid()
      ensures ret == Poll(Value(), c)
      ensures ret == -1 <==>
                forall l | cq.head <= l < cq.qs ::
                  !(cq.addr[l][3] % 0x1_0000 == c && (cq.addr[l][3] / 0x1_0000 % 2 == 1) == cq.phase)
      ensures ret != -1 ==>
                && cq.head <= ret < cq.qs
                && cq.addr[ret][3] % 0x1_0000 == c && (cq.addr[ret][3] / 0x1_0000 % 2 == 1) == cq.phase
                && forall l | cq.head <= l < ret ::
                     !(cq.addr[l][3] % 0x1_0000 == c && (cq.addr[l][3] / 0x1_0000 % 2 == 1) == cq.phase)
    {
      ret := Scan(c);
      ghost var v := cq.Value();
      forall l | 0 <= l < cq.qs
        ensures Hit(v, c, l) <==> cq.addr[l][3] % 0x1_0000 == c && (cq.addr[l][3] / 0x1_0000 % 2 == 1) == cq.phase
      {
        assert v.slots[l] == cq.addr[l];
        HitMeans(v, c, l);
      }
    }

    /** Its loop. */
    method Scan(c: nat) returns (ret: int)
      requires Valid()
      ensures ret == Poll(Value(), c)
    {
      ghost var v := cq.Value();
      var phase := cq.phase;
      var head := cq.head;
      var i := 0;
      while true
        invariant head + i < cq.qs
        invariant PollFrom(v, c, head) == PollFrom(v, c, head + i)
        decreases cq.qs - i
      {
        var l := Wrap(head + i, cq.qs);
        var dword := cq.addr[l][3];
        assert v.slots[l] == cq.addr[l];
        assert Hit(v, c, l) <==> CidField(dword) == c && PhaseField(dword) == phase;
        if And(dword, 0xffff) == c {
          if (And(Shr(dword, 16), 0x1) != 0) == phase {
            return l;
          }
        }
        if head + i + 1 >= cq.qs {
          break;
        }
        i := i + 1;
      }
      return -1;
    }
  }

  /** `clear_cmd` */
  method ClearCmd(cmd: array<u32>)
    requires cmd.Length == 16
    modifies cmd
    ensures cmd[..] == ZERO_CMD && forall i | 0 <= i < 16 :: cmd[i] == 0
  {
    for i := 0 to 16
      invariant forall j | 0 <= j < i :: cmd[j] == 0
    {
      cmd[i] := 0;
    }
  }
}

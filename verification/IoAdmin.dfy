/** Create, delete and teardown of I/O queue pairs one call at a time, on the driver's
    own arrays, and what is left when the driver goes. */
module IoAdmin {
  import Counting
  import opened Words
  import opened AdminQueue
  import opened Runs
  import opened IoQueues

  // ---------- whole calls as functions ----------

  function Create(s: Io): (r: (Io, Option<nat>))
    requires Sized(s)
    ensures Sized(r.0) && r.0.supported == s.supported
    ensures r.1.Some? ==> r.1.value < s.supported
  {
    var (s1, p) := Reserve(s);
    if p == None then (s1, None) else (MakeSq(MakeCq(s1, p.value), p.value), p)
  }

  /** What delete does once it has tested the mark and given up the lock. */
  function DeleteWork(s: Io, i: nat): (s': Io)
    requires Sized(s) && i < s.supported
    ensures Sized(s') && s'.supported == s.supported
  {
    Release(DropCq(DropSq(s, i), i), i)
  }

  function Delete(s: Io, i: nat): (s': Io)
    requires Sized(s) && i < s.supported
    ensures Sized(s') && s'.supported == s.supported
  {
    if !s.mark[i] then s else DeleteWork(s, i)
  }

  function DeleteFrom(s: Io, i: nat): (s': Io)
    requires Sized(s) && i <= s.supported
    ensures Sized(s') && s'.supported == s.supported
    decreases s.supported - i
  {
    if i == s.supported then s else DeleteFrom(Delete(s, i), i + 1)
  }

  // ---------- between calls ----------

  ghost function StageOfMarks(mark: seq<bool>): (stage: seq<Stage>)
    ensures |stage| == |mark|
  {
    seq(|mark|, i requires 0 <= i < |mark| => if mark[i] then Live else Idle)
  }

  /** No create or delete is under way: the marked pairs are the live ones. */
  ghost predicate AtRest(s: Io) {
    Sized(s) && IoInv(IoWorld(s, StageOfMarks(s.mark)))
  }

  /** Whatever interleaving of creates and deletes led here, if all of them have returned
      the marks tell which pairs exist. */
  lemma RestAfterRun(bus: nat -> u64, qs: nat, supported: nat, steps: seq<IoStep>, w: IoWorld)
    requires 1 <= qs <= 4096 && supported <= 65535
    requires Leads(TryIo, InitialWorld(bus, qs, supported), steps, w)
    requires forall i | 0 <= i < |w.stage| :: w.stage[i] == Idle || w.stage[i] == Live
    ensures AtRest(w.s)
  {
    InitialIoInv(bus, qs, supported);
    IoRunKeeps(InitialWorld(bus, qs, supported), steps, w);
    assert w.stage == StageOfMarks(w.s.mark);
  }

  lemma CreateSteps(w: IoWorld, i: nat)
    requires IoInv(w) && i < |w.stage| && w.stage[i] == Reserved
    ensures IoInv(IoWorld(MakeSq(MakeCq(w.s, i), i), w.stage[i := Live]))
  {
    MakeCqKeeps(w, i);
    var w1 := IoWorld(MakeCq(w.s, i), w.stage[i := CqMade]);
    MakeSqKeeps(w1, i);
    assert w1.stage[i := Live] == w.stage[i := Live];
  }

  lemma CreateAtRest(s: Io)
    requires AtRest(s)
    ensures AtRest(Create(s).0)
    ensures Create(s).1 == None <==> s.used == s.supported
  {
    if s.used < s.supported {
      FreePairFound(s, StageOfMarks(s.mark));
      ReserveKeeps(IoWorld(s, StageOfMarks(s.mark)));
      CreateReserved(s, Reserve(s).0, Reserve(s).1.value);
    }
  }

  lemma CreateReserved(s: Io, s1: Io, i: nat)
    requires i < |s.mark| && s1.mark == s.mark[i := true]
    requires IoInv(IoWorld(s1, StageOfMarks(s.mark)[i := Reserved]))
    ensures AtRest(MakeSq(MakeCq(s1, i), i))
  {
    CreateSteps(IoWorld(s1, StageOfMarks(s.mark)[i := Reserved]), i);
    assert StageOfMarks(s.mark)[i := Reserved][i := Live] == StageOfMarks(s1.mark);
  }

  /** The device with the two queues of pair i added, in the given buffers, the submission
      queue on the completion queue of the pair. */
  function WithPair(d: IoDevice, i: nat, cqBase: nat, sqBase: nat): IoDevice {
    d.(cqs := d.cqs[i + 1 := cqBase], sqs := d.sqs[i + 1 := IoSq(i + 1, sqBase)])
  }

  lemma CreateDoes(s: Io, i: nat)
    requires Sized(s) && Create(s).1 == Some(i)
    ensures i < s.supported && !s.mark[i] && Create(s).0.mark == s.mark[i := true]
    ensures Create(s).0.dev
         == Carry(Carry(s.dev, CreateCqCmd(s.qs, i, s.bus(s.issued))), CreateSqCmd(s.qs, i, s.bus(s.issued + 1)))
  {
  }

  /** A create that finds a pair marks it and adds its two queues to the device's, in the
      two buffers it has had allocated, and changes no other. */
  lemma CreateAddsPair(s: Io)
    requires AtRest(s) && Create(s).1.Some?
    ensures var i := Create(s).1.value;
            && !s.mark[i] && Create(s).0.mark == s.mark[i := true]
            && Create(s).0.dev == WithPair(s.dev, i, s.bus(s.issued), s.bus(s.issued + 1))
  {
    CreateDoes(s, Create(s).1.value);
    CreateOnDevice(s.dev, StageOfMarks(s.mark), s.qs, Create(s).1.value, s.bus(s.issued), s.bus(s.issued + 1));
  }

  lemma CreateOnDevice(d: IoDevice, stage: seq<Stage>, qs: nat, i: nat, a: u64, b: u64)
    requires 1 <= qs <= 4096 && |stage| <= 65535 && DeviceInv(d, stage) && i < |stage| && stage[i] == Idle
    ensures Carry(Carry(d, CreateCqCmd(qs, i, a)), CreateSqCmd(qs, i, b)) == WithPair(d, i, a, b)
  {
    CommandFields(qs, i, a);
    CommandFields(qs, i, b);
  }

  lemma DropSteps(w: IoWorld, i: nat)
    requires IoInv(w) && i < |w.stage| && w.stage[i] == Live
    ensures IoInv(IoWorld(DropCq(DropSq(w.s, i), i), w.stage[i := CqDropped]))
  {
    DropSqKeeps(w, i);
    DropCqKeeps(IoWorld(DropSq(w.s, i), w.stage[i := SqDropped]), i);
    assert w.stage[i := SqDropped][i := CqDropped] == w.stage[i := CqDropped];
  }

  lemma DeleteSteps(w: IoWorld, i: nat)
    requires IoInv(w) && i < |w.stage| && w.stage[i] == Live
    ensures IoInv(IoWorld(DeleteWork(w.s, i), w.stage[i := Idle]))
  {
    DropSteps(w, i);
    ReleaseKeeps(IoWorld(DropCq(DropSq(w.s, i), i), w.stage[i := CqDropped]), i);
    assert w.stage[i := CqDropped][i := Idle] == w.stage[i := Idle];
  }

  /** Delete gives up the lock between its test of the mark and its work, so that another
      create or delete of the pair may be under way when the work starts. The work keeps
      everything in order exactly if the pair is live then; the mark is also set while a
      create or another delete is half way. */
  lemma DeleteSafeIff(w: IoWorld, i: nat)
    requires IoInv(w) && i < |w.stage|
    ensures IoInv(IoWorld(DeleteWork(w.s, i), w.stage[i := Idle])) <==> w.stage[i] == Live
    ensures w.s.mark[i] <==> w.stage[i] != Idle
  {
    if w.stage[i] == Live {
      DeleteSteps(w, i);
    } else {
      DeleteFields(i);
      assert DropSq(w.s, i).dev.rejected == 1;
    }
  }

  /** Two deletes of one pair at once: both pass the test, the device turns down both
      commands of the second, and the buffers of the pair are freed twice. The same two
      deletes one after the other are one. */
  lemma SecondDelete(s: Io, i: nat)
    requires AtRest(s) && i < s.supported && s.mark[i]
    ensures var t := DeleteWork(DeleteWork(s, i), i);
            && t.dev.rejected == 2
            && multiset(t.frees)[s.cqBuf[i]] == multiset(t.frees)[s.sqBuf[i]] == 2
    ensures Delete(Delete(s, i), i) == Delete(s, i)
  {
    var stage := StageOfMarks(s.mark);
    DeleteSteps(IoWorld(s, stage), i);
    DeleteFields(i);
    var d := DeleteWork(s, i).dev;
    assert stage[i := Idle][i] == Idle;
    assert i + 1 !in d.sqs && i + 1 !in d.cqs;
    assert Holds(stage[i], false) && Holds(stage[i], true);
  }

  lemma DeleteAtRest(s: Io, i: nat)
    requires AtRest(s) && i < s.supported
    ensures AtRest(Delete(s, i)) && Delete(s, i).mark == s.mark[i := false]
  {
    if s.mark[i] {
      DeleteSteps(IoWorld(s, StageOfMarks(s.mark)), i);
      assert StageOfMarks(s.mark)[i := Idle] == StageOfMarks(s.mark[i := false]);
    }
  }

  lemma UsedGrows(s: Io)
    requires Sized(s) && Create(s).1.Some?
    ensures Create(s).0.used == s.used + 1
  {
  }

  lemma DeleteKeepsUsed(s: Io, i: nat)
    requires Sized(s) && i < s.supported
    ensures Delete(s, i).used == s.used
  {
  }

  /** The pair of the last create the device has room for is lost for good when it is
      deleted: it is unmarked, and create still finds none. */
  lemma LastPairNotReusable(s: Io, i: nat)
    requires AtRest(s) && s.used + 1 == s.supported && Create(s).1 == Some(i)
    ensures var s' := Delete(Create(s).0, i);
            AtRest(s') && !s'.mark[i] && Create(s').1 == None
  {
    var s1 := Create(s).0;
    CreateAtRest(s);
    UsedGrows(s);
    DeleteAtRest(s1, i);
    DeleteKeepsUsed(s1, i);
    CreateAtRest(Delete(s1, i));
  }

  lemma {:induction false} DeleteFromAtRest(s: Io, i: nat)
    requires AtRest(s) && i <= s.supported
    requires forall j | 0 <= j < i :: !s.mark[j]
    ensures AtRest(DeleteFrom(s, i))
    ensures forall j | 0 <= j < s.supported :: !DeleteFrom(s, i).mark[j]
    decreases s.supported - i
  {
    if i < s.supported {
      DeleteAtRest(s, i);
      DeleteFromAtRest(Delete(s, i), i + 1);
    }
  }

  /** After the delete loop of the teardown, from any state between calls: no pair is
      marked, no I/O queue is left on the device, no command was turned down, and every
      buffer ever allocated has been freed exactly once. */
  lemma TeardownConserves(s: Io)
    requires AtRest(s)
    ensures var e := DeleteFrom(s, 0);
            && AtRest(e) && (forall i | 0 <= i < e.supported :: !e.mark[i])
            && e.dev == NO_QUEUES
            && multiset(e.frees) == multiset(Counting.Below(e.issued))
  {
    DeleteFromAtRest(s, 0);
    var e := DeleteFrom(s, 0);
    var stage := StageOfMarks(e.mark);
    NothingHeld(stage);
    Counting.Pigeonhole(e.frees, e.issued);
    NothingLeft(e.dev, stage);
  }

  lemma NothingLeft(d: IoDevice, stage: seq<Stage>)
    requires DeviceInv(d, stage) && forall i | 0 <= i < |stage| :: stage[i] == Idle
    ensures d == NO_QUEUES
  {
    forall id: nat ensures id !in d.cqs && id !in d.sqs {
      if 1 <= id <= |stage| {
        assert !HasCq(stage[id - 1]) && stage[id - 1] != Live;
      }
    }
  }

  // ---------- the driver ----------

  /** The part of `struct admin_queue_pair` that keeps track of the I/O queue pairs, the
      DMA allocator and the device behind it. */
  class QueuePairs {
    const bus: nat -> u64
    const qs: nat
    const supported: nat
    var used: nat
    const mark: array<bool>
    const cqBuf: array<nat>
    const sqBuf: array<nat>
    var issued: nat
    var frees: seq<nat>
    var dev: IoDevice
    var sent: seq<Cmd>

    function Value(): Io
      reads this, mark, cqBuf, sqBuf
    {
      Io(bus, qs, supported, used, mark[..], cqBuf[..], sqBuf[..], issued, frees, dev)
    }

    ghost predicate Valid()
      reads this, mark, cqBuf, sqBuf
    {
      Sized(Value()) && cqBuf != sqBuf
    }

    constructor (bus: nat -> u64, cap: u32, supported: nat)
      requires supported <= 65535
      ensures Valid() && Value() == InitialIo(bus, QueueSize(cap), supported)
    {
      this.bus := bus;
      this.qs := QueueSize(cap);
      this.supported := supported;
      used, issued, frees, sent := 0, 0, [], [];
      dev := NO_QUEUES;
      mark := new bool[supported](_ => false);
      cqBuf := new nat[supported](_ => 0);
      sqBuf := new nat[supported](_ => 0);
      new;
      assert mark[..] == seq(supported, _ => false);
      assert cqBuf[..] == seq(supported, _ => 0);
      assert sqBuf[..] == seq(supported, _ => 0);
    }

    method AllocCoherent() returns (b: nat)
      modifies this`issued
      ensures b == old(issued) && issued == old(issued) + 1
    {
      b := issued;
      issued := issued + 1;
    }

    method FreeCoherent(b: nat)
      modifies this`frees
      ensures frees == old(frees) + [b]
    {
      frees := frees + [b];
    }

    /** One admin command from enqueue to cleanup, as far as the device is concerned; `sent`
        records it. */
    method Execute(cmd: Cmd)
      modifies this`dev, this`sent
      ensures dev == Carry(old(dev), cmd) && sent == old(sent) + [cmd]
    {
      dev := Carry(dev, cmd);
      sent := sent + [cmd];
    }

    /** The locked part of create: the first pair that is not marked, unless as many
        creates have been counted as there are pairs. */
    method TakePair() returns (r: Option<nat>)
      requires Valid()
      modifies this`used, mark
      ensures Valid() && (Value(), r) == Reserve(old(Value()))
      ensures used == if old(used) == supported then old(used) else old(used) + 1
      ensures r == None <==> old(used) == supported || forall i | 0 <= i < supported :: old(mark[i])
      ensures r.Some? ==>
                && r.value < supported && !old(mark[..])[r.value] && (forall i | 0 <= i < r.value :: old(mark[i]))
                && mark[..] == old(mark[..])[r.value := true]
      ensures r == None ==> mark[..] == old(mark[..])
    {
      if used == supported {
        return None;
      }
      used := used + 1;
      ghost var was := mark[..];
      var i := 0;
      while i < supported
        invariant 0 <= i <= supported && mark[..] == was
        invariant FirstFree(was, 0) == FirstFree(was, i)
      {
        if !mark[i] {
          mark[i] := true;
          break;
        }
        i := i + 1;
      }
      if i == supported {
        return None;
      }
      return Some(i);
    }

    /** `admin_create_io_queue_pair`: a pair, and for each of its queues a new buffer and
        the command that tells the device of it. */
    method CreateIoQueuePair() returns (r: Option<nat>)
      requires Valid()
      modifies this, mark, cqBuf, sqBuf
      ensures Valid() && (Value(), r) == Create(old(Value()))
      ensures r == None ==> sent == old(sent) && issued == old(issued)
      ensures r.Some? ==>
                var i := r.value;
                && i < supported && issued == old(issued) + 2
                && cqBuf[..] == old(cqBuf[..])[i := old(issued)]
                && sqBuf[..] == old(sqBuf[..])[i := old(issued) + 1]
                && |sent| == old(|sent|) + 2 && sent[..old(|sent|)] == old(sent)
                && IsCreateCq(sent[old(|sent|)], qs, i, bus(old(issued)))
                && IsCreateSq(sent[old(|sent|) + 1], qs, i, bus(old(issued) + 1))
    {
      r := TakePair();
      if r == None {
        return;
      }
      CreateQueues(r.value);
    }

    /** Its unlocked part, in two halves, each a buffer and a command. */
    method CreateQueues(i: nat)
      requires Valid() && i < supported
      modifies this`issued, this`dev, this`sent, cqBuf, sqBuf
      ensures Valid() && Value() == MakeSq(MakeCq(old(Value()), i), i)
      ensures issued == old(issued) + 2
      ensures cqBuf[..] == old(cqBuf[..])[i := old(issued)] && sqBuf[..] == old(sqBuf[..])[i := old(issued) + 1]
      ensures |sent| == old(|sent|) + 2 && sent[..old(|sent|)] == old(sent)
      ensures IsCreateCq(sent[old(|sent|)], qs, i, bus(old(issued)))
      ensures IsCreateSq(sent[old(|sent|) + 1], qs, i, bus(old(issued) + 1))
    {
      CreateCq(i);
      ghost var first := sent;
      CreateSq(i);
      assert sent[..|first| - 1] == first[..|first| - 1] && sent[|first| - 1] == first[|first| - 1];
    }

    method CreateCq(i: nat)
      requires Valid() && i < supported
      modifies this`issued, this`dev, this`sent, cqBuf
      ensures Valid() && Value() == MakeCq(old(Value()), i)
      ensures cqBuf[..] == old(cqBuf[..])[i := old(issued)] && issued == old(issued) + 1
      ensures |sent| == old(|sent|) + 1 && sent[..old(|sent|)] == old(sent)
      ensures IsCreateCq(sent[old(|sent|)], qs, i, bus(old(issued)))
    {
      var b := AllocCoherent();
      cqBuf[i] := b;
      CreateCqWords(qs, i, bus(b));
      Execute(CreateCqCmd(qs, i, bus(b)));
    }

    method CreateSq(i: nat)
      requires Valid() && i < supported
      modifies this`issued, this`dev, this`sent, sqBuf
      ensures Valid() && Value() == MakeSq(old(Value()), i)
      ensures sqBuf[..] == old(sqBuf[..])[i := old(issued)] && issued == old(issued) + 1
      ensures |sent| == old(|sent|) + 1 && sent[..old(|sent|)] == old(sent)
      ensures IsCreateSq(sent[old(|sent|)], qs, i, bus(old(issued)))
    {
      var b := AllocCoherent();
      sqBuf[i] := b;
      CreateSqWords(qs, i, bus(b));
      Execute(CreateSqCmd(qs, i, bus(b)));
    }

    /** `admin_delete_io_queue_pair`: the submission queue goes first, then the completion
        queue, then the two buffers, and last the mark. */
    method DeleteIoQueuePair(i: nat)
      requires Valid() && i < supported
      modifies this`dev, this`sent, this`frees, mark
      ensures Valid() && Value() == Delete(old(Value()), i)
      ensures mark[..] == old(mark[..])[i := false]
      ensures !old(mark[i]) ==> sent == old(sent) && frees == old(frees)
      ensures old(mark[i]) ==>
                && |sent| == old(|sent|) + 2 && sent[..old(|sent|)] == old(sent)
                && IsDeleteSq(sent[old(|sent|)], i) && IsDeleteCq(sent[old(|sent|) + 1], i)
                && frees == old(frees) + [cqBuf[i]] + [sqBuf[i]]
    {
      if !mark[i] {
        return;
      }
      DeleteWords(i);
      Execute(DeleteSqCmd(i));
      Execute(DeleteCqCmd(i));
      FreeCoherent(cqBuf[i]);
      FreeCoherent(sqBuf[i]);
      mark[i] := false;
    }

    /** The loop of `admin_clean` over the pairs. */
    method DeleteAll()
      requires Valid()
      modifies this`dev, this`sent, this`frees, mark
      ensures Valid() && Value() == DeleteFrom(old(Value()), 0)
      ensures old(AtRest(Value())) ==>
                && (forall i | 0 <= i < supported :: !mark[i]) && dev == IoDevice(map[], map[], 0)
                && multiset(frees) == multiset(Counting.Below(issued))
    {
      if AtRest(Value()) {
        TeardownConserves(Value());
      }
      ghost var was := Value();
      var i := 0;
      while i < supported
        invariant 0 <= i <= supported && Valid()
        invariant DeleteFrom(Value(), i) == DeleteFrom(was, 0)
      {
        DeleteIoQueuePair(i);
        i := i + 1;
      }
    }
  }
}

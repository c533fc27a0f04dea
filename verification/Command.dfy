/** One admin command from the enqueue to the two cleanups, on the driver's memory and
    with a device that takes its own time: the shape of `admin_dev_self_test`. */
module Command {
  import opened Slots
  import opened Words
  import opened AdminQueue
  import opened Protocol
  import opened Callers
  import opened Transactions

  /** The device's side of the queues: its registers, and its access to the rings. */
  class Controller {
    var sqHead: nat
    var cqTail: nat
    var tag: bool

    function Registers(): Device
      reads this
    {
      Device(sqHead, cqTail, tag)
    }

    constructor ()
      ensures Registers() == Device(0, 0, true)
    {
      sqHead, cqTail, tag := 0, 0, true;
    }

    method FetchNext(aqp: AdminQueuePair) returns (cmd: Cmd)
      requires aqp.Valid() && sqHead < aqp.sq.qs
      modifies this`sqHead
      ensures cmd == aqp.sq.addr[old(sqHead)]
      ensures Registers() == old(Registers()).(sqHead := NextSlot(old(sqHead), aqp.sq.qs))
    {
      cmd := aqp.sq.addr[sqHead];
      sqHead := NextSlot(sqHead, aqp.sq.qs);
    }

    method PostReply(aqp: AdminQueuePair, r: Reply)
      requires aqp.Valid() && cqTail < aqp.cq.qs && ValidReply(r)
      modifies this`cqTail, this`tag, aqp.cq.addr
      ensures aqp.Valid()
      ensures var q := old(aqp.Value());
              aqp.Value() == q.(cq := q.cq.(slots := q.cq.slots[old(cqTail) := MakeCpl(r, old(tag))]))
      ensures var tail' := NextSlot(old(cqTail), aqp.cq.qs);
              Registers() == old(Registers()).(cqTail := tail', tag := if tail' == 0 then !old(tag) else old(tag))
    {
      aqp.cq.addr[cqTail] := MakeCpl(r, tag);
      assert aqp.cq.addr[..] == old(aqp.cq.addr[..])[old(cqTail) := MakeCpl(r, old(tag))];
      cqTail := NextSlot(cqTail, aqp.cq.qs);
      if cqTail == 0 {
        tag := !tag;
      }
    }
  }

  /** Memory and registers are those of system t. */
  ghost predicate Mirrors(aqp: AdminQueuePair, dev: Controller, t: System)
    reads aqp, aqp.sq, aqp.cq, aqp.sq.mark, aqp.sq.addr, aqp.cq.mark, aqp.cq.addr, aqp.cid, dev
  {
    aqp.Valid() && aqp.Value() == t.w.q && dev.Registers() == t.w.dev
  }

  /** Driver and device as they are after initialisation, for the capabilities the
      device reports. */
  method Boot(cap: u32) returns (aqp: AdminQueuePair, dev: Controller, ghost s: System)
    ensures fresh(aqp) && fresh(dev) && Mirrors(aqp, dev, s)
    ensures s == Start(QueueSize(cap)) && Quiescent(s)
  {
    aqp := new AdminQueuePair(cap);
    dev := new Controller();
    ghost var qs := QueueSize(cap);
    s := Start(qs);
    StartQuiescent(qs);
  }

  /** Id 0 leaves a command as it is. */
  lemma StampedZero(cmd: Cmd)
    requires cmd[0] < 0x1_0000
    ensures Stamp(cmd, 0) == cmd
  {
    Stamped(cmd, 0);
    assert Stamp(cmd, 0) == [Stamp(cmd, 0)[0]] + Stamp(cmd, 0)[1..];
  }

  /** The device's answer, word by word: its own data and status, and the id. */
  lemma AnswerWords(s: System, r: Request)
    requires ValidQueues(s.w.q) && ValidRequest(r)
    ensures var cpl := Answer(s, r);
            && cpl[0] == r.dw0 && cpl[1] == r.dw1 && cpl[2] == r.dw2
            && cpl[3] % 0x1_0000 == 0 && cpl[3] / 0x2_0000 == r.status
  {
    StampedZero(r.cmd);
  }

  /** What has gone over the rings when a command is done: the command as the caller gave
      it, read so by the device, and the device's answer. */
  lemma SettledMeans(s: System, s': System, r: Request)
    requires Quiescent(s) && ValidRequest(r) && Settled(s, s', r)
    ensures s'.w.cmds == s.w.cmds + [r.cmd]
    ensures |s'.w.fetched| == |s'.w.cmds| && s'.w.fetched == s'.w.cmds
  {
    StampedZero(r.cmd);
  }

  method Begin(aqp: AdminQueuePair, dev: Controller, cmd: array<u32>, r: Request, ghost s: System)
    returns (ret: nat, cid: nat, ghost t: System)
    requires Quiescent(s) && s.w.q.sq.qs >= 2 && Mirrors(aqp, dev, s) && ValidRequest(r) && cmd.Length == 16 && cmd[..] == r.cmd
    modifies aqp.sq`tail, aqp.sq`db, aqp.sq.addr, aqp.cid, cmd
    ensures Mirrors(aqp, dev, t) && Amid(s, t, r, false, false)
    ensures ret == Slot(|s.w.cmds|, aqp.sq.qs) && cid == CidOf(Stamp(r.cmd, 0)) && cmd[..] == Stamp(r.cmd, 0)
  {
    EnqueueAccepted(s, r);
    var ret1 := aqp.EnqueueCommand(cmd);
    t := SubmitCall(s, r.cmd);
    ret := ret1;
    assert cmd[..] == Stamp(r.cmd, 0);
    cid := Shr(cmd[0], 16);
  }

  method DeviceFetches(aqp: AdminQueuePair, dev: Controller, r: Request, ghost s: System, ghost t: System)
    returns (ghost t': System)
    requires Quiescent(s) && ValidRequest(r) && Amid(s, t, r, false, false) && Mirrors(aqp, dev, t)
    modifies dev`sqHead
    ensures Mirrors(aqp, dev, t') && Amid(s, t', r, true, false)
  {
    FetchReady(s, t, r);
    var cmd := dev.FetchNext(aqp);
    t' := t.(w := DoFetch(t.w));
  }

  method DevicePosts(aqp: AdminQueuePair, dev: Controller, r: Request, ghost s: System, ghost t: System)
    returns (ghost t': System)
    requires Quiescent(s) && ValidRequest(r) && Amid(s, t, r, true, false) && Mirrors(aqp, dev, t)
    modifies dev`cqTail, dev`tag, aqp.cq.addr
    ensures Mirrors(aqp, dev, t') && Amid(s, t', r, true, true)
  {
    PostReady(s, t, r);
    dev.PostReply(aqp, Reply(r.dw0, r.dw1, r.dw2, CidOf(Stamp(r.cmd, 0)), r.status));
    t' := DevPostCall(t, PostOf(r, |s.w.cmds|));
  }

  /** The memory after the two cleanups is that of a settled system. */
  lemma FinishSteps(s: System, t: System, r: Request) returns (s': System)
    requires Quiescent(s) && ValidRequest(r) && Amid(s, t, r, true, true)
    ensures var l := Slot(|s.w.cmds|, s.w.q.sq.qs);
            && Poll(t.w.q, CidOf(Stamp(r.cmd, 0))) == l && t.w.q.cq.slots[l] == Answer(s, r)
            && s'.w.q == CleanCq(CleanSq(t.w.q, l), l) && s'.w.dev == t.w.dev
    ensures Settled(s, s', r)
  {
    var k := |s.w.cmds|;
    PollReady(s, t, r);
    CleanSqReady(s, t, r);
    var t2 := FreeSlotCall(PollCall(t, k), k);
    CleanCqReady(s, t2, r);
    s' := FreeCplCall(t2, k);
  }

  method Finish(aqp: AdminQueuePair, dev: Controller, ret1: nat, ret2: nat, r: Request, ghost s: System, ghost t: System)
    returns (cpl: Cpl, ghost s': System)
    requires Quiescent(s) && ValidRequest(r) && Amid(s, t, r, true, true) && Mirrors(aqp, dev, t)
    requires ret1 == Slot(|s.w.cmds|, aqp.sq.qs) && ret2 == Poll(t.w.q, CidOf(Stamp(r.cmd, 0)))
    modifies aqp.sq`head, aqp.sq`phase, aqp.sq.mark, aqp.cid, aqp.cq`head, aqp.cq`phase, aqp.cq`db, aqp.cq.mark
    ensures Mirrors(aqp, dev, s') && Settled(s, s', r) && cpl == Answer(s, r)
  {
    s' := FinishSteps(s, t, r);
    cpl := aqp.cq.addr[ret2];
    assert cpl == t.w.q.cq.slots[ret2];
    aqp.SqMarkCleanup(ret1);
    aqp.CqMarkCleanup(ret2);
  }

  /** How far the device is at a given turn of the poll loop, and what a poll then finds:
      nothing, until the device has posted. */
  ghost predicate AtTurn(r: Request, fetchAt: nat, postAt: nat, turn: nat, s: System, t: System)
    requires ValidQueues(s.w.q) && ValidRequest(r)
  {
    && Amid(s, t, r, turn > fetchAt, turn > postAt)
    && (Poll(t.w.q, CidOf(Stamp(r.cmd, 0))) == -1 <==> turn <= postAt)
  }

  lemma TurnPolls(s: System, t: System, r: Request, fetched: bool, posted: bool)
    requires Quiescent(s) && ValidRequest(r) && Amid(s, t, r, fetched, posted) && (posted ==> fetched)
    ensures Poll(t.w.q, CidOf(Stamp(r.cmd, 0))) == -1 <==> !posted
  {
    if posted {
      PollReady(s, t, r);
    } else {
      NothingYet(s, t, r, fetched);
    }
  }

  method DeviceTurn(aqp: AdminQueuePair, dev: Controller, r: Request, fetchAt: nat, postAt: nat, turn: nat,
                    ghost s: System, ghost t: System)
    returns (ghost t': System)
    requires Quiescent(s) && ValidRequest(r) && fetchAt < postAt && turn <= postAt
    requires Mirrors(aqp, dev, t) && AtTurn(r, fetchAt, postAt, turn, s, t)
    modifies dev, aqp.cq.addr
    ensures Mirrors(aqp, dev, t') && AtTurn(r, fetchAt, postAt, turn + 1, s, t')
  {
    if turn == fetchAt {
      t' := DeviceFetches(aqp, dev, r, s, t);
    } else if turn == postAt {
      t' := DevicePosts(aqp, dev, r, s, t);
    } else {
      t' := t;
    }
    TurnPolls(s, t', r, turn + 1 > fetchAt, turn + 1 > postAt);
  }

  /** The poll, and the memory left as it is. */
  method PollOnly(aqp: AdminQueuePair, dev: Controller, cid: nat, ghost t: System) returns (ret: int)
    requires Mirrors(aqp, dev, t)
    ensures Mirrors(aqp, dev, t) && ret == Poll(t.w.q, cid)
  {
    ret := aqp.CqPoll(cid);
  }

  /** One turn of the poll loop: the device does what it does, then the driver polls. */
  method TurnAndPoll(aqp: AdminQueuePair, dev: Controller, r: Request, cid: nat,
                     fetchAt: nat, postAt: nat, turn: nat, ghost s: System, ghost t: System)
    returns (ret: int, ghost t': System)
    requires Quiescent(s) && ValidRequest(r) && fetchAt < postAt && turn <= postAt && cid == CidOf(Stamp(r.cmd, 0))
    requires Mirrors(aqp, dev, t) && AtTurn(r, fetchAt, postAt, turn, s, t)
    modifies dev, aqp.cq.addr
    ensures Mirrors(aqp, dev, t') && AtTurn(r, fetchAt, postAt, turn + 1, s, t')
    ensures ret == Poll(t'.w.q, cid)
  {
    t' := DeviceTurn(aqp, dev, r, fetchAt, postAt, turn, s, t);
    ret := PollOnly(aqp, dev, cid, t');
  }

  /** The poll loop. The device fetches in turn `fetchAt` and answers in turn `postAt`;
      until then the loop turns. */
  method AwaitCompletion(aqp: AdminQueuePair, dev: Controller, r: Request, cid: nat,
                         fetchAt: nat, postAt: nat, ghost s: System, ghost t0: System)
    returns (ret: int, ghost t: System)
    requires Quiescent(s) && ValidRequest(r) && fetchAt < postAt && cid == CidOf(Stamp(r.cmd, 0))
    requires Mirrors(aqp, dev, t0) && AtTurn(r, fetchAt, postAt, 0, s, t0)
    modifies dev, aqp.cq.addr
    ensures Mirrors(aqp, dev, t) && Amid(s, t, r, true, true)
    ensures ret == Poll(t.w.q, cid) != -1
  {
    ret, t := TurnAndPoll(aqp, dev, r, cid, fetchAt, postAt, 0, s, t0);
    var turn := 1;
    while ret == -1
      invariant turn <= postAt + 1 && Mirrors(aqp, dev, t) && AtTurn(r, fetchAt, postAt, turn, s, t)
      invariant ret == Poll(t.w.q, cid)
      decreases postAt + 1 - turn
    {
      ret, t := TurnAndPoll(aqp, dev, r, cid, fetchAt, postAt, turn, s, t);
      turn := turn + 1;
    }
  }

  /** From the poll loop to the cleanups. */
  method Serve(aqp: AdminQueuePair, dev: Controller, r: Request, ret1: nat, cid: nat,
               fetchAt: nat, postAt: nat, ghost s: System, ghost t0: System)
    returns (cpl: Cpl, ghost s': System)
    requires Quiescent(s) && ValidRequest(r) && fetchAt < postAt
    requires Mirrors(aqp, dev, t0) && AtTurn(r, fetchAt, postAt, 0, s, t0)
    requires ret1 == Slot(|s.w.cmds|, aqp.sq.qs) && cid == CidOf(Stamp(r.cmd, 0))
    modifies aqp.sq`head, aqp.sq`phase, aqp.sq.mark, aqp.cid
    modifies aqp.cq`head, aqp.cq`phase, aqp.cq`db, aqp.cq.mark, aqp.cq.addr, dev
    ensures Mirrors(aqp, dev, s') && Settled(s, s', r) && cpl == Answer(s, r)
  {
    var ret2;
    ghost var t;
    ret2, t := AwaitCompletion(aqp, dev, r, cid, fetchAt, postAt, s, t0);
    PollReady(s, t, r);
    cpl, s' := Finish(aqp, dev, ret1, ret2, r, s, t);
  }

  method Perform(aqp: AdminQueuePair, dev: Controller, cmd: array<u32>, r: Request,
                 fetchAt: nat, postAt: nat, ghost s: System)
    returns (cpl: Cpl, ghost s': System)
    requires Quiescent(s) && s.w.q.sq.qs >= 2 && Mirrors(aqp, dev, s) && ValidRequest(r)
    requires cmd.Length == 16 && cmd[..] == r.cmd && fetchAt < postAt
    modifies aqp.sq, aqp.sq.addr, aqp.sq.mark, aqp.cq, aqp.cq.addr, aqp.cq.mark, aqp.cid, cmd, dev
    ensures Mirrors(aqp, dev, s') && Settled(s, s', r) && cpl == Answer(s, r)
  {
    var ret1, cid;
    ghost var t;
    ret1, cid, t := Begin(aqp, dev, cmd, r, s);
    TurnPolls(s, t, r, false, false);
    cpl, s' := Serve(aqp, dev, r, ret1, cid, fetchAt, postAt, s, t);
  }

  /** The whole of one command: it is accepted at once, the device reads it as the caller
      built it, and once the device posts, the poll loop ends with the completion of this
      very command, the device's data and status in it; after the cleanups all is at rest
      again, one command further on. */
  method Execute(aqp: AdminQueuePair, dev: Controller, cmd: array<u32>, r: Request,
                 fetchAt: nat, postAt: nat, ghost s: System)
    returns (cpl: Cpl, ghost s': System)
    requires Quiescent(s) && s.w.q.sq.qs >= 2 && Mirrors(aqp, dev, s) && ValidRequest(r)
    requires cmd.Length == 16 && cmd[..] == r.cmd && fetchAt < postAt
    modifies aqp.sq, aqp.sq.addr, aqp.sq.mark, aqp.cq, aqp.cq.addr, aqp.cq.mark, aqp.cid, cmd, dev
    ensures Mirrors(aqp, dev, s') && Settled(s, s', r) && cpl == Answer(s, r)
    ensures s'.w.cmds == s.w.cmds + [r.cmd] && s'.w.fetched == s'.w.cmds
    ensures cpl[0] == r.dw0 && cpl[1] == r.dw1 && cpl[2] == r.dw2
    ensures cpl[3] % 0x1_0000 == 0 && cpl[3] / 0x2_0000 == r.status
  {
    cpl, s' := Perform(aqp, dev, cmd, r, fetchAt, postAt, s);
    SettledMeans(s, s', r);
    AnswerWords(s, r);
  }
}

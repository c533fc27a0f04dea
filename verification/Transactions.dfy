/** One command at a time: what the driver does with the admin queue in
    `admin_dev_self_test`, `admin_set_num_queues` and the queue-pair functions. Nothing
    is assumed here of the ring size but that it is at least two; a ring of one slot
    takes no command at all (`Protocol.RefusedIffFull`). */
module Transactions {
  import opened Slots
  import opened Rings
  import opened Words
  import opened AdminQueue
  import opened Protocol
  import opened Callers
  import opened Runs

  /** Every command submitted has been fetched, answered and cleaned, on both rings. */
  ghost predicate Quiescent(s: System) {
    CallersInv(s) && s.w.h == |s.w.cmds| == |s.w.fetched| == |s.w.cpls| == s.w.c
  }

  lemma StartQuiescent(qs: nat)
    requires 1 <= qs <= 4096
    ensures Quiescent(Start(qs))
  {
    StartInv(qs);
  }

  /** In the driver's own fields: head and tail agree, and nothing is marked or taken. */
  lemma QuiescentMeans(s: System)
    requires Quiescent(s)
    ensures s.w.q.sq.head == s.w.q.sq.tail == s.w.q.sq.db && s.w.q.cq.head == s.w.q.cq.db
    ensures forall l | 0 <= l < s.w.q.sq.qs :: !s.w.q.sq.mark[l] && !s.w.q.cq.mark[l]
    ensures forall cid | 0 <= cid < MAX_CMD :: !s.w.q.cids[cid]
  {
    NoMarks(s.w.q.sq, s.w.h, s.w.sm);
    NoMarks(s.w.q.cq, s.w.c, s.w.cm);
  }

  lemma NoMarks<E>(r: Ring<E>, h: nat, m: set<nat>)
    requires Refines(r, h, m) && forall k | k in m :: k < h
    ensures m == {}
    ensures forall l | 0 <= l < r.qs :: !r.mark[l]
  {
    assert forall k | k in m :: false;
    forall l | 0 <= l < r.qs ensures !r.mark[l] {
      var k := IndexIn(h, l, r.qs);
      assert r.mark[Slot(k, r.qs)] <==> k in m;
    }
  }

  /** A command, and what the device will answer to it. */
  datatype Request = Request(cmd: Cmd, dw0: u32, dw1: u32, dw2: u32, status: nat)

  predicate ValidRequest(r: Request) {
    r.cmd[0] < 0x1_0000 && r.status < 0x8000
  }

  function PostOf(r: Request, k: nat): Call {
    DevPost(k, r.dw0, r.dw1, r.dw2, r.status)
  }

  /** What driver and device do for one command, the k-th. */
  function TransactionCalls(r: Request, k: nat): seq<Call> {
    [CallEnqueue(r.cmd), DevFetch, PostOf(r, k), CallPoll(k), CallCleanSq(k), CallCleanCq(k)]
  }

  /** The completion of the next command of a quiescent system. */
  ghost function Answer(s: System, r: Request): Cpl
    requires ValidQueues(s.w.q) && ValidRequest(r)
  {
    MakeCpl(Reply(r.dw0, r.dw1, r.dw2, CidOf(Stamp(r.cmd, 0)), r.status), Lap(|s.w.cpls|, s.w.q.cq.qs))
  }

  // ---------- the stages of a transaction ----------

  /** The command is enqueued, with the only id taken; the device may have fetched it,
      and may have answered it; its caller is polling. */
  ghost predicate Amid(s: System, t: System, r: Request, fetched: bool, posted: bool)
    requires ValidQueues(s.w.q) && ValidRequest(r)
  {
    && CallersInv(t) && t.w.q.sq.qs == s.w.q.sq.qs
    && t.w.cmds == s.w.cmds + [Stamp(r.cmd, 0)]
    && t.stage == s.stage + [Waiting]
    && t.w.fetched == (if fetched then t.w.cmds else s.w.fetched)
    && t.answers == (if posted then s.answers + [|s.w.cmds|] else s.answers)
    && t.w.cpls == (if posted then s.w.cpls + [Answer(s, r)] else s.w.cpls)
    && t.w.h == s.w.h && t.w.c == s.w.c
  }

  lemma EnqueueAccepted(s: System, r: Request)
    requires Quiescent(s) && ValidRequest(r) && s.w.q.sq.qs >= 2
    ensures Open(s, CallEnqueue(r.cmd)) && FirstFree(s.w.q.cids, 0) == 0
    ensures Enqueue(s.w.q, r.cmd).ret == Slot(|s.w.cmds|, s.w.q.sq.qs)
    ensures Amid(s, SubmitCall(s, r.cmd), r, false, false)
  {
    QuiescentMeans(s);
    FullTestExactAtIff(s.w.q.sq.head, s.w.q.sq.tail, s.w.q.sq.qs);
    RefusedIffFull(s.w, r.cmd);
    SubmitKeeps(s, r.cmd);
  }

  /** Until the device posts, the poll finds nothing. */
  lemma NothingYet(s: System, t: System, r: Request, fetched: bool)
    requires Quiescent(s) && ValidRequest(r) && Amid(s, t, r, fetched, false)
    ensures Poll(t.w.q, CidOf(t.w.cmds[|s.w.cmds|])) == -1
  {
    PollComplete(t, |s.w.cmds|);
  }

  lemma FetchReady(s: System, t: System, r: Request)
    requires Quiescent(s) && ValidRequest(r) && Amid(s, t, r, false, false)
    ensures Open(t, DevFetch) && Amid(s, t.(w := DoFetch(t.w)), r, true, false)
  {
    SlotOffset(|s.w.cmds|, 1, s.w.q.sq.qs);
    FetchesOwn(t);
    FetchKeeps(t);
  }

  lemma PostReady(s: System, t: System, r: Request)
    requires Quiescent(s) && ValidRequest(r) && Amid(s, t, r, true, false)
    ensures Open(t, PostOf(r, |s.w.cmds|)) && Amid(s, DevPostCall(t, PostOf(r, |s.w.cmds|)), r, true, true)
  {
    RoomToPost(t.w.q.cq, t.w.cpls, t.w.c, t.w.cm);
    PostKeeps(t, PostOf(r, |s.w.cmds|));
  }

  /** Once the device has posted, the poll returns the completion of this very command. */
  lemma PollReady(s: System, t: System, r: Request)
    requires Quiescent(s) && ValidRequest(r) && Amid(s, t, r, true, true)
    ensures var k := |s.w.cmds|;
            var ret := Poll(t.w.q, CidOf(t.w.cmds[k]));
            && ret == Slot(k, s.w.q.cq.qs) && t.w.q.cq.slots[ret] == Answer(s, r)
            && PollCall(t, k) == t.(stage := s.stage + [Claimed(ret, k)])
            && CallersInv(PollCall(t, k))
  {
    var k := |s.w.cmds|;
    PollComplete(t, k);
    PollFindsOwn(t, k);
    PollKeeps(t, k);
    assert t.answers[k] == k;
  }

  lemma SweepOne(h: nat)
    ensures SweepIndices(h, {h}) == Pending(h + 1, {})
  {
    assert {h} - {h} == {};
  }

  lemma SweepOnly<E>(r: Ring<E>, h: nat, m: set<nat>)
    requires Refines(r, h, m) && h !in m && forall k | k in m :: k < h + 1
    ensures SweepIndices(h, m + {h}) == Pending(h + 1, {})
  {
    NoMarks(r, h, m);
    assert m + {h} == {h};
    SweepOne(h);
  }

  /** The submission slot is clean, the completion slot not yet. */
  ghost predicate HalfClean(s: System, t: System, r: Request)
    requires ValidQueues(s.w.q) && ValidRequest(r)
  {
    && CallersInv(t) && t.w.q.sq.qs == s.w.q.sq.qs
    && t.w.cmds == s.w.cmds + [Stamp(r.cmd, 0)] && t.w.fetched == t.w.cmds
    && t.w.cpls == s.w.cpls + [Answer(s, r)] && t.answers == s.answers + [|s.w.cmds|]
    && t.stage == s.stage + [Freed(Slot(|s.w.cmds|, s.w.q.cq.qs), |s.w.cmds|)]
    && t.w.h == s.w.h + 1 && t.w.c == s.w.c
  }

  /** At rest again, one command further on. */
  ghost predicate Settled(s: System, s': System, r: Request)
    requires ValidQueues(s.w.q) && ValidRequest(r)
  {
    && Quiescent(s') && s'.w.q.sq.qs == s.w.q.sq.qs
    && s'.w.cmds == s.w.cmds + [Stamp(r.cmd, 0)]
    && s'.w.cpls == s.w.cpls + [Answer(s, r)]
    && s'.answers == s.answers + [|s.w.cmds|]
  }

  lemma CleanOnlySlot(t: System, k: nat, before: seq<Stage>, loc: nat)
    requires CallersInv(t) && t.w.h == k && |t.w.cmds| == k + 1
    requires |before| == k && t.stage == before + [Claimed(loc, k)]
    ensures Open(t, CallCleanSq(k))
    ensures FreeSlotCall(t, k).w.h == k + 1 && FreeSlotCall(t, k).stage == before + [Freed(loc, k)]
  {
    SweepOnly(t.w.q.sq, t.w.h, t.w.sm);
  }

  lemma CleanSqReady(s: System, t: System, r: Request)
    requires Quiescent(s) && ValidRequest(r) && Amid(s, t, r, true, true)
    ensures var k := |s.w.cmds|;
            && Open(t, CallPoll(k)) && Open(PollCall(t, k), CallCleanSq(k))
            && HalfClean(s, FreeSlotCall(PollCall(t, k), k), r)
  {
    var k := |s.w.cmds|;
    PollReady(s, t, r);
    CleanOnlySlot(PollCall(t, k), k, s.stage, Slot(k, s.w.q.cq.qs));
    FreeSlotKeeps(PollCall(t, k), k);
  }

  lemma CleanOnlyCpl(t: System, k: nat)
    requires CallersInv(t) && t.w.c == k && |t.w.cpls| == k + 1 && k < |t.stage| && t.stage[k].Freed? && t.stage[k].j == k
    ensures FreeCplCall(t, k).w.c == k + 1
  {
    SweepOnly(t.w.q.cq, t.w.c, t.w.cm);
  }

  lemma CleanCqReady(s: System, t: System, r: Request)
    requires Quiescent(s) && ValidRequest(r) && HalfClean(s, t, r)
    ensures var k := |s.w.cmds|;
            Open(t, CallCleanCq(k)) && Settled(s, FreeCplCall(t, k), r)
  {
    var k := |s.w.cmds|;
    FreeCplKeeps(t, k);
    CleanOnlyCpl(t, k);
  }

  // ---------- whole transactions ----------

  lemma OneCall(s: System, st: Call)
    requires Open(s, st)
    ensures RunCalls(s, [st], NextCall(s, st))
  {
    LeadsOne(TryCall, s, st);
  }

  lemma EnqueueStage(s: System, r: Request) returns (t: System)
    requires Quiescent(s) && ValidRequest(r) && s.w.q.sq.qs >= 2
    ensures RunCalls(s, [CallEnqueue(r.cmd)], t) && Amid(s, t, r, false, false)
  {
    EnqueueAccepted(s, r);
    OneCall(s, CallEnqueue(r.cmd));
    t := SubmitCall(s, r.cmd);
  }

  lemma FetchStage(s: System, t: System, r: Request) returns (t': System)
    requires Quiescent(s) && ValidRequest(r) && Amid(s, t, r, false, false)
    ensures RunCalls(t, [DevFetch], t') && Amid(s, t', r, true, false)
  {
    FetchReady(s, t, r);
    OneCall(t, DevFetch);
    t' := t.(w := DoFetch(t.w));
  }

  lemma PostStage(s: System, t: System, r: Request) returns (t': System)
    requires Quiescent(s) && ValidRequest(r) && Amid(s, t, r, true, false)
    ensures RunCalls(t, [PostOf(r, |s.w.cmds|)], t') && Amid(s, t', r, true, true)
  {
    PostReady(s, t, r);
    OneCall(t, PostOf(r, |s.w.cmds|));
    t' := DevPostCall(t, PostOf(r, |s.w.cmds|));
  }

  lemma PollStage(s: System, t: System, r: Request) returns (t1: System, t2: System)
    requires Quiescent(s) && ValidRequest(r) && Amid(s, t, r, true, true)
    ensures RunCalls(t, [CallPoll(|s.w.cmds|)], t1) && RunCalls(t1, [CallCleanSq(|s.w.cmds|)], t2)
    ensures HalfClean(s, t2, r)
  {
    var k := |s.w.cmds|;
    CleanSqReady(s, t, r);
    OneCall(t, CallPoll(k));
    t1 := PollCall(t, k);
    OneCall(t1, CallCleanSq(k));
    t2 := FreeSlotCall(t1, k);
  }

  lemma CleanStage(s: System, t: System, r: Request) returns (t': System)
    requires Quiescent(s) && ValidRequest(r) && HalfClean(s, t, r)
    ensures RunCalls(t, [CallCleanCq(|s.w.cmds|)], t') && Settled(s, t', r)
  {
    CleanCqReady(s, t, r);
    OneCall(t, CallCleanCq(|s.w.cmds|));
    t' := FreeCplCall(t, |s.w.cmds|);
  }

  lemma Chain3(s0: System, a: Call, s1: System, b: Call, s2: System, c: Call, s3: System)
    requires RunCalls(s0, [a], s1) && RunCalls(s1, [b], s2) && RunCalls(s2, [c], s3)
    ensures RunCalls(s0, [a, b, c], s3)
  {
    LeadsConcat(TryCall, s1, [b], s2, [c], s3);
    LeadsConcat(TryCall, s0, [a], s1, [b] + [c], s3);
    assert [a] + ([b] + [c]) == [a, b, c];
  }

  /** From any quiescent state, for any command, whatever the ring size: the command is
      accepted at once, every step is open in turn, the poll returns the completion the
      device posted for it, and afterwards the system is quiescent again with each of the
      four counters one larger. */
  lemma Transaction(s: System, r: Request) returns (s': System)
    requires Quiescent(s) && ValidRequest(r) && s.w.q.sq.qs >= 2
    ensures RunCalls(s, TransactionCalls(r, |s.w.cmds|), s') && Settled(s, s', r)
  {
    var k := |s.w.cmds|;
    var t1 := EnqueueStage(s, r);
    var t2 := FetchStage(s, t1, r);
    var t3 := PostStage(s, t2, r);
    var t4, t5 := PollStage(s, t3, r);
    s' := CleanStage(s, t5, r);
    Chain3(s, CallEnqueue(r.cmd), t1, DevFetch, t2, PostOf(r, k), t3);
    Chain3(t3, CallPoll(k), t4, CallCleanSq(k), t5, CallCleanCq(k), s');
    TransactionHalves(r, k);
    LeadsConcat(TryCall, s, TransactionCalls(r, k)[..3], t3, TransactionCalls(r, k)[3..], s');
  }

  lemma TransactionHalves(r: Request, k: nat)
    ensures var calls := TransactionCalls(r, k);
            && calls[..3] == [CallEnqueue(r.cmd), DevFetch, PostOf(r, k)]
            && calls[3..] == [CallPoll(k), CallCleanSq(k), CallCleanCq(k)]
            && calls[..3] + calls[3..] == calls
  {
  }

  function AllCalls(rs: seq<Request>, k: nat): seq<Call> {
    if rs == [] then [] else TransactionCalls(rs[0], k) + AllCalls(rs[1..], k + 1)
  }

  /** The i-th command after s is the one asked for, and has been answered, with its own
      data and status. */
  ghost predicate Answered(s: System, s': System, rs: seq<Request>, i: nat)
    requires i < |rs|
  {
    var k := |s.w.cmds| + i;
    && k < |s'.answers| && k < |s'.w.cpls| && k < |s'.w.cmds|
    && s'.w.cmds[k] == Stamp(rs[i].cmd, 0)
    && s'.answers[k] == k
    && s'.w.cpls[k][..3] == [rs[i].dw0, rs[i].dw1, rs[i].dw2]
    && StatusField(s'.w.cpls[k][3]) == rs[i].status
  }

  /** The commands rs have been answered, in order, since s. */
  ghost predicate AllAnswered(s: System, s': System, rs: seq<Request>) {
    && |s'.w.cmds| == |s.w.cmds| + |rs|
    && s.w.cmds <= s'.w.cmds && s.w.cpls <= s'.w.cpls && s.answers <= s'.answers
    && forall i | 0 <= i < |rs| :: Answered(s, s', rs, i)
  }

  lemma FirstAnswered(s: System, s1: System, rs: seq<Request>)
    requires Quiescent(s) && rs != [] && ValidRequest(rs[0]) && Settled(s, s1, rs[0])
    ensures AllAnswered(s, s1, [rs[0]])
  {
    var k := |s.w.cmds|;
    Dw3RoundTrip(CidOf(Stamp(rs[0].cmd, 0)), Lap(k, s.w.q.cq.qs), rs[0].status);
    assert s1.answers[k] == k && s1.w.cpls[k] == Answer(s, rs[0]);
    assert Answered(s, s1, [rs[0]], 0);
  }

  lemma AllAnsweredCons(s: System, s1: System, s': System, rs: seq<Request>)
    requires rs != [] && AllAnswered(s, s1, [rs[0]]) && AllAnswered(s1, s', rs[1..])
    ensures AllAnswered(s, s', rs)
  {
    assert Answered(s, s1, [rs[0]], 0);
    forall i | 0 <= i < |rs| ensures Answered(s, s', rs, i) {
      if i == 0 {
        var k := |s.w.cmds|;
        assert s'.answers[k] == s1.answers[k] && s'.w.cpls[k] == s1.w.cpls[k] && s'.w.cmds[k] == s1.w.cmds[k];
      } else {
        assert Answered(s1, s', rs[1..], i - 1);
      }
    }
  }

  /** Any number of admin commands one after the other, on a ring of any size: the i-th
      is answered by the i-th completion, and the system comes to rest. */
  lemma {:induction false} Transactions(s: System, rs: seq<Request>) returns (s': System)
    requires Quiescent(s) && s.w.q.sq.qs >= 2 && forall r | r in rs :: ValidRequest(r)
    ensures RunCalls(s, AllCalls(rs, |s.w.cmds|), s') && Quiescent(s') && AllAnswered(s, s', rs)
    ensures s'.w.q.sq.qs == s.w.q.sq.qs
    decreases |rs|
  {
    if rs == [] {
      s' := s;
    } else {
      var s1 := Transaction(s, rs[0]);
      FirstAnswered(s, s1, rs);
      s' := Transactions(s1, rs[1..]);
      AllAnsweredCons(s, s1, s', rs);
      LeadsConcat(TryCall, s, TransactionCalls(rs[0], |s.w.cmds|), s1, AllCalls(rs[1..], |s1.w.cmds|), s');
    }
  }
}

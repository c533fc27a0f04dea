/** What goes wrong when a command id is taken while an unretired completion still
    carries it. `admin_sq_mark_cleanup` gives the id back before
    `admin_cq_mark_cleanup` has retired the completion, and the poll looks at neither the
    mark bytes nor the submission a completion answers. Over runs the condition is exact:
    everyone is rightly served throughout if and only if no id is taken that way
    (`ServedIffClear`). */
module StaleIds {
  import opened Rings
  import opened Slots
  import Words
  import opened AdminQueue
  import opened Protocol
  import Runs
  import opened Callers
  import opened Transactions

  /** Right after a command is enqueued nothing has been posted for it, so its first poll
      should find nothing. It does exactly when no posted completion between the head and
      the end of the ring carries the id it was given. */
  lemma FirstPollRightIff(w: World, cmd: Cmd)
    requires Inv(w) && Enabled(w, Submit(cmd)) && Enqueue(w.q, cmd).ret != -1
    requires FullTestExact(w.q.sq.head, w.q.sq.tail, w.q.sq.qs)
    ensures var w' := DoSubmit(w, cmd);
            var cid := FirstFree(w.q.cids, 0);
            && CidOf(w'.cmds[|w.cmds|]) == cid
            && (Poll(w'.q, cid) == -1 <==> forall j | w.c <= j < ScanEnd(w) :: !Carries(w.cpls, w.c, j, cid))
  {
    CidAvailable(w);
    SubmitInv(w, cmd);
    Words.StampCidReads(cmd[0], FirstFree(w.q.cids, 0));
    PollMeans(DoSubmit(w, cmd), FirstFree(w.q.cids, 0));
  }

  // ---------- every poll of every run ----------

  /** Completions beyond the stretch that a poll looks at have not been claimed: their
      callers are still waiting, and hold their ids. */
  ghost predicate PastEndWaits(s: System)
    requires ValidQueues(s.w.q)
  {
    WaitsFrom(s.stage, s.answers, ScanEnd(s.w))
  }

  ghost predicate WaitsFrom(stage: seq<Stage>, answers: seq<nat>, e: nat) {
    forall j | e <= j < |answers| :: answers[j] < |stage| && stage[answers[j]].Waiting?
  }

  /** A caller whose completion is not past the end may move on. */
  lemma OthersMove(stage: seq<Stage>, answers: seq<nat>, e: nat, k: nat, st: Stage)
    requires WaitsFrom(stage, answers, e) && k < |stage|
    requires forall j | e <= j < |answers| :: answers[j] != k
    ensures WaitsFrom(stage[k := st], answers, e)
  {
  }

  lemma ClaimedBeforeEnd(s: System, k: nat)
    requires CallersInv(s) && CanCall(s, CallPoll(k)) && Poll(s.w.q, CidOf(s.w.cmds[k])) != -1
    ensures forall j | ScanEnd(s.w) <= j < |s.answers| :: s.answers[j] != k
  {
    PollFindsOwn(s, k);
    PollSlot(s.w, CidOf(s.w.cmds[k]));
  }

  lemma PollMoves(s: System, k: nat)
    requires CallersInv(s) && CanCall(s, CallPoll(k)) && PastEndWaits(s)
    ensures PastEndWaits(PollCall(s, k))
  {
    var cid := CidOf(s.w.cmds[k]);
    var ret := Poll(s.w.q, cid);
    if ret != -1 {
      ClaimedBeforeEnd(s, k);
      OthersMove(s.stage, s.answers, ScanEnd(s.w), k, Claimed(ret, IndexOfHit(s.w, ret)));
    }
  }

  /** The end of the polled stretch stays, or moves beyond the last completion. */
  lemma ScanEndMoves(cq: Ring<Cpl>, cpls: seq<Cpl>, c: nat, cm: set<nat>, j: nat)
    requires CqInv(cq, cpls, c, cm) && c <= j < |cpls|
    ensures var p := SweepIndices(c, cm + {j});
            var e := p.head + (cq.qs - RetireAndRing(cq, Slot(j, cq.qs)).head);
            e == c + (cq.qs - cq.head) || e > |cpls|
  {
    var p := SweepIndices(c, cm + {j});
    RetireRefines(cq, c, cm, j);
    assert |cpls| !in cm + {j};
    SlotOffset(c, p.head - c, cq.qs);
  }

  lemma CleanCqMoves(s: System, k: nat)
    requires CallersInv(s) && CanCall(s, CallCleanCq(k)) && PastEndWaits(s)
    ensures PastEndWaits(FreeCplCall(s, k))
  {
    var j := s.stage[k].j;
    ScanEndMoves(s.w.q.cq, s.w.cpls, s.w.c, s.w.cm, j);
    OthersMove(s.stage, s.answers, ScanEnd(s.w), k, Done(j));
  }

  lemma AnotherWaits(stage: seq<Stage>, answers: seq<nat>, e: nat, k: nat)
    requires WaitsFrom(stage, answers, e) && k < |stage| && stage[k].Waiting?
    ensures WaitsFrom(stage, answers + [k], e)
  {
  }

  lemma PostMoves(s: System, st: Call)
    requires CallersInv(s) && st.DevPost? && CanCall(s, st) && PastEndWaits(s)
    ensures PastEndWaits(DevPostCall(s, st))
  {
    UnansweredIsLive(s, st.k);
    AnotherWaits(s.stage, s.answers, ScanEnd(s.w), st.k);
  }

  lemma PastEndKept(s: System, st: Call)
    requires CallersInv(s) && Possible(s, st) && PastEndWaits(s)
    ensures PastEndWaits(NextCall(s, st))
  {
    match st
    case CallEnqueue(_) =>
    case CallPoll(k) => PollMoves(s, k);
    case CallCleanSq(k) => OthersMove(s.stage, s.answers, ScanEnd(s.w), k, Freed(s.stage[k].loc, s.stage[k].j));
    case CallCleanCq(k) => CleanCqMoves(s, k);
    case DevFetch =>
    case DevPost(_, _, _, _, _) => PostMoves(s, st);
  }

  /** No completion past the end carries a free id. */
  lemma PastEndIsClear(s: System, j: nat)
    requires CallersInv(s) && PastEndWaits(s) && ScanEnd(s.w) <= j < |s.answers|
    ensures CplCid(s.w.cpls[j]) < MAX_CMD && s.w.q.cids[CplCid(s.w.cpls[j])]
  {
    assert Live(s.w, s.answers[j]);
  }

  /** So in a run the first poll of a new command tells exactly whether its id was clear
      of all unretired completions, those past the end included. */
  lemma FirstPollTellsClear(s: System, cmd: Cmd)
    requires CallersInv(s) && PastEndWaits(s) && CanCall(s, CallEnqueue(cmd)) && Enqueue(s.w.q, cmd).ret != -1
    requires FullTestExact(s.w.q.sq.head, s.w.q.sq.tail, s.w.q.sq.qs)
    ensures Poll(DoSubmit(s.w, cmd).q, FirstFree(s.w.q.cids, 0)) == -1 <==> ClearId(s.w)
  {
    FirstPollRightIff(s.w, cmd);
    var cid := FirstFree(s.w.q.cids, 0);
    CidAvailable(s.w);
    forall j | s.w.c <= j < |s.w.cpls| && CplCid(s.w.cpls[j]) == cid ensures j < ScanEnd(s.w) {
      if j >= ScanEnd(s.w) {
        PastEndIsClear(s, j);
      }
    }
    if !ClearId(s.w) {
      var j :| s.w.c <= j < |s.w.cpls| && CplCid(s.w.cpls[j]) == cid;
      assert Carries(s.w.cpls, s.w.c, j, cid);
    }
  }

  /** An accepted enqueue whose id is not clear leaves its caller badly served at once. */
  lemma UnclearIsServedWrong(s: System, cmd: Cmd)
    requires CallersInv(s) && PastEndWaits(s) && CanCall(s, CallEnqueue(cmd))
    requires Enqueue(s.w.q, cmd).ret != -1 && !ClearId(s.w)
    requires FullTestExact(s.w.q.sq.head, s.w.q.sq.tail, s.w.q.sq.qs)
    ensures !AllServed(SubmitCall(s, cmd))
  {
    var k := |s.w.cmds|;
    var s' := SubmitCall(s, cmd);
    FirstPollRightIff(s.w, cmd);
    FirstPollTellsClear(s, cmd);
    assert s'.stage[k].Waiting?;
    assert !Served(s', k);
  }

  /** The calls can be made in turn. */
  ghost predicate PossibleThroughout(s: System, calls: seq<Call>)
    decreases |calls|
  {
    calls != [] ==> Possible(s, calls[0]) && PossibleThroughout(NextCall(s, calls[0]), calls[1..])
  }

  /** They can, and each enqueue finds its id clear. */
  ghost predicate ClearThroughout(s: System, calls: seq<Call>)
    decreases |calls|
  {
    calls != [] ==> Open(s, calls[0]) && ClearThroughout(NextCall(s, calls[0]), calls[1..])
  }

  /** They can, and at every point each caller has its own completion, or would find that
      or nothing. */
  ghost predicate ServedThroughout(s: System, calls: seq<Call>)
    decreases |calls|
  {
    && AllServed(s)
    && (calls != [] ==> Possible(s, calls[0]) && ServedThroughout(NextCall(s, calls[0]), calls[1..]))
  }

  lemma {:induction false} ServedFromIff(s: System, calls: seq<Call>)
    requires CallersInv(s) && PastEndWaits(s) && 65536 % s.w.q.sq.qs == 0 && PossibleThroughout(s, calls)
    ensures ServedThroughout(s, calls) <==> ClearThroughout(s, calls)
    decreases |calls|
  {
    InvServes(s);
    if calls != [] {
      FullTestExactAtIff(s.w.q.sq.head, s.w.q.sq.tail, s.w.q.sq.qs);
      if ClearCall(s, calls[0]) {
        CallKeeps(s, calls[0]);
        CallSizeFixed(s, calls[0]);
        PastEndKept(s, calls[0]);
        ServedFromIff(NextCall(s, calls[0]), calls[1..]);
      } else {
        UnclearIsServedWrong(s, calls[0].cmd);
        assert !ServedThroughout(NextCall(s, calls[0]), calls[1..]);
      }
    }
  }

  /** Over every run of any number of callers, clear ids or not: all callers are rightly
      served at every point of it, if and only if each enqueue finds the id it takes clear
      of unretired completions. */
  lemma ServedIffClear(qs: nat, calls: seq<Call>)
    requires 1 <= qs <= 4096 && 65536 % qs == 0 && PossibleThroughout(Start(qs), calls)
    ensures ServedThroughout(Start(qs), calls) <==> ClearThroughout(Start(qs), calls)
  {
    StartInv(qs);
    ServedFromIff(Start(qs), calls);
  }

  /** Runs with clear ids are the runs that `Callers` is about. */
  lemma {:induction false} ClearIsRun(s: System, calls: seq<Call>)
    ensures ClearThroughout(s, calls) <==> exists s' :: RunCalls(s, calls, s')
    decreases |calls|
  {
    if calls == [] {
      assert RunCalls(s, calls, s);
    } else if Open(s, calls[0]) {
      var s1 := NextCall(s, calls[0]);
      ClearIsRun(s1, calls[1..]);
      forall s' ensures RunCalls(s, calls, s') <==> RunCalls(s1, calls[1..], s') {
      }
    } else {
      forall s' ensures !RunCalls(s, calls, s') {
      }
    }
  }

  // ---------- a run in which it goes wrong ----------

  lemma NothingLive(w: World)
    requires Inv(w) && w.h == |w.cmds|
    ensures FirstFree(w.q.cids, 0) == 0
  {
  }

  /** All of a transaction but the cleaning of the completion slot. */
  function UpToHalfClean(r: Request): seq<Call> {
    [CallEnqueue(r.cmd), DevFetch, PostOf(r, 0)] + [CallPoll(0), CallCleanSq(0)]
  }

  lemma HalfCleanRun(s: System, r: Request) returns (t: System)
    requires Quiescent(s) && s.w.q.sq.qs >= 2 && |s.w.cmds| == 0 && ValidRequest(r)
    ensures RunCalls(s, UpToHalfClean(r), t) && HalfClean(s, t, r)
  {
    var t1 := EnqueueStage(s, r);
    var t2 := FetchStage(s, t1, r);
    var t3 := PostStage(s, t2, r);
    var t4;
    t4, t := PollStage(s, t3, r);
    Chain3(s, CallEnqueue(r.cmd), t1, DevFetch, t2, PostOf(r, 0), t3);
    Chain2(t3, CallPoll(0), t4, CallCleanSq(0), t);
    Runs.LeadsConcat(TryCall, s, [CallEnqueue(r.cmd), DevFetch, PostOf(r, 0)], t3, [CallPoll(0), CallCleanSq(0)], t);
  }

  lemma Chain2(s0: System, a: Call, s1: System, b: Call, s2: System)
    requires RunCalls(s0, [a], s1) && RunCalls(s1, [b], s2)
    ensures RunCalls(s0, [a, b], s2)
  {
    Runs.LeadsConcat(TryCall, s0, [a], s1, [b], s2);
    assert [a] + [b] == [a, b];
  }

  /** A new command is accepted, and its first poll returns slot 0, where the completion
      of command 0 is, before the new command has even been fetched. */
  ghost predicate ServesStale(t: System, cmd: Cmd) {
    && ValidQueues(t.w.q) && Enqueue(t.w.q, cmd).ret != -1 && t.answers == [0]
    && var w' := DoSubmit(t.w, cmd);
    && |w'.cmds| == 2 && |w'.fetched| == 1 && |w'.cpls| == 1
    && Poll(w'.q, CidOf(w'.cmds[1])) == 0 && w'.q.cq.slots[0] == w'.cpls[0]
  }

  lemma StaleState(s: System, t: System, r: Request, cmd: Cmd)
    requires ValidRequest(r) && cmd[0] < 0x1_0000
    requires Quiescent(s) && s.w.q.sq.qs >= 2 && |s.w.cmds| == 0 && HalfClean(s, t, r)
    ensures ServesStale(t, cmd)
  {
    var w := t.w;
    NothingLive(w);
    FullTestExactAtIff(w.q.sq.head, w.q.sq.tail, w.q.sq.qs);
    RefusedIffFull(w, cmd);
    FirstPollRightIff(w, cmd);
    assert t.answers[0] == 0 && Carries(w.cpls, w.c, 0, 0) by {
      Words.StampCidReads(r.cmd[0], 0);
    }
    SubmitInv(w, cmd);
    PollMeans(DoSubmit(w, cmd), 0);
    PollSlot(DoSubmit(w, cmd), 0);
  }

  /** It does happen, on a ring of any size: one caller has cleaned its submission slot
      and not yet its completion; another enqueues, is given the same id, and is handed
      the first caller's completion. */
  lemma StaleCompletionServed(qs: nat, r: Request, cmd: Cmd) returns (t: System)
    requires 2 <= qs <= 4096 && ValidRequest(r) && cmd[0] < 0x1_0000
    ensures RunCalls(Start(qs), UpToHalfClean(r), t) && ServesStale(t, cmd)
  {
    StartQuiescent(qs);
    t := HalfCleanRun(Start(qs), r);
    StaleState(Start(qs), t, r, cmd);
  }
}

/** The callers can always get on. The poll never looks past the end of the ring, so a
    caller whose completion lies there has to wait until others have retired theirs; but
    whoever owns the oldest unretired completion can always finish. From any state that
    meets the invariant, without a new command: every answered caller can be done, and if
    the device goes on, the whole system can come to rest. */
module Progress {
  import Counting
  import Slots
  import opened AdminQueue
  import opened Protocol
  import Runs
  import opened Callers
  import opened Transactions

  /** Polls and cleanups only. */
  predicate CallersOnly(calls: seq<Call>) {
    forall st | st in calls :: st.CallPoll? || st.CallCleanSq? || st.CallCleanCq?
  }

  predicate NoEnqueue(calls: seq<Call>) {
    forall st | st in calls :: !st.CallEnqueue?
  }

  lemma NoneEnqueues(a: seq<Call>, st: Call, b: seq<Call>)
    requires CallersOnly(a) && !st.CallEnqueue? && NoEnqueue(b)
    ensures NoEnqueue(a) && NoEnqueue(a + ([st] + b))
  {
  }

  /** The callers have moved, the device has not, and no command is new. */
  ghost predicate OnlyCallers(s: System, t: System) {
    && t.answers == s.answers && t.w.cmds == s.w.cmds && t.w.fetched == s.w.fetched
    && ValidQueues(s.w.q) && ValidQueues(t.w.q) && t.w.q.sq.qs == s.w.q.sq.qs
  }

  /** The owner of the oldest unretired completion. */
  ghost function Oldest(s: System): (k: nat)
    requires CallersInv(s) && s.w.c < |s.answers|
    ensures k < |s.stage| && !s.stage[k].Done?
  {
    s.answers[s.w.c]
  }

  lemma OldestIsIts(s: System)
    requires CallersInv(s) && s.w.c < |s.answers| && !s.stage[Oldest(s)].Waiting?
    ensures s.stage[Oldest(s)].j == s.w.c
  {
  }

  /** Its poll finds the completion: it is at the head. */
  lemma OldestClaims(s: System) returns (t: System)
    requires CallersInv(s) && s.w.c < |s.answers| && s.stage[Oldest(s)].Waiting?
    ensures RunCalls(s, [CallPoll(Oldest(s))], t) && CallersInv(t) && OnlyCallers(s, t)
    ensures t.w.c == s.w.c && t.stage[Oldest(t)].Claimed?
  {
    var k := Oldest(s);
    PollComplete(s, k);
    assert s.w.c < ScanEnd(s.w);
    PollKeeps(s, k);
    OneCall(s, CallPoll(k));
    t := PollCall(s, k);
  }

  lemma OldestFrees(s: System) returns (t: System)
    requires CallersInv(s) && s.w.c < |s.answers| && s.stage[Oldest(s)].Claimed?
    ensures RunCalls(s, [CallCleanSq(Oldest(s))], t) && CallersInv(t) && OnlyCallers(s, t)
    ensures t.w.c == s.w.c && t.stage[Oldest(t)].Freed?
  {
    var k := Oldest(s);
    FreeSlotKeeps(s, k);
    OneCall(s, CallCleanSq(k));
    t := FreeSlotCall(s, k);
  }

  lemma OldestFinishes(s: System) returns (t: System)
    requires CallersInv(s) && s.w.c < |s.answers| && s.stage[Oldest(s)].Freed?
    ensures RunCalls(s, [CallCleanCq(Oldest(s))], t) && CallersInv(t) && OnlyCallers(s, t)
    ensures t.w.c > s.w.c
  {
    var k := Oldest(s);
    OldestIsIts(s);
    FreeCplKeeps(s, k);
    OneCall(s, CallCleanCq(k));
    t := FreeCplCall(s, k);
    assert s.w.c in s.w.cm + {s.w.c};
  }

  /** Without the device and without new commands, every answered caller can be done. */
  lemma {:induction false} Drain(s: System) returns (calls: seq<Call>, t: System)
    requires CallersInv(s)
    ensures RunCalls(s, calls, t) && CallersInv(t) && OnlyCallers(s, t) && t.w.c == |t.answers|
    ensures CallersOnly(calls)
    decreases |s.answers| - s.w.c,
              if s.w.c >= |s.answers| then 0 else match s.stage[Oldest(s)]
                case Waiting => 2 case Claimed(_, _) => 1 case _ => 0
  {
    if s.w.c == |s.answers| {
      calls, t := [], s;
    } else {
      var st, s1;
      if s.stage[Oldest(s)].Waiting? {
        s1 := OldestClaims(s);
        st := CallPoll(Oldest(s));
      } else if s.stage[Oldest(s)].Claimed? {
        s1 := OldestFrees(s);
        st := CallCleanSq(Oldest(s));
      } else {
        s1 := OldestFinishes(s);
        st := CallCleanCq(Oldest(s));
      }
      var rest;
      rest, t := Drain(s1);
      calls := [st] + rest;
      Runs.LeadsConcat(TryCall, s, [st], s1, rest, t);
    }
  }

  lemma DrainedIsDone(s: System)
    requires CallersInv(s) && s.w.c == |s.answers|
    ensures forall k | k in s.answers :: s.stage[k].Done?
  {
  }

  /** Each of them with its own completion. */
  ghost predicate Finished(s: System, answers: seq<nat>) {
    forall k | k in answers :: k < |s.stage| && s.stage[k].Done? && OwnAnswer(s, k, s.stage[k].j)
  }

  lemma DrainAll(s: System) returns (calls: seq<Call>, t: System)
    requires CallersInv(s)
    ensures RunCalls(s, calls, t) && OnlyCallers(s, t) && CallersOnly(calls) && Finished(t, s.answers)
  {
    calls, t := Drain(s);
    DrainedIsDone(t);
    InvServes(t);
    forall k | k in t.answers ensures OwnAnswer(t, k, t.stage[k].j) {
      assert Served(t, k);
    }
  }

  // ---------- the device goes on ----------

  /** No command is new; the device may have fetched and posted. */
  ghost predicate NoNewCommand(s: System, t: System) {
    t.w.cmds == s.w.cmds && ValidQueues(s.w.q) && ValidQueues(t.w.q) && t.w.q.sq.qs == s.w.q.sq.qs
  }

  lemma AnswersFit(s: System)
    requires CallersInv(s)
    ensures |s.answers| <= |s.w.fetched| <= |s.w.cmds|
    ensures |s.answers| == |s.w.fetched| <==> forall k: nat | k < |s.w.fetched| :: k in s.answers
  {
    Counting.Pigeonhole(s.answers, |s.w.fetched|);
  }

  function EmptyPost(k: nat): Call {
    DevPost(k, 0, 0, 0, 0)
  }

  lemma CanPost(s: System, k: nat) returns (t: System)
    requires CallersInv(s) && s.w.q.sq.qs >= 2 && s.w.c == |s.answers|
    requires k < |s.w.fetched| && k !in s.answers
    ensures RunCalls(s, [EmptyPost(k)], t) && CallersInv(t) && NoNewCommand(s, t)
    ensures |t.answers| == |s.answers| + 1 && |t.w.fetched| == |s.w.fetched|
  {
    RoomToPost(s.w.q.cq, s.w.cpls, s.w.c, s.w.cm);
    PostKeeps(s, EmptyPost(k));
    OneCall(s, EmptyPost(k));
    t := DevPostCall(s, EmptyPost(k));
  }

  lemma FetchPending(s: System)
    requires CallersInv(s) && |s.w.fetched| < |s.w.cmds|
    ensures Enabled(s.w, Fetch)
  {
    var F, T := |s.w.fetched|, |s.w.cmds|;
    UnansweredIsLive(s, F);
    if Slots.Slot(F, s.w.q.sq.qs) == Slots.Slot(T, s.w.q.sq.qs) {
      Slots.SlotInjective(s.w.h, F, T, s.w.q.sq.qs);
    }
  }

  lemma CanFetch(s: System) returns (t: System)
    requires CallersInv(s) && |s.w.fetched| < |s.w.cmds|
    ensures RunCalls(s, [DevFetch], t) && CallersInv(t) && NoNewCommand(s, t)
    ensures t.answers == s.answers && |t.w.fetched| == |s.w.fetched| + 1
  {
    FetchPending(s);
    FetchKeeps(s);
    OneCall(s, DevFetch);
    t := s.(w := DoFetch(s.w));
  }

  /** With every command answered and every completion retired, nothing is left. */
  lemma AllDoneIsQuiescent(s: System)
    requires CallersInv(s) && s.w.c == |s.answers| && |s.answers| == |s.w.fetched| == |s.w.cmds|
    ensures Quiescent(s)
  {
    AnswersFit(s);
    DrainedIsDone(s);
    assert s.w.h < |s.w.cmds| ==> s.w.h in s.answers;
  }

  /** One step of the device that brings the end nearer. */
  lemma DeviceGoesOn(s: System) returns (st: Call, t: System)
    requires CallersInv(s) && s.w.q.sq.qs >= 2 && s.w.c == |s.answers| && !Quiescent(s)
    ensures RunCalls(s, [st], t) && CallersInv(t) && NoNewCommand(s, t) && !st.CallEnqueue?
    ensures |t.answers| + |t.w.fetched| == |s.answers| + |s.w.fetched| + 1
  {
    AnswersFit(s);
    if |s.answers| < |s.w.fetched| {
      var k: nat :| k < |s.w.fetched| && k !in s.answers;
      t := CanPost(s, k);
      st := EmptyPost(k);
    } else {
      if |s.w.fetched| == |s.w.cmds| {
        AllDoneIsQuiescent(s);
      }
      t := CanFetch(s);
      st := DevFetch;
    }
  }

  lemma Chain(s0: System, a: seq<Call>, s1: System, b: seq<Call>, s2: System, c: seq<Call>, s3: System)
    requires RunCalls(s0, a, s1) && RunCalls(s1, b, s2) && RunCalls(s2, c, s3)
    ensures RunCalls(s0, a + (b + c), s3)
  {
    Runs.LeadsConcat(TryCall, s1, b, s2, c, s3);
    Runs.LeadsConcat(TryCall, s0, a, s1, b + c, s3);
  }

  ghost function ToDo(s: System): (n: int)
    ensures CallersInv(s) ==> n >= 0
  {
    if CallersInv(s) then
      AnswersFit(s);
      2 * |s.w.cmds| - |s.answers| - |s.w.fetched|
    else 0
  }

  lemma {:induction false} Settle(s: System) returns (calls: seq<Call>, t: System)
    requires CallersInv(s) && s.w.q.sq.qs >= 2
    ensures RunCalls(s, calls, t) && Quiescent(t) && t.w.cmds == s.w.cmds
    ensures NoEnqueue(calls)
    decreases ToDo(s)
  {
    var drain, s1 := Drain(s);
    if Quiescent(s1) {
      NoneEnqueues(drain, DevFetch, []);
      calls, t := drain, s1;
    } else {
      var st, s2 := DeviceGoesOn(s1);
      var rest;
      rest, t := Settle(s2);
      calls := drain + ([st] + rest);
      NoneEnqueues(drain, st, rest);
      Chain(s, drain, s1, [st], s2, rest, t);
    }
  }

  // ---------- from every reachable state ----------

  /** No run leads into a dead end: from every state that any number of callers can reach
      with clear ids, the answered callers can finish on their own, each with its own
      completion; and with the device, without a new command, every command can be
      answered and the rings come to rest. */
  lemma NoDeadEnd(qs: nat, calls: seq<Call>, s: System)
    returns (finish: seq<Call>, s1: System, settle: seq<Call>, s2: System)
    requires 2 <= qs <= 4096 && 65536 % qs == 0 && RunCalls(Start(qs), calls, s)
    ensures RunCalls(s, finish, s1) && s1.answers == s.answers && s1.w.cmds == s.w.cmds
    ensures CallersOnly(finish)
    ensures Finished(s1, s.answers)
    ensures RunCalls(s, settle, s2) && Quiescent(s2) && s2.w.cmds == s.w.cmds
    ensures NoEnqueue(settle)
  {
    StartInv(qs);
    RunCallsInv(Start(qs), calls, s);
    finish, s1 := DrainAll(s);
    settle, s2 := Settle(s);
  }
}

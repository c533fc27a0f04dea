/** Concurrent callers on top of the rings.

    Every user of the admin queue does the same four things in turn: enqueue a command,
    poll for its command id until a completion shows up, clean the submission slot, clean
    the completion slot the poll returned. Any number of callers may be anywhere in that
    sequence. The device answers each command it has fetched once, with the id it read.

    Cleaning the submission slot gives the command id back while the completion that
    carries it is still in its ring. So a caller can be handed an id that an older
    completion still carries, and the poll cannot tell the two apart. What is proved:
    if each enqueue finds its id clear of unretired completions (`ClearId`, which the
    driver could test before it takes the id), every caller gets its own completion in
    every run, and the callers together keep the discipline that `Protocol` asks for.
    `StaleIds` proves that nothing less will do. */
module Callers {
  import Counting
  import opened Slots
  import opened Rings
  import opened Words
  import opened AdminQueue
  import opened Protocol
  import opened Runs

  /** Where the submitter of a command is; `loc` is what its poll returned, `j` the
      completion that was there at the time. */
  datatype Stage =
    | Waiting
    | Claimed(loc: nat, j: nat)
    | Freed(loc: nat, j: nat)
    | Done(j: nat)

  /** `answers[j]` is the command that completion j answers. */
  datatype System = System(w: World, stage: seq<Stage>, answers: seq<nat>)

  datatype Call =
    | CallEnqueue(cmd: Cmd)
    | CallPoll(k: nat)
    | CallCleanSq(k: nat)
    | CallCleanCq(k: nat)
    | DevFetch
    | DevPost(k: nat, dw0: u32, dw1: u32, dw2: u32, status: nat)

  ghost function Start(qs: nat): System
    requires 1 <= qs <= 4096
  {
    System(Init(qs), [], [])
  }

  /** No unretired completion carries the id the next enqueue will take. */
  ghost predicate ClearId(w: World)
    requires ValidQueues(w.q)
  {
    forall j | w.c <= j < |w.cpls| :: CplCid(w.cpls[j]) != FirstFree(w.q.cids, 0)
  }

  function AnswerTo(s: System, st: Call): Reply
    requires st.DevPost? && st.k < |s.w.fetched|
  {
    Reply(st.dw0, st.dw1, st.dw2, CidOf(s.w.fetched[st.k]), st.status)
  }

  ghost predicate CanCall(s: System, st: Call)
    requires ValidQueues(s.w.q)
  {
    match st
    case CallEnqueue(cmd) => cmd[0] < 0x1_0000
    case CallPoll(k) => k < |s.stage| && s.stage[k].Waiting?
    case CallCleanSq(k) => k < |s.stage| && s.stage[k].Claimed?
    case CallCleanCq(k) => k < |s.stage| && s.stage[k].Freed?
    case DevFetch => Enabled(s.w, Fetch)
    case DevPost(k, _, _, _, _) => k < |s.w.fetched| && k !in s.answers && Enabled(s.w, Post(AnswerTo(s, st)))
  }

  /** The call takes no id that an unretired completion carries. */
  ghost predicate ClearCall(s: System, st: Call)
    requires ValidQueues(s.w.q)
  {
    st.CallEnqueue? && Enqueue(s.w.q, st.cmd).ret != -1 ==> ClearId(s.w)
  }

  ghost function SubmitCall(s: System, cmd: Cmd): System
    requires ValidQueues(s.w.q)
  {
    System(DoSubmit(s.w, cmd), if Enqueue(s.w.q, cmd).ret == -1 then s.stage else s.stage + [Waiting], s.answers)
  }

  ghost function PollCall(s: System, k: nat): System
    requires ValidQueues(s.w.q) && k < |s.stage| && k < |s.w.cmds|
  {
    var ret := Poll(s.w.q, CidOf(s.w.cmds[k]));
    if ret == -1 then s else s.(stage := s.stage[k := Claimed(ret, IndexOfHit(s.w, ret))])
  }

  ghost function FreeSlotCall(s: System, k: nat): System
    requires ValidQueues(s.w.q) && k < |s.stage| && k < |s.w.cmds| && s.stage[k].Claimed?
  {
    System(DoFreeSlot(s.w, k), s.stage[k := Freed(s.stage[k].loc, s.stage[k].j)], s.answers)
  }

  ghost function FreeCplCall(s: System, k: nat): System
    requires ValidQueues(s.w.q) && k < |s.stage| && s.stage[k].Freed?
  {
    System(DoFreeCpl(s.w, s.stage[k].j), s.stage[k := Done(s.stage[k].j)], s.answers)
  }

  ghost function DevPostCall(s: System, st: Call): System
    requires ValidQueues(s.w.q) && st.DevPost? && CanCall(s, st)
  {
    System(DoPost(s.w, AnswerTo(s, st)), s.stage, s.answers + [st.k])
  }

  /** The call can be made, be its id clear or not. */
  ghost predicate Possible(s: System, st: Call) {
    && ValidQueues(s.w.q) && s.w.dev.sqHead < s.w.q.sq.qs && |s.stage| == |s.w.cmds|
    && CanCall(s, st)
  }

  ghost predicate Open(s: System, st: Call) {
    Possible(s, st) && ClearCall(s, st)
  }

  ghost function NextCall(s: System, st: Call): System
    requires Possible(s, st)
  {
    match st
    case CallEnqueue(cmd) => SubmitCall(s, cmd)
    case CallPoll(k) => PollCall(s, k)
    case CallCleanSq(k) => FreeSlotCall(s, k)
    case CallCleanCq(k) => FreeCplCall(s, k)
    case DevFetch => s.(w := DoFetch(s.w))
    case DevPost(_, _, _, _, _) => DevPostCall(s, st)
  }

  // ---------- the invariant of the callers ----------

  /** Each completion answers a fetched command with that command's id, none twice. */
  ghost predicate AnswersInv(answers: seq<nat>, cpls: seq<Cpl>, cmds: seq<Cmd>, F: nat) {
    && |answers| == |cpls| && F <= |cmds|
    && (forall j | 0 <= j < |answers| :: answers[j] < F && CplCid(cpls[j]) == CidOf(cmds[answers[j]]))
    && Counting.NoRepeats(answers)
  }

  /** The device has read the commands that were submitted. */
  ghost predicate FetchedInv(fetched: seq<Cmd>, cmds: seq<Cmd>) {
    |fetched| <= |cmds| && forall k | 0 <= k < |fetched| :: fetched[k] == cmds[k]
  }

  ghost predicate StageInv(stage: seq<Stage>, answers: seq<nat>, h: nat, sm: set<nat>, c: nat, cm: set<nat>, qs: nat)
    requires qs > 0
  {
    && (forall k | 0 <= k < |stage| :: (k < h || k in sm) <==> stage[k].Freed? || stage[k].Done?)
    && (forall k | 0 <= k < |stage| && !stage[k].Waiting? :: stage[k].j < |answers| && answers[stage[k].j] == k)
    && (forall k | 0 <= k < |stage| && (stage[k].Claimed? || stage[k].Freed?) ::
          stage[k].loc == Slot(stage[k].j, qs) && c <= stage[k].j && stage[k].j !in cm)
    && (forall j | 0 <= j < |answers| :: answers[j] < |stage|)
    && (forall j | 0 <= j < |answers| :: (j < c || j in cm) <==> stage[answers[j]].Done?)
  }

  /** A live command shares its id with no unretired completion but its own. */
  ghost predicate FreshInv(answers: seq<nat>, cmds: seq<Cmd>, h: nat, sm: set<nat>, c: nat) {
    forall k: nat, j | LiveIn(h, sm, |cmds|, k) && c <= j < |answers| && answers[j] < |cmds| && CidOf(cmds[answers[j]]) == CidOf(cmds[k]) ::
      answers[j] == k
  }

  ghost predicate CallersInv(s: System) {
    && Inv(s.w)
    && |s.stage| == |s.w.cmds|
    && AnswersInv(s.answers, s.w.cpls, s.w.cmds, |s.w.fetched|)
    && FetchedInv(s.w.fetched, s.w.cmds)
    && StageInv(s.stage, s.answers, s.w.h, s.w.sm, s.w.c, s.w.cm, s.w.q.sq.qs)
    && FreshInv(s.answers, s.w.cmds, s.w.h, s.w.sm, s.w.c)
  }

  /** A command the device has not answered is still live. */
  lemma UnansweredIsLive(s: System, k: nat)
    requires CallersInv(s) && k < |s.w.cmds| && k !in s.answers
    ensures s.stage[k].Waiting? && Live(s.w, k)
  {
    forall j | 0 <= j < |s.answers| ensures s.answers[j] != k {
      assert s.answers[j] in s.answers;
    }
  }

  // ---------- polls ----------

  /** A poll that finds something finds the caller's own completion, not yet retired. */
  lemma PollFindsOwn(s: System, k: nat)
    requires CallersInv(s) && k < |s.stage| && s.stage[k].Waiting?
    ensures var ret := Poll(s.w.q, CidOf(s.w.cmds[k]));
            ret != -1 ==>
              var j := IndexOfHit(s.w, ret);
              && s.w.c <= j < |s.answers| && s.answers[j] == k && j !in s.w.cm
              && ret == Slot(j, s.w.q.cq.qs) && s.w.q.cq.slots[ret] == s.w.cpls[j]
  {
    var ret := Poll(s.w.q, CidOf(s.w.cmds[k]));
    if ret != -1 {
      PollMeans(s.w, CidOf(s.w.cmds[k]));
      PollSlot(s.w, CidOf(s.w.cmds[k]));
      assert Live(s.w, k);
    }
  }

  /** It finds nothing exactly as long as the caller's completion is not there, between
      the head and the end of the ring. */
  lemma PollComplete(s: System, k: nat)
    requires CallersInv(s) && k < |s.stage| && s.stage[k].Waiting?
    ensures Poll(s.w.q, CidOf(s.w.cmds[k])) == -1
            <==> forall j | s.w.c <= j < ScanEnd(s.w) && j < |s.answers| :: s.answers[j] != k
  {
    PollMeans(s.w, CidOf(s.w.cmds[k]));
    PollFindsOwn(s, k);
    var ret := Poll(s.w.q, CidOf(s.w.cmds[k]));
    if ret != -1 {
      PollSlot(s.w, CidOf(s.w.cmds[k]));
    } else {
      forall j | s.w.c <= j < ScanEnd(s.w) && j < |s.answers| ensures s.answers[j] != k {
        assert !Carries(s.w.cpls, s.w.c, j, CidOf(s.w.cmds[k]));
      }
    }
  }

  // ---------- each step ----------

  lemma SubmitKeeps(s: System, cmd: Cmd)
    requires CallersInv(s) && CanCall(s, CallEnqueue(cmd)) && ClearCall(s, CallEnqueue(cmd))
    requires FullTestExact(s.w.q.sq.head, s.w.q.sq.tail, s.w.q.sq.qs)
    ensures CallersInv(SubmitCall(s, cmd))
  {
    SubmitInv(s.w, cmd);
    if Enqueue(s.w.q, cmd).ret != -1 {
      AcceptedKeeps(s, cmd);
    }
  }

  lemma AcceptedKeeps(s: System, cmd: Cmd)
    requires CallersInv(s) && Enqueue(s.w.q, cmd).ret != -1 && cmd[0] < 0x1_0000 && ClearId(s.w)
    requires Inv(DoSubmit(s.w, cmd))
    ensures CallersInv(SubmitCall(s, cmd))
  {
    var cid := FirstFree(s.w.q.cids, 0);
    StampCidReads(cmd[0], cid);
    assert CidOf(Stamp(cmd, cid)) == cid;
    SubmitFresh(s.answers, s.w.cmds, s.w.h, s.w.sm, s.w.c, s.w.cpls, |s.w.fetched|, Stamp(cmd, cid));
    SubmitStages(s.stage, s.answers, s.w.h, s.w.sm, s.w.c, s.w.cm, s.w.q.sq.qs);
  }

  lemma SubmitStages(stage: seq<Stage>, answers: seq<nat>, h: nat, sm: set<nat>, c: nat, cm: set<nat>, qs: nat)
    requires qs > 0 && StageInv(stage, answers, h, sm, c, cm, qs) && h <= |stage| && |stage| !in sm
    ensures StageInv(stage + [Waiting], answers, h, sm, c, cm, qs)
  {
  }

  lemma SubmitFresh(answers: seq<nat>, cmds: seq<Cmd>, h: nat, sm: set<nat>, c: nat, cpls: seq<Cpl>, F: nat, cmd: Cmd)
    requires AnswersInv(answers, cpls, cmds, F) && FreshInv(answers, cmds, h, sm, c)
    requires forall j | c <= j < |cpls| :: CplCid(cpls[j]) != CidOf(cmd)
    ensures FreshInv(answers, cmds + [cmd], h, sm, c) && AnswersInv(answers, cpls, cmds + [cmd], F)
  {
    var cmds' := cmds + [cmd];
    forall k: nat, j | LiveIn(h, sm, |cmds'|, k) && c <= j < |answers| && answers[j] < |cmds'| && CidOf(cmds'[answers[j]]) == CidOf(cmds'[k])
      ensures answers[j] == k
    {
      assert cmds'[answers[j]] == cmds[answers[j]];
      if k < |cmds| {
        assert LiveIn(h, sm, |cmds|, k);
      }
    }
  }

  lemma PollKeeps(s: System, k: nat)
    requires CallersInv(s) && CanCall(s, CallPoll(k))
    ensures CallersInv(PollCall(s, k))
  {
    PollFindsOwn(s, k);
    var ret := Poll(s.w.q, CidOf(s.w.cmds[k]));
    if ret != -1 {
      PollStages(s.stage, s.answers, s.w.h, s.w.sm, s.w.c, s.w.cm, s.w.q.sq.qs, k, ret, IndexOfHit(s.w, ret));
    }
  }

  lemma PollStages(stage: seq<Stage>, answers: seq<nat>, h: nat, sm: set<nat>, c: nat, cm: set<nat>, qs: nat,
                   k: nat, loc: nat, j: nat)
    requires qs > 0 && StageInv(stage, answers, h, sm, c, cm, qs) && k < |stage| && stage[k].Waiting?
    requires c <= j < |answers| && answers[j] == k && j !in cm && loc == Slot(j, qs)
    ensures StageInv(stage[k := Claimed(loc, j)], answers, h, sm, c, cm, qs)
  {
  }

  lemma FetchKeeps(s: System)
    requires CallersInv(s) && CanCall(s, DevFetch)
    ensures CallersInv(s.(w := DoFetch(s.w)))
  {
    FetchInv(s.w);
    FetchesOwn(s);
  }

  /** What the device is about to fetch is the next command submitted. */
  lemma FetchesOwn(s: System)
    requires CallersInv(s) && Enabled(s.w, Fetch)
    ensures |s.w.fetched| < |s.w.cmds|
    ensures s.w.q.sq.slots[s.w.dev.sqHead] == s.w.cmds[|s.w.fetched|]
  {
    var F := |s.w.fetched|;
    assert F < |s.w.cmds|;
    UnansweredIsLive(s, F);
  }

  lemma PostKeeps(s: System, st: Call)
    requires CallersInv(s) && st.DevPost? && CanCall(s, st)
    ensures CallersInv(DevPostCall(s, st))
  {
    PostInv(s.w, AnswerTo(s, st));
    UnansweredIsLive(s, st.k);
    Dw3RoundTrip(CidOf(s.w.fetched[st.k]), s.w.dev.tag, st.status);
    PostFresh(s, st.k);
    PostAnswers(s.stage, s.answers, s.w.cpls, s.w.cmds, s.w.fetched, s.w.h, s.w.sm, s.w.c, s.w.cm, s.w.q.sq.qs,
                st.k, MakeCpl(AnswerTo(s, st), s.w.dev.tag));
  }

  lemma PostAnswers(stage: seq<Stage>, answers: seq<nat>, cpls: seq<Cpl>, cmds: seq<Cmd>, fetched: seq<Cmd>,
                    h: nat, sm: set<nat>, c: nat, cm: set<nat>, qs: nat, k: nat, cpl: Cpl)
    requires qs > 0 && StageInv(stage, answers, h, sm, c, cm, qs) && AnswersInv(answers, cpls, cmds, |fetched|)
    requires k < |fetched| && |stage| == |cmds| && k !in answers && CplCid(cpl) == CidOf(cmds[k])
    requires c <= |answers| && forall j | j in cm :: j < |answers|
    ensures StageInv(stage, answers + [k], h, sm, c, cm, qs)
    ensures AnswersInv(answers + [k], cpls + [cpl], cmds, |fetched|)
  {
  }

  lemma PostFresh(s: System, k: nat)
    requires CallersInv(s) && k < |s.w.cmds| && k !in s.answers
    ensures FreshInv(s.answers + [k], s.w.cmds, s.w.h, s.w.sm, s.w.c)
  {
    UnansweredIsLive(s, k);
    var answers := s.answers + [k];
    var cmds := s.w.cmds;
    forall i: nat, j | Live(s.w, i) && s.w.c <= j < |answers| && answers[j] < |cmds| && CidOf(cmds[answers[j]]) == CidOf(cmds[i])
      ensures answers[j] == i
    {
      if j < |s.answers| {
        assert answers[j] == s.answers[j];
      } else {
        assert s.w.owner[CidOf(cmds[i])] == i && s.w.owner[CidOf(cmds[k])] == k;
      }
    }
  }

  /** The callers' discipline: whoever cleans a submission slot is cleaning its own, for
      the first time, after the device has read it. */
  lemma FreeSlotIsOwn(s: System, k: nat)
    requires CallersInv(s) && CanCall(s, CallCleanSq(k))
    ensures Enabled(s.w, FreeSlot(k)) && Live(s.w, k) && k < |s.w.fetched|
  {
  }

  lemma FreeSlotKeeps(s: System, k: nat)
    requires CallersInv(s) && CanCall(s, CallCleanSq(k))
    ensures CallersInv(FreeSlotCall(s, k))
  {
    FreeSlotInv(s.w, k);
    FreeSlotStages(s.stage, s.answers, s.w.h, s.w.sm, s.w.c, s.w.cm, s.w.q.sq.qs, k);
    var p := SweepIndices(s.w.h, s.w.sm + {k});
    FewerLive(s.answers, s.w.cmds, s.w.h, s.w.sm, s.w.c, p.head, p.marked);
  }

  lemma FreeSlotStages(stage: seq<Stage>, answers: seq<nat>, h: nat, sm: set<nat>, c: nat, cm: set<nat>, qs: nat, k: nat)
    requires qs > 0 && StageInv(stage, answers, h, sm, c, cm, qs) && k < |stage| && stage[k].Claimed?
    ensures var p := SweepIndices(h, sm + {k});
            StageInv(stage[k := Freed(stage[k].loc, stage[k].j)], answers, p.head, p.marked, c, cm, qs)
  {
    var p := SweepIndices(h, sm + {k});
    forall i: nat ensures (i < p.head || i in p.marked) <==> (i < h || i in sm || i == k) {
      assert h <= i < p.head ==> i in sm + {k};
      assert i in sm + {k} <==> i in sm || i == k;
    }
  }

  lemma FewerLive(answers: seq<nat>, cmds: seq<Cmd>, h: nat, sm: set<nat>, c: nat, h': nat, sm': set<nat>)
    requires FreshInv(answers, cmds, h, sm, c)
    requires h <= h' && forall k | k in sm && k >= h' :: k in sm'
    ensures FreshInv(answers, cmds, h', sm', c)
  {
    forall k: nat | LiveIn(h', sm', |cmds|, k) ensures LiveIn(h, sm, |cmds|, k) {
    }
  }

  /** Whoever cleans a completion slot is cleaning its own completion, for the first
      time, and the slot it was told is still that completion's. */
  lemma FreeCplIsOwn(s: System, k: nat)
    requires CallersInv(s) && CanCall(s, CallCleanCq(k))
    ensures var j := s.stage[k].j;
            && Enabled(s.w, FreeCpl(j)) && s.answers[j] == k
            && FreeCplCall(s, k).w.q == CleanCq(s.w.q, s.stage[k].loc)
  {
  }

  lemma FreeCplKeeps(s: System, k: nat)
    requires CallersInv(s) && CanCall(s, CallCleanCq(k))
    ensures CallersInv(FreeCplCall(s, k))
  {
    var j := s.stage[k].j;
    FreeCplInv(s.w, j);
    FreeCplStages(s.stage, s.answers, s.w.h, s.w.sm, s.w.c, s.w.cm, s.w.q.sq.qs, k);
  }

  lemma FreeCplStages(stage: seq<Stage>, answers: seq<nat>, h: nat, sm: set<nat>, c: nat, cm: set<nat>, qs: nat, k: nat)
    requires qs > 0 && StageInv(stage, answers, h, sm, c, cm, qs) && k < |stage| && stage[k].Freed?
    requires Counting.NoRepeats(answers)
    ensures var p := SweepIndices(c, cm + {stage[k].j});
            StageInv(stage[k := Done(stage[k].j)], answers, h, sm, p.head, p.marked, qs)
  {
    var j := stage[k].j;
    var p := SweepIndices(c, cm + {j});
    forall i: nat ensures (i < p.head || i in p.marked) <==> (i < c || i in cm || i == j) {
      assert c <= i < p.head ==> i in cm + {j};
      assert i in cm + {j} <==> i in cm || i == j;
    }
  }

  lemma CallKeeps(s: System, st: Call)
    requires CallersInv(s) && Open(s, st)
    requires st.CallEnqueue? ==> FullTestExact(s.w.q.sq.head, s.w.q.sq.tail, s.w.q.sq.qs)
    ensures CallersInv(NextCall(s, st))
  {
    match st
    case CallEnqueue(cmd) => SubmitKeeps(s, cmd);
    case CallPoll(k) => PollKeeps(s, k);
    case CallCleanSq(k) => FreeSlotKeeps(s, k);
    case CallCleanCq(k) => FreeCplKeeps(s, k);
    case DevFetch => FetchKeeps(s);
    case DevPost(_, _, _, _, _) => PostKeeps(s, st);
  }

  lemma CallSizeFixed(s: System, st: Call)
    requires Open(s, st)
    ensures NextCall(s, st).w.q.sq.qs == s.w.q.sq.qs
  {
  }

  // ---------- every run ----------

  ghost function TryCall(s: System, st: Call): Option<System> {
    if Open(s, st) then Some(NextCall(s, st)) else None
  }

  /** The calls are each open in turn, and lead from s to s'. */
  ghost predicate RunCalls(s: System, calls: seq<Call>, s': System) {
    Leads(TryCall, s, calls, s')
  }

  lemma {:induction false} RunCallsInv(s: System, calls: seq<Call>, s': System)
    requires CallersInv(s) && 65536 % s.w.q.sq.qs == 0 && RunCalls(s, calls, s')
    ensures CallersInv(s') && s'.w.q.sq.qs == s.w.q.sq.qs
    decreases |calls|
  {
    if calls != [] {
      FullTestExactAtIff(s.w.q.sq.head, s.w.q.sq.tail, s.w.q.sq.qs);
      CallKeeps(s, calls[0]);
      CallSizeFixed(s, calls[0]);
      RunCallsInv(NextCall(s, calls[0]), calls[1..], s');
    }
  }

  /** The step of the rings that a call stands for; a poll changes nothing there. */
  function StepsOf(s: System, st: Call): seq<Step>
    requires st.CallCleanCq? ==> st.k < |s.stage| && s.stage[st.k].Freed?
    requires st.DevPost? ==> st.k < |s.w.fetched|
  {
    match st
    case CallEnqueue(cmd) => [Submit(cmd)]
    case CallPoll(_) => []
    case CallCleanSq(k) => [FreeSlot(k)]
    case CallCleanCq(k) => [FreeCpl(s.stage[k].j)]
    case DevFetch => [Fetch]
    case DevPost(_, _, _, _, _) => [Post(AnswerTo(s, st))]
  }

  lemma CallIsSteps(s: System, st: Call)
    requires CallersInv(s) && Open(s, st)
    ensures Run(s.w, StepsOf(s, st), NextCall(s, st).w)
  {
    match st
    case CallEnqueue(cmd) => LeadsOne(TryStep, s.w, Submit(cmd));
    case CallPoll(_) =>
    case CallCleanSq(k) =>
      FreeSlotIsOwn(s, k);
      LeadsOne(TryStep, s.w, FreeSlot(k));
    case CallCleanCq(k) =>
      FreeCplIsOwn(s, k);
      LeadsOne(TryStep, s.w, FreeCpl(s.stage[k].j));
    case DevFetch => LeadsOne(TryStep, s.w, Fetch);
    case DevPost(_, _, _, _, _) => LeadsOne(TryStep, s.w, Post(AnswerTo(s, st)));
  }

  /** Every run of the callers is a run of the rings in which each slot is cleaned once,
      so all that `Protocol` proves holds of it. */
  lemma {:induction false} CallersRefineProtocol(s: System, calls: seq<Call>, s': System) returns (steps: seq<Step>)
    requires CallersInv(s) && 65536 % s.w.q.sq.qs == 0 && RunCalls(s, calls, s')
    ensures Run(s.w, steps, s'.w) && |steps| <= |calls|
    decreases |calls|
  {
    if calls == [] {
      steps := [];
    } else {
      var s1 := NextCall(s, calls[0]);
      CallIsSteps(s, calls[0]);
      FullTestExactAtIff(s.w.q.sq.head, s.w.q.sq.tail, s.w.q.sq.qs);
      CallKeeps(s, calls[0]);
      CallSizeFixed(s, calls[0]);
      var rest := CallersRefineProtocol(s1, calls[1..], s');
      steps := StepsOf(s, calls[0]) + rest;
      LeadsConcat(TryStep, s.w, StepsOf(s, calls[0]), s1.w, rest, s'.w);
    }
  }

  lemma StartInv(qs: nat)
    requires 1 <= qs <= 4096
    ensures CallersInv(Start(qs))
  {
    InitInv(qs);
  }

  /** Completion j was posted in answer to command k, with its id. */
  ghost predicate OwnAnswer(s: System, k: nat, j: nat) {
    && j < |s.answers| && j < |s.w.cpls| && k < |s.w.cmds|
    && s.answers[j] == k && CplCid(s.w.cpls[j]) == CidOf(s.w.cmds[k])
  }

  /** Caller k has claimed its own completion, or would find that or nothing if it polled
      now. */
  ghost predicate Served(s: System, k: nat)
    requires ValidQueues(s.w.q) && k < |s.stage| && k < |s.w.cmds|
  {
    var ret := Poll(s.w.q, CidOf(s.w.cmds[k]));
    && (!s.stage[k].Waiting? ==> OwnAnswer(s, k, s.stage[k].j))
    && (s.stage[k].Waiting? && ret != -1 ==> OwnAnswer(s, k, IndexOfHit(s.w, ret)))
  }

  ghost predicate AllServed(s: System) {
    && ValidQueues(s.w.q) && |s.stage| == |s.w.cmds|
    && forall k | 0 <= k < |s.stage| :: Served(s, k)
  }

  lemma InvServes(s: System)
    requires CallersInv(s)
    ensures AllServed(s)
  {
    forall k | 0 <= k < |s.stage| ensures Served(s, k) {
      if s.stage[k].Waiting? {
        PollFindsOwn(s, k);
      }
    }
  }

  /** In every run of any number of callers in which each enqueue finds its id clear:
      each caller's poll returns its own completion or nothing, the one it goes on to clean
      is its own, and the device reads what was submitted. */
  lemma EveryCallerServed(qs: nat, calls: seq<Call>, s: System)
    requires 1 <= qs <= 4096 && 65536 % qs == 0 && RunCalls(Start(qs), calls, s)
    ensures AllServed(s) && FetchedInv(s.w.fetched, s.w.cmds)
  {
    StartInv(qs);
    RunCallsInv(Start(qs), calls, s);
    InvServes(s);
  }
}

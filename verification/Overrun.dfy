/** A submission ring whose size does not divide 65536 can be over-filled: the full test
    cuts the difference of tail and head to 16 bits before it reduces it modulo the ring
    size, and `admin_init` takes whatever size up to 4096 the device reports. So the safe
    sizes are exactly the divisors of 65536 (`RingSafeIff`). */
module Overrun {
  import opened Slots
  import opened AdminQueue
  import opened Protocol
  import opened Runs
  import Transactions

  ghost predicate FreshCommands(cmds: seq<Cmd>) {
    forall c | c in cmds :: c[0] < 0x1_0000
  }

  /** Enqueue one command after the other. */
  ghost function SubmitAll(w: World, cmds: seq<Cmd>): (w': World)
    requires ValidQueues(w.q)
    ensures ValidQueues(w'.q)
    decreases |cmds|
  {
    if cmds == [] then w else SubmitAll(DoSubmit(w, cmds[0]), cmds[1..])
  }

  /** With the head at slot 1, the tail does not wrap before the ring is full. */
  lemma FillOne(w: World, cmd: Cmd)
    requires Inv(w) && Slot(w.h, w.q.sq.qs) == 1 && cmd[0] < 0x1_0000
    requires |w.cmds| < w.h + w.q.sq.qs - 1
    ensures Inv(DoSubmit(w, cmd)) && |DoSubmit(w, cmd).cmds| == |w.cmds| + 1
  {
    SlotOffset(w.h, |w.cmds| - w.h, w.q.sq.qs);
    FullTestExactAtIff(w.q.sq.head, w.q.sq.tail, w.q.sq.qs);
    RefusedIffFull(w, cmd);
    SubmitInv(w, cmd);
  }

  lemma {:induction false} FillUp(w: World, cmds: seq<Cmd>)
    requires Inv(w) && Slot(w.h, w.q.sq.qs) == 1 && FreshCommands(cmds)
    requires |w.cmds| + |cmds| <= w.h + w.q.sq.qs - 1
    ensures var w' := SubmitAll(w, cmds);
            && Inv(w') && w'.q.sq.qs == w.q.sq.qs && w'.h == w.h && w'.fetched == w.fetched
            && |w'.cmds| == |w.cmds| + |cmds|
    decreases |cmds|
  {
    if cmds != [] {
      FillOne(w, cmds[0]);
      FillUp(DoSubmit(w, cmds[0]), cmds[1..]);
    }
  }

  /** On a full ring with the head at slot 1, the test refuses exactly the sizes that
      divide 65536. */
  lemma AcceptedWhenFullIff(w: World, last: Cmd)
    requires Inv(w) && Slot(w.h, w.q.sq.qs) == 1 && |w.cmds| == w.h + w.q.sq.qs - 1
    ensures Enqueue(w.q, last).ret != -1 <==> 65536 % w.q.sq.qs != 0
  {
    CidAvailable(w);
    OccupancyIs(w);
    SlotOffset(w.h, w.q.sq.qs - 1, w.q.sq.qs);
    TruncationWrapped(1, 0, w.q.sq.qs);
  }

  /** One command too many makes the ring look empty to the device. */
  lemma OneTooMany(w: World, last: Cmd)
    requires Inv(w) && Slot(w.h, w.q.sq.qs) == 1 && |w.cmds| == w.h + w.q.sq.qs - 1
    requires |w.fetched| == w.h && Enqueue(w.q, last).ret != -1
    ensures var w' := DoSubmit(w, last);
            && |w'.cmds| == |w'.fetched| + w.q.sq.qs
            && w'.q.sq.tail == w'.q.sq.head && !Enabled(w', Fetch)
  {
    SlotOffset(w.h, w.q.sq.qs - 1, w.q.sq.qs);
  }

  /** Fill the ring while nothing is retired, from a state with the head at slot 1 and
      all earlier commands fetched; then enqueue one more. It is accepted exactly when
      the ring size does not divide 65536. Then tail and head agree, and the device,
      which sees an empty ring, will fetch none of the commands. */
  lemma OverrunIff(w: World, cmds: seq<Cmd>, last: Cmd)
    requires Inv(w) && w.h == |w.cmds| == |w.fetched| && Slot(w.h, w.q.sq.qs) == 1
    requires FreshCommands(cmds) && |cmds| == w.q.sq.qs - 1 && last[0] < 0x1_0000
    ensures var w1 := SubmitAll(w, cmds);
            var w2 := DoSubmit(w1, last);
            && (Enqueue(w1.q, last).ret != -1 <==> 65536 % w.q.sq.qs != 0)
            && (Enqueue(w1.q, last).ret != -1 ==>
                  && |w2.cmds| == |w2.fetched| + w.q.sq.qs
                  && w2.q.sq.tail == w2.q.sq.head && !Enabled(w2, Fetch))
  {
    FillUp(w, cmds);
    var w1 := SubmitAll(w, cmds);
    AcceptedWhenFullIff(w1, last);
    if Enqueue(w1.q, last).ret != -1 {
      OneTooMany(w1, last);
    }
  }

  // ---------- from the initial state ----------

  function SubmitSteps(cmds: seq<Cmd>): seq<Step> {
    if cmds == [] then [] else [Submit(cmds[0])] + SubmitSteps(cmds[1..])
  }

  lemma {:induction false} SubmitAllIsRun(w: World, cmds: seq<Cmd>)
    requires ValidQueues(w.q) && w.dev.sqHead < w.q.sq.qs && FreshCommands(cmds)
    ensures Run(w, SubmitSteps(cmds), SubmitAll(w, cmds))
    decreases |cmds|
  {
    if cmds != [] {
      SubmitAllIsRun(DoSubmit(w, cmds[0]), cmds[1..]);
      LeadsOne(TryStep, w, Submit(cmds[0]));
      LeadsConcat(TryStep, w, [Submit(cmds[0])], DoSubmit(w, cmds[0]), SubmitSteps(cmds[1..]), SubmitAll(w, cmds));
    }
  }

  lemma OneMore(w0: World, steps: seq<Step>, w: World, st: Step)
    requires Run(w0, steps, w) && ValidQueues(w.q) && w.dev.sqHead < w.q.sq.qs && Enabled(w, st)
    ensures Run(w0, steps + [st], Next(w, st))
  {
    LeadsOne(TryStep, w, st);
    LeadsConcat(TryStep, w0, steps, w, [st], Next(w, st));
  }

  lemma EmptyIsExact(w: World)
    requires Inv(w) && w.h == |w.cmds|
    ensures FullTestExact(w.q.sq.head, w.q.sq.tail, w.q.sq.qs)
  {
    FullTestExactAtIff(w.q.sq.head, w.q.sq.tail, w.q.sq.qs);
  }

  lemma Then(w0: World, steps: seq<Step>, w: World, st: Step) returns (w': World)
    requires Run(w0, steps, w) && Inv(w) && Enabled(w, st) && (st.Submit? ==> w.h == |w.cmds|)
    ensures w' == Next(w, st) && Run(w0, steps + [st], w') && Inv(w')
  {
    if st.Submit? {
      EmptyIsExact(w);
    }
    w' := Next(w, st);
    OneMore(w0, steps, w, st);
    NextInv(w, st);
  }

  const NO_DATA: Reply := Reply(0, 0, 0, 0, 0)

  lemma FirstAccepted(qs: nat)
    requires 2 <= qs <= 4096
    ensures Enqueue(Init(qs).q, ZERO_CMD).ret != -1
  {
    InitInv(qs);
    EmptyIsExact(Init(qs));
    RefusedIffFull(Init(qs), ZERO_CMD);
  }

  /** One command served and cleaned away, so that the heads are at slot 1. */
  lemma OneServed(qs: nat) returns (steps: seq<Step>, w: World)
    requires 2 <= qs <= 4096
    ensures Run(Init(qs), steps, w) && Inv(w) && w.q.sq.qs == qs
    ensures w.h == |w.cmds| == |w.fetched| == 1 && w.c == |w.cpls| == 1
  {
    var w0 := Init(qs);
    InitInv(qs);
    FirstAccepted(qs);
    var w1 := Then(w0, [], w0, Submit(ZERO_CMD));
    SizeFixed(w0, Submit(ZERO_CMD));
    var w2 := Then(w0, [Submit(ZERO_CMD)], w1, Fetch);
    var w3 := Then(w0, [Submit(ZERO_CMD)] + [Fetch], w2, Post(NO_DATA));
    Transactions.SweepOne(0);
    var w4 := Then(w0, [Submit(ZERO_CMD)] + [Fetch] + [Post(NO_DATA)], w3, FreeSlot(0));
    w := Then(w0, [Submit(ZERO_CMD)] + [Fetch] + [Post(NO_DATA)] + [FreeSlot(0)], w4, FreeCpl(0));
    steps := [Submit(ZERO_CMD)] + [Fetch] + [Post(NO_DATA)] + [FreeSlot(0)] + [FreeCpl(0)];
  }

  function Repeat(n: nat): (cmds: seq<Cmd>)
    ensures |cmds| == n && forall c | c in cmds :: c == ZERO_CMD
  {
    if n == 0 then [] else [ZERO_CMD] + Repeat(n - 1)
  }

  /** A ring size that does not divide 65536 has a run with qs commands in the ring. */
  lemma Overfull(qs: nat) returns (steps: seq<Step>, w: World)
    requires 2 <= qs <= 4096 && 65536 % qs != 0
    ensures Run(Init(qs), steps, w) && |w.cmds| == w.h + qs
  {
    var steps0, w0 := OneServed(qs);
    var cmds := Repeat(qs - 1);
    SlotOffset(0, 1, qs);
    var w1 := SubmitAll(w0, cmds);
    SubmitAllIsRun(w0, cmds);
    LeadsConcat(TryStep, Init(qs), steps0, w0, SubmitSteps(cmds), w1);
    FillUp(w0, cmds);
    AcceptedWhenFullIff(w1, ZERO_CMD);
    OneMore(Init(qs), steps0 + SubmitSteps(cmds), w1, Submit(ZERO_CMD));
    OneTooMany(w1, ZERO_CMD);
    steps, w := steps0 + SubmitSteps(cmds) + [Submit(ZERO_CMD)], DoSubmit(w1, ZERO_CMD);
  }

  /** At most qs - 1 commands are outstanding, in every run. */
  ghost predicate NeverOverfull(qs: nat)
    requires 1 <= qs <= 4096
  {
    forall steps, w :: Run(Init(qs), steps, w) ==> |w.cmds| <= w.h + qs - 1
  }

  /** The ring sizes that are safe over every run are exactly the divisors of 65536. */
  lemma RingSafeIff(qs: nat)
    requires 1 <= qs <= 4096
    ensures NeverOverfull(qs) <==> 65536 % qs == 0
  {
    if 65536 % qs == 0 {
      forall steps, w | Run(Init(qs), steps, w) ensures |w.cmds| <= w.h + qs - 1 {
        RingRefinement(qs, steps, w);
      }
    } else {
      DivModUnique(65536, 1, 65536, 0);
      var steps, w := Overfull(qs);
    }
  }
}

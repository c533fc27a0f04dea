/** The admin rings under every interleaving of driver and device.

    Each function that takes the lock is one atomic step of the driver. The device takes
    two kinds of steps of its own, on its own wrapped registers, as sections 4.1 and 4.6
    of NVMe 1.4 have it: fetch the next submission, and post a completion when the
    completion queue, judged by the doorbell, is not full.

    A world carries, beside the memory and registers, its history: the commands
    submitted (T of them), those fetched (F), the completions posted (P), the logical
    heads h (H) and c (C) of the two rings with the entries retired above them, and for
    every taken command id the submission that holds it. No step looks at the history
    to decide what to do with the memory. */
module Protocol {
  import opened Counting
  import opened Slots
  import opened Rings
  import opened Words
  import opened AdminQueue
  import Runs

  datatype Device = Device(sqHead: nat, cqTail: nat, tag: bool)

  datatype World = World(
    q: Queues,
    dev: Device,
    cmds: seq<Cmd>, h: nat, sm: set<nat>,
    fetched: seq<Cmd>,
    cpls: seq<Cpl>, c: nat, cm: set<nat>,
    owner: map<nat, nat>)

  ghost function Init(qs: nat): World
    requires 1 <= qs <= 4096
  {
    World(InitialQueues(qs), Device(0, 0, true), [], 0, {}, [], [], 0, {}, map[])
  }

  /** The content of a completion but for its phase tag, which is the device's own. */
  datatype Reply = Reply(dw0: u32, dw1: u32, dw2: u32, cid: nat, status: nat)

  predicate ValidReply(r: Reply) {
    r.cid < 0x1_0000 && r.status < 0x8000
  }

  function MakeCpl(r: Reply, tag: bool): Cpl
    requires ValidReply(r)
  {
    [r.dw0, r.dw1, r.dw2, PackDw3(r.cid, tag, r.status)]
  }

  datatype Step =
    | Submit(cmd: Cmd)     // admin_enqueue_command
    | Fetch                // device
    | Post(reply: Reply)   // device
    | FreeSlot(k: nat)     // admin_sq_mark_cleanup by the submitter of command k
    | FreeCpl(j: nat)      // admin_cq_mark_cleanup of posted completion j

  predicate SqRetired(w: World, k: nat) { k < w.h || k in w.sm }
  predicate CqRetired(w: World, j: nat) { j < w.c || j in w.cm }

  /** A command outstanding and not yet cleaned: its slot and id are in use. */
  predicate Live(w: World, k: nat) {
    LiveIn(w.h, w.sm, |w.cmds|, k)
  }

  predicate LiveIn(h: nat, sm: set<nat>, T: nat, k: nat) {
    h <= k < T && k !in sm
  }

  /** What is asked of a step. Commands leave the id field of dword 0 to the driver;
      nobody cleans a slot it has not been given, or cleans it twice. */
  predicate Enabled(w: World, st: Step)
    requires ValidQueues(w.q)
  {
    match st
    case Submit(cmd) => cmd[0] < 0x1_0000
    case Fetch => w.dev.sqHead != w.q.sq.db
    case Post(r) => ValidReply(r) && w.dev.cqTail < w.q.cq.qs && NextSlot(w.dev.cqTail, w.q.cq.qs) != w.q.cq.db
    case FreeSlot(k) => k < |w.cmds| && !SqRetired(w, k)
    case FreeCpl(j) => j < |w.cpls| && !CqRetired(w, j)
  }

  ghost function DoSubmit(w: World, cmd: Cmd): (w': World)
    requires ValidQueues(w.q)
    ensures ValidQueues(w'.q)
  {
    var e := Enqueue(w.q, cmd);
    if e.ret == -1 then w.(q := e.q)
    else w.(q := e.q, cmds := w.cmds + [e.cmd], owner := w.owner[CidOf(e.cmd) := |w.cmds|])
  }

  ghost function DoFetch(w: World): (w': World)
    requires ValidQueues(w.q) && w.dev.sqHead < w.q.sq.qs
    ensures ValidQueues(w'.q)
  {
    w.(fetched := w.fetched + [w.q.sq.slots[w.dev.sqHead]],
       dev := w.dev.(sqHead := NextSlot(w.dev.sqHead, w.q.sq.qs)))
  }

  ghost function DoPost(w: World, r: Reply): (w': World)
    requires ValidQueues(w.q) && ValidReply(r) && w.dev.cqTail < w.q.cq.qs
    ensures ValidQueues(w'.q)
  {
    var cpl := MakeCpl(r, w.dev.tag);
    var tail' := NextSlot(w.dev.cqTail, w.q.cq.qs);
    w.(q := w.q.(cq := w.q.cq.(slots := w.q.cq.slots[w.dev.cqTail := cpl])),
       cpls := w.cpls + [cpl],
       dev := w.dev.(cqTail := tail', tag := if tail' == 0 then !w.dev.tag else w.dev.tag))
  }

  ghost function DoFreeSlot(w: World, k: nat): (w': World)
    requires ValidQueues(w.q) && k < |w.cmds|
    ensures ValidQueues(w'.q)
  {
    var p := SweepIndices(w.h, w.sm + {k});
    w.(q := CleanSq(w.q, Slot(k, w.q.sq.qs)), h := p.head, sm := p.marked, owner := w.owner - {CidOf(w.cmds[k])})
  }

  ghost function DoFreeCpl(w: World, j: nat): (w': World)
    requires ValidQueues(w.q)
    ensures ValidQueues(w'.q)
  {
    var p := SweepIndices(w.c, w.cm + {j});
    w.(q := CleanCq(w.q, Slot(j, w.q.cq.qs)), c := p.head, cm := p.marked)
  }

  ghost function Next(w: World, st: Step): (w': World)
    requires ValidQueues(w.q) && w.dev.sqHead < w.q.sq.qs && Enabled(w, st)
    ensures ValidQueues(w'.q)
  {
    match st
    case Submit(cmd) => DoSubmit(w, cmd)
    case Fetch => DoFetch(w)
    case Post(r) => DoPost(w, r)
    case FreeSlot(k) => DoFreeSlot(w, k)
    case FreeCpl(j) => DoFreeCpl(w, j)
  }

  // ---------- the invariant ----------

  /** The submission ring holds exactly the commands from H up to T. */
  ghost predicate SqInv(sq: Ring<Cmd>, cmds: seq<Cmd>, h: nat, sm: set<nat>) {
    var T := |cmds|;
    && Refines(sq, h, sm) && h !in sm
    && (forall k | k in sm :: k < T)
    && h <= T < h + sq.qs
    && sq.tail == Slot(T, sq.qs) && sq.db == sq.tail
    && (forall k | h <= k < T :: sq.slots[Slot(k, sq.qs)] == cmds[k])
  }

  /** The taken command ids correspond one to one to the live commands. */
  ghost predicate CidInv(cids: seq<bool>, cmds: seq<Cmd>, h: nat, sm: set<nat>, owner: map<nat, nat>) {
    && |cids| == MAX_CMD
    && (forall k: nat | LiveIn(h, sm, |cmds|, k) :: CidOf(cmds[k]) in owner && owner[CidOf(cmds[k])] == k)
    && (forall cid | cid in owner ::
          cid < MAX_CMD && LiveIn(h, sm, |cmds|, owner[cid]) && CidOf(cmds[owner[cid]]) == cid)
    && (forall cid | 0 <= cid < MAX_CMD :: cids[cid] <==> cid in owner)
  }

  /** The completion ring holds the completions from C up to P, and the phase tags tell
      them from what is left over from the pass before. */
  ghost predicate CqInv(cq: Ring<Cpl>, cpls: seq<Cpl>, c: nat, cm: set<nat>) {
    var P := |cpls|;
    && Refines(cq, c, cm) && c !in cm
    && (forall j | j in cm :: j < P)
    && c <= P < c + cq.qs
    && cq.db == cq.head
    && (forall j | c <= j < P :: cq.slots[Slot(j, cq.qs)] == cpls[j])
    && TagsTell(cq, P, c)
  }

  ghost predicate TagsTell(cq: Ring<Cpl>, P: nat, c: nat)
    requires Shape(cq)
  {
    forall j | c <= j < c + cq.qs :: CplTag(cq.slots[Slot(j, cq.qs)]) <==> (Lap(j, cq.qs) == (j < P))
  }

  ghost predicate DevInv(dev: Device, qs: nat, T: nat, F: nat, P: nat)
    requires qs > 0
  {
    && dev.sqHead == Slot(F, qs) && F <= T
    && dev.cqTail == Slot(P, qs) && dev.tag == Lap(P, qs)
  }

  ghost predicate Inv(w: World) {
    && ValidQueues(w.q)
    && SqInv(w.q.sq, w.cmds, w.h, w.sm)
    && CidInv(w.q.cids, w.cmds, w.h, w.sm, w.owner)
    && CqInv(w.q.cq, w.cpls, w.c, w.cm)
    && DevInv(w.dev, w.q.sq.qs, |w.cmds|, |w.fetched|, |w.cpls|)
  }

  lemma ZeroTag()
    ensures !CplTag(ZERO_CPL)
  {
    Pow2Values();
    ShrIsDiv(0, 16);
  }

  lemma InitInv(qs: nat)
    requires 1 <= qs <= 4096
    ensures Inv(Init(qs))
  {
    var w := Init(qs);
    ZeroTag();
    forall j: nat | j < qs
      ensures !CplTag(w.q.cq.slots[Slot(j, qs)]) && Lap(j, qs)
    {
      SlotOffset(0, j, qs);
    }
  }

  // ---------- command ids never run out ----------

  /** The commands outstanding and not yet cleaned. */
  ghost function LiveSet(h: nat, sm: set<nat>, T: nat): (s: set<nat>)
    ensures forall k: nat :: k in s <==> LiveIn(h, sm, T, k)
  {
    set k | k in Below(T) && LiveIn(h, sm, T, k)
  }

  lemma LiveCount(h: nat, sm: set<nat>, T: nat)
    requires h <= T && forall k | k in sm :: h <= k < T
    ensures |LiveSet(h, sm, T)| == T - h - |sm|
  {
    var live := LiveSet(h, sm, T);
    assert Below(T) == live + sm + Below(h);
    assert live !! sm && live + sm !! Below(h);
  }

  lemma OwnedIsLive(cids: seq<bool>, cmds: seq<Cmd>, h: nat, sm: set<nat>, owner: map<nat, nat>)
    requires CidInv(cids, cmds, h, sm, owner)
    ensures |owner| == |LiveSet(h, sm, |cmds|)|
  {
    var live := LiveSet(h, sm, |cmds|);
    forall v: nat ensures v in live <==> exists a :: a in owner && owner[a] == v {
      if v in live {
        assert CidOf(cmds[v]) in owner && owner[CidOf(cmds[v])] == v;
      }
    }
    InjectiveImage(owner, live);
  }

  /** As many command ids are taken as there are live commands, fewer than the ring has
      slots. */
  lemma TakenIsLive(w: World)
    requires Inv(w)
    ensures |w.owner| == |w.cmds| - w.h - |w.sm| < w.q.sq.qs
  {
    OwnedIsLive(w.q.cids, w.cmds, w.h, w.sm, w.owner);
    LiveCount(w.h, w.sm, |w.cmds|);
  }

  /** A command id is always free: an enqueue is never refused for want of one. */
  lemma CidAvailable(w: World)
    requires Inv(w)
    ensures FirstFree(w.q.cids, 0) < MAX_CMD
  {
    TakenIsLive(w);
    if FirstFree(w.q.cids, 0) == MAX_CMD {
      assert Below(MAX_CMD) <= w.owner.Keys by {
        forall cid | cid in Below(MAX_CMD) ensures cid in w.owner {
          assert w.q.cids[cid];
        }
      }
      SubsetSize(Below(MAX_CMD), w.owner.Keys);
    }
  }

  // ---------- every step keeps the invariant ----------

  lemma OccupancyIs(w: World)
    requires Inv(w)
    ensures Occupancy(w.q.sq.head, w.q.sq.tail, w.q.sq.qs) == |w.cmds| - w.h
  {
    SlotOffset(w.h, |w.cmds| - w.h, w.q.sq.qs);
  }

  /** An enqueue is refused exactly when the test takes the ring for full: command ids do
      not run out before. */
  lemma RefusedIffSeemsFull(w: World, cmd: Cmd)
    requires Inv(w)
    ensures Enqueue(w.q, cmd).ret == -1 <==> SeemsFull(w.q.sq.head, w.q.sq.tail, w.q.sq.qs)
  {
    CidAvailable(w);
  }

  /** Where the test is exact, that is when qs - 1 commands are outstanding; so in a ring
      of one slot, always. */
  lemma RefusedIffFull(w: World, cmd: Cmd)
    requires Inv(w) && FullTestExact(w.q.sq.head, w.q.sq.tail, w.q.sq.qs)
    ensures Enqueue(w.q, cmd).ret == -1 <==> |w.cmds| == w.h + w.q.sq.qs - 1
  {
    OccupancyIs(w);
    CidAvailable(w);
  }

  lemma SubmitInv(w: World, cmd: Cmd)
    requires Inv(w) && Enabled(w, Submit(cmd))
    requires FullTestExact(w.q.sq.head, w.q.sq.tail, w.q.sq.qs)
    ensures Inv(DoSubmit(w, cmd))
  {
    RefusedIffFull(w, cmd);
    if Enqueue(w.q, cmd).ret != -1 {
      AcceptedInv(w, cmd);
    }
  }

  /** An enqueue keeps the invariant exactly unless the ring is full and the test does not
      say so. */
  lemma SubmitInvIff(w: World, cmd: Cmd)
    requires Inv(w) && Enabled(w, Submit(cmd))
    ensures var sq := w.q.sq;
            Inv(DoSubmit(w, cmd))
            <==> (Occupancy(sq.head, sq.tail, sq.qs) == sq.qs - 1 ==> SeemsFull(sq.head, sq.tail, sq.qs))
  {
    OccupancyIs(w);
    CidAvailable(w);
    if Enqueue(w.q, cmd).ret != -1 && |w.cmds| + 1 < w.h + w.q.sq.qs {
      AcceptedInv(w, cmd);
    }
  }

  lemma AcceptedInv(w: World, cmd: Cmd)
    requires Inv(w) && cmd[0] < 0x1_0000 && Enqueue(w.q, cmd).ret != -1 && |w.cmds| + 1 < w.h + w.q.sq.qs
    ensures Inv(DoSubmit(w, cmd))
  {
    var cid := FirstFree(w.q.cids, 0);
    SubmitSqInv(w.q.sq, w.cmds, w.h, w.sm, Stamp(cmd, cid));
    StampCidReads(cmd[0], cid);
    SubmitCidInv(w.q.cids, w.cmds, w.h, w.sm, w.owner, Stamp(cmd, cid), cid);
  }

  lemma SubmitSqInv(sq: Ring<Cmd>, cmds: seq<Cmd>, h: nat, sm: set<nat>, cmd: Cmd)
    requires SqInv(sq, cmds, h, sm) && |cmds| + 1 < h + sq.qs
    ensures var tail' := NextSlot(sq.tail, sq.qs);
            SqInv(sq.(slots := sq.slots[sq.tail := cmd], tail := tail', db := tail'), cmds + [cmd], h, sm)
  {
    var T := |cmds|;
    SlotOffset(T, 1, sq.qs);
    forall k | h <= k < T ensures Slot(k, sq.qs) != Slot(T, sq.qs) {
      if Slot(k, sq.qs) == Slot(T, sq.qs) {
        SlotInjective(h, k, T, sq.qs);
      }
    }
  }

  lemma SubmitCidInv(cids: seq<bool>, cmds: seq<Cmd>, h: nat, sm: set<nat>, owner: map<nat, nat>, cmd: Cmd, cid: nat)
    requires CidInv(cids, cmds, h, sm, owner)
    requires cid < MAX_CMD && !cids[cid] && CidOf(cmd) == cid
    requires h <= |cmds| && |cmds| !in sm
    ensures CidInv(cids[cid := true], cmds + [cmd], h, sm, owner[cid := |cmds|])
  {
    var T := |cmds|;
    var cmds' := cmds + [cmd];
    var owner' := owner[cid := T];
    assert cid !in owner;
    forall k: nat | LiveIn(h, sm, T + 1, k) ensures CidOf(cmds'[k]) in owner' && owner'[CidOf(cmds'[k])] == k {
      if k < T {
        assert LiveIn(h, sm, T, k);
      }
    }
    forall d | d in owner'
      ensures d < MAX_CMD && LiveIn(h, sm, T + 1, owner'[d]) && CidOf(cmds'[owner'[d]]) == d
    {
      if d != cid {
        assert LiveIn(h, sm, T, owner[d]);
      }
    }
  }

  lemma FetchInv(w: World)
    requires Inv(w) && Enabled(w, Fetch)
    ensures Inv(DoFetch(w))
  {
    SlotOffset(|w.fetched|, 1, w.q.sq.qs);
  }

  /** The device's own test leaves one completion slot free. */
  lemma RoomToPost(cq: Ring<Cpl>, cpls: seq<Cpl>, c: nat, cm: set<nat>)
    requires CqInv(cq, cpls, c, cm)
    ensures NextSlot(Slot(|cpls|, cq.qs), cq.qs) != cq.db <==> |cpls| + 1 < c + cq.qs
  {
    var P := |cpls|;
    SlotOffset(P, 1, cq.qs);
    SlotOffset(c, P + 1 - c, cq.qs);
  }

  lemma PostInv(w: World, r: Reply)
    requires Inv(w) && Enabled(w, Post(r))
    ensures Inv(DoPost(w, r))
  {
    RoomToPost(w.q.cq, w.cpls, w.c, w.cm);
    SlotOffset(|w.cpls|, 1, w.q.cq.qs);
    Dw3RoundTrip(r.cid, w.dev.tag, r.status);
    PostCqInv(w.q.cq, w.cpls, w.c, w.cm, MakeCpl(r, w.dev.tag));
  }

  lemma PostCqInv(cq: Ring<Cpl>, cpls: seq<Cpl>, c: nat, cm: set<nat>, cpl: Cpl)
    requires CqInv(cq, cpls, c, cm) && |cpls| + 1 < c + cq.qs && CplTag(cpl) == Lap(|cpls|, cq.qs)
    ensures CqInv(cq.(slots := cq.slots[Slot(|cpls|, cq.qs) := cpl]), cpls + [cpl], c, cm)
  {
    var P := |cpls|;
    forall j | c <= j < c + cq.qs && j != P ensures Slot(j, cq.qs) != Slot(P, cq.qs) {
      if Slot(j, cq.qs) == Slot(P, cq.qs) {
        SlotInjective(c, j, P, cq.qs);
      }
    }
  }

  lemma FreeSlotInv(w: World, k: nat)
    requires Inv(w) && Enabled(w, FreeSlot(k))
    ensures Inv(DoFreeSlot(w, k))
  {
    FreeSlotSqInv(w.q.sq, w.cmds, w.h, w.sm, k);
    FreeSlotCidInv(w.q.cids, w.cmds, w.h, w.sm, w.owner, k);
  }

  lemma FreeSlotSqInv(sq: Ring<Cmd>, cmds: seq<Cmd>, h: nat, sm: set<nat>, k: nat)
    requires SqInv(sq, cmds, h, sm) && LiveIn(h, sm, |cmds|, k)
    ensures var p := SweepIndices(h, sm + {k});
            SqInv(Retire(sq, Slot(k, sq.qs)), cmds, p.head, p.marked)
  {
    RetireRefines(sq, h, sm, k);
    assert |cmds| !in sm + {k};
  }

  lemma FreeSlotCidInv(cids: seq<bool>, cmds: seq<Cmd>, h: nat, sm: set<nat>, owner: map<nat, nat>, k: nat)
    requires CidInv(cids, cmds, h, sm, owner) && LiveIn(h, sm, |cmds|, k)
    ensures var p := SweepIndices(h, sm + {k});
            var cid := CidOf(cmds[k]);
            CidInv(cids[cid := false], cmds, p.head, p.marked, owner - {cid})
  {
    var p := SweepIndices(h, sm + {k});
    forall i: nat ensures LiveIn(p.head, p.marked, |cmds|, i) <==> LiveIn(h, sm, |cmds|, i) && i != k {
      assert h <= i < p.head ==> i in sm + {k};
    }
  }

  lemma FreeCplInv(w: World, j: nat)
    requires Inv(w) && Enabled(w, FreeCpl(j))
    ensures Inv(DoFreeCpl(w, j))
  {
    FreeCplCqInv(w.q.cq, w.cpls, w.c, w.cm, j);
  }

  lemma FreeCplCqInv(cq: Ring<Cpl>, cpls: seq<Cpl>, c: nat, cm: set<nat>, j: nat)
    requires CqInv(cq, cpls, c, cm) && c <= j < |cpls|
    ensures var p := SweepIndices(c, cm + {j});
            CqInv(RetireAndRing(cq, Slot(j, cq.qs)), cpls, p.head, p.marked)
  {
    var p := SweepIndices(c, cm + {j});
    DoorbellFollowsHead(cq, c, cm, j);
    assert |cpls| !in cm + {j};
    TagsStillTell(cq, |cpls|, c, p.head);
    assert RetireAndRing(cq, Slot(j, cq.qs)).slots == cq.slots;
  }

  /** A slot passed by the head carries the tag of the pass that is over. */
  lemma TagsStillTell(cq: Ring<Cpl>, P: nat, c: nat, c': nat)
    requires Shape(cq) && TagsTell(cq, P, c) && c <= c' <= P < c + cq.qs
    ensures TagsTell(cq, P, c')
  {
    forall i | c + cq.qs <= i < c' + cq.qs
      ensures CplTag(cq.slots[Slot(i, cq.qs)]) <==> (Lap(i, cq.qs) == (i < P))
    {
      SlotOffset(i - cq.qs, cq.qs, cq.qs);
    }
  }

  lemma NextInv(w: World, st: Step)
    requires Inv(w) && Enabled(w, st)
    requires st.Submit? ==> FullTestExact(w.q.sq.head, w.q.sq.tail, w.q.sq.qs)
    ensures Inv(Next(w, st))
  {
    match st
    case Submit(cmd) => SubmitInv(w, cmd);
    case Fetch => FetchInv(w);
    case Post(r) => PostInv(w, r);
    case FreeSlot(k) => FreeSlotInv(w, k);
    case FreeCpl(j) => FreeCplInv(w, j);
  }

  // ---------- runs ----------

  ghost function TryStep(w: World, st: Step): Runs.Option<World> {
    if ValidQueues(w.q) && w.dev.sqHead < w.q.sq.qs && Enabled(w, st) then Runs.Some(Next(w, st)) else Runs.None
  }

  /** The steps are each enabled in turn, and lead from w to w'. */
  ghost predicate Run(w: World, steps: seq<Step>, w': World) {
    Runs.Leads(TryStep, w, steps, w')
  }

  lemma SizeFixed(w: World, st: Step)
    requires ValidQueues(w.q) && w.dev.sqHead < w.q.sq.qs && Enabled(w, st)
    ensures Next(w, st).q.sq.qs == w.q.sq.qs
  {
  }

  lemma {:induction false} RunInv(w: World, steps: seq<Step>, w': World)
    requires Inv(w) && 65536 % w.q.sq.qs == 0 && Run(w, steps, w')
    ensures Inv(w') && w'.q.sq.qs == w.q.sq.qs
    decreases |steps|
  {
    if steps != [] {
      FullTestExactAtIff(w.q.sq.head, w.q.sq.tail, w.q.sq.qs);
      NextInv(w, steps[0]);
      SizeFixed(w, steps[0]);
      RunInv(Next(w, steps[0]), steps[1..], w');
    }
  }

  /** Ring refinement over every run, for the ring sizes that divide 65536: the wrapped
      fields are the unbounded counters modulo the ring size, the phases are the parities
      of the completed passes, the doorbells agree with the fields, and neither ring is
      ever over-full. */
  lemma RingRefinement(qs: nat, steps: seq<Step>, w: World)
    requires 1 <= qs <= 4096 && 65536 % qs == 0
    requires Run(Init(qs), steps, w)
    ensures var sq, cq := w.q.sq, w.q.cq;
            && ValidQueues(w.q) && sq.qs == cq.qs == qs
            && sq.tail == |w.cmds| % qs && sq.db == sq.tail
            && sq.head == w.h % qs && (sq.phase <==> (w.h / qs) % 2 == 0)
            && cq.head == w.c % qs && (cq.phase <==> (w.c / qs) % 2 == 0) && cq.db == cq.head
            && w.dev.sqHead == |w.fetched| % qs && w.dev.cqTail == |w.cpls| % qs
            && (w.dev.tag <==> (|w.cpls| / qs) % 2 == 0)
            && w.h <= |w.cmds| <= w.h + qs - 1
            && w.c <= |w.cpls| <= w.c + qs - 1
            && |w.fetched| <= |w.cmds|
  {
    InitInv(qs);
    RunInv(Init(qs), steps, w);
    SlotIsMod(|w.cmds|, qs);
    SlotIsMod(w.h, qs);
    SlotIsMod(w.c, qs);
    SlotIsMod(|w.fetched|, qs);
    SlotIsMod(|w.cpls|, qs);
  }

  // ---------- the command-id ledger ----------

  ghost function TakenCids(cids: seq<bool>): (s: set<nat>)
    ensures forall cid :: cid in s <==> 0 <= cid < |cids| && cids[cid]
  {
    set cid | cid in Below(|cids|) && cids[cid]
  }

  /** The command id in the slot of command k. */
  function IdInSlot(w: World, k: nat): nat
    requires ValidQueues(w.q)
  {
    CidOf(w.q.sq.slots[Slot(k, w.q.sq.qs)])
  }

  lemma IdInLiveSlot(w: World, k: nat)
    requires Inv(w) && Live(w, k)
    ensures IdInSlot(w, k) in w.owner && w.owner[IdInSlot(w, k)] == k && w.q.cids[IdInSlot(w, k)]
  {
    assert CidOf(w.cmds[k]) in w.owner;
  }

  /** The taken entries of `cid[]` and the live submission slots correspond one to one
      through dword 0 of the slots, and there are as many of the one as of the other. */
  lemma CidLedger(w: World)
    requires Inv(w)
    ensures forall k: nat | Live(w, k) :: w.q.cids[IdInSlot(w, k)]
    ensures forall k: nat, i: nat | Live(w, k) && Live(w, i) && k != i :: IdInSlot(w, k) != IdInSlot(w, i)
    ensures forall cid | 0 <= cid < MAX_CMD && w.q.cids[cid] :: exists k: nat :: Live(w, k) && IdInSlot(w, k) == cid
    ensures |TakenCids(w.q.cids)| == |LiveSet(w.h, w.sm, |w.cmds|)| == |w.cmds| - w.h - |w.sm|
  {
    forall k: nat | Live(w, k)
      ensures w.q.cids[IdInSlot(w, k)] && IdInSlot(w, k) in w.owner && w.owner[IdInSlot(w, k)] == k
    {
      IdInLiveSlot(w, k);
    }
    forall cid | 0 <= cid < MAX_CMD && w.q.cids[cid]
      ensures exists k: nat :: Live(w, k) && IdInSlot(w, k) == cid
    {
      assert Live(w, w.owner[cid]) && IdInSlot(w, w.owner[cid]) == cid;
    }
    TakenCount(w);
  }

  lemma TakenCount(w: World)
    requires Inv(w)
    ensures |TakenCids(w.q.cids)| == |LiveSet(w.h, w.sm, |w.cmds|)| == |w.cmds| - w.h - |w.sm|
  {
    assert TakenCids(w.q.cids) == w.owner.Keys;
    OwnedIsLive(w.q.cids, w.cmds, w.h, w.sm, w.owner);
    LiveCount(w.h, w.sm, |w.cmds|);
  }

  // ---------- live slots stay as they are ----------

  lemma LiveStep(w: World, st: Step, k: nat)
    requires Inv(w) && Enabled(w, st) && Live(w, k) && st != FreeSlot(k)
    requires st.Submit? ==> FullTestExact(w.q.sq.head, w.q.sq.tail, w.q.sq.qs)
    ensures Live(Next(w, st), k) && Next(w, st).cmds[k] == w.cmds[k]
  {
    if st.FreeSlot? {
      var p := SweepIndices(w.h, w.sm + {st.k});
      assert k !in w.sm + {st.k};
    }
  }

  /** Until its submitter cleans it, a command's slot is never written again, whatever
      the other callers and the device do: the command read back then is the one put
      there, its id is still taken on its behalf, and cleaning frees exactly that id. */
  lemma {:induction false} LiveSlotStable(w: World, steps: seq<Step>, w': World, k: nat)
    requires Inv(w) && 65536 % w.q.sq.qs == 0 && Run(w, steps, w')
    requires Live(w, k) && FreeSlot(k) !in steps
    ensures ValidQueues(w'.q) && w'.q.sq.qs == w.q.sq.qs && k < |w'.cmds|
    ensures var l := Slot(k, w.q.sq.qs);
            var cid := CidOf(w.q.sq.slots[l]);
            && Live(w', k) && w'.q.sq.slots[l] == w.q.sq.slots[l] == w.cmds[k]
            && w'.q.cids[cid] && cid in w'.owner && w'.owner[cid] == k
            && CleanSq(w'.q, l).cids == w'.q.cids[cid := false]
    decreases |steps|
  {
    FullTestExactAtIff(w.q.sq.head, w.q.sq.tail, w.q.sq.qs);
    if steps != [] {
      var w1 := Next(w, steps[0]);
      assert steps[0] in steps;
      LiveStep(w, steps[0], k);
      NextInv(w, steps[0]);
      SizeFixed(w, steps[0]);
      LiveSlotStable(w1, steps[1..], w', k);
      assert w.q.sq.slots[Slot(k, w.q.sq.qs)] == w.cmds[k];
    }
  }

  // ---------- what a poll means ----------

  /** In the stretch from the head to the end of the ring, the driver's phase tells the
      posted completions from the stale ones. */
  lemma PhaseTagSound(cq: Ring<Cpl>, cpls: seq<Cpl>, c: nat, cm: set<nat>, l: nat)
    requires CqInv(cq, cpls, c, cm) && cq.head <= l < cq.qs
    ensures var j := c + (l - cq.head);
            && Slot(j, cq.qs) == l
            && (CplTag(cq.slots[l]) == cq.phase <==> j < |cpls|)
            && (j < |cpls| ==> cq.slots[l] == cpls[j])
  {
    SlotOffset(c, l - cq.head, cq.qs);
  }

  /** Completion j is posted, not retired past, and answers the asked id. */
  ghost predicate Carries(cpls: seq<Cpl>, c: nat, j: nat, cid: nat) {
    c <= j < |cpls| && CplCid(cpls[j]) == cid
  }

  lemma HitIsCarries(cq: Ring<Cpl>, cpls: seq<Cpl>, c: nat, cm: set<nat>, cid: nat, l: nat)
    requires CqInv(cq, cpls, c, cm) && cq.head <= l < cq.qs
    ensures Hit(cq, cid, l) <==> Carries(cpls, c, c + (l - cq.head), cid)
  {
    PhaseTagSound(cq, cpls, c, cm, l);
  }

  /** From hits at slots to completions at logical indices. */
  lemma ScanMeans(cq: Ring<Cpl>, cpls: seq<Cpl>, c: nat, cid: nat)
    requires Shape(cq)
    requires forall l | cq.head <= l < cq.qs :: Hit(cq, cid, l) <==> Carries(cpls, c, c + (l - cq.head), cid)
    ensures var ret := PollFrom(cq, cid, cq.head);
            && (ret == -1 <==> forall j | c <= j < c + (cq.qs - cq.head) :: !Carries(cpls, c, j, cid))
            && (ret != -1 ==>
                  && Carries(cpls, c, c + (ret - cq.head), cid)
                  && forall i | c <= i < c + (ret - cq.head) :: !Carries(cpls, c, i, cid))
  {
    forall j | c <= j < c + (cq.qs - cq.head)
      ensures Carries(cpls, c, j, cid) <==> Hit(cq, cid, cq.head + (j - c))
    {
      assert cq.head <= cq.head + (j - c) < cq.qs;
    }
  }

  lemma PollIn(cq: Ring<Cpl>, cpls: seq<Cpl>, c: nat, cm: set<nat>, cid: nat)
    requires CqInv(cq, cpls, c, cm)
    ensures var ret := PollFrom(cq, cid, cq.head);
            && (ret == -1 <==> forall j | c <= j < c + (cq.qs - cq.head) :: !Carries(cpls, c, j, cid))
            && (ret != -1 ==>
                  && Carries(cpls, c, c + (ret - cq.head), cid)
                  && forall i | c <= i < c + (ret - cq.head) :: !Carries(cpls, c, i, cid))
  {
    forall l | cq.head <= l < cq.qs
      ensures Hit(cq, cid, l) <==> Carries(cpls, c, c + (l - cq.head), cid)
    {
      HitIsCarries(cq, cpls, c, cm, cid, l);
    }
    ScanMeans(cq, cpls, c, cid);
  }

  /** The end of the stretch a poll looks at: it does not go past the last slot. */
  ghost function ScanEnd(w: World): (e: nat)
    requires ValidQueues(w.q)
  {
    w.c + (w.q.cq.qs - w.q.cq.head)
  }

  /** The completion that a poll result stands for. */
  ghost function IndexOfHit(w: World, ret: nat): nat
    requires ValidQueues(w.q) && w.q.cq.head <= ret
  {
    w.c + (ret - w.q.cq.head)
  }

  /** A poll returns the slot of the first posted, unretired completion with the asked
      id that lies before the end of the ring, and -1 exactly when there is none. */
  lemma PollMeans(w: World, cid: nat)
    requires Inv(w)
    ensures var ret := Poll(w.q, cid);
            && (ret == -1 <==> forall j | w.c <= j < ScanEnd(w) :: !Carries(w.cpls, w.c, j, cid))
            && (ret != -1 ==>
                  && Carries(w.cpls, w.c, IndexOfHit(w, ret), cid)
                  && forall i | w.c <= i < IndexOfHit(w, ret) :: !Carries(w.cpls, w.c, i, cid))
  {
    PollIn(w.q.cq, w.cpls, w.c, w.cm, cid);
    var ret := Poll(w.q, cid);
    assert ret != -1 ==> IndexOfHit(w, ret) == w.c + (ret - w.q.cq.head);
  }

  /** The slot a poll returns holds that completion. */
  lemma PollSlot(w: World, cid: nat)
    requires Inv(w) && Poll(w.q, cid) != -1
    ensures var ret := Poll(w.q, cid);
            var j := IndexOfHit(w, ret);
            j < ScanEnd(w) && j < |w.cpls| && ret == Slot(j, w.q.cq.qs) && w.q.cq.slots[ret] == w.cpls[j]
  {
    var ret := Poll(w.q, cid);
    HitIsCarries(w.q.cq, w.cpls, w.c, w.cm, cid, ret);
    PhaseTagSound(w.q.cq, w.cpls, w.c, w.cm, ret);
  }
}

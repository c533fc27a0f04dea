/** The I/O queue operations put through the admin rings: their commands, stamped with
    ids and fetched by the device one after the other, do to the device what `IoQueues`
    and `IoAdmin` say of the commands as the driver built them. */
module IoOverRings {
  import opened Words
  import opened AdminQueue
  import Runs
  import opened Callers
  import opened Transactions
  import opened IoQueues
  import opened IoAdmin

  /** The device after it has carried out the commands in the order it fetched them. */
  function CarryAll(d: IoDevice, cmds: seq<Cmd>): IoDevice {
    if cmds == [] then d else Carry(CarryAll(d, cmds[..|cmds| - 1]), cmds[|cmds| - 1])
  }

  function Commands(rs: seq<Request>): (cmds: seq<Cmd>)
    ensures |cmds| == |rs| && forall i | 0 <= i < |rs| :: cmds[i] == rs[i].cmd
  {
    seq(|rs|, i requires 0 <= i < |rs| => rs[i].cmd)
  }

  /** Appending commands, each possibly stamped with an id, appends what they do. */
  lemma {:induction false} CarryStamped(d: IoDevice, before: seq<Cmd>, cmds: seq<Cmd>, all: seq<Cmd>)
    requires |all| == |before| + |cmds| && before <= all
    requires forall i | 0 <= i < |cmds| :: all[|before| + i] == Stamp(cmds[i], 0)
    ensures CarryAll(d, all) == CarryAll(CarryAll(d, before), cmds)
    decreases |cmds|
  {
    if cmds == [] {
      assert all == before;
    } else {
      var n := |cmds| - 1;
      CarryStamped(d, before, cmds[..n], all[..|all| - 1]);
      StampCarries(CarryAll(d, all[..|all| - 1]), cmds[n], 0);
    }
  }

  /** What the device fetched over a series of transactions has the effect of the
      commands asked for. */
  lemma DeviceCarries(d: IoDevice, s: System, s': System, rs: seq<Request>)
    requires Quiescent(s) && Quiescent(s') && AllAnswered(s, s', rs)
    ensures CarryAll(d, s'.w.fetched) == CarryAll(CarryAll(d, s.w.fetched), Commands(rs))
  {
    assert s.w.fetched == s.w.cmds && s'.w.fetched == s'.w.cmds;
    forall i | 0 <= i < |rs| ensures s'.w.cmds[|s.w.cmds| + i] == Stamp(rs[i].cmd, 0) {
      assert Answered(s, s', rs, i);
    }
    CarryStamped(d, s.w.cmds, Commands(rs), s'.w.cmds);
  }

  /** The rings are at rest, the device's queues are what the fetched commands made of
      them, and the driver's record of the pairs agrees with them. */
  ghost predicate Together(s: System, io: Io) {
    Quiescent(s) && s.w.q.sq.qs >= 2 && AtRest(io) && io.dev == CarryAll(NO_QUEUES, s.w.fetched)
  }

  /** The commands that delete the marked pairs from i on. */
  function TeardownCmds(mark: seq<bool>, i: nat): (cmds: seq<Cmd>)
    requires i <= |mark| <= 65535
    ensures forall c | c in cmds :: c[0] < 0x1_0000
    decreases |mark| - i
  {
    if i == |mark| then []
    else (if mark[i] then [DeleteSqCmd(i), DeleteCqCmd(i)] else []) + TeardownCmds(mark, i + 1)
  }

  function CreateCmds(qs: nat, i: nat, cqBase: u64, sqBase: u64): (cmds: seq<Cmd>)
    requires 1 <= qs <= 4096 && i < 65535
    ensures forall c | c in cmds :: c[0] < 0x1_0000
  {
    [CreateCqCmd(qs, i, cqBase), CreateSqCmd(qs, i, sqBase)]
  }

  lemma {:induction false} CarryConcat(d: IoDevice, a: seq<Cmd>, b: seq<Cmd>)
    ensures CarryAll(d, a + b) == CarryAll(CarryAll(d, a), b)
    decreases |b|
  {
    if b == [] {
      assert a + b == a;
    } else {
      assert (a + b)[..|a + b| - 1] == a + b[..|b| - 1];
      CarryConcat(d, a, b[..|b| - 1]);
    }
  }

  lemma CarryTwo(d: IoDevice, a: Cmd, b: Cmd)
    ensures CarryAll(d, [a, b]) == Carry(Carry(d, a), b)
  {
    assert [a, b][..1] == [a] && [a][..0] == [];
    assert CarryAll(d, [a]) == Carry(CarryAll(d, []), a);
  }

  /** Create, as a series of commands. */
  lemma CreateIsCommands(s: Io, i: nat, a: u64, b: u64)
    requires Sized(s) && Create(s).1 == Runs.Some(i) && a == s.bus(s.issued) && b == s.bus(s.issued + 1)
    ensures Create(s).0.dev == CarryAll(s.dev, CreateCmds(s.qs, i, a, b))
  {
    CreateDoes(s, i);
    CarryTwo(s.dev, CreateCqCmd(s.qs, i, a), CreateSqCmd(s.qs, i, b));
  }

  /** The delete loop, as a series of commands. */
  lemma {:induction false} TeardownIsCommands(s: Io, i: nat)
    requires Sized(s) && i <= s.supported
    ensures DeleteFrom(s, i).dev == CarryAll(s.dev, TeardownCmds(s.mark, i))
    decreases s.supported - i
  {
    if i < s.supported {
      var s1 := Delete(s, i);
      TeardownIsCommands(s1, i + 1);
      SameTeardown(s.mark, s1.mark, i + 1);
      if s.mark[i] {
        CarryTwo(s.dev, DeleteSqCmd(i), DeleteCqCmd(i));
        CarryConcat(s.dev, [DeleteSqCmd(i), DeleteCqCmd(i)], TeardownCmds(s.mark, i + 1));
      } else {
        assert [] + TeardownCmds(s.mark, i + 1) == TeardownCmds(s.mark, i + 1);
      }
    }
  }

  lemma {:induction false} SameTeardown(a: seq<bool>, b: seq<bool>, i: nat)
    requires |a| == |b| <= 65535 && i <= |a| && forall j | i <= j < |a| :: a[j] == b[j]
    ensures TeardownCmds(a, i) == TeardownCmds(b, i)
    decreases |a| - i
  {
    if i < |a| {
      SameTeardown(a, b, i + 1);
    }
  }

  /** The commands are the given ones. The replies may be anything: the driver does not
      look at them. */
  ghost predicate Asks(rs: seq<Request>, cmds: seq<Cmd>) {
    Commands(rs) == cmds && forall r | r in rs :: r.status < 0x8000
  }

  lemma AsksIsValid(rs: seq<Request>, cmds: seq<Cmd>)
    requires Asks(rs, cmds) && forall c | c in cmds :: c[0] < 0x1_0000
    ensures forall r | r in rs :: ValidRequest(r)
  {
    forall r | r in rs ensures ValidRequest(r) {
      var i :| 0 <= i < |rs| && rs[i] == r;
      assert Commands(rs)[i] in cmds;
    }
  }

  /** Create over the rings: its two commands are served in turn, and the device then has
      the two queues of the pair beside those it had. */
  lemma CreateOverRings(s: System, io: Io, i: nat, a: u64, b: u64, rs: seq<Request>) returns (s': System)
    requires Sized(io) && Create(io).1 == Runs.Some(i) && a == io.bus(io.issued) && b == io.bus(io.issued + 1)
    requires Asks(rs, CreateCmds(io.qs, i, a, b))
    requires Together(s, io)
    ensures RunCalls(s, AllCalls(rs, |s.w.cmds|), s') && AllAnswered(s, s', rs)
    ensures Together(s', Create(io).0)
    ensures Create(io).0.dev == WithPair(io.dev, i, a, b)
  {
    AsksIsValid(rs, CreateCmds(io.qs, i, a, b));
    s' := Transactions.Transactions(s, rs);
    DeviceCarries(NO_QUEUES, s, s', rs);
    CreateIsCommands(io, i, a, b);
    CreateAtRest(io);
    CreateAddsPair(io);
  }

  /** The teardown over the rings: all its commands are served in turn, and the device is
      left with no I/O queue. */
  lemma TeardownOverRings(s: System, io: Io, rs: seq<Request>) returns (s': System)
    requires Together(s, io) && Asks(rs, TeardownCmds(io.mark, 0))
    ensures RunCalls(s, AllCalls(rs, |s.w.cmds|), s') && AllAnswered(s, s', rs)
    ensures Together(s', DeleteFrom(io, 0)) && DeleteFrom(io, 0).dev == NO_QUEUES
  {
    AsksIsValid(rs, TeardownCmds(io.mark, 0));
    s' := Transactions.Transactions(s, rs);
    DeviceCarries(NO_QUEUES, s, s', rs);
    TeardownIsCommands(io, 0);
    TeardownConserves(io);
  }
}

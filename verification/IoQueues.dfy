/** The I/O queue pairs: `admin_create_io_queue_pair`, `admin_delete_io_queue_pair` and the
    delete loop of `admin_clean`, against a device that keeps to sections 5.3 to 5.6 of
    NVMe 1.4. Creates and deletes may interleave; each admin command is one step, which
    `Transactions` and `Callers` are about. */
module IoQueues {
  import Counting
  import opened Words
  import opened Slots
  import opened AdminQueue
  import opened Runs

  // ---------- the commands and the device ----------

  const DEL_IO_SQ: u32 := 0
  const CRT_IO_SQ: u32 := 1
  const DEL_IO_CQ: u32 := 4
  const CRT_IO_CQ: u32 := 5

  /** `((qs - 1) << 16) | (i + 1)`: queue size and queue id. */
  function SizeAndId(qs: nat, i: nat): u32
    requires 1 <= qs <= 4096 && i < 65535
  {
    Pow2Values();
    ShlIsMul(qs - 1, 16);
    OrDisjoint(qs - 1, i + 1, 16);
    Or(Shl(qs - 1, 16), i + 1)
  }

  /** `((i + 1) << 16) | 0x01`: the completion queue, and "physically contiguous". */
  function CqAndFlags(i: nat): u32
    requires i < 65535
  {
    Pow2Values();
    ShlIsMul(i + 1, 16);
    OrDisjoint(i + 1, 1, 16);
    Or(Shl(i + 1, 16), 1)
  }

  /** The two dwords that an address takes: cut to 32 bits, and shifted down by 32. */
  function Low(addr: u64): u32 {
    addr % 0x1_0000_0000
  }

  function High(addr: u64): u32 {
    Pow2Values();
    ShrIsDiv(addr, 32);
    Shr(addr, 32)
  }

  function CreateCqCmd(qs: nat, i: nat, addr: u64): Cmd
    requires 1 <= qs <= 4096 && i < 65535
  {
    ZERO_CMD[0 := CRT_IO_CQ][6 := Low(addr)][7 := High(addr)][10 := SizeAndId(qs, i)][11 := 0x01]
  }

  function CreateSqCmd(qs: nat, i: nat, addr: u64): Cmd
    requires 1 <= qs <= 4096 && i < 65535
  {
    ZERO_CMD[0 := CRT_IO_SQ][6 := Low(addr)][7 := High(addr)][10 := SizeAndId(qs, i)][11 := CqAndFlags(i)]
  }

  function DeleteSqCmd(i: nat): Cmd
    requires i < 65535
  {
    ZERO_CMD[0 := DEL_IO_SQ][10 := i + 1]
  }

  function DeleteCqCmd(i: nat): Cmd
    requires i < 65535
  {
    ZERO_CMD[0 := DEL_IO_CQ][10 := i + 1]
  }

  /** What the device keeps: the base addresses of the I/O completion queues that exist,
      the I/O submission queues with the completion queue each one names and its base
      address, and how many commands it has had to turn down. */
  datatype IoDevice = IoDevice(cqs: map<nat, nat>, sqs: map<nat, IoSq>, rejected: nat)
  datatype IoSq = IoSq(cq: nat, base: nat)

  const NO_QUEUES := IoDevice(map[], map[], 0)

  function QueueId(cmd: Cmd): nat { And(cmd[10], 0xffff) }
  function NamedCq(cmd: Cmd): nat { Shr(cmd[11], 16) }
  function BaseOf(cmd: Cmd): nat { var high: nat := cmd[7]; cmd[6] + high * 0x1_0000_0000 }

  predicate InUse(d: IoDevice, cq: nat) {
    exists q | q in d.sqs :: d.sqs[q].cq == cq
  }

  function Carry(d: IoDevice, cmd: Cmd): IoDevice {
    var id := QueueId(cmd);
    var op := OpcodeField(cmd[0]);
    if op == CRT_IO_CQ && id != 0 && id !in d.cqs then
      d.(cqs := d.cqs[id := BaseOf(cmd)])
    else if op == CRT_IO_SQ && id != 0 && id !in d.sqs && NamedCq(cmd) in d.cqs then
      d.(sqs := d.sqs[id := IoSq(NamedCq(cmd), BaseOf(cmd))])
    else if op == DEL_IO_SQ && id in d.sqs then
      d.(sqs := d.sqs - {id})
    else if op == DEL_IO_CQ && id in d.cqs && !InUse(d, id) then
      d.(cqs := d.cqs - {id})
    else
      d.(rejected := d.rejected + 1)
  }

  lemma IdOfSizeAndId(qs: nat, i: nat)
    requires 1 <= qs <= 4096 && i < 65535
    ensures And(SizeAndId(qs, i), 0xffff) == i + 1
  {
    Pow2Values();
    ShlIsMul(qs - 1, 16);
    OrDisjoint(qs - 1, i + 1, 16);
    AndMask(SizeAndId(qs, i), 16);
    DivModUnique(SizeAndId(qs, i), 0x1_0000, qs - 1, i + 1);
  }

  lemma IdOfId(i: nat)
    requires i < 65535
    ensures And(i + 1, 0xffff) == i + 1
  {
    Pow2Values();
    AndMask(i + 1, 16);
    DivModUnique(i + 1, 0x1_0000, 0, i + 1);
  }

  lemma CqOfFlags(i: nat)
    requires i < 65535
    ensures Shr(CqAndFlags(i), 16) == i + 1
  {
    Pow2Values();
    ShlIsMul(i + 1, 16);
    OrDisjoint(i + 1, 1, 16);
    ShrIsDiv(CqAndFlags(i), 16);
    DivModUnique(CqAndFlags(i), 0x1_0000, i + 1, 1);
  }

  lemma SmallOpcode(op: nat)
    requires op < 256
    ensures OpcodeField(op) == op
  {
    Pow2Values();
    AndMask(op, 8);
    DivModUnique(op, 256, 0, op);
  }

  lemma BaseReads(addr: u64)
    ensures Low(addr) + High(addr) * 0x1_0000_0000 == addr
  {
    Pow2Values();
    ShrIsDiv(addr, 32);
  }

  /** The device reads from each command the opcode, the queue ids and the buffer address
      the driver meant. */
  lemma CommandFields(qs: nat, i: nat, addr: u64)
    requires 1 <= qs <= 4096 && i < 65535
    ensures OpcodeField(CreateCqCmd(qs, i, addr)[0]) == CRT_IO_CQ
    ensures OpcodeField(CreateSqCmd(qs, i, addr)[0]) == CRT_IO_SQ
    ensures QueueId(CreateCqCmd(qs, i, addr)) == QueueId(CreateSqCmd(qs, i, addr)) == i + 1
    ensures NamedCq(CreateSqCmd(qs, i, addr)) == i + 1
    ensures BaseOf(CreateCqCmd(qs, i, addr)) == BaseOf(CreateSqCmd(qs, i, addr)) == addr
  {
    SmallOpcode(CRT_IO_CQ);
    SmallOpcode(CRT_IO_SQ);
    IdOfSizeAndId(qs, i);
    CqOfFlags(i);
    BaseReads(addr);
  }

  /** The four commands, dword by dword: the opcode in dword 0, the buffer address in dwords
      6 and 7, queue size less one and queue id in dword 10, and in dword 11 that the buffer
      is contiguous, below the completion queue that a submission queue is on. */
  ghost predicate IsCreateCq(cmd: Cmd, qs: nat, i: nat, addr: u64)
    requires 1 <= qs <= 4096 && i < 65535
  {
    cmd == [5, 0, 0, 0, 0, 0, addr % 0x1_0000_0000, addr / 0x1_0000_0000, 0, 0,
            (qs - 1) * 0x1_0000 + (i + 1), 1, 0, 0, 0, 0]
  }

  ghost predicate IsCreateSq(cmd: Cmd, qs: nat, i: nat, addr: u64)
    requires 1 <= qs <= 4096 && i < 65535
  {
    cmd == [1, 0, 0, 0, 0, 0, addr % 0x1_0000_0000, addr / 0x1_0000_0000, 0, 0,
            (qs - 1) * 0x1_0000 + (i + 1), (i + 1) * 0x1_0000 + 1, 0, 0, 0, 0]
  }

  ghost predicate IsDeleteSq(cmd: Cmd, i: nat) {
    cmd == [0, 0, 0, 0, 0, 0, 0, 0, 0, 0, i + 1, 0, 0, 0, 0, 0]
  }

  ghost predicate IsDeleteCq(cmd: Cmd, i: nat) {
    cmd == [4, 0, 0, 0, 0, 0, 0, 0, 0, 0, i + 1, 0, 0, 0, 0, 0]
  }

  lemma PackedWords(qs: nat, i: nat)
    requires 1 <= qs <= 4096 && i < 65535
    ensures SizeAndId(qs, i) == (qs - 1) * 0x1_0000 + (i + 1)
    ensures CqAndFlags(i) == (i + 1) * 0x1_0000 + 1
  {
    Pow2Values();
    ShlIsMul(qs - 1, 16);
    OrDisjoint(qs - 1, i + 1, 16);
    ShlIsMul(i + 1, 16);
    OrDisjoint(i + 1, 1, 16);
  }

  lemma AddressWords(addr: u64)
    ensures Low(addr) == addr % 0x1_0000_0000 && High(addr) == addr / 0x1_0000_0000
  {
    Pow2Values();
    ShrIsDiv(addr, 32);
  }

  lemma CreateCqWords(qs: nat, i: nat, addr: u64)
    requires 1 <= qs <= 4096 && i < 65535
    ensures IsCreateCq(CreateCqCmd(qs, i, addr), qs, i, addr)
  {
    PackedWords(qs, i);
    AddressWords(addr);
  }

  lemma CreateSqWords(qs: nat, i: nat, addr: u64)
    requires 1 <= qs <= 4096 && i < 65535
    ensures IsCreateSq(CreateSqCmd(qs, i, addr), qs, i, addr)
  {
    PackedWords(qs, i);
    AddressWords(addr);
  }

  lemma DeleteWords(i: nat)
    requires i < 65535
    ensures IsDeleteSq(DeleteSqCmd(i), i) && IsDeleteCq(DeleteCqCmd(i), i)
  {
  }

  lemma DeleteFields(i: nat)
    requires i < 65535
    ensures OpcodeField(DeleteSqCmd(i)[0]) == DEL_IO_SQ && OpcodeField(DeleteCqCmd(i)[0]) == DEL_IO_CQ
    ensures QueueId(DeleteSqCmd(i)) == QueueId(DeleteCqCmd(i)) == i + 1
  {
    SmallOpcode(DEL_IO_SQ);
    SmallOpcode(DEL_IO_CQ);
    IdOfId(i);
  }

  /** The command id that a command is given on its way does not change what the device
      does with it. */
  lemma StampCarries(d: IoDevice, cmd: Cmd, cid: nat)
    requires cid < MAX_CMD
    ensures Carry(d, Stamp(cmd, cid)) == Carry(d, cmd)
  {
    StampKeepsOpcode(cmd[0], cid);
  }

  // ---------- the driver's state ----------

  /** DMA buffers are numbered in the order in which they are handed out; `bus` is the bus
      address that the allocator gives to each. */
  datatype Io = Io(
    bus: nat -> u64,
    qs: nat,
    supported: nat,
    used: nat,
    mark: seq<bool>,
    cqBuf: seq<nat>,
    sqBuf: seq<nat>,
    issued: nat,
    frees: seq<nat>,
    dev: IoDevice)

  predicate Sized(s: Io) {
    && 1 <= s.qs <= 4096 && s.supported <= 65535
    && |s.mark| == |s.cqBuf| == |s.sqBuf| == s.supported
  }

  function InitialIo(bus: nat -> u64, qs: nat, supported: nat): Io {
    Io(bus, qs, supported, 0, seq(supported, _ => false), seq(supported, _ => 0), seq(supported, _ => 0), 0, [], NO_QUEUES)
  }

  /** The locked part of create: a free pair, marked, or none. */
  function Reserve(s: Io): (r: (Io, Option<nat>))
    requires Sized(s)
    ensures Sized(r.0) && (r.1.Some? ==> r.1.value < s.supported)
  {
    if s.used == s.supported then (s, None)
    else
      var i := FirstFree(s.mark, 0);
      if i == s.supported then (s.(used := s.used + 1), None)
      else (s.(used := s.used + 1, mark := s.mark[i := true]), Some(i))
  }

  function MakeCq(s: Io, i: nat): (s': Io)
    requires Sized(s) && i < s.supported
    ensures Sized(s')
  {
    s.(cqBuf := s.cqBuf[i := s.issued], issued := s.issued + 1, dev := Carry(s.dev, CreateCqCmd(s.qs, i, s.bus(s.issued))))
  }

  function MakeSq(s: Io, i: nat): (s': Io)
    requires Sized(s) && i < s.supported
    ensures Sized(s')
  {
    s.(sqBuf := s.sqBuf[i := s.issued], issued := s.issued + 1, dev := Carry(s.dev, CreateSqCmd(s.qs, i, s.bus(s.issued))))
  }

  function DropSq(s: Io, i: nat): (s': Io)
    requires Sized(s) && i < s.supported
    ensures Sized(s')
  {
    s.(dev := Carry(s.dev, DeleteSqCmd(i)))
  }

  function DropCq(s: Io, i: nat): (s': Io)
    requires Sized(s) && i < s.supported
    ensures Sized(s')
  {
    s.(dev := Carry(s.dev, DeleteCqCmd(i)))
  }

  /** Both buffers are freed, then the mark is cleared; `used` stays as it is. */
  function Release(s: Io, i: nat): (s': Io)
    requires Sized(s) && i < s.supported
    ensures Sized(s')
  {
    s.(frees := s.frees + [s.cqBuf[i], s.sqBuf[i]], mark := s.mark[i := false])
  }

  // ---------- interleaved creates and deletes ----------

  /** How far create or delete has got with a pair. */
  datatype Stage = Idle | Reserved | CqMade | Live | SqDropped | CqDropped

  datatype IoWorld = IoWorld(s: Io, stage: seq<Stage>)

  datatype IoStep =
    | DoReserve
    | DoMakeCq(i: nat)
    | DoMakeSq(i: nat)
    | DoDropSq(i: nat)
    | DoDropCq(i: nat)
    | DoRelease(i: nat)

  ghost function At(w: IoWorld, i: nat, from: Stage, s': Io, to: Stage): Option<IoWorld>
  {
    if i < |w.stage| && w.stage[i] == from then Some(IoWorld(s', w.stage[i := to])) else None
  }

  /** Every create and every delete goes through its steps in order, and a pair is deleted
      by one caller at a time, after its create has returned. */
  ghost function TryIo(w: IoWorld, st: IoStep): Option<IoWorld> {
    if !Sized(w.s) || |w.stage| != w.s.supported then None
    else
      match st
      case DoReserve =>
        var (s', r) := Reserve(w.s);
        Some(IoWorld(s', if r.Some? then w.stage[r.value := Reserved] else w.stage))
      case DoMakeCq(i) => if i < w.s.supported then At(w, i, Reserved, MakeCq(w.s, i), CqMade) else None
      case DoMakeSq(i) => if i < w.s.supported then At(w, i, CqMade, MakeSq(w.s, i), Live) else None
      case DoDropSq(i) => if i < w.s.supported then At(w, i, Live, DropSq(w.s, i), SqDropped) else None
      case DoDropCq(i) => if i < w.s.supported then At(w, i, SqDropped, DropCq(w.s, i), CqDropped) else None
      case DoRelease(i) => if i < w.s.supported then At(w, i, CqDropped, Release(w.s, i), Idle) else None
  }

  predicate HasCq(st: Stage) { st == CqMade || st == Live || st == SqDropped }
  predicate HoldsCqBuf(st: Stage) { HasCq(st) || st == CqDropped }
  predicate HoldsSqBuf(st: Stage) { st == Live || st == SqDropped || st == CqDropped }

  /** The device has exactly the queues that the stages say, each submission queue with
      the completion queue of its own pair. */
  ghost predicate DeviceInv(d: IoDevice, stage: seq<Stage>) {
    && d.rejected == 0
    && (forall i | 0 <= i < |stage| :: i + 1 in d.cqs <==> HasCq(stage[i]))
    && (forall i | 0 <= i < |stage| :: i + 1 in d.sqs <==> stage[i] == Live)
    && (forall id | id in d.cqs :: 1 <= id <= |stage|)
    && (forall id | id in d.sqs :: 1 <= id <= |stage| && d.sqs[id].cq == id)
  }

  /** Each queue on the device lies in the buffer that its pair holds for it. */
  ghost predicate BaseInv(d: IoDevice, bus: nat -> u64, cqBuf: seq<nat>, sqBuf: seq<nat>, stage: seq<Stage>) {
    && |cqBuf| == |sqBuf| == |stage|
    && (forall i | 0 <= i < |stage| && HasCq(stage[i]) :: i + 1 in d.cqs && d.cqs[i + 1] == bus(cqBuf[i]))
    && (forall i | 0 <= i < |stage| && stage[i] == Live :: i + 1 in d.sqs && d.sqs[i + 1].base == bus(sqBuf[i]))
  }

  ghost predicate MarkInv(mark: seq<bool>, used: nat, supported: nat, stage: seq<Stage>) {
    && |mark| == |stage| == supported
    && (forall i | 0 <= i < |stage| :: mark[i] <==> stage[i] != Idle)
    && multiset(mark)[true] <= used <= supported
  }

  predicate Holds(st: Stage, sq: bool) { if sq then HoldsSqBuf(st) else HoldsCqBuf(st) }

  /** No buffer has been freed twice. */
  ghost predicate FreesInv(frees: seq<nat>, issued: nat) {
    && Counting.NoRepeats(frees)
    && (forall a | 0 <= a < |frees| :: frees[a] < issued)
  }

  /** The buffers of one kind that are held are distinct and not free. */
  ghost predicate HoldInv(buf: seq<nat>, stage: seq<Stage>, sq: bool, frees: seq<nat>, issued: nat) {
    && |buf| == |stage|
    && (forall i | 0 <= i < |stage| && Holds(stage[i], sq) :: buf[i] < issued && buf[i] !in frees)
    && (forall i, j | 0 <= i < j < |stage| && Holds(stage[i], sq) && Holds(stage[j], sq) :: buf[i] != buf[j])
  }

  ghost predicate ApartInv(cqBuf: seq<nat>, sqBuf: seq<nat>, stage: seq<Stage>) {
    && |cqBuf| == |sqBuf| == |stage|
    && forall i, j | 0 <= i < |stage| && 0 <= j < |stage| && Holds(stage[i], false) && Holds(stage[j], true) ::
         cqBuf[i] != sqBuf[j]
  }

  /** Each buffer handed out has been freed once or is held once, by the pair it was
      allocated for. */
  ghost predicate BufferInv(cqBuf: seq<nat>, sqBuf: seq<nat>, frees: seq<nat>, issued: nat, stage: seq<Stage>) {
    && FreesInv(frees, issued)
    && HoldInv(cqBuf, stage, false, frees, issued)
    && HoldInv(sqBuf, stage, true, frees, issued)
    && ApartInv(cqBuf, sqBuf, stage)
    && |frees| + HeldBuffers(stage) == issued
  }

  function Held(st: Stage): nat {
    (if HoldsCqBuf(st) then 1 else 0) + (if HoldsSqBuf(st) then 1 else 0)
  }

  function HeldBuffers(stage: seq<Stage>): nat {
    if stage == [] then 0 else Held(stage[0]) + HeldBuffers(stage[1..])
  }

  ghost predicate IoInv(w: IoWorld) {
    && Sized(w.s)
    && MarkInv(w.s.mark, w.s.used, w.s.supported, w.stage) && DeviceInv(w.s.dev, w.stage)
    && BaseInv(w.s.dev, w.s.bus, w.s.cqBuf, w.s.sqBuf, w.stage)
    && BufferInv(w.s.cqBuf, w.s.sqBuf, w.s.frees, w.s.issued, w.stage)
  }

  // ---------- every step keeps the invariant ----------

  lemma {:induction false} HeldUpdate(stage: seq<Stage>, i: nat, st: Stage)
    requires i < |stage|
    ensures HeldBuffers(stage[i := st]) + Held(stage[i]) == HeldBuffers(stage) + Held(st)
  {
    if i == 0 {
      assert stage[0 := st][1..] == stage[1..];
    } else {
      HeldUpdate(stage[1..], i - 1, st);
      assert stage[i := st][1..] == stage[1..][i - 1 := st];
    }
  }

  lemma {:induction false} AllMarked(mark: seq<bool>)
    requires forall i | 0 <= i < |mark| :: mark[i]
    ensures multiset(mark)[true] == |mark|
  {
    if mark != [] {
      assert mark == [mark[0]] + mark[1..];
      AllMarked(mark[1..]);
    }
  }

  /** By pigeonhole, the search for a free pair does not fall through. */
  lemma FreePairFound(s: Io, stage: seq<Stage>)
    requires MarkInv(s.mark, s.used, s.supported, stage) && s.used < s.supported
    ensures FirstFree(s.mark, 0) < s.supported
  {
    if FirstFree(s.mark, 0) == s.supported {
      AllMarked(s.mark);
    }
  }

  /** A move that neither takes nor gives back a buffer. */
  lemma BuffersKept(cqBuf: seq<nat>, sqBuf: seq<nat>, frees: seq<nat>, issued: nat, stage: seq<Stage>, i: nat, st: Stage)
    requires BufferInv(cqBuf, sqBuf, frees, issued, stage) && i < |stage|
    requires Holds(st, false) == Holds(stage[i], false) && Holds(st, true) == Holds(stage[i], true)
    ensures BufferInv(cqBuf, sqBuf, frees, issued, stage[i := st])
  {
    HeldUpdate(stage, i, st);
  }

  lemma CqBufferTaken(cqBuf: seq<nat>, sqBuf: seq<nat>, frees: seq<nat>, issued: nat, stage: seq<Stage>, i: nat)
    requires BufferInv(cqBuf, sqBuf, frees, issued, stage) && i < |stage| && stage[i] == Reserved
    ensures BufferInv(cqBuf[i := issued], sqBuf, frees, issued + 1, stage[i := CqMade])
  {
    HeldUpdate(stage, i, CqMade);
  }

  lemma SqBufferTaken(cqBuf: seq<nat>, sqBuf: seq<nat>, frees: seq<nat>, issued: nat, stage: seq<Stage>, i: nat)
    requires BufferInv(cqBuf, sqBuf, frees, issued, stage) && i < |stage| && stage[i] == CqMade
    ensures BufferInv(cqBuf, sqBuf[i := issued], frees, issued + 1, stage[i := Live])
  {
    HeldUpdate(stage, i, Live);
  }

  lemma HoldAfterFree(buf: seq<nat>, stage: seq<Stage>, sq: bool, frees: seq<nat>, issued: nat, i: nat, a: nat, b: nat)
    requires HoldInv(buf, stage, sq, frees, issued) && i < |stage|
    requires forall j | 0 <= j < |stage| && j != i && Holds(stage[j], sq) :: buf[j] != a && buf[j] != b
    ensures HoldInv(buf, stage[i := Idle], sq, frees + [a, b], issued)
  {
  }

  lemma BuffersFreed(cqBuf: seq<nat>, sqBuf: seq<nat>, frees: seq<nat>, issued: nat, stage: seq<Stage>, i: nat)
    requires BufferInv(cqBuf, sqBuf, frees, issued, stage) && i < |stage| && stage[i] == CqDropped
    ensures BufferInv(cqBuf, sqBuf, frees + [cqBuf[i], sqBuf[i]], issued, stage[i := Idle])
  {
    HeldUpdate(stage, i, Idle);
    assert Holds(stage[i], false) && Holds(stage[i], true);
    HoldAfterFree(cqBuf, stage, false, frees, issued, i, cqBuf[i], sqBuf[i]);
    HoldAfterFree(sqBuf, stage, true, frees, issued, i, cqBuf[i], sqBuf[i]);
  }

  lemma MarksKept(mark: seq<bool>, used: nat, supported: nat, stage: seq<Stage>, i: nat, st: Stage)
    requires MarkInv(mark, used, supported, stage) && i < |stage| && stage[i] != Idle && st != Idle
    ensures MarkInv(mark, used, supported, stage[i := st])
  {
  }

  lemma MarkSet(mark: seq<bool>, used: nat, supported: nat, stage: seq<Stage>, i: nat)
    requires MarkInv(mark, used, supported, stage) && i < |stage| && stage[i] == Idle && used < supported
    ensures MarkInv(mark[i := true], used + 1, supported, stage[i := Reserved])
  {
  }

  lemma MarkCleared(mark: seq<bool>, used: nat, supported: nat, stage: seq<Stage>, i: nat)
    requires MarkInv(mark, used, supported, stage) && i < |stage| && stage[i] != Idle
    ensures MarkInv(mark[i := false], used, supported, stage[i := Idle])
  {
    assert mark[i] && true in multiset(mark);
  }

  lemma PairTaken(w: IoWorld, i: nat)
    requires IoInv(w) && w.s.used < w.s.supported && i < |w.stage| && w.stage[i] == Idle
    ensures IoInv(IoWorld(w.s.(used := w.s.used + 1, mark := w.s.mark[i := true]), w.stage[i := Reserved]))
  {
    MarkSet(w.s.mark, w.s.used, w.s.supported, w.stage, i);
    BuffersKept(w.s.cqBuf, w.s.sqBuf, w.s.frees, w.s.issued, w.stage, i, Reserved);
  }

  lemma ReserveKeeps(w: IoWorld)
    requires IoInv(w) && w.s.used < w.s.supported
    ensures var (s', r) := Reserve(w.s);
            r.Some? && w.stage[r.value] == Idle && IoInv(IoWorld(s', w.stage[r.value := Reserved]))
  {
    FreePairFound(w.s, w.stage);
    PairTaken(w, FirstFree(w.s.mark, 0));
  }

  lemma MakeCqDevice(d: IoDevice, stage: seq<Stage>, qs: nat, i: nat, addr: u64)
    requires 1 <= qs <= 4096 && |stage| <= 65535 && DeviceInv(d, stage) && i < |stage| && stage[i] == Reserved
    ensures Carry(d, CreateCqCmd(qs, i, addr)) == d.(cqs := d.cqs[i + 1 := addr])
    ensures DeviceInv(Carry(d, CreateCqCmd(qs, i, addr)), stage[i := CqMade])
  {
    CommandFields(qs, i, addr);
  }

  lemma MakeSqDevice(d: IoDevice, stage: seq<Stage>, qs: nat, i: nat, addr: u64)
    requires 1 <= qs <= 4096 && |stage| <= 65535 && DeviceInv(d, stage) && i < |stage| && stage[i] == CqMade
    ensures Carry(d, CreateSqCmd(qs, i, addr)) == d.(sqs := d.sqs[i + 1 := IoSq(i + 1, addr)])
    ensures DeviceInv(Carry(d, CreateSqCmd(qs, i, addr)), stage[i := Live])
  {
    CommandFields(qs, i, addr);
  }

  lemma DropSqDevice(d: IoDevice, stage: seq<Stage>, i: nat)
    requires |stage| <= 65535 && DeviceInv(d, stage) && i < |stage| && stage[i] == Live
    ensures Carry(d, DeleteSqCmd(i)) == d.(sqs := d.sqs - {i + 1})
    ensures DeviceInv(Carry(d, DeleteSqCmd(i)), stage[i := SqDropped])
  {
    DeleteFields(i);
  }

  lemma DropCqDevice(d: IoDevice, stage: seq<Stage>, i: nat)
    requires |stage| <= 65535 && DeviceInv(d, stage) && i < |stage| && stage[i] == SqDropped
    ensures Carry(d, DeleteCqCmd(i)) == d.(cqs := d.cqs - {i + 1})
    ensures DeviceInv(Carry(d, DeleteCqCmd(i)), stage[i := CqDropped])
  {
    DeleteFields(i);
    assert !InUse(d, i + 1);
  }

  lemma MakeCqKeeps(w: IoWorld, i: nat)
    requires IoInv(w) && i < |w.stage| && w.stage[i] == Reserved
    ensures IoInv(IoWorld(MakeCq(w.s, i), w.stage[i := CqMade]))
  {
    MakeCqDevice(w.s.dev, w.stage, w.s.qs, i, w.s.bus(w.s.issued));
    CqBufferTaken(w.s.cqBuf, w.s.sqBuf, w.s.frees, w.s.issued, w.stage, i);
    MarksKept(w.s.mark, w.s.used, w.s.supported, w.stage, i, CqMade);
  }

  lemma MakeSqKeeps(w: IoWorld, i: nat)
    requires IoInv(w) && i < |w.stage| && w.stage[i] == CqMade
    ensures IoInv(IoWorld(MakeSq(w.s, i), w.stage[i := Live]))
  {
    MakeSqDevice(w.s.dev, w.stage, w.s.qs, i, w.s.bus(w.s.issued));
    SqBufferTaken(w.s.cqBuf, w.s.sqBuf, w.s.frees, w.s.issued, w.stage, i);
    MarksKept(w.s.mark, w.s.used, w.s.supported, w.stage, i, Live);
  }

  lemma DropSqKeeps(w: IoWorld, i: nat)
    requires IoInv(w) && i < |w.stage| && w.stage[i] == Live
    ensures IoInv(IoWorld(DropSq(w.s, i), w.stage[i := SqDropped]))
  {
    DropSqDevice(w.s.dev, w.stage, i);
    BuffersKept(w.s.cqBuf, w.s.sqBuf, w.s.frees, w.s.issued, w.stage, i, SqDropped);
    MarksKept(w.s.mark, w.s.used, w.s.supported, w.stage, i, SqDropped);
  }

  lemma DropCqKeeps(w: IoWorld, i: nat)
    requires IoInv(w) && i < |w.stage| && w.stage[i] == SqDropped
    ensures IoInv(IoWorld(DropCq(w.s, i), w.stage[i := CqDropped]))
  {
    DropCqDevice(w.s.dev, w.stage, i);
    BuffersKept(w.s.cqBuf, w.s.sqBuf, w.s.frees, w.s.issued, w.stage, i, CqDropped);
    MarksKept(w.s.mark, w.s.used, w.s.supported, w.stage, i, CqDropped);
  }

  lemma ReleaseKeeps(w: IoWorld, i: nat)
    requires IoInv(w) && i < |w.stage| && w.stage[i] == CqDropped
    ensures IoInv(IoWorld(Release(w.s, i), w.stage[i := Idle]))
  {
    MarkCleared(w.s.mark, w.s.used, w.s.supported, w.stage, i);
    BuffersFreed(w.s.cqBuf, w.s.sqBuf, w.s.frees, w.s.issued, w.stage, i);
  }

  lemma TryIoKeeps(w: IoWorld, st: IoStep)
    requires IoInv(w) && TryIo(w, st).Some?
    ensures IoInv(TryIo(w, st).value)
  {
    match st
    case DoReserve =>
      if w.s.used < w.s.supported {
        ReserveKeeps(w);
      }
    case DoMakeCq(i) => MakeCqKeeps(w, i);
    case DoMakeSq(i) => MakeSqKeeps(w, i);
    case DoDropSq(i) => DropSqKeeps(w, i);
    case DoDropCq(i) => DropCqKeeps(w, i);
    case DoRelease(i) => ReleaseKeeps(w, i);
  }

  // ---------- every run ----------

  ghost function InitialWorld(bus: nat -> u64, qs: nat, supported: nat): IoWorld {
    IoWorld(InitialIo(bus, qs, supported), seq(supported, _ => Idle))
  }

  lemma {:induction false} NothingHeld(stage: seq<Stage>)
    requires forall i | 0 <= i < |stage| :: stage[i] == Idle
    ensures HeldBuffers(stage) == 0
  {
    if stage != [] {
      NothingHeld(stage[1..]);
    }
  }

  lemma {:induction false} NoneMarked(mark: seq<bool>)
    requires forall i | 0 <= i < |mark| :: !mark[i]
    ensures multiset(mark)[true] == 0
  {
    if mark != [] {
      assert mark == [mark[0]] + mark[1..];
      NoneMarked(mark[1..]);
    }
  }

  lemma InitialIoInv(bus: nat -> u64, qs: nat, supported: nat)
    requires 1 <= qs <= 4096 && supported <= 65535
    ensures IoInv(InitialWorld(bus, qs, supported))
  {
    NothingHeld(InitialWorld(bus, qs, supported).stage);
    NoneMarked(InitialIo(bus, qs, supported).mark);
  }

  lemma {:induction false} IoRunKeeps(w: IoWorld, steps: seq<IoStep>, w': IoWorld)
    requires IoInv(w) && Leads(TryIo, w, steps, w')
    ensures IoInv(w')
    decreases |steps|
  {
    if steps != [] {
      TryIoKeeps(w, steps[0]);
      IoRunKeeps(TryIo(w, steps[0]).value, steps[1..], w');
    }
  }

  /** In every state that any interleaving of creates and deletes can reach, in the middle
      of them or not: the device has never had to turn a command down; a submission queue
      exists only with the completion queue it names, which is that of its own pair; the
      marks are at most `used`, which is at most what the device supports; and a pair
      between operations is marked exactly when its queues exist. */
  lemma QueueLifecycle(bus: nat -> u64, qs: nat, supported: nat, steps: seq<IoStep>, w: IoWorld)
    requires 1 <= qs <= 4096 && supported <= 65535
    requires Leads(TryIo, InitialWorld(bus, qs, supported), steps, w)
    ensures var d := w.s.dev;
            && d.rejected == 0
            && (forall id | id in d.sqs :: d.sqs[id].cq == id && id in d.cqs)
            && multiset(w.s.mark)[true] <= w.s.used <= w.s.supported
            && |w.s.mark| == |w.stage| == w.s.supported
            && (forall i | 0 <= i < |w.stage| && (w.stage[i] == Idle || w.stage[i] == Live) ::
                  && (w.s.mark[i] <==> i + 1 in d.sqs)
                  && (w.s.mark[i] <==> i + 1 in d.cqs))
  {
    InitialIoInv(bus, qs, supported);
    IoRunKeeps(InitialWorld(bus, qs, supported), steps, w);
    forall id | id in w.s.dev.sqs ensures id in w.s.dev.cqs {
      assert w.stage[id - 1] == Live;
    }
  }

  lemma UsedStep(w: IoWorld, st: IoStep)
    requires IoInv(w) && TryIo(w, st).Some?
    ensures var s' := TryIo(w, st).value.s;
            && s'.supported == w.s.supported && s'.bus == w.s.bus
            && s'.used == if st == DoReserve && w.s.used < w.s.supported then w.s.used + 1 else w.s.used
  {
  }

  lemma CountHead(steps: seq<IoStep>)
    requires steps != []
    ensures multiset(steps)[DoReserve] == multiset(steps[1..])[DoReserve] + if steps[0] == DoReserve then 1 else 0
  {
    assert steps == [steps[0]] + steps[1..];
  }

  function Min(a: nat, b: nat): nat { if a <= b then a else b }

  /** Deleting a pair does not make room for another: `used` counts the creates there ever
      were, up to what the device supports. */
  lemma {:induction false} UsedNeverDrops(w: IoWorld, steps: seq<IoStep>, w': IoWorld)
    requires IoInv(w) && Leads(TryIo, w, steps, w')
    ensures w'.s.supported == w.s.supported && w'.s.bus == w.s.bus
    ensures w'.s.used == Min(w.s.used + multiset(steps)[DoReserve], w.s.supported)
    decreases |steps|
  {
    if steps != [] {
      UsedStep(w, steps[0]);
      TryIoKeeps(w, steps[0]);
      UsedNeverDrops(TryIo(w, steps[0]).value, steps[1..], w');
      CountHead(steps);
    }
  }

  /** In every reachable state each queue on the device lies in the buffer that the driver
      holds for it, at the address the allocator gave; the driver has not freed it. So the
      device is never left with a queue in memory that has been given back. */
  lemma QueuesInHeldBuffers(bus: nat -> u64, qs: nat, supported: nat, steps: seq<IoStep>, w: IoWorld)
    requires 1 <= qs <= 4096 && supported <= 65535
    requires Leads(TryIo, InitialWorld(bus, qs, supported), steps, w)
    ensures |w.s.cqBuf| == |w.s.sqBuf| == supported
    ensures forall i | 0 <= i < supported && i + 1 in w.s.dev.cqs ::
              var b := w.s.cqBuf[i]; w.s.dev.cqs[i + 1] == bus(b) && b < w.s.issued && b !in w.s.frees
    ensures forall i | 0 <= i < supported && i + 1 in w.s.dev.sqs ::
              var b := w.s.sqBuf[i]; w.s.dev.sqs[i + 1].base == bus(b) && b < w.s.issued && b !in w.s.frees
  {
    InitialIoInv(bus, qs, supported);
    IoRunKeeps(InitialWorld(bus, qs, supported), steps, w);
    UsedNeverDrops(InitialWorld(bus, qs, supported), steps, w);
    forall i | 0 <= i < supported && (i + 1 in w.s.dev.cqs || i + 1 in w.s.dev.sqs)
      ensures Holds(w.stage[i], false) && (i + 1 in w.s.dev.sqs ==> Holds(w.stage[i], true))
    {
    }
  }

  /** When create finds no pair: exactly when there have been as many creates as the
      device supports pairs, however many of them have been deleted since. */
  lemma CreateRefusedIff(bus: nat -> u64, qs: nat, supported: nat, steps: seq<IoStep>, w: IoWorld)
    requires 1 <= qs <= 4096 && supported <= 65535
    requires Leads(TryIo, InitialWorld(bus, qs, supported), steps, w)
    ensures Sized(w.s) && (Reserve(w.s).1 == None <==> multiset(steps)[DoReserve] >= supported)
  {
    InitialIoInv(bus, qs, supported);
    IoRunKeeps(InitialWorld(bus, qs, supported), steps, w);
    UsedNeverDrops(InitialWorld(bus, qs, supported), steps, w);
    if w.s.used < w.s.supported {
      FreePairFound(w.s, w.stage);
    }
  }
}

/** Machine words as natural numbers, with the bit operations the driver uses given
    bit by bit, and the register macros of `bafs_utils.h`. */
module Words {
  import opened Slots

  type u32 = x: int | 0 <= x < 0x1_0000_0000
  type u64 = x: int | 0 <= x < 0x1_0000_0000_0000_0000

  function Pow2(n: nat): (p: nat)
    ensures p > 0
  {
    if n == 0 then 1 else 2 * Pow2(n - 1)
  }

  /** a & b */
  function And(a: nat, b: nat): nat {
    if a == 0 || b == 0 then 0
    else 2 * And(a / 2, b / 2) + (if a % 2 == 1 && b % 2 == 1 then 1 else 0)
  }

  /** a | b */
  function Or(a: nat, b: nat): nat
    decreases a + b
  {
    if a == 0 then b
    else if b == 0 then a
    else 2 * Or(a / 2, b / 2) + (if a % 2 == 1 || b % 2 == 1 then 1 else 0)
  }

  /** v >> n */
  function Shr(v: nat, n: nat): nat {
    if n == 0 then v else Shr(v / 2, n - 1)
  }

  /** v << n, in as many bits as it takes */
  function Shl(v: nat, n: nat): nat {
    if n == 0 then v else 2 * Shl(v, n - 1)
  }

  /** `1ULL << n`, defined in C for n < 64 only. */
  function One64(n: nat): nat
    requires n < 64
  {
    Pow2(n)
  }

  function BitMask(n: nat): nat
    requires n < 64
  {
    One64(n) - 1
  }

  function RangeMask(high: nat, low: nat): nat
    requires low <= high < 63
  {
    Pow2Monotone(low, high + 1);
    BitMask(high + 1) - BitMask(low)
  }

  /** `_RDBITS` */
  function ReadBits(val: nat, high: nat, low: nat): nat
    requires low <= high < 63
  {
    Shr(And(val, RangeMask(high, low)), low)
  }

  lemma {:induction false} Pow2Monotone(a: nat, b: nat)
    requires a <= b
    ensures Pow2(a) <= Pow2(b)
  {
    if a < b {
      Pow2Monotone(a, b - 1);
    }
  }

  /** Taking off the lowest bit before dividing by a power of two. */
  lemma DivModPow2(v: nat, n: nat)
    requires n > 0
    ensures v / Pow2(n) == v / 2 / Pow2(n - 1)
    ensures v % Pow2(n) == 2 * (v / 2 % Pow2(n - 1)) + v % 2
  {
    var p := Pow2(n - 1);
    var q, r := v / 2 / p, v / 2 % p;
    assert v / 2 == q * p + r;
    assert q * (2 * p) == 2 * (q * p);
    DivModUnique(v, 2 * p, q, 2 * r + v % 2);
  }

  lemma {:induction false} AndMask(v: nat, n: nat)
    ensures And(v, Pow2(n) - 1) == v % Pow2(n)
  {
    if n == 0 {
      DivModUnique(v, 1, v, 0);
    } else if v == 0 {
      DivModUnique(0, Pow2(n), 0, 0);
    } else {
      AndMask(v / 2, n - 1);
      DivModPow2(v, n);
      assert (Pow2(n) - 1) / 2 == Pow2(n - 1) - 1 && (Pow2(n) - 1) % 2 == 1;
    }
  }

  lemma {:induction false} ShrIsDiv(v: nat, n: nat)
    ensures Shr(v, n) == v / Pow2(n)
  {
    if n == 0 {
      DivModUnique(v, 1, v, 0);
    } else {
      ShrIsDiv(v / 2, n - 1);
      DivModPow2(v, n);
    }
  }

  lemma {:induction false} AndShl(v: nat, m: nat, n: nat)
    ensures And(v, Shl(m, n)) == Shl(And(Shr(v, n), m), n)
  {
    if n > 0 {
      AndShl(v / 2, m, n - 1);
      AndDouble(v, Shl(m, n - 1));
    }
  }

  lemma {:induction false} ShrShl(x: nat, n: nat)
    ensures Shr(Shl(x, n), n) == x
  {
    if n > 0 {
      ShrShl(x, n - 1);
      assert Shl(x, n) / 2 == Shl(x, n - 1);
    }
  }

  lemma {:induction false} MaskIsShifted(w: nat, low: nat)
    ensures Shl(Pow2(w) - 1, low) == Pow2(w + low) - Pow2(low)
  {
    if low > 0 {
      MaskIsShifted(w, low - 1);
    }
  }

  lemma AndDouble(v: nat, m: nat)
    ensures And(v, 2 * m) == 2 * And(v / 2, m)
  {
    assert 2 * m / 2 == m && 2 * m % 2 == 0;
  }

  /** Reading a bit field is division and remainder, for every value and every field
      below bit 63. */
  lemma ReadBitsIsField(val: nat, high: nat, low: nat)
    requires low <= high < 63
    ensures ReadBits(val, high, low) == val / Pow2(low) % Pow2(high - low + 1)
  {
    var w := high - low + 1;
    MaskIsShifted(w, low);
    AndShl(val, Pow2(w) - 1, low);
    ShrShl(And(Shr(val, low), Pow2(w) - 1), low);
    AndMask(Shr(val, low), w);
    ShrIsDiv(val, low);
  }

  lemma {:induction false} OrShr(a: nat, b: nat, n: nat)
    ensures Shr(Or(a, b), n) == Or(Shr(a, n), Shr(b, n))
  {
    if n > 0 {
      OrShr(a / 2, b / 2, n - 1);
      OrHalf(a, b);
    }
  }

  lemma OrHalf(a: nat, b: nat)
    ensures Or(a, b) / 2 == Or(a / 2, b / 2)
  {
  }

  lemma {:induction false} OrBound(a: nat, b: nat, n: nat)
    requires a < Pow2(n) && b < Pow2(n)
    ensures Or(a, b) < Pow2(n)
  {
    if n > 0 {
      OrBound(a / 2, b / 2, n - 1);
      OrHalf(a, b);
    }
  }

  /** With nothing below bit n on one side and nothing from it on, on the other, or is
      addition. */
  lemma {:induction false} OrDisjoint(a: nat, b: nat, n: nat)
    requires b < Pow2(n)
    ensures Or(Shl(a, n), b) == Shl(a, n) + b
  {
    if n > 0 {
      OrDisjoint(a, b / 2, n - 1);
      assert Shl(a, n) / 2 == Shl(a, n - 1);
    }
  }

  lemma Pow2Values()
    ensures Pow2(0) == 1 && Pow2(1) == 2 && Pow2(3) == 8 && Pow2(8) == 256
    ensures Pow2(15) == 0x8000 && Pow2(16) == 0x1_0000 && Pow2(32) == 0x1_0000_0000
  {
    assert Pow2(8) == 256;
    assert Pow2(16) == 0x1_0000;
    assert Pow2(24) == 0x100_0000;
  }

  // ---------- dword 0 of a command, dword 3 of a completion ----------

  /** `dword[0] |= (uint32_t)(cid << 16)` */
  function StampCid(dw0: u32, cid: nat): u32
    requires cid < 65536
  {
    Pow2Values();
    ShlIsMul(cid, 16);
    OrBound(dw0, Shl(cid, 16), 32);
    Or(dw0, Shl(cid, 16))
  }

  lemma {:induction false} ShlIsMul(v: nat, n: nat)
    ensures Shl(v, n) == v * Pow2(n)
  {
    if n > 0 {
      ShlIsMul(v, n - 1);
      assert 2 * (v * Pow2(n - 1)) == v * (2 * Pow2(n - 1));
    }
  }

  /** The command id goes in above bit 16 and is or-ed with what was there before. */
  lemma StampCidReads(dw0: u32, cid: nat)
    requires cid < 65536
    ensures Shr(StampCid(dw0, cid), 16) == Or(Shr(dw0, 16), cid) < 65536
    ensures dw0 < 65536 ==> Shr(StampCid(dw0, cid), 16) == cid
  {
    Pow2Values();
    OrShr(dw0, Shl(cid, 16), 16);
    ShrShl(cid, 16);
    ShrIsDiv(dw0, 16);
    OrBound(Shr(dw0, 16), cid, 16);
  }

  // ---------- what the bit operations do, bit by bit ----------

  function Bit(v: nat, k: nat): bool {
    v / Pow2(k) % 2 == 1
  }

  lemma {:induction false} AndBit(a: nat, b: nat, k: nat)
    ensures Bit(And(a, b), k) <==> Bit(a, k) && Bit(b, k)
  {
    BitShift(And(a, b), k);
    BitShift(a, k);
    BitShift(b, k);
    AndHalf(a, b);
    if k > 0 {
      AndBit(a / 2, b / 2, k - 1);
    }
  }

  lemma {:induction false} OrBit(a: nat, b: nat, k: nat)
    ensures Bit(Or(a, b), k) <==> Bit(a, k) || Bit(b, k)
  {
    BitShift(Or(a, b), k);
    BitShift(a, k);
    BitShift(b, k);
    OrHalf(a, b);
    if k > 0 {
      OrBit(a / 2, b / 2, k - 1);
    }
  }

  lemma AndHalf(a: nat, b: nat)
    ensures And(a, b) / 2 == And(a / 2, b / 2)
    ensures And(a, b) % 2 == if a % 2 == 1 && b % 2 == 1 then 1 else 0
  {
  }

  lemma BitShift(v: nat, k: nat)
    ensures Bit(v, k) <==> if k == 0 then v % 2 == 1 else Bit(v / 2, k - 1)
  {
    if k == 0 {
      DivModUnique(v, 1, v, 0);
    } else {
      DivModPow2(v, k);
    }
  }

  /** Bits or-ed in from bit m on leave the field below as it was. */
  lemma {:induction false} OrKeepsLow(a: nat, b: nat, m: nat, n: nat)
    requires n <= m
    ensures Or(a, Shl(b, m)) % Pow2(n) == a % Pow2(n)
  {
    if n == 0 {
      DivModUnique(Or(a, Shl(b, m)), 1, Or(a, Shl(b, m)), 0);
      DivModUnique(a, 1, a, 0);
    } else {
      OrKeepsLow(a / 2, b, m - 1, n - 1);
      OrHalf(a, Shl(b, m));
      assert Shl(b, m) / 2 == Shl(b, m - 1) && Shl(b, m) % 2 == 0;
      DivModPow2(Or(a, Shl(b, m)), n);
      DivModPow2(a, n);
    }
  }

  /** The opcode, bits 7:0 of dword 0. */
  function OpcodeField(dw0: nat): nat {
    And(dw0, 0xff)
  }

  /** The command id does not disturb the low half of dword 0, whatever was there, and so
      not the opcode. On clear high bits it is added. */
  lemma StampKeepsOpcode(dw0: u32, cid: nat)
    requires cid < 65536
    ensures StampCid(dw0, cid) % 0x1_0000 == dw0 % 0x1_0000
    ensures OpcodeField(StampCid(dw0, cid)) == OpcodeField(dw0) == dw0 % 0x100
    ensures dw0 < 0x1_0000 ==> StampCid(dw0, cid) == dw0 + cid * 0x1_0000
  {
    Pow2Values();
    OrKeepsLow(dw0, cid, 16, 16);
    OrKeepsLow(dw0, cid, 16, 8);
    AndMask(StampCid(dw0, cid), 8);
    AndMask(dw0, 8);
    StampCidReads(dw0, cid);
    ShrIsDiv(StampCid(dw0, cid), 16);
    if dw0 < 0x1_0000 {
      DivModUnique(dw0, 0x1_0000, 0, dw0);
    }
  }

  /** Dword 3 of a completion as the device writes it (NVMe 1.4, section 4.6): command
      id, phase tag, and a 15-bit status field. */
  function PackDw3(cid: nat, tag: bool, status: nat): u32
    requires cid < 0x1_0000 && status < 0x8000
  {
    cid + (if tag then 0x1_0000 else 0) + status * 0x2_0000
  }

  /** `dword & 0x0000ffff` */
  function CidField(dw3: nat): nat {
    And(dw3, 0xffff)
  }

  /** `!!((dword >> 16) & 0x1)` */
  function PhaseField(dw3: nat): bool {
    And(Shr(dw3, 16), 1) != 0
  }

  /** What the poll passes on to the status decoder: `dword >> 16 >> 1`. */
  function StatusField(dw3: nat): nat {
    Shr(Shr(dw3, 16), 1)
  }

  /** `_UNPACK_SCT`, `_UNPACK_SC` */
  function StatusCodeType(status: nat): nat { ReadBits(status, 10, 8) }
  function StatusCode(status: nat): nat { ReadBits(status, 7, 0) }

  /** The status field of section 4.6.1 of NVMe 1.4: code, code type, and the retry,
      more and do-not-retry bits above them. */
  function PackStatus(sc: nat, sct: nat, upper: nat): (status: nat)
    requires sc < 256 && sct < 8 && upper < 16
    ensures status < 0x8000
  {
    sc + sct * 0x100 + upper * 0x800
  }

  /** Where the driver finds the fields of any dword 3, and of any status. */
  lemma CompletionFields(dw3: u32, status: nat)
    ensures CidField(dw3) == dw3 % 0x1_0000
    ensures PhaseField(dw3) <==> dw3 / 0x1_0000 % 2 == 1
    ensures StatusField(dw3) == dw3 / 0x1_0000 / 2
    ensures StatusCode(status) == status % 0x100 && StatusCodeType(status) == status / 0x100 % 8
  {
    Pow2Values();
    AndMask(dw3, 16);
    ShrIsDiv(dw3, 16);
    AndMask(dw3 / 0x1_0000, 1);
    ShrIsDiv(dw3 / 0x1_0000, 1);
    ReadBitsIsField(status, 10, 8);
    ReadBitsIsField(status, 7, 0);
    DivModUnique(status, 1, status, 0);
  }

  /** Every field the device packs comes back through the driver's shifts and masks. */
  lemma CompletionRoundTrip(cid: nat, tag: bool, sc: nat, sct: nat, upper: nat)
    requires cid < 0x1_0000 && sc < 256 && sct < 8 && upper < 16
    ensures var dw3 := PackDw3(cid, tag, PackStatus(sc, sct, upper));
            && CidField(dw3) == cid
            && PhaseField(dw3) == tag
            && StatusField(dw3) == PackStatus(sc, sct, upper)
            && StatusCodeType(StatusField(dw3)) == sct
            && StatusCode(StatusField(dw3)) == sc
  {
    Dw3RoundTrip(cid, tag, PackStatus(sc, sct, upper));
    StatusRoundTrip(sc, sct, upper);
  }

  lemma StatusRoundTrip(sc: nat, sct: nat, upper: nat)
    requires sc < 256 && sct < 8 && upper < 16
    ensures var status := PackStatus(sc, sct, upper);
            StatusCodeType(status) == sct && StatusCode(status) == sc
  {
    var status := PackStatus(sc, sct, upper);
    Pow2Values();
    ReadBitsIsField(status, 10, 8);
    ReadBitsIsField(status, 7, 0);
    DivModUnique(status, 0x100, sct + upper * 8, sc);
    DivModUnique(sct + upper * 8, 8, upper, sct);
    DivModUnique(status, 1, status, 0);
  }

  lemma Dw3RoundTrip(cid: nat, tag: bool, status: nat)
    requires cid < 0x1_0000 && status < 0x8000
    ensures var dw3 := PackDw3(cid, tag, status);
            CidField(dw3) == cid && PhaseField(dw3) == tag && StatusField(dw3) == status
  {
    var dw3 := PackDw3(cid, tag, status);
    var high := (if tag then 1 else 0) + 2 * status;
    Pow2Values();
    ShrIsDiv(dw3, 16);
    ShrIsDiv(high, 1);
    AndMask(dw3, 16);
    AndMask(high, 1);
    DivModUnique(dw3, 0x1_0000, high, cid);
  }
}

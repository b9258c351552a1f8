/**
 The RISC-V physical memory protection unit as the monitor uses it: two entries, plus Hazard3's
 PMPCFGM0, which makes an entry apply to M-mode without locking it. Address matching, priority and
 locking follow the RISC-V Privileged Architecture v1.12, section 3.7.1.
 */
module Pmp {
  import opened Bits

  datatype Mode = User | Machine

  /** pmpaddr0, pmpaddr1, pmpcfg0 and PMPCFGM0. Every other entry is off. */
  datatype PmpCsrs = PmpCsrs(addr0: Word, addr1: Word, cfg: Word, m0: Word)

  const PMP_R: Word := 1
  const PMP_W: Word := 2
  const PMP_X: Word := 4
  const PMP_A_NAPOT: Word := 24

  /** pmp_napot: the pmpaddr word for the naturally aligned block [base, base + size). */
  function PmpNapot(base: Word, size: Word): Word
  {
    Or32(base / 4, Sub32(size / 8, 1))
  }

  // ---- what the hardware reads out of the registers ----

  function TrailingOnes(x: nat): nat
  {
    if x % 2 == 1 then 1 + TrailingOnes(x / 2) else 0
  }

  /** A block of physical addresses: [base, base + size). */
  datatype Block = Block(base: nat, size: nat)

  /** NAPOT: t trailing ones in pmpaddr name an aligned block of 2^(t+3) bytes. */
  function DecodeNapot(addr: Word): Block
  {
    var t := TrailingOnes(addr);
    Block(addr / Pow2(t + 1) * Pow2(t + 3), Pow2(t + 3))
  }

  /** The configuration byte of entry i, packed four to a word. */
  function CfgByte(p: PmpCsrs, i: nat): Byte
    requires i < 2
  {
    if i == 0 then p.cfg % 0x100 else p.cfg / 0x100 % 0x100
  }

  /** The addresses entry i matches: OFF, TOR, NA4 or NAPOT by its A field. */
  function EntryBlock(p: PmpCsrs, i: nat): Block
    requires i < 2
  {
    var addr := if i == 0 then p.addr0 else p.addr1;
    var below := if i == 0 then 0 else p.addr0;
    var a := CfgByte(p, i) / 8 % 4;
    if a == 0 then Block(0, 0)
    else if a == 1 then Block(4 * below, if below <= addr then 4 * (addr - below) else 0)
    else if a == 2 then Block(4 * addr, 4)
    else DecodeNapot(addr)
  }

  /** A naturally aligned access of one, two or four bytes. */
  predicate Natural(a: Word, n: nat)
  {
    n == 1 || (n == 2 && a % 2 == 0) || (n == 4 && a % 4 == 0)
  }

  predicate Touches(b: Block, a: nat, n: nat)
  {
    b.size > 0 && b.base < a + n && a < b.base + b.size
  }

  predicate Covers(b: Block, a: nat, n: nat)
  {
    b.base <= a && a + n <= b.base + b.size
  }

  /** Entry i's verdict on an access it matches in full. */
  predicate Permits(p: PmpCsrs, i: nat, mode: Mode, kind: Access)
    requires i < 2
  {
    var cfg := CfgByte(p, i);
    var locked := cfg / 128 % 2 == 1;
    var onMachine := (if i == 0 then p.m0 else p.m0 / 2) % 2 == 1;
    || (mode.Machine? && !locked && !onMachine)
    || (match kind
        case Read => cfg % 2 == 1
        case Write => cfg / 2 % 2 == 1
        case Execute => cfg / 4 % 2 == 1)
  }

  /**
   May the hart access the n bytes at a? The lowest-numbered entry that matches any byte decides,
   and it must match them all; unmatched accesses are for M-mode only.
   */
  predicate Allows(p: PmpCsrs, mode: Mode, a: Word, n: nat, kind: Access)
  {
    if Touches(EntryBlock(p, 0), a, n) then Covers(EntryBlock(p, 0), a, n) && Permits(p, 0, mode, kind)
    else if Touches(EntryBlock(p, 1), a, n) then Covers(EntryBlock(p, 1), a, n) && Permits(p, 1, mode, kind)
    else mode.Machine?
  }

  // ---- the NAPOT encoding ----

  /** Size a power of two, at least eight; base a multiple of it. */
  ghost predicate NapotBlock(base: Word, size: Word)
  {
    exists k: nat :: 3 <= k && size == Pow2(k) && base % Pow2(k) == 0
  }

  lemma {:induction false} TrailingOnesOf(q: nat, n: nat)
    ensures TrailingOnes(q * Pow2(n + 1) + Pow2(n) - 1) == n
  {
    if n > 0 {
      var h := q * Pow2(n);
      assert q * Pow2(n + 1) == 2 * h;
      var x := 2 * h + Pow2(n) - 1;
      assert x % 2 == 1 && x / 2 == h + Pow2(n - 1) - 1;
      TrailingOnesOf(q, n - 1);
    } else {
      assert q * Pow2(1) == 2 * q;
    }
  }

  /** pmp_napot's word, arithmetically: the block number, then a zero, then k - 3 ones. */
  lemma NapotWord(q: nat, k: nat, base: Word, size: Word)
    requires 3 <= k && size == Pow2(k) && base == q * Pow2(k)
    ensures PmpNapot(base, size) == q * Pow2(k - 2) + Pow2(k - 3) - 1
  {
    var n := k - 3;
    var low := Pow2(n);
    assert Pow2(k - 2) == 2 * low && Pow2(k) == 8 * low;
    Regroup(q, low);
    NapotHalves(2 * q * low, low, base, size);
    OrDisjoint(2 * q, low - 1, n);
  }

  lemma NapotHalves(h: nat, low: nat, base: Word, size: Word)
    requires base == 4 * h && size == 8 * low && low > 0
    ensures base / 4 == h && Sub32(size / 8, 1) == low - 1
  {
  }

  lemma Regroup(q: nat, low: nat)
    ensures q * (2 * low) == 2 * q * low && q * (8 * low) == 4 * (q * (2 * low))
  {
  }

  lemma NapotDecodes(q: nat, k: nat, base: Word, size: Word)
    requires 3 <= k && size == Pow2(k) && base == q * Pow2(k)
    ensures DecodeNapot(PmpNapot(base, size)) == Block(base, size)
  {
    var n := k - 3;
    var x := PmpNapot(base, size);
    NapotWord(q, k, base, size);
    TrailingOnesOf(q, n);
    var d := Pow2(n + 1);
    assert x == q * d + (Pow2(n) - 1) && 0 <= Pow2(n) - 1 < d;
    DivByBlock(q, d, Pow2(n) - 1, x);
  }

  lemma MultipleModZero(q: nat, d: nat)
    requires d > 0
    ensures q * d % d == 0
  {
    DivByBlock(q, d, 0, q * d);
  }

  lemma NapotBlockDecodes(base: Word, size: Word)
    requires NapotBlock(base, size)
    ensures DecodeNapot(PmpNapot(base, size)) == Block(base, size)
  {
    var k: nat :| 3 <= k && size == Pow2(k) && base % Pow2(k) == 0;
    var q := base / Pow2(k);
    assert base == q * Pow2(k);
    NapotDecodes(q, k, base, size);
  }

  lemma DecodedIsNapotBlock(x: Word, base: Word, size: Word)
    requires DecodeNapot(x) == Block(base, size)
    ensures NapotBlock(base, size)
  {
    var t := TrailingOnes(x);
    MultipleModZero(x / Pow2(t + 1), Pow2(t + 3));
    assert size == Pow2(t + 3) && base % Pow2(t + 3) == 0;
  }

  /**
   The hardware reads back exactly the block pmp_napot was asked for iff that block is one the
   comment above the function allows: power-of-two size of at least eight, aligned base.
   */
  lemma NapotRoundTrip(base: Word, size: Word)
    ensures DecodeNapot(PmpNapot(base, size)) == Block(base, size) <==> NapotBlock(base, size)
  {
    if NapotBlock(base, size) {
      NapotBlockDecodes(base, size);
    }
    if DecodeNapot(PmpNapot(base, size)) == Block(base, size) {
      DecodedIsNapotBlock(PmpNapot(base, size), base, size);
    }
  }

  /** No two such blocks share an encoding. */
  lemma NapotInjective(b1: Word, s1: Word, b2: Word, s2: Word)
    requires NapotBlock(b1, s1) && NapotBlock(b2, s2)
    requires PmpNapot(b1, s1) == PmpNapot(b2, s2)
    ensures b1 == b2 && s1 == s2
  {
    NapotRoundTrip(b1, s1);
    NapotRoundTrip(b2, s2);
  }

  // ---- the configuration the monitor programs ----

  /** The pmpcfg0 expression of pmp_isolate_secret: entry 1 RWX, entry 0 nothing, both NAPOT. */
  function IsolateCfg(): Word
  {
    Or32(Or32(Or32(Or32(PMP_A_NAPOT, PMP_R), PMP_W), PMP_X) * 0x100, PMP_A_NAPOT)
  }

  lemma CfgValue()
    ensures IsolateCfg() == 0x1F18
  {
    assert BitOr(24, 1) == 25 && BitOr(25, 2) == 27 && BitOr(27, 4) == 31;
    assert Pow2(8) == 256;
    OrDisjoint(31, 24, 8);
  }

  /** Entry 0 the protected block, entry 1 the whole map; PMPCFGM0 may cover entry 0. */
  predicate Programmed(p: PmpCsrs, prot: Word)
  {
    && p.addr0 == PmpNapot(prot, 64)
    && p.addr1 == 0xFFFF_FFFF
    && p.cfg == 0x1F18
    && p.m0 < 2
  }

  /** pmpaddr1 = 0xFFFFFFFF: the NAPOT block that covers the whole address map. */
  lemma AllOnesCoversAll()
    ensures DecodeNapot(0xFFFF_FFFF).base == 0
    ensures DecodeNapot(0xFFFF_FFFF).size >= 0x1_0000_0000
  {
    Pow2Of32();
    TrailingOnesOf(0, 32);
    assert Pow2(33) == 2 * Pow2(32) && Pow2(34) == 2 * Pow2(33) && Pow2(35) == 2 * Pow2(34);
    DivByBlock(0, Pow2(33), 0xFFFF_FFFF, 0xFFFF_FFFF);
  }

  lemma ProtBlock(prot: Word)
    requires prot % 64 == 0
    ensures DecodeNapot(PmpNapot(prot, 64)) == Block(prot, 64)
  {
    assert Pow2(6) == 64;
    NapotDecodes(prot / 64, 6, prot, 64);
  }

  lemma ProgrammedEntries(p: PmpCsrs, prot: Word)
    requires Programmed(p, prot) && prot % 64 == 0
    ensures EntryBlock(p, 0) == Block(prot, 64)
    ensures EntryBlock(p, 1).base == 0 && EntryBlock(p, 1).size >= 0x1_0000_0000
  {
    hide DecodeNapot, PmpNapot;
    ProtBlock(prot);
    AllOnesCoversAll();
  }

  lemma ProgrammedPermits(p: PmpCsrs, prot: Word, mode: Mode, kind: Access)
    requires Programmed(p, prot)
    ensures Permits(p, 0, mode, kind) <==> mode.Machine? && p.m0 == 0
    ensures Permits(p, 1, mode, kind)
  {
    hide PmpNapot;
  }

  /** A naturally aligned access lies inside a 64-byte block or misses it, and does not wrap. */
  lemma NaturalWhole(prot: Word, a: Word, n: nat)
    requires prot % 64 == 0 && Natural(a, n)
    ensures 1 <= n <= 4 && a + n <= 0x1_0000_0000
    ensures Touches(Block(prot, 64), a, n) ==> Covers(Block(prot, 64), a, n)
  {
    var y := prot / 64;
    assert prot == 64 * y;
    if n != 1 {
      var x := a / n;
      assert n == 2 || n == 4;
      assert a == n * x by {
        assert a % n == 0;
      }
    }
  }

  /**
   What the programmed registers let through, for every naturally aligned access: U-mode, and
   M-mode while PMPCFGM0 covers entry 0, exactly what misses the protected block; M-mode otherwise
   everything.
   */
  lemma ProgrammedMeaning(p: PmpCsrs, prot: Word, mode: Mode, a: Word, n: nat, kind: Access)
    requires Programmed(p, prot) && prot % 64 == 0
    requires Natural(a, n)
    ensures Allows(p, mode, a, n, kind)
       <==> (mode.Machine? && p.m0 == 0) || a + n <= prot || prot + 64 <= a
  {
    hide EntryBlock, Permits, Programmed, Natural;
    ProgrammedEntries(p, prot);
    ProgrammedPermits(p, prot, mode, kind);
    NaturalWhole(prot, a, n);
  }
}

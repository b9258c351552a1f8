/**
 RP2350 ACCESSCTRL as bus_filter_cfg programs it: every register is written and read back, and one
 sticky error collects the mismatches. The device may do anything on a write and on a read.
 */
module AccessCtrl {
  import opened Bits

  const DBG: Byte := 128
  const DMA: Byte := 64
  const CORE1: Byte := 32
  const CORE0: Byte := 16
  const SP: Byte := 8
  const SU: Byte := 4
  const NSP: Byte := 2
  const NSU: Byte := 1

  const NS_PRIV: Byte := DBG + DMA + CORE1 + CORE0 + SP + SU + NSP
  const S_UNPRIV_C0: Byte := DBG + CORE0 + SP + SU
  const S_PRIV_C0: Byte := DBG + CORE0 + SP

  /** Core 1 shares the Secure SRAM banks only when multi-core topology is in use. */
  function SUnprivC0C1(multiCore: bool): Byte
  {
    if multiCore then S_UNPRIV_C0 + CORE1 else S_UNPRIV_C0
  }

  /** Every write carries this in bits 31:16. */
  const PASSWORD: Word := 0xACCE_0000

  const LOCK: nat := 0x00
  const CFGRESET: nat := 0x08
  const GPIO_NSMASK0: nat := 0x0C
  const GPIO_NSMASK1: nat := 0x10

  /** The per-peripheral registers, numbered as bus_filter_cfg comes to them. */
  type AcReg = r: int | 0 <= r < 54

  const SRAM0: AcReg := 0 const SRAM1: AcReg := 1 const SRAM2: AcReg := 2 const SRAM3: AcReg := 3
  const SYSCFG: AcReg := 4 const CLOCKS_BANK_DEFAULT: AcReg := 5 const RSM: AcReg := 6 const BUSCTRL: AcReg := 7
  const OTP: AcReg := 8 const POWMAN: AcReg := 9 const TRNG: AcReg := 10 const XOSC: AcReg := 11
  const ROSC: AcReg := 12 const PLL_SYS: AcReg := 13 const PLL_USB: AcReg := 14 const TICKS: AcReg := 15
  const XIP_CTRL: AcReg := 16 const XIP_QMI: AcReg := 17 const ROM: AcReg := 18 const XIP_MAIN: AcReg := 19
  const SRAM4: AcReg := 20 const SRAM5: AcReg := 21 const SRAM6: AcReg := 22 const SRAM7: AcReg := 23
  const SRAM8: AcReg := 24 const SRAM9: AcReg := 25 const DMA_REG: AcReg := 26 const USBCTRL: AcReg := 27
  const PIO0: AcReg := 28 const PIO1: AcReg := 29 const PIO2: AcReg := 30 const CORESIGHT_TRACE: AcReg := 31
  const CORESIGHT_PERIPH: AcReg := 32 const SYSINFO: AcReg := 33 const RESETS: AcReg := 34
  const IO_BANK0: AcReg := 35 const IO_BANK1: AcReg := 36 const PADS_BANK0: AcReg := 37
  const PADS_QSPI: AcReg := 38 const ADC0: AcReg := 39 const HSTX: AcReg := 40 const I2C0: AcReg := 41
  const I2C1: AcReg := 42 const PWM: AcReg := 43 const SPI0: AcReg := 44 const SPI1: AcReg := 45
  const TIMER0: AcReg := 46 const TIMER1: AcReg := 47 const UART0: AcReg := 48 const UART1: AcReg := 49
  const TBMAN: AcReg := 50 const SHA256: AcReg := 51 const WATCHDOG: AcReg := 52 const XIP_AUX: AcReg := 53

  /** The three lists of bus_filter_cfg, in source order; the longer ones in parts. */
  const C0_C1_UNPRIV: seq<AcReg> := [SRAM0, SRAM1, SRAM2, SRAM3]

  const C0_UNPRIV_1: seq<AcReg> := [SYSCFG, CLOCKS_BANK_DEFAULT, RSM, BUSCTRL, OTP, POWMAN, TRNG]
  const C0_UNPRIV_2: seq<AcReg> := [XOSC, ROSC, PLL_SYS, PLL_USB, TICKS, XIP_CTRL, XIP_QMI]
  const C0_UNPRIV: seq<AcReg> := C0_UNPRIV_1 + C0_UNPRIV_2

  const NS_PRIVS_1: seq<AcReg> := [ROM, XIP_MAIN, SRAM4, SRAM5, SRAM6, SRAM7, SRAM8, SRAM9, DMA_REG]
  const NS_PRIVS_2: seq<AcReg> := [
    USBCTRL, PIO0, PIO1, PIO2, CORESIGHT_TRACE, CORESIGHT_PERIPH, SYSINFO, RESETS, IO_BANK0]
  const NS_PRIVS_3: seq<AcReg> := [IO_BANK1, PADS_BANK0, PADS_QSPI, ADC0, HSTX, I2C0, I2C1, PWM, SPI0]
  const NS_PRIVS_4: seq<AcReg> := [SPI1, TIMER0, TIMER1, UART0, UART1, TBMAN, SHA256, WATCHDOG, XIP_AUX]
  const NS_PRIVS: seq<AcReg> := NS_PRIVS_1 + NS_PRIVS_2 + (NS_PRIVS_3 + NS_PRIVS_4)

  datatype Option<T> = None | Some(value: T)

  // ---- the device ----

  /** The whole state of the block, in any encoding: what the registers hold and all else that matters. */
  type Regs = map<nat, Word>

  /** A read returns a value and may change the state. */
  datatype Reading = Reading(value: Word, next: Regs)

  /** Where the registers are, and what a bus write or read at an offset does. */
  datatype Device = Device(offset: AcReg -> nat, write: (Regs, nat, Word) -> Regs, read: (Regs, nat) -> Reading)

  /** What a read of the register would return now. */
  function Shows(d: Device, regs: Regs, r: AcReg): Word
  {
    d.read(regs, d.offset(r)).value
  }

  /** One planned write: register and access bits. */
  datatype Entry = Entry(reg: AcReg, bits: Byte)

  function Entries(list: seq<AcReg>, bits: Byte): (es: seq<Entry>)
    ensures |es| == |list|
    ensures forall i | 0 <= i < |list| :: es[i] == Entry(list[i], bits)
  {
    seq(|list|, i requires 0 <= i < |list| => Entry(list[i], bits))
  }

  /** All 54 writes, in order. */
  function Plan(multiCore: bool): (es: seq<Entry>)
    ensures |es| == 54
  {
    Entries(C0_C1_UNPRIV, SUnprivC0C1(multiCore)) + Entries(C0_UNPRIV, S_UNPRIV_C0) + Entries(NS_PRIVS, NS_PRIV)
  }

  function WriteOne(d: Device, regs: Regs, e: Entry): Regs
  {
    d.write(regs, d.offset(e.reg), e.bits + PASSWORD)
  }

  function ReadOne(d: Device, regs: Regs, r: AcReg): Regs
  {
    d.read(regs, d.offset(r)).next
  }

  /** The state after the first k writes, each with its read-back. */
  function RegsAfter(d: Device, regs: Regs, es: seq<Entry>, k: nat): Regs
    requires k <= |es|
  {
    if k == 0 then regs else ReadOne(d, WriteOne(d, RegsAfter(d, regs, es, k - 1), es[k - 1]), es[k - 1].reg)
  }

  /** The read-back that follows write i returned exactly the bits written. */
  predicate Matched(d: Device, regs: Regs, es: seq<Entry>, i: nat)
    requires i < |es|
  {
    Shows(d, WriteOne(d, RegsAfter(d, regs, es, i), es[i]), es[i].reg) == es[i].bits
  }

  predicate AllMatched(d: Device, regs: Regs, es: seq<Entry>)
  {
    forall i: nat :: i < |es| ==> Matched(d, regs, es, i)
  }

  /** Password-protected reset, GPIO masks. */
  function Prologue(d: Device, regs: Regs): Regs
  {
    var r1 := d.write(regs, CFGRESET, PASSWORD + 1);
    var r2 := d.write(r1, GPIO_NSMASK0, 0xFFFF_FFFC);
    d.write(r2, GPIO_NSMASK1, 0xFF00_FFFF)
  }

  function Locked(d: Device, regs: Regs): Regs { d.write(regs, LOCK, PASSWORD + 6) }

  /** Every read-back of bus_filter_cfg matches. */
  predicate BusOk(d: Device, multiCore: bool, regs: Regs)
  {
    AllMatched(d, Prologue(d, regs), Plan(multiCore))
  }

  /** The state bus_filter_cfg leaves, whatever it reports. */
  function BusFiltered(d: Device, multiCore: bool, regs: Regs): Regs
  {
    Locked(d, RegsAfter(d, Prologue(d, regs), Plan(multiCore), 54))
  }

  lemma RegsAfterSplit(d: Device, regs: Regs, xs: seq<Entry>, ys: seq<Entry>, k: nat)
    requires k <= |ys|
    ensures RegsAfter(d, regs, xs + ys, |xs| + k) == RegsAfter(d, RegsAfter(d, regs, xs, |xs|), ys, k)
    decreases |xs| + k
  {
    if k > 0 {
      RegsAfterSplit(d, regs, xs, ys, k - 1);
    } else {
      RegsAfterPrefix(d, regs, xs, ys, |xs|);
    }
  }

  lemma {:induction false} RegsAfterPrefix(d: Device, regs: Regs, xs: seq<Entry>, ys: seq<Entry>, k: nat)
    requires k <= |xs|
    ensures RegsAfter(d, regs, xs + ys, k) == RegsAfter(d, regs, xs, k)
  {
    if k > 0 {
      RegsAfterPrefix(d, regs, xs, ys, k - 1);
    }
  }

  // ---- bus_filter_cfg ----

  class Controller {
    const d: Device
    const multiCore: bool
    var regs: Regs

    constructor (d: Device, multiCore: bool, regs: Regs)
      ensures this.d == d && this.multiCore == multiCore && this.regs == regs
    {
      this.d, this.multiCore, this.regs := d, multiCore, regs;
    }

    /** One of the three loops: write each listed register and compare what it reads back. */
    method WriteAndReadBack(list: seq<AcReg>, bits: Byte, errIn: bool) returns (err: bool)
      modifies this`regs
      ensures regs == RegsAfter(d, old(regs), Entries(list, bits), |list|)
      ensures err <==> errIn || !AllMatched(d, old(regs), Entries(list, bits))
    {
      err := errIn;
      ghost var es := Entries(list, bits);
      var i := 0;
      while i < |list|
        invariant i <= |list| && regs == RegsAfter(d, old(regs), es, i)
        invariant err <==> errIn || exists j: nat :: j < i && !Matched(d, old(regs), es, j)
      {
        var addr := d.offset(list[i]);
        regs := d.write(regs, addr, bits + PASSWORD);
        assert regs == WriteOne(d, RegsAfter(d, old(regs), es, i), es[i]);
        var reading := d.read(regs, addr);
        regs := reading.next;
        if reading.value != bits {
          assert !Matched(d, old(regs), es, i);
          err := true;
        }
        i := i + 1;
      }
    }

    /**
     Success exactly when all 54 read-backs matched, for any device. The state is that of the 54 writes and
     reads in order, after the reset and before the lock.
     */
    method BusFilterCfg() returns (ok: bool)
      modifies this`regs
      ensures ok <==> BusOk(d, multiCore, old(regs))
      ensures regs == BusFiltered(d, multiCore, old(regs))
    {
      regs := d.write(regs, CFGRESET, PASSWORD + 1);
      regs := d.write(regs, GPIO_NSMASK0, 0xFFFF_FFFC);
      regs := d.write(regs, GPIO_NSMASK1, 0xFF00_FFFF);
      ghost var r0 := regs;
      hide RegsAfter, AllMatched, C0_C1_UNPRIV, C0_UNPRIV, NS_PRIVS;
      var err := WriteAndReadBack(C0_C1_UNPRIV, SUnprivC0C1(multiCore), false);
      err := WriteAndReadBack(C0_UNPRIV, S_UNPRIV_C0, err);
      err := WriteAndReadBack(NS_PRIVS, NS_PRIV, err);
      ThreeLoops(d, r0, Entries(C0_C1_UNPRIV, SUnprivC0C1(multiCore)), Entries(C0_UNPRIV, S_UNPRIV_C0),
                 Entries(NS_PRIVS, NS_PRIV));
      regs := d.write(regs, LOCK, PASSWORD + 6);
      ok := !err;
    }

    /** access_ctrl_configure_to_secure_privileged */
    method ConfigureToSecurePrivileged(reg: Option<AcReg>)
      modifies this`regs
      ensures regs == Configure(d, old(regs), reg, true)
    {
      if reg.Some? {
        regs := d.write(regs, d.offset(reg.value), S_PRIV_C0 + PASSWORD);
      }
    }

    /** access_ctrl_configure_to_secure_unprivileged */
    method ConfigureToSecureUnprivileged(reg: Option<AcReg>)
      modifies this`regs
      ensures regs == Configure(d, old(regs), reg, false)
    {
      if reg.Some? {
        regs := d.write(regs, d.offset(reg.value), S_UNPRIV_C0 + PASSWORD);
      }
    }
  }

  /** Matching over three concatenated lists is matching in each, from where the previous one ended. */
  lemma ThreeLoops(d: Device, r0: Regs, xs: seq<Entry>, ys: seq<Entry>, zs: seq<Entry>)
    ensures var r1 := RegsAfter(d, r0, xs, |xs|);
            var r2 := RegsAfter(d, r1, ys, |ys|);
            var all := xs + ys + zs;
            && RegsAfter(d, r0, all, |all|) == RegsAfter(d, r2, zs, |zs|)
            && (AllMatched(d, r0, all) <==> AllMatched(d, r0, xs) && AllMatched(d, r1, ys) && AllMatched(d, r2, zs))
  {
    hide AllMatched, RegsAfter;
    TwoLoops(d, r0, xs, ys);
    TwoLoops(d, r0, xs + ys, zs);
  }

  lemma TwoLoops(d: Device, r0: Regs, xs: seq<Entry>, ys: seq<Entry>)
    ensures var r1 := RegsAfter(d, r0, xs, |xs|);
            && RegsAfter(d, r0, xs + ys, |xs + ys|) == RegsAfter(d, r1, ys, |ys|)
            && (AllMatched(d, r0, xs + ys) <==> AllMatched(d, r0, xs) && AllMatched(d, r1, ys))
  {
    hide AllMatched, RegsAfter;
    RegsAfterSplit(d, r0, xs, ys, |ys|);
    if AllMatched(d, r0, xs + ys) {
      MatchedApart(d, r0, xs, ys);
    }
    if AllMatched(d, r0, xs) && AllMatched(d, RegsAfter(d, r0, xs, |xs|), ys) {
      MatchedTogether(d, r0, xs, ys);
    }
  }

  lemma MatchedApart(d: Device, r0: Regs, xs: seq<Entry>, ys: seq<Entry>)
    requires AllMatched(d, r0, xs + ys)
    ensures AllMatched(d, r0, xs) && AllMatched(d, RegsAfter(d, r0, xs, |xs|), ys)
  {
    hide Matched, RegsAfter;
    forall i: nat | i < |xs| ensures Matched(d, r0, xs, i) {
      MatchedFirst(d, r0, xs, ys, i);
    }
    forall i: nat | i < |ys| ensures Matched(d, RegsAfter(d, r0, xs, |xs|), ys, i) {
      MatchedSecond(d, r0, xs, ys, i);
    }
  }

  lemma MatchedTogether(d: Device, r0: Regs, xs: seq<Entry>, ys: seq<Entry>)
    requires AllMatched(d, r0, xs) && AllMatched(d, RegsAfter(d, r0, xs, |xs|), ys)
    ensures AllMatched(d, r0, xs + ys)
  {
    hide Matched, RegsAfter;
    forall i: nat | i < |xs + ys| ensures Matched(d, r0, xs + ys, i) {
      if i < |xs| {
        MatchedFirst(d, r0, xs, ys, i);
      } else {
        MatchedSecond(d, r0, xs, ys, i - |xs|);
      }
    }
  }

  lemma MatchedFirst(d: Device, r0: Regs, xs: seq<Entry>, ys: seq<Entry>, i: nat)
    requires i < |xs|
    ensures Matched(d, r0, xs + ys, i) == Matched(d, r0, xs, i)
  {
    RegsAfterPrefix(d, r0, xs, ys, i);
  }

  lemma MatchedSecond(d: Device, r0: Regs, xs: seq<Entry>, ys: seq<Entry>, i: nat)
    requires i < |ys|
    ensures Matched(d, r0, xs + ys, |xs| + i) == Matched(d, RegsAfter(d, r0, xs, |xs|), ys, i)
  {
    RegsAfterSplit(d, r0, xs, ys, i);
  }

  // ---- what success certifies ----

  /** One of the four values the firmware ever gives a register. */
  predicate Class(v: Byte)
  {
    v == S_UNPRIV_C0 || v == SUnprivC0C1(true) || v == NS_PRIV || v == S_PRIV_C0
  }

  /**
   What one register shows is not disturbed by giving another one of these values, by reading any of
   them, or by the lock. Nothing is said of the block reset or of any other write.
   */
  ghost predicate Local(d: Device)
  {
    && (forall regs: Regs, e: Entry, q: AcReg ::
          Class(e.bits) && q != e.reg ==> Shows(d, WriteOne(d, regs, e), q) == Shows(d, regs, q))
    && (forall regs: Regs, r: AcReg, q: AcReg :: Shows(d, ReadOne(d, regs, r), q) == Shows(d, regs, q))
    && (forall regs: Regs, q: AcReg :: Shows(d, Locked(d, regs), q) == Shows(d, regs, q))
  }

  /**
   A set of states in which the block takes what Core0 writes to it: closed under everything the firmware
   does to the block -- the prologue, the class writes, the read-backs, and the lock word -- and every class
   write made in one of them sticks.
   */
  ghost predicate Writable(d: Device, ready: Regs -> bool)
  {
    && (forall regs: Regs :: ready(regs) ==> ready(Prologue(d, regs)))
    && (forall regs: Regs :: ready(regs) ==> ready(Locked(d, regs)))
    && (forall regs: Regs, r: AcReg :: ready(regs) ==> ready(ReadOne(d, regs, r)))
    && (forall regs: Regs, e: Entry :: ready(regs) && Class(e.bits) ==> ready(WriteOne(d, regs, e)))
    && (forall regs: Regs, e: Entry ::
          ready(regs) && Class(e.bits) ==> Shows(d, WriteOne(d, regs, e), e.reg) == e.bits)
  }

  /** In any state, a class write takes effect or is ignored. */
  ghost predicate TakesOrIgnores(d: Device)
  {
    forall regs: Regs, e: Entry :: Class(e.bits) ==>
      Shows(d, WriteOne(d, regs, e), e.reg) == e.bits || Shows(d, WriteOne(d, regs, e), e.reg) == Shows(d, regs, e.reg)
  }

  function AllRegs(): seq<AcReg> { C0_C1_UNPRIV + C0_UNPRIV + NS_PRIVS }

  /** The access class the three lists give a register. */
  function ClassBits(multiCore: bool, r: AcReg): Byte
  {
    if r in C0_C1_UNPRIV then SUnprivC0C1(multiCore) else if r in C0_UNPRIV then S_UNPRIV_C0 else NS_PRIV
  }

  lemma ListLengths()
    ensures |C0_C1_UNPRIV| == 4 && |C0_UNPRIV_1| == 7 && |C0_UNPRIV_2| == 7
    ensures |NS_PRIVS_1| == 9 && |NS_PRIVS_2| == 9 && |NS_PRIVS_3| == 9 && |NS_PRIVS_4| == 9
    ensures |C0_UNPRIV| == 14 && |NS_PRIVS| == 36 && |AllRegs()| == 54
  {
  }

  lemma Core0Lists()
    ensures forall i | 0 <= i < 4 :: C0_C1_UNPRIV[i] == i
    ensures forall i | 0 <= i < 7 :: C0_UNPRIV_1[i] == 4 + i && C0_UNPRIV_2[i] == 11 + i
  {
  }

  lemma NsLists()
    ensures forall i | 0 <= i < 9 :: NS_PRIVS_1[i] == 18 + i && NS_PRIVS_2[i] == 27 + i
    ensures forall i | 0 <= i < 9 :: NS_PRIVS_3[i] == 36 + i && NS_PRIVS_4[i] == 45 + i
  {
  }

  lemma InOrder(i: nat)
    requires i < 54
    ensures |AllRegs()| == 54 && AllRegs()[i] == i
  {
    hide C0_C1_UNPRIV, C0_UNPRIV_1, C0_UNPRIV_2, NS_PRIVS_1, NS_PRIVS_2, NS_PRIVS_3, NS_PRIVS_4;
    ListLengths();
    Core0Lists();
    NsLists();
  }

  /**
   The three lists partition the 54 registers: each register has exactly one place among the writes,
   and what is written there is its class value.
   */
  lemma ListsPartition(multiCore: bool, r: AcReg)
    ensures |AllRegs()| == 54
    ensures exists i: nat ::
              && i < 54 && AllRegs()[i] == r
              && Plan(multiCore)[i] == Entry(r, ClassBits(multiCore, r))
              && forall j: nat | j < 54 && AllRegs()[j] == r :: j == i
  {
    hide AllRegs, ClassBits, Plan;
    InOrder(r);
    forall j: nat | j < 54 ensures AllRegs()[j] == j {
      InOrder(j);
    }
    PlanAt(multiCore, r);
    ListOf(multiCore, r);
  }

  /** The class of the i-th write. */
  function PlaceBits(multiCore: bool, i: nat): Byte
  {
    if i < 4 then SUnprivC0C1(multiCore) else if i < 18 then S_UNPRIV_C0 else NS_PRIV
  }

  lemma PlanAt(multiCore: bool, i: nat)
    requires i < 54
    ensures |AllRegs()| == 54 && Plan(multiCore)[i] == Entry(AllRegs()[i], PlaceBits(multiCore, i))
  {
    hide C0_C1_UNPRIV, C0_UNPRIV, NS_PRIVS;
    ListLengths();
  }

  /** A register is in the list its place says. */
  lemma ListOf(multiCore: bool, r: AcReg)
    ensures r in C0_C1_UNPRIV <==> r < 4
    ensures r in C0_UNPRIV <==> 4 <= r < 18
    ensures ClassBits(multiCore, r) == PlaceBits(multiCore, r)
  {
    hide C0_C1_UNPRIV, C0_UNPRIV_1, C0_UNPRIV_2;
    ListLengths();
    Core0Lists();
    assert forall i | 0 <= i < 14 :: C0_UNPRIV[i] == 4 + i;
    if r < 4 {
      assert C0_C1_UNPRIV[r] == r;
    } else if r < 18 {
      assert C0_UNPRIV[r - 4] == r;
    }
  }

  lemma PlanEntry(multiCore: bool, i: nat)
    requires i < 54
    ensures Plan(multiCore)[i].reg == i && Class(Plan(multiCore)[i].bits)
  {
    hide AllRegs, Plan;
    InOrder(i);
    PlanAt(multiCore, i);
  }

  lemma {:induction false} LaterWritesKeep(d: Device, regs: Regs, es: seq<Entry>, i: nat, k: nat)
    requires Local(d) && i < k <= |es| && Matched(d, regs, es, i)
    requires forall j: nat | i < j < |es| :: es[j].reg != es[i].reg && Class(es[j].bits)
    ensures Shows(d, RegsAfter(d, regs, es, k), es[i].reg) == es[i].bits
  {
    hide Shows, WriteOne, ReadOne, Class;
    if k > i + 1 {
      LaterWritesKeep(d, regs, es, i, k - 1);
    }
  }

  /**
   When bus_filter_cfg reports success on a device whose registers do not disturb one another, every one
   of the 54 registers reads back its class value at the end, lock included.
   */
  lemma SuccessCertifies(d: Device, multiCore: bool, regs: Regs, r: AcReg)
    requires Local(d) && BusOk(d, multiCore, regs)
    ensures Shows(d, BusFiltered(d, multiCore, regs), r) == ClassBits(multiCore, r)
  {
    hide Plan, ClassBits, AllRegs, Shows, WriteOne, Locked, RegsAfter, Prologue, Matched, Class;
    var es := Plan(multiCore);
    forall j: nat | j < 54 ensures es[j].reg == j && Class(es[j].bits) {
      PlanEntry(multiCore, j);
    }
    InOrder(r);
    PlanAt(multiCore, r);
    ListOf(multiCore, r);
    assert Matched(d, Prologue(d, regs), es, r);
    LaterWritesKeep(d, Prologue(d, regs), es, r, 54);
  }

  lemma {:induction false} ReadyThroughout(d: Device, ready: Regs -> bool, regs: Regs, es: seq<Entry>, k: nat)
    requires Writable(d, ready) && ready(regs) && k <= |es|
    requires forall i: nat | i < |es| :: Class(es[i].bits)
    ensures ready(RegsAfter(d, regs, es, k))
  {
    hide Shows, WriteOne, ReadOne, Class;
    if k > 0 {
      ReadyThroughout(d, ready, regs, es, k - 1);
      assert ready(WriteOne(d, RegsAfter(d, regs, es, k - 1), es[k - 1]));
    }
  }

  /**
   Started where the block takes its writes, bus_filter_cfg succeeds, and leaves the block -- lock word
   included -- where it still takes them.
   */
  lemma WritableSucceeds(d: Device, ready: Regs -> bool, multiCore: bool, regs: Regs)
    requires Writable(d, ready) && ready(regs)
    ensures BusOk(d, multiCore, regs) && ready(BusFiltered(d, multiCore, regs))
  {
    hide Plan, Shows, WriteOne, ReadOne, RegsAfter, Class, Prologue, Locked;
    var es := Plan(multiCore);
    var start := Prologue(d, regs);
    forall i: nat | i < 54 ensures Class(es[i].bits) {
      PlanEntry(multiCore, i);
    }
    ReadyThroughout(d, ready, start, es, 54);
    forall i: nat | i < 54 ensures Matched(d, start, es, i) {
      ReadyThroughout(d, ready, start, es, i);
    }
  }

  // ---- the bus traffic, access by access ----

  datatype BusOp = W(off: nat, value: Word) | R(off: nat)

  /** The state after a list of bus accesses, in order. */
  function Replay(d: Device, regs: Regs, ops: seq<BusOp>): Regs
  {
    if ops == [] then regs else OnBus(d, Replay(d, regs, ops[..|ops| - 1]), ops[|ops| - 1])
  }

  function OnBus(d: Device, regs: Regs, op: BusOp): Regs
  {
    match op case W(o, v) => d.write(regs, o, v) case R(o) => d.read(regs, o).next
  }

  /** Each planned write with the password, followed by its read-back. */
  function Traffic(offset: AcReg -> nat, es: seq<Entry>): seq<BusOp>
  {
    if es == [] then []
    else
      var e := es[|es| - 1];
      Traffic(offset, es[..|es| - 1]) + [W(offset(e.reg), 0xACCE_0000 + e.bits), R(offset(e.reg))]
  }

  lemma ReplaySplit(d: Device, regs: Regs, xs: seq<BusOp>, op: BusOp)
    ensures Replay(d, regs, xs + [op]) == OnBus(d, Replay(d, regs, xs), op)
  {
    assert (xs + [op])[..|xs|] == xs;
  }

  lemma TrafficStep(d: Device, regs: Regs, pre: seq<BusOp>, init: seq<Entry>, e: Entry)
    ensures Replay(d, regs, pre + Traffic(d.offset, init + [e]))
         == ReadOne(d, WriteOne(d, Replay(d, regs, pre + Traffic(d.offset, init)), e), e.reg)
  {
    hide Replay;
    var w, r := W(d.offset(e.reg), 0xACCE_0000 + e.bits), R(d.offset(e.reg));
    var before := pre + Traffic(d.offset, init);
    assert (init + [e])[..|init|] == init;
    assert pre + Traffic(d.offset, init + [e]) == before + [w] + [r];
    ReplaySplit(d, regs, before, w);
    ReplaySplit(d, regs, before + [w], r);
  }

  lemma RegsAfterStep(d: Device, regs: Regs, init: seq<Entry>, e: Entry)
    ensures RegsAfter(d, regs, init + [e], |init| + 1)
         == ReadOne(d, WriteOne(d, RegsAfter(d, regs, init, |init|), e), e.reg)
  {
    hide WriteOne, ReadOne;
    RegsAfterPrefix(d, regs, init, [e], |init|);
  }

  lemma {:induction false} TrafficReplay(d: Device, regs: Regs, pre: seq<BusOp>, es: seq<Entry>)
    ensures Replay(d, regs, pre + Traffic(d.offset, es)) == RegsAfter(d, Replay(d, regs, pre), es, |es|)
  {
    hide Replay, WriteOne, ReadOne;
    if es == [] {
      assert pre + [] == pre;
    } else {
      var init := es[..|es| - 1];
      var e := es[|es| - 1];
      assert es == init + [e];
      TrafficReplay(d, regs, pre, init);
      TrafficStep(d, regs, pre, init, e);
      RegsAfterStep(d, Replay(d, regs, pre), init, e);
    }
  }

  /**
   bus_filter_cfg on any device is exactly these accesses: the block reset, the two GPIO masks, the 54 writes
   each read back at once, and last the lock word 0x6 with the password.
   */
  lemma BusTraffic(d: Device, multiCore: bool, regs: Regs)
    ensures BusFiltered(d, multiCore, regs)
         == Replay(d, regs, [W(0x08, 0xACCE_0001), W(0x0C, 0xFFFF_FFFC), W(0x10, 0xFF00_FFFF)]
                            + Traffic(d.offset, Plan(multiCore)) + [W(0x00, 0xACCE_0006)])
  {
    hide Plan, RegsAfter;
    var pre := [W(0x08, 0xACCE_0001), W(0x0C, 0xFFFF_FFFC), W(0x10, 0xFF00_FFFF)];
    assert pre == [pre[0]] + [pre[1]] + [pre[2]] && [pre[0]] == [] + [pre[0]];
    ReplaySplit(d, regs, [], pre[0]);
    ReplaySplit(d, regs, [pre[0]], pre[1]);
    ReplaySplit(d, regs, [pre[0]] + [pre[1]], pre[2]);
    assert Replay(d, regs, pre) == Prologue(d, regs);
    TrafficReplay(d, regs, pre, Plan(multiCore));
    ReplaySplit(d, regs, pre + Traffic(d.offset, Plan(multiCore)), W(0x00, 0xACCE_0006));
  }

  /** The access classes as the register bits they are: debug, DMA, core 1, core 0, SP, SU, NSP, NSU. */
  lemma ClassValues(multiCore: bool, r: AcReg)
    ensures ClassBits(multiCore, r) == if r in C0_C1_UNPRIV then (if multiCore then 0xBC else 0x9C)
                                       else if r in C0_UNPRIV then 0x9C else 0xFE
    ensures BoundBits(true) == 0x98 && BoundBits(false) == 0x9C
    ensures !Bit(BoundBits(true), 2) && Bit(BoundBits(false), 2)
  {
    hide C0_C1_UNPRIV, C0_UNPRIV;
    assert Pow2(2) == 4;
  }

  // ---- a block of eight-bit registers ----

  /** LOCK bit 0, once set, shuts Core0 out. */
  predicate ShutOut(regs: Regs) { LOCK in regs && regs[LOCK] % 2 == 1 }

  predicate Unlocked(regs: Regs) { !ShutOut(regs) }

  /** LOCK keeps the bits it has: only a hard reset clears them. */
  function WithLock(regs: Regs, v: Word): Regs
  {
    regs[LOCK := Or32(if LOCK in regs then regs[LOCK] else 0, v % 0x10)]
  }

  /**
   Eight-bit registers behind the password and the lock, as Core0 sees them: a write without the password is
   ignored except to the GPIO masks, all of them are once Core0 is locked out, the block reset spares LOCK,
   and bits 15:8 of what is written are dropped.
   */
  function EightBitWrite(regs: Regs, o: nat, v: Word): Regs
  {
    if ShutOut(regs) then regs
    else if o == GPIO_NSMASK0 || o == GPIO_NSMASK1 then regs[o := v]
    else if v / 0x1_0000 != PASSWORD / 0x1_0000 then regs
    else if o == CFGRESET then
      if v % 2 == 0 then regs else if LOCK in regs then map[LOCK := regs[LOCK]] else map[]
    else if o == LOCK then WithLock(regs, v)
    else regs[o := v % 0x100]
  }

  function EightBit(offset: AcReg -> nat): Device
  {
    Device(offset, EightBitWrite, (regs: Regs, o: nat) => Reading(if o in regs then regs[o] else 0, regs))
  }

  /** Distinct offsets, none of them among the five registers in front. */
  ghost predicate Offsets(offset: AcReg -> nat)
  {
    && (forall r: AcReg, q: AcReg :: offset(r) == offset(q) ==> r == q)
    && (forall r: AcReg :: offset(r) !in {LOCK, CFGRESET, GPIO_NSMASK0, GPIO_NSMASK1})
  }

  lemma EightBitClass(offset: AcReg -> nat, regs: Regs, e: Entry)
    requires Offsets(offset)
    ensures WriteOne(EightBit(offset), regs, e)
         == if ShutOut(regs) then regs else regs[offset(e.reg) := e.bits]
  {
    Unpack(e.bits);
  }

  lemma Unpack(v: Byte)
    ensures var w := v + PASSWORD; w / 0x1_0000 == PASSWORD / 0x1_0000 && w % 0x100 == v
  {
  }

  /** The lock word of the firmware leaves Core0 in control ... */
  lemma LockKeepsCore0(regs: Regs)
    requires Unlocked(regs)
    ensures Unlocked(EightBitWrite(regs, LOCK, PASSWORD + 6))
  {
    var was: Word := if LOCK in regs then regs[LOCK] else 0;
    assert (PASSWORD + 6) / 0x1_0000 == PASSWORD / 0x1_0000 && (PASSWORD + 6) % 0x10 == 6;
    assert BitOr(was, 6) % 2 == 0;
  }

  /** ... while with one more bit set no later write would change anything, the reset included. */
  lemma LockSevenShutsOut(regs: Regs, o: nat, v: Word)
    ensures var shut := EightBitWrite(regs, LOCK, PASSWORD + 7); EightBitWrite(shut, o, v) == shut
  {
    var was: Word := if LOCK in regs then regs[LOCK] else 0;
    assert (PASSWORD + 7) / 0x1_0000 == PASSWORD / 0x1_0000 && (PASSWORD + 7) % 0x10 == 7;
    assert BitOr(was, 7) % 2 == 1;
  }

  lemma PrologueKeepsCore0(offset: AcReg -> nat, regs: Regs)
    requires Unlocked(regs)
    ensures Unlocked(Prologue(EightBit(offset), regs))
  {
  }

  /** Such a block meets the premises: it is writable for as long as Core0 is not locked out. */
  lemma EightBitMeets(offset: AcReg -> nat)
    requires Offsets(offset)
    ensures Local(EightBit(offset)) && TakesOrIgnores(EightBit(offset)) && Writable(EightBit(offset), Unlocked)
  {
    hide Prologue;
    var d := EightBit(offset);
    forall regs: Regs, e: Entry
      ensures WriteOne(d, regs, e) == if ShutOut(regs) then regs else regs[offset(e.reg) := e.bits]
    {
      EightBitClass(offset, regs, e);
    }
    hide WriteOne;
    forall regs: Regs | Unlocked(regs) ensures Unlocked(Prologue(d, regs)) && Unlocked(Locked(d, regs)) {
      PrologueKeepsCore0(offset, regs);
      LockKeepsCore0(regs);
    }
  }

  /** The registers in front of the class registers are as they were. */
  predicate SameFront(x: Regs, y: Regs)
  {
    SameAt(x, y, LOCK) && SameAt(x, y, GPIO_NSMASK0) && SameAt(x, y, GPIO_NSMASK1)
  }

  predicate SameAt(x: Regs, y: Regs, o: nat)
  {
    (o in x <==> o in y) && (o in x ==> x[o] == y[o])
  }

  lemma WriteKeepsFront(offset: AcReg -> nat, regs: Regs, e: Entry)
    requires Offsets(offset)
    ensures SameFront(regs, WriteOne(EightBit(offset), regs, e))
  {
    EightBitClass(offset, regs, e);
  }

  lemma {:induction false} WritesKeepFront(offset: AcReg -> nat, regs: Regs, es: seq<Entry>, k: nat)
    requires Offsets(offset) && k <= |es|
    ensures SameFront(regs, RegsAfter(EightBit(offset), regs, es, k))
  {
    if k > 0 {
      WritesKeepFront(offset, regs, es, k - 1);
      hide WriteOne, Offsets;
      WriteKeepsFront(offset, RegsAfter(EightBit(offset), regs, es, k - 1), es[k - 1]);
    }
  }

  /**
   What bus_filter_cfg leaves in front of the class registers, from any state in which Core0 is not shut out:
   the two GPIO masks, and the lock bits of core 1 and the DMA set on top of those set before -- 6 if none was.
   */
  lemma FilteredFront(offset: AcReg -> nat, multiCore: bool, regs: Regs)
    requires Offsets(offset) && Unlocked(regs)
    ensures var t := BusFiltered(EightBit(offset), multiCore, regs);
            && 0x00 in t && !Bit(t[0x00], 0) && Bit(t[0x00], 1) && Bit(t[0x00], 2)
            && ((0x00 in regs ==> regs[0x00] == 0) ==> t[0x00] == 6)
            && 0x0C in t && t[0x0C] == 0xFFFF_FFFC
            && 0x10 in t && t[0x10] == 0xFF00_FFFF
  {
    hide Plan, RegsAfter, Offsets, Bit;
    var d := EightBit(offset);
    var start := Prologue(d, regs);
    PrologueFront(offset, regs);
    WritesKeepFront(offset, start, Plan(multiCore), 54);
    var u := RegsAfter(d, start, Plan(multiCore), 54);
    var was: Word := if 0x00 in regs then regs[0x00] else 0;
    LockSix(was);
    assert (PASSWORD + 6) / 0x1_0000 == PASSWORD / 0x1_0000 && (PASSWORD + 6) % 0x10 == 6;
    assert Locked(d, u) == WithLock(u, PASSWORD + 6);
  }

  lemma PrologueFront(offset: AcReg -> nat, regs: Regs)
    requires Unlocked(regs)
    ensures var t := Prologue(EightBit(offset), regs);
            && (LOCK in t <==> LOCK in regs) && (LOCK in regs ==> t[LOCK] == regs[LOCK])
            && GPIO_NSMASK0 in t && t[GPIO_NSMASK0] == 0xFFFF_FFFC
            && GPIO_NSMASK1 in t && t[GPIO_NSMASK1] == 0xFF00_FFFF
  {
  }

  lemma LockSix(was: Word)
    ensures var now := Or32(was, 6);
            Bit(now, 0) == Bit(was, 0) && Bit(now, 1) && Bit(now, 2) && (was == 0 ==> now == 6)
    ensures Bit(was, 0) <==> was % 2 == 1
  {
    BitZero(was);
    assert Pow2(0) == 1 && Pow2(1) == 2 && Pow2(2) == 4;
    assert Bit(6, 1) && Bit(6, 2) && !Bit(6, 0);
    assert BitOr(0, 1) == 1 && BitOr(0, 3) == 3;
  }

  // ---- later writes, one peripheral at a time ----

  /** The value bind gives an ACCESSCTRL register. */
  function BoundBits(privileged: bool): Byte
  {
    if privileged then S_PRIV_C0 else S_UNPRIV_C0
  }

  /** One such write; None is AC_DO_NOT_CONFIGURE. */
  function Configure(d: Device, regs: Regs, reg: Option<AcReg>, privileged: bool): Regs
  {
    match reg
    case None => regs
    case Some(r) => WriteOne(d, regs, Entry(r, BoundBits(privileged)))
  }

  predicate NonSecureUnpriv(v: Word) { v % 2 == 1 }
  predicate NonSecurePriv(v: Word) { v / 2 % 2 == 1 }

  /** No register opens up: neither non-secure bit appears that was not there. */
  ghost predicate NoWider(d: Device, before: Regs, after: Regs)
  {
    forall r: AcReg ::
      && (NonSecureUnpriv(Shows(d, after, r)) ==> NonSecureUnpriv(Shows(d, before, r)))
      && (NonSecurePriv(Shows(d, after, r)) ==> NonSecurePriv(Shows(d, before, r)))
  }

  /** The register written shows the class of its new owner, every other one what it showed. */
  lemma ConfigureShows(d: Device, ready: Regs -> bool, regs: Regs, reg: Option<AcReg>, privileged: bool, q: AcReg)
    requires Local(d) && Writable(d, ready) && ready(regs)
    ensures var t := Configure(d, regs, reg, privileged);
            ready(t) && Shows(d, t, q) == if reg == Some(q) then BoundBits(privileged) else Shows(d, regs, q)
  {
    hide Shows, WriteOne, ReadOne, Prologue, Locked;
    if reg.Some? {
      var e := Entry(reg.value, BoundBits(privileged));
      assert Class(e.bits);
      hide Class;
      assert ready(WriteOne(d, regs, e));
    }
  }

  lemma ConfigureNoWider(d: Device, regs: Regs, reg: Option<AcReg>, privileged: bool)
    requires Local(d) && TakesOrIgnores(d)
    ensures NoWider(d, regs, Configure(d, regs, reg, privileged))
  {
    hide Shows, WriteOne, ReadOne, Locked;
    if reg.Some? {
      var e := Entry(reg.value, BoundBits(privileged));
      assert Class(e.bits) && e.bits % 2 == 0 && e.bits / 2 % 2 == 0;
      hide Class;
      var t := Configure(d, regs, reg, privileged);
      assert t == WriteOne(d, regs, e);
      forall q: AcReg
        ensures Shows(d, t, q) == Shows(d, regs, q) || Shows(d, t, q) == e.bits
      {
      }
    }
  }
}

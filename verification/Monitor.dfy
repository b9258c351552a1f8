/**
 The M-mode monitor on values: memory layout, hart state, svc_sign, the trap dispatcher, and the
 assembly trampoline as a program for a small instruction interpreter.
 */
module Monitor {
  import opened Bits
  import opened Memory
  import opened Pmp

  type Regs = r: seq<Word> | |r| == 32 witness seq(32, _ => 0)
  type RegName = r: int | 0 <= r < 32
  /** Instruction addresses: bit 0 of pc, mepc and mtvec is hard-wired to zero. */
  type CodeAddr = x: int | 0 <= x < 0x1_0000_0000 && x % 2 == 0

  /** Instruction lengths of a 16/32-bit code stream. */
  type Length = x: int | x == 2 || x == 4 witness 2

  const SP: RegName := 2
  const A0: RegName := 10
  const A1: RegName := 11
  const A7: RegName := 17

  // ---- memory layout, a parameter of the whole model ----

  /** Addresses of g_prot, g_m_trap_stack, g_mb and g_stage. */
  datatype Layout = Layout(prot: Word, stack: Word, mb: Word, stage: Word)
  {
    /** Disjoint, aligned C objects, none at address 0 or running up to 2^32. */
    predicate Valid()
    {
      && prot % 64 == 0 && 64 <= prot && prot + 64 < 0x1_0000_0000
      && stack % 4 == 0 && stack + 512 < 0x1_0000_0000
      && mb % 4 == 0 && mb + 64 < 0x1_0000_0000
      && stage % 4 == 0 && stage + 4 < 0x1_0000_0000
      && Apart(prot, 64, stack, 512) && Apart(prot, 64, mb, 64) && Apart(prot, 64, stage, 4)
      && Apart(stack, 512, mb, 64) && Apart(stack, 512, stage, 4) && Apart(mb, 64, stage, 4)
    }

    lemma CounterAligned()
      requires Valid()
      ensures prot % 4 == 0 && (prot + 4) % 4 == 0
    {
      assert prot == 4 * (16 * (prot / 64));
    }

    function StackTop(): int { stack + 512 }
    /** Where the trampoline saves its registers. */
    function Frame(): (f: Word)
      requires Valid()
      ensures FrameAt(f)
    {
      assert stack + 448 == 4 * (stack / 4 + 112);
      stack + 448
    }

    function Secret(): int { prot }
    function Counter(): int { prot + 4 }
    function Key(): int { prot + 8 }

    /** The address of g_mb[i]. */
    function Mailbox(i: nat): (a: Word)
      requires Valid() && i < 16
      ensures a % 4 == 0 && a == mb + 4 * i && a + 4 <= mb + 64
    {
      assert mb + 4 * i == 4 * (mb / 4 + i);
      mb + 4 * i
    }
  }

  const MB_XH3_MCAUSE := 2
  const MB_MCAUSE := 8
  const MB_MTVAL := 9
  const MB_STAGE := 11

  const STAGE_XH3: Word := 1
  const STAGE_U: Word := 2

  const SVC_GET_COUNTER: Word := 0
  const SVC_SIGN: Word := 1

  const CAUSE_FETCH_FAULT: Word := 1
  const CAUSE_LOAD_FAULT: Word := 5
  const CAUSE_STORE_FAULT: Word := 7
  const CAUSE_ECALL_U: Word := 8

  // ---- the hart ----

  datatype Csrs = Csrs(mscratch: Word, mepc: CodeAddr, mcause: Word, mtval: Word, mtvec: CodeAddr,
                       mpp: Mode, pmp: PmpCsrs)

  /**
   halted: the dispatcher has entered one of its endless loops. nested: M-mode code of the monitor
   made an access the PMP refuses, that is, took a trap inside the trap handler.
   */
  datatype State = State(regs: Regs, pc: CodeAddr, mode: Mode, mem: Mem, csr: Csrs,
                         halted: bool, nested: bool)

  predicate MachineMay(s: State, a: Word, n: nat, kind: Access)
  {
    Allows(s.csr.pmp, Machine, a, n, kind)
  }

  /** An M-mode load from a: no effect unless the PMP refuses it. */
  function MTouch(s: State, a: Word, n: nat, kind: Access): State
  {
    if MachineMay(s, a, n, kind) then s else s.(nested := true)
  }

  function MStore8(s: State, a: Word, v: Byte): State
  {
    if MachineMay(s, a, 1, Write) then s.(mem := s.mem[a := v]) else s.(nested := true)
  }

  function MStore32(s: State, a: Word, v: Word): State
    requires a % 4 == 0
  {
    if MachineMay(s, a, 4, Write) then s.(mem := Store32(s.mem, a, v)) else s.(nested := true)
  }

  // ---- svc_sign ----

  /** The guard: over-long, or the interval test says the buffer meets g_prot. */
  predicate SignRejects(prot: Word, b: Word, len: Word)
  {
    len > 64 || (Add32(b, len) > prot && b < Add32(prot, 64))
  }

  /** buf[i] ^= key[i % 16], one byte. */
  function SignByte(l: Layout, s: State, b: Word, i: Word): State
    requires l.Valid()
  {
    var a := Add32(b, i);
    var k := l.Key() + i % 16;
    var s1 := MTouch(MTouch(s, a, 1, Read), k, 1, Read);
    MStore8(s1, a, Xor8(s.mem[a], s.mem[k]))
  }

  /** Bytes i, ..., len - 1 of the loop. */
  function SignFrom(l: Layout, s: State, b: Word, len: Word, i: nat): State
    requires l.Valid() && i <= len
    decreases len - i
  {
    if i == len then s else SignFrom(l, SignByte(l, s, b, i), b, len, i + 1)
  }

  function SvcSign(l: Layout, s: State, b: Word, len: Word): State
    requires l.Valid()
  {
    if SignRejects(l.prot, b, len) then s else SignFrom(l, s, b, len, 0)
  }

  // ---- trap_dispatch ----

  /** The instruction address n bytes further on, modulo 2^32. */
  function NextPc(pc: CodeAddr, n: Length): CodeAddr
  {
    assert pc == 2 * (pc / 2) && n == 2 * (n / 2) && 0x1_0000_0000 == 2 * 0x8000_0000;
    assert pc + n == 2 * (pc / 2 + n / 2);
    assert pc + n - 0x1_0000_0000 == 2 * (pc / 2 + n / 2 - 0x8000_0000);
    Add32(pc, n)
  }

  /** Length of the instruction that starts with this halfword, in a 16/32-bit code stream. */
  function InstrLength(half: Word): Length
  {
    if half % 4 == 3 then 4 else 2
  }

  predicate FrameAt(f: Word)
  {
    f % 4 == 0 && f as int + 64 <= 0x1_0000_0000
  }

  /** The address of word j of the trap frame at f. */
  function Slot(f: Word, j: nat): (a: Word)
    requires FrameAt(f) && j < 16
    ensures a % 4 == 0
  {
    assert f + 4 * j == 4 * (f / 4 + j);
    f + 4 * j
  }

  /** case SVC_GET_COUNTER: bump the counter, return it in a0. */
  function EcallCounter(l: Layout, s: State, f: Word): State
    requires l.Valid() && FrameAt(f)
  {
    l.CounterAligned();
    var s1 := MTouch(s, l.Counter(), 4, Read);
    var c := Add32(Load32(s.mem, l.Counter()), 1);
    MStore32(MStore32(s1, l.Counter(), c), Slot(f, 0), c)
  }

  /** case SVC_SIGN: a0 = buffer, a1 = length; a0 becomes 0 whether or not the guard let it run. */
  function EcallSign(l: Layout, s: State, f: Word): State
    requires l.Valid() && FrameAt(f)
  {
    var s1 := MTouch(MTouch(s, Slot(f, 0), 4, Read), Slot(f, 1), 4, Read);
    MStore32(SvcSign(l, s1, Load32(s.mem, Slot(f, 0)), Load32(s.mem, Slot(f, 1))), Slot(f, 0), 0)
  }

  function DispatchEcall(l: Layout, s: State, f: Word): State
    requires l.Valid() && FrameAt(f)
  {
    var s1 := MTouch(s, Slot(f, 7), 4, Read);
    var a7 := Load32(s.mem, Slot(f, 7));
    if a7 == SVC_GET_COUNTER then EcallCounter(l, s1, f)
    else if a7 == SVC_SIGN then EcallSign(l, s1, f)
    else MStore32(s1, Slot(f, 0), 0xFFFF_FFFF)
  }

  /** The Xh3pmpm self-test: record, lift the restriction, step over the faulting instruction. */
  function DispatchSelfTest(l: Layout, s: State): State
    requires l.Valid()
  {
    hide Allows, MTouch, MStore32, Load16;
    var s1 := MStore32(s, l.Mailbox(MB_XH3_MCAUSE), s.csr.mcause);
    var s2 := s1.(csr := s1.csr.(pmp := s1.csr.pmp.(m0 := 0)));
    var s3 := MTouch(MStore32(s2, l.stage, STAGE_U), s.csr.mepc, 2, Read);
    var half := Load16(s3.mem, s.csr.mepc);
    s3.(csr := s3.csr.(mepc := NextPc(s.csr.mepc, InstrLength(half))))
  }

  function DispatchHalt(l: Layout, s: State): State
    requires l.Valid()
  {
    hide Allows, Load32, Store32, MTouch, MStore32, SvcSign;
    if s.csr.mcause == CAUSE_LOAD_FAULT || s.csr.mcause == CAUSE_STORE_FAULT then
      var s1 := MStore32(s, l.Mailbox(MB_MCAUSE), s.csr.mcause);
      var s2 := MStore32(s1, l.Mailbox(MB_MTVAL), s.csr.mtval);
      MStore32(s2, l.Mailbox(MB_STAGE), 0x600D).(halted := true)
    else
      MStore32(s, l.Mailbox(MB_STAGE), 0xDEAD).(halted := true)
  }

  function Dispatch(l: Layout, s: State, f: Word): State
    requires l.Valid() && FrameAt(f)
  {
    hide Allows, Load32, MTouch, DispatchEcall, DispatchSelfTest, DispatchHalt;
    if s.csr.mcause == CAUSE_ECALL_U then
      var t := DispatchEcall(l, s, f);
      t.(csr := t.csr.(mepc := NextPc(s.csr.mepc, 4)))
    else if s.csr.mcause == CAUSE_LOAD_FAULT || s.csr.mcause == CAUSE_STORE_FAULT then
      var s0 := MTouch(s, l.stage, 4, Read);
      if Load32(s.mem, l.stage) == STAGE_XH3 then DispatchSelfTest(l, s0) else DispatchHalt(l, s0)
    else
      DispatchHalt(l, s)
  }

  // ---- trap_entry ----

  datatype Instr =
    | CsrrwSpMscratch
    | AddiSp(imm: int)
    | Sw(src: RegName, off: Word)
    | Lw(dst: RegName, off: Word)
    | MvA0Sp
    | CallDispatch
    | Mret

  /** The trampoline, instruction by instruction. */
  const TRAMPOLINE: seq<Instr> := [
    CsrrwSpMscratch, AddiSp(-64),
    Sw(10, 0), Sw(11, 4), Sw(12, 8), Sw(13, 12), Sw(14, 16), Sw(15, 20), Sw(16, 24), Sw(17, 28),
    Sw(5, 32), Sw(6, 36), Sw(7, 40), Sw(28, 44), Sw(29, 48), Sw(30, 52), Sw(31, 56), Sw(1, 60),
    MvA0Sp, CallDispatch,
    Lw(10, 0), Lw(11, 4), Lw(12, 8), Lw(13, 12), Lw(14, 16), Lw(15, 20), Lw(16, 24), Lw(17, 28),
    Lw(5, 32), Lw(6, 36), Lw(7, 40), Lw(28, 44), Lw(29, 48), Lw(30, 52), Lw(31, 56), Lw(1, 60),
    AddiSp(64), CsrrwSpMscratch, Mret]

  /** The order of trap_frame_t: a0-a7, t0-t6, ra. */
  const FRAME_REGS: seq<RegName> := [10, 11, 12, 13, 14, 15, 16, 17, 5, 6, 7, 28, 29, 30, 31, 1]

  /**
   The registers a C call may leave with any value: ra, t0-t2, a0-a7 and t3-t6, the temporaries of the
   RISC-V calling convention.
   */
  predicate CallerSaved(r: RegName)
  {
    r == 1 || 5 <= r <= 7 || 10 <= r <= 17 || 28 <= r <= 31
  }

  /** junk stands for whatever the compiled dispatcher puts there, key bytes included. */
  function Clobber(regs: Regs, junk: Regs): Regs
  {
    seq(32, r requires 0 <= r < 32 => if CallerSaved(r) then junk[r] else regs[r])
  }

  function ExecSw(s: State, src: RegName, off: Word): State
  {
    var a := Add32(s.regs[SP], off);
    if a % 4 != 0 then s.(nested := true) else MStore32(s, a, s.regs[src])
  }

  function ExecLw(s: State, dst: RegName, off: Word): State
  {
    var a := Add32(s.regs[SP], off);
    if a % 4 != 0 then s.(nested := true)
    else
      var t := MTouch(s, a, 4, Read);
      t.(regs := t.regs[dst := Load32(s.mem, a)])
  }

  function Exec(l: Layout, junk: Regs, i: Instr, s: State): State
    requires l.Valid()
  {
    if s.halted || s.nested then s
    else match i
      case CsrrwSpMscratch =>
        s.(regs := s.regs[SP := s.csr.mscratch], csr := s.csr.(mscratch := s.regs[SP]))
      case AddiSp(imm) =>
        s.(regs := s.regs[SP := (s.regs[SP] + imm) % 0x1_0000_0000])
      case Sw(r, off) => ExecSw(s, r, off)
      case Lw(r, off) => ExecLw(s, r, off)
      case MvA0Sp =>
        s.(regs := s.regs[A0 := s.regs[SP]])
      case CallDispatch =>
        var f := s.regs[A0];
        if !FrameAt(f) then s.(nested := true)
        else
          var t := Dispatch(l, s, f);
          t.(regs := Clobber(t.regs, junk))
      case Mret =>
        s.(mode := s.csr.mpp, pc := s.csr.mepc, csr := s.csr.(mpp := User))
  }

  /** Run the trampoline from instruction k on. */
  function ExecFrom(l: Layout, junk: Regs, k: nat, s: State): State
    requires l.Valid() && k <= |TRAMPOLINE|
    decreases |TRAMPOLINE| - k
  {
    if k == |TRAMPOLINE| then s else ExecFrom(l, junk, k + 1, Exec(l, junk, TRAMPOLINE[k], s))
  }

  /** The hart's own part of a trap: mepc, mcause, mtval, MPP; on to mtvec in M-mode. */
  function TakeTrap(s: State, cause: Word, tval: Word): State
  {
    s.(mode := Machine, pc := s.csr.mtvec,
       csr := s.csr.(mepc := s.pc, mcause := cause, mtval := tval, mpp := s.mode))
  }

  /** A trap taken, handled by trap_entry, and (unless the dispatcher halts) returned from. */
  function Trap(l: Layout, junk: Regs, s: State, cause: Word, tval: Word): State
    requires l.Valid()
  {
    ExecFrom(l, junk, 0, TakeTrap(s, cause, tval))
  }
}

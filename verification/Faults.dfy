/** Access faults: what the handler does with them, from U-mode and from the M-mode self-test. */
module Faults {
  import opened Bits
  import opened Memory
  import opened Pmp
  import opened Monitor
  import opened Trampoline
  import opened Services
  import opened UserRuns

  /** Memory changes only in the saved frame, the self-test's mailbox word and the stage flag. */
  ghost predicate OnlyRecorded(l: Layout, m1: Mem, m2: Mem)
    requires l.Valid()
  {
    forall x: Word ::
      !In(x, l.stack + 448, 64) && !In(x, l.Mailbox(2), 4) && !In(x, l.stage, 4) ==> m2[x] == m1[x]
  }

  /** Code at pc shares no byte with the data the handler writes. */
  predicate CodeApart(l: Layout, pc: CodeAddr)
  {
    Apart(pc, 2, l.mb, 64) && Apart(pc, 2, l.stage, 4) && Apart(pc, 2, l.stack, 512)
  }

  /**
   The instruction length the self-test branch finds at pc. It looks at the opcode only after the frame is
   saved, the cause recorded and the stage flag reset, so in those bytes it sees a saved register, the
   cause, or STAGE_U instead.
   */
  function SeenLength(l: Layout, s: State, cause: Word): Length
    requires l.Valid()
  {
    var pc := s.pc;
    if In(pc, l.Frame(), 64) then
      var saved := s.regs[FRAME_REGS[(pc - l.Frame()) / 4]];
      InstrLength(if pc % 4 == 0 then saved else saved / 0x1_0000)
    else if In(pc, l.Mailbox(MB_XH3_MCAUSE), 4) then InstrLength(if pc % 4 == 0 then cause else 0)
    else if In(pc, l.stage, 4) then InstrLength(if pc % 4 == 0 then STAGE_U else 0)
    else InstrLength(Load16(s.mem, pc))
  }

  /**
   The self-test recovery. Every register keeps its value, so the refused load delivers nothing; M-mode is
   unrestricted again; execution resumes, in the mode it left, behind the faulting instruction as the
   handler measures it.
   */
  ghost predicate Recovered(l: Layout, s: State, t: State, cause: Word)
    requires l.Valid()
  {
    && !t.halted && !t.nested
    && t.regs == s.regs && t.mode == s.mode
    && t.pc == NextPc(s.pc, SeenLength(l, s, cause))
    && t.csr.pmp == s.csr.pmp.(m0 := 0) && t.csr.mscratch == l.StackTop() && t.csr.mtvec == s.csr.mtvec
    && Load32(t.mem, l.Mailbox(2)) == cause && Load32(t.mem, l.stage) == 2
    && OnlyRecorded(l, s.mem, t.mem)
  }

  /** The isolation demo's end: cause and address in the mailbox, and no way back to U-mode. */
  ghost predicate Caught(l: Layout, t: State, cause: Word, tval: Word)
    requires l.Valid()
  {
    && t.halted && !t.nested
    && Load32(t.mem, l.Mailbox(8)) == cause
    && Load32(t.mem, l.Mailbox(9)) == tval
    && Load32(t.mem, l.Mailbox(11)) == 0x600D
  }

  lemma SelfTestedFrame(l: Layout, m: Mem, cause: Word)
    requires l.Valid()
    ensures var t := Store32(Store32(m, l.Mailbox(2), cause), l.stage, STAGE_U);
            && (forall j: nat | j < 16 :: Load32(t, Slot(l.Frame(), j)) == Load32(m, Slot(l.Frame(), j)))
            && Load32(t, l.Mailbox(2)) == cause && Load32(t, l.stage) == 2
            && OnlyRecorded(l, m, t)
  {
    hide Load32, Store32;
    var m1 := Store32(m, l.Mailbox(2), cause);
    var t := Store32(m1, l.stage, STAGE_U);
    LoadSame(m1, t, l.Mailbox(2));
    forall j: nat | j < 16 ensures Load32(t, Slot(l.Frame(), j)) == Load32(m, Slot(l.Frame(), j)) {
      LoadSame(m, t, Slot(l.Frame(), j));
    }
  }

  lemma LowBits(m: Mem, a: Word)
    requires a % 4 == 0
    ensures m[a] % 4 == Load32(m, a) % 4 && m[a + 2] % 4 == Load32(m, a) / 0x1_0000 % 4
  {
    var low := m[a] as int + 0x100 * (m[a + 1] as int);
    var high := m[a + 2] as int + 0x100 * (m[a + 3] as int);
    assert Load32(m, a) == low + 0x1_0000 * high && low < 0x1_0000;
    assert Load32(m, a) / 0x1_0000 == high;
  }

  /** An even address in a word is its first or its third byte. */
  lemma HalfOf(a: Word, pc: CodeAddr)
    requires a % 4 == 0 && In(pc, a, 4)
    ensures pc == a || pc == a + 2
    ensures pc % 4 == 0 <==> pc == a
  {
  }

  lemma LengthOfWord(m: Mem, a: Word, pc: CodeAddr)
    requires a % 4 == 0 && In(pc, a, 4)
    ensures var v := Load32(m, a);
            InstrLength(Load16(m, pc)) == InstrLength(if pc % 4 == 0 then v else v / 0x1_0000)
  {
    hide Load32;
    HalfOf(a, pc);
    LowBits(m, a);
    assert Load16(m, pc) % 4 == m[pc] % 4;
  }

  /** What the self-test branch reads at pc. */
  lemma SeenIs(l: Layout, s: State, t: Mem, cause: Word)
    requires l.Valid() && OnlyRecorded(l, s.mem, t)
    requires forall j: nat | j < 16 :: Load32(t, Slot(l.Frame(), j)) == s.regs[FRAME_REGS[j]]
    requires Load32(t, l.Mailbox(MB_XH3_MCAUSE)) == cause && Load32(t, l.stage) == STAGE_U
    requires cause in {CAUSE_LOAD_FAULT, CAUSE_STORE_FAULT}
    ensures InstrLength(Load16(t, s.pc)) == SeenLength(l, s, cause)
  {
    hide Load32, FRAME_REGS;
    FrameRegsText();
    var pc, f := s.pc, l.Frame();
    if In(pc, f, 64) {
      var j := (pc - f) / 4;
      assert In(pc, Slot(f, j), 4);
      LengthOfWord(t, Slot(f, j), pc);
    } else if In(pc, l.Mailbox(MB_XH3_MCAUSE), 4) {
      LengthOfWord(t, l.Mailbox(MB_XH3_MCAUSE), pc);
    } else if In(pc, l.stage, 4) {
      LengthOfWord(t, l.stage, pc);
    } else {
      assert t[pc] == s.mem[pc];
      assert Load16(t, pc) % 4 == t[pc] % 4 && Load16(s.mem, pc) % 4 == s.mem[pc] % 4;
    }
  }

  lemma HaltingRecords(l: Layout, s: State)
    requires l.Valid() && s.csr.mcause in {CAUSE_LOAD_FAULT, CAUSE_STORE_FAULT} && !s.nested
    ensures Caught(l, Halting(l, s), s.csr.mcause, s.csr.mtval)
  {
    hide Load32, Store32;
    var m1 := Store32(s.mem, l.Mailbox(MB_MCAUSE), s.csr.mcause);
    var m2 := Store32(m1, l.Mailbox(MB_MTVAL), s.csr.mtval);
    var m3 := Store32(m2, l.Mailbox(MB_STAGE), 0x600D);
    LoadSame(m1, m3, l.Mailbox(MB_MCAUSE));
    LoadSame(m2, m3, l.Mailbox(MB_MTVAL));
  }

  lemma EnteredMemory(l: Layout, s: State)
    requires l.Valid()
    ensures SameOutside(s.mem, Entered(l, s).mem, l.Frame(), 64)
    ensures Load32(Entered(l, s).mem, l.stage) == Load32(s.mem, l.stage)
    ensures forall j: nat | j < 16 ::
              Load32(Entered(l, s).mem, Slot(l.Frame(), j)) == s.regs[FRAME_REGS[j]]
  {
    hide Load32, SaveFrame, FRAME_REGS;
    FrameRegsText();
    SaveFrameReads(s.mem, l.Frame(), s.regs[SP := l.Frame()], 16);
    LoadSame(s.mem, Entered(l, s).mem, l.stage);
  }

  /**
   A load or store access fault, in either mode and with PMPCFGM0 set or clear: recovery if the stage
   flag says self-test, otherwise the fault is recorded and the hart stops. No trap is nested.
   */
  lemma FaultHandled(l: Layout, junk: Regs, s: State, cause: Word, tval: Word)
    requires Running(l, s) && s.csr.mscratch == l.StackTop()
    requires cause in {5, 7}
    ensures var t := Trap(l, junk, s, cause, tval);
            if Load32(s.mem, l.stage) == 1 then Recovered(l, s, t, cause) else Caught(l, t, cause, tval)
  {
    hide Load32, Store32, Entered, Programmed, RestoreRegs, FRAME_REGS, Clobber, Load16;
    FrameRegsText();
    var u := TakeTrap(s, cause, tval);
    TrapMeaning(l, junk, s, cause, tval);
    EnteredFacts(l, u);
    EnteredMemory(l, u);
    var e := Entered(l, u);
    if SelfTestRuns(l, e) {
      SelfTestedFrame(l, e.mem, cause);
      var d := SelfTested(l, e);
      RestoreIs(d.mem, l.Frame(), s.regs, s.regs);
      SeenIs(l, s, d.mem, cause);
    } else {
      HaltingRecords(l, e);
    }
  }

  /**
   So the recovered program goes on at its next instruction boundary iff the handler has not written over
   the opcode with something of the other length. Off the words the handler writes it always does.
   */
  lemma ResumesOnBoundaryIff(l: Layout, junk: Regs, s: State, cause: Word, tval: Word)
    requires Running(l, s) && s.csr.mscratch == l.StackTop()
    requires cause in {5, 7} && Load32(s.mem, l.stage) == 1
    ensures var length := if Load16(s.mem, s.pc) % 4 == 3 then 4 else 2;
            var right := Trap(l, junk, s, cause, tval).pc == (s.pc + length) % 0x1_0000_0000;
            && (right <==> SeenLength(l, s, cause) == length)
            && (CodeApart(l, s.pc) ==> right)
  {
    hide Load32, Trap, Load16, FRAME_REGS;
    FaultHandled(l, junk, s, cause, tval);
  }

  /** Every other trap -- fetch fault, misaligned access, breakpoint -- is reported and the hart stops. */
  lemma UnexpectedTrap(l: Layout, junk: Regs, s: State, cause: Word, tval: Word)
    requires Running(l, s) && s.csr.mscratch == l.StackTop()
    requires cause !in {5, 7, 8}
    ensures var t := Trap(l, junk, s, cause, tval);
            && t.halted && !t.nested && Load32(t.mem, l.Mailbox(11)) == 0xDEAD
            && forall x: Word :: !In(x, l.stack + 448, 64) && !In(x, l.Mailbox(11), 4) ==> t.mem[x] == s.mem[x]
  {
    hide Load32, Store32, Entered, Programmed, Clobber;
    var u := TakeTrap(s, cause, tval);
    TrapMeaning(l, junk, s, cause, tval);
    EnteredFacts(l, u);
    EnteredMemory(l, u);
  }

  /**
   A U-mode load that touches g_prot never completes: the hart either stops with the fault recorded or,
   if U-mode itself forged the stage flag, skips the load with every register unchanged.
   */
  lemma BlockedLoad(l: Layout, isa: Isa, junk: State -> Regs, s: State, rd: RegName, a: Word, w: Width, signed: bool)
    requires Dropped(l, s) && !s.halted
    requires var o := Fetch(s.csr.pmp, s.mem, s.pc);
             o.Opcode? && isa.decode(o.bits, s.regs, s.pc) == Load(rd, a, w, signed)
    requires a % w.Bytes() == 0 && !Apart(a, w.Bytes(), l.prot, 64)
    ensures var t := Step(l, isa, junk, s);
            if Load32(s.mem, l.stage) == 1 then Recovered(l, s, t, 5)
            else Caught(l, t, 5, isa.tval(a))
  {
    hide Allows, Programmed, Trap, LoadWidth, Fetch, Load32;
    ProgrammedMeaning(s.csr.pmp, l.prot, User, a, w.Bytes(), Read);
    FaultHandled(l, junk(s), s, CAUSE_LOAD_FAULT, isa.tval(a));
  }

  /**
   Where it fails: U-mode forges the stage flag and runs a four-byte load of g_prot out of g_mb[2]. The
   handler stores the cause over the opcode and goes on in the middle of the instruction.
   */
  lemma ResumesMidInstruction(l: Layout, isa: Isa, junk: State -> Regs, s: State, rd: RegName, a: Word, w: Width,
                              signed: bool)
    requires Dropped(l, s) && !s.halted && Load32(s.mem, l.stage) == 1
    requires s.pc == l.Mailbox(2)
    requires var o := Fetch(s.csr.pmp, s.mem, s.pc);
             o.Opcode? && o.length == 4 && isa.decode(o.bits, s.regs, s.pc) == Load(rd, a, w, signed)
    requires a % w.Bytes() == 0 && !Apart(a, w.Bytes(), l.prot, 64)
    ensures Load16(s.mem, s.pc) % 4 == 3 && Step(l, isa, junk, s).pc == (s.pc + 2) % 0x1_0000_0000
  {
    hide Allows, Programmed, Step, Load32, FRAME_REGS, Load16;
    BlockedLoad(l, isa, junk, s, rd, a, w, signed);
  }
}

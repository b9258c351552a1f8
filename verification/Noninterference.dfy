/**
 The secret word has no influence on U-mode after the drop: two machines that differ in it, and in
 what the compiled dispatcher leaves in its scratch registers, stay indistinguishable for ever.
 */
module Noninterference {
  import opened Bits
  import opened Memory
  import opened Pmp
  import opened Monitor
  import opened Sign
  import opened Trampoline
  import opened Services
  import opened UserRuns

  /** Equal but for the four bytes of g_prot.secret. */
  ghost predicate SameMem(l: Layout, m1: Mem, m2: Mem)
  {
    SameOutside(m1, m2, l.prot, 4)
  }

  /**
   Equal but for the secret. A hart spinning in the dispatcher also may hold anything in its
   registers: U-mode never sees them again.
   */
  ghost predicate Alike(l: Layout, s: State, t: State)
  {
    && SameMem(l, s.mem, t.mem)
    && t == s.(mem := t.mem, regs := t.regs)
    && (!s.halted ==> t.regs == s.regs)
  }

  lemma LoadAlike(l: Layout, m1: Mem, m2: Mem, a: Word)
    requires l.Valid() && SameMem(l, m1, m2) && a % 4 == 0 && Apart(a, 4, l.Secret(), 4)
    ensures Load32(m1, a) == Load32(m2, a)
  {
    hide Load32;
    LoadSame(m1, m2, a);
  }

  lemma StoreAlike(l: Layout, m1: Mem, m2: Mem, a: Word, v: Word)
    requires SameMem(l, m1, m2) && a % 4 == 0
    ensures SameMem(l, Store32(m1, a, v), Store32(m2, a, v))
  {
    hide ByteOf, Load32;
  }

  /** The services read the counter and the key, never the secret. */
  lemma ServiceAlike(l: Layout, m1: Mem, m2: Mem, a7: Word, a0: Word, a1: Word)
    requires l.Valid() && SameMem(l, m1, m2)
    ensures SameMem(l, ServiceMem(l, m1, a7, a0, a1), ServiceMem(l, m2, a7, a0, a1))
    ensures ServiceResult(l, m1, a7) == ServiceResult(l, m2, a7)
  {
    hide Load32, ByteOf, Xor8, Store32, SignRejects;
    l.CounterAligned();
    LoadAlike(l, m1, m2, l.Counter());
    StoreAlike(l, m1, m2, l.Counter(), Bumped(l, m1));
    assert KeyOf(l, m1) == KeyOf(l, m2);
  }

  lemma EcallMemAlike(l: Layout, m1: Mem, m2: Mem)
    requires l.Valid() && SameMem(l, m1, m2)
    ensures SameMem(l, EcallMem(l, m1, l.Frame()), EcallMem(l, m2, l.Frame()))
  {
    hide Load32, Store32, ServiceMem, ServiceResult;
    var f := l.Frame();
    LoadAlike(l, m1, m2, Slot(f, 0));
    LoadAlike(l, m1, m2, Slot(f, 1));
    LoadAlike(l, m1, m2, Slot(f, 7));
    var a7, a0, a1 := Load32(m1, Slot(f, 7)), Load32(m1, Slot(f, 0)), Load32(m1, Slot(f, 1));
    ServiceAlike(l, m1, m2, a7, a0, a1);
    StoreAlike(l, ServiceMem(l, m1, a7, a0, a1), ServiceMem(l, m2, a7, a0, a1), Slot(f, 0),
               ServiceResult(l, m1, a7));
  }

  lemma SelfTestedAlike(l: Layout, s: State, t: State)
    requires l.Valid() && SameMem(l, s.mem, t.mem) && t == s.(mem := t.mem)
    requires Apart(s.csr.mepc, 2, l.Secret(), 4)
    ensures var x, y := SelfTested(l, s), SelfTested(l, t);
            SameMem(l, x.mem, y.mem) && y == x.(mem := y.mem)
  {
    hide Load32, Store32;
    var a := l.Mailbox(MB_XH3_MCAUSE);
    StoreAlike(l, s.mem, t.mem, a, s.csr.mcause);
    StoreAlike(l, Store32(s.mem, a, s.csr.mcause), Store32(t.mem, a, s.csr.mcause), l.stage, STAGE_U);
  }

  lemma HaltingAlike(l: Layout, s: State, t: State)
    requires l.Valid() && SameMem(l, s.mem, t.mem) && t == s.(mem := t.mem)
    ensures var x, y := Halting(l, s), Halting(l, t);
            SameMem(l, x.mem, y.mem) && y == x.(mem := y.mem)
  {
    hide Load32, Store32, SameMem;
    var cause, tval := s.csr.mcause, s.csr.mtval;
    StoreAlike(l, s.mem, t.mem, l.Mailbox(MB_STAGE), 0xDEAD);
    StoreAlike(l, s.mem, t.mem, l.Mailbox(MB_MCAUSE), cause);
    var m1, n1 := Store32(s.mem, l.Mailbox(MB_MCAUSE), cause), Store32(t.mem, l.Mailbox(MB_MCAUSE), cause);
    StoreAlike(l, m1, n1, l.Mailbox(MB_MTVAL), tval);
    StoreAlike(l, Store32(m1, l.Mailbox(MB_MTVAL), tval), Store32(n1, l.Mailbox(MB_MTVAL), tval),
               l.Mailbox(MB_STAGE), 0x600D);
  }

  lemma DispatchedAlike(l: Layout, s: State, t: State)
    requires l.Valid() && SameMem(l, s.mem, t.mem) && t == s.(mem := t.mem)
    requires s.csr.mcause in {CAUSE_LOAD_FAULT, CAUSE_STORE_FAULT} ==> Apart(s.csr.mepc, 2, l.Secret(), 4)
    ensures var x, y := Dispatched(l, s, l.Frame()), Dispatched(l, t, l.Frame());
            SameMem(l, x.mem, y.mem) && y == x.(mem := y.mem)
  {
    hide Load32, Store32, EcallMem, SelfTested, Halting;
    EcallMemAlike(l, s.mem, t.mem);
    HaltingAlike(l, s, t);
    LoadAlike(l, s.mem, t.mem, l.stage);
    if SelfTestRuns(l, s) {
      SelfTestedAlike(l, s, t);
    }
  }

  lemma RestoreAlike(l: Layout, m1: Mem, m2: Mem, regs: Regs)
    requires l.Valid() && SameMem(l, m1, m2)
    ensures RestoreRegs(m1, l.Frame(), regs, 16) == RestoreRegs(m2, l.Frame(), regs, 16)
  {
    hide Load32, FRAME_REGS;
    FrameRegsText();
    var f := l.Frame();
    var target := RestoreRegs(m2, f, regs, 16);
    RestoreRegsReads(m2, f, regs, 16);
    forall j: nat | j < 16 ensures Load32(m1, Slot(f, j)) == target[FRAME_REGS[j]] {
      LoadAlike(l, m1, m2, Slot(f, j));
    }
    forall r: RegName | r !in FRAME_REGS ensures target[r] == regs[r] {
      RestoreRegsKeeps(m2, f, regs, 16, r);
    }
    RestoreIs(m1, f, regs, target);
  }

  lemma {:induction false} SaveFrameAlike(l: Layout, m1: Mem, m2: Mem, regs: Regs, k: nat)
    requires l.Valid() && SameMem(l, m1, m2) && k <= 16
    ensures SameMem(l, SaveFrame(m1, l.Frame(), regs, k), SaveFrame(m2, l.Frame(), regs, k))
  {
    if k > 0 {
      hide Store32, FRAME_REGS, SameMem;
      FrameRegsText();
      SaveFrameAlike(l, m1, m2, regs, k - 1);
      StoreAlike(l, SaveFrame(m1, l.Frame(), regs, k - 1), SaveFrame(m2, l.Frame(), regs, k - 1),
                 Slot(l.Frame(), k - 1), regs[FRAME_REGS[k - 1]]);
    }
  }

  lemma EnteredAlike(l: Layout, s: State, t: State)
    requires l.Valid() && Alike(l, s, t) && !s.halted
    ensures SameMem(l, Entered(l, s).mem, Entered(l, t).mem)
    ensures Entered(l, t) == Entered(l, s).(mem := Entered(l, t).mem)
  {
    hide SaveFrame;
    SaveFrameAlike(l, s.mem, t.mem, s.regs[SP := l.Frame()], 16);
  }

  /** A trap with all its handling. junk1 and junk2 may hold anything, the secret included. */
  lemma TrapAlike(l: Layout, junk1: Regs, junk2: Regs, s: State, t: State, cause: Word, tval: Word)
    requires Dropped(l, s) && Dropped(l, t) && Alike(l, s, t) && !s.halted
    requires cause in {CAUSE_LOAD_FAULT, CAUSE_STORE_FAULT} ==> Apart(s.pc, 2, l.Secret(), 4)
    ensures Alike(l, Trap(l, junk1, s, cause, tval), Trap(l, junk2, t, cause, tval))
  {
    hide Programmed, RestoreRegs, Dispatched, Clobber, Entered, SameMem;
    var u, v := TakeTrap(s, cause, tval), TakeTrap(t, cause, tval);
    TrapMeaning(l, junk1, s, cause, tval);
    TrapMeaning(l, junk2, t, cause, tval);
    EnteredAlike(l, u, v);
    EnteredFacts(l, u);
    DispatchedAlike(l, Entered(l, u), Entered(l, v));
    RestoreAlike(l, Dispatched(l, Entered(l, u), l.Frame()).mem, Dispatched(l, Entered(l, v), l.Frame()).mem, u.regs);
  }

  /** A fetch that succeeds reads nothing of g_prot, so both machines fetch the same. */
  lemma FetchAlike(l: Layout, s: State, t: State)
    requires Dropped(l, s) && Alike(l, s, t) && !s.halted
    ensures Fetch(s.csr.pmp, s.mem, s.pc) == Fetch(t.csr.pmp, t.mem, t.pc)
    ensures Fetch(s.csr.pmp, s.mem, s.pc).Opcode? ==> Apart(s.pc, 2, l.prot, 64)
  {
    hide Allows, Programmed;
    ProgrammedMeaning(s.csr.pmp, l.prot, User, s.pc, 2, Execute);
    ProgrammedMeaning(s.csr.pmp, l.prot, User, NextPc(s.pc, 2), 2, Execute);
  }

  lemma LoadWidthAlike(l: Layout, m1: Mem, m2: Mem, a: Word, w: Width)
    requires l.Valid() && SameMem(l, m1, m2) && a % w.Bytes() == 0 && Apart(a, w.Bytes(), l.prot, 64)
    ensures LoadWidth(m1, a, w) == LoadWidth(m2, a, w)
  {
  }

  lemma StoreWidthAlike(l: Layout, m1: Mem, m2: Mem, a: Word, w: Width, v: Word)
    requires l.Valid() && SameMem(l, m1, m2) && a % w.Bytes() == 0
    ensures SameMem(l, StoreWidth(m1, a, w, v), StoreWidth(m2, a, w, v))
  {
    hide ByteOf, Load32, Load16;
  }

  lemma InstructionAlike(l: Layout, isa: Isa, s: State, t: State)
    requires Dropped(l, s) && Dropped(l, t) && Alike(l, s, t) && !s.halted
    ensures var i, j := Instruction(isa, s), Instruction(isa, t);
            && (i.Done? ==> j.Done? && Alike(l, i.next, j.next))
            && (i.Faults? ==> j == i)
  {
    hide Allows, Programmed, Fetch, LoadWidth, StoreWidth, Extend;
    FetchAlike(l, s, t);
    var o := Fetch(s.csr.pmp, s.mem, s.pc);
    if o.Opcode? {
      var act := isa.decode(o.bits, s.regs, s.pc);
      if act.Load? && act.src % act.loadWidth.Bytes() == 0 {
        ProgrammedMeaning(s.csr.pmp, l.prot, User, act.src, act.loadWidth.Bytes(), Read);
        if Apart(act.src, act.loadWidth.Bytes(), l.prot, 64) {
          LoadWidthAlike(l, s.mem, t.mem, act.src, act.loadWidth);
        }
      } else if act.Store? && act.dst % act.storeWidth.Bytes() == 0 {
        StoreWidthAlike(l, s.mem, t.mem, act.dst, act.storeWidth, act.value);
      }
    }
  }

  lemma StepAlike(l: Layout, isa: Isa, junk1: State -> Regs, junk2: State -> Regs, s: State, t: State)
    requires Dropped(l, s) && Dropped(l, t) && Alike(l, s, t)
    ensures Alike(l, Step(l, isa, junk1, s), Step(l, isa, junk2, t))
  {
    hide Programmed, Trap;
    if !s.halted {
      InstructionAlike(l, isa, s, t);
      match Instruction(isa, s)
      case Done(_) =>
      case Faults(cause, tval) =>
        if cause in {CAUSE_LOAD_FAULT, CAUSE_STORE_FAULT} {
          FetchAlike(l, s, t);
        }
        TrapAlike(l, junk1(s), junk2(t), s, t, cause, tval);
    }
  }

  /** The two-run theorem, for every program and any number of steps. */
  lemma {:induction false} RunsAlike(l: Layout, isa: Isa, junk1: State -> Regs, junk2: State -> Regs,
                                     s: State, t: State, n: nat)
    requires Dropped(l, s) && Dropped(l, t) && Alike(l, s, t)
    ensures Alike(l, After(l, isa, junk1, s, n), After(l, isa, junk2, t, n))
  {
    hide Step, Alike, Programmed;
    if n > 0 {
      RunsAlike(l, isa, junk1, junk2, s, t, n - 1);
      RunDropped(l, isa, junk1, s, n - 1);
      RunDropped(l, isa, junk2, t, n - 1);
      StepAlike(l, isa, junk1, junk2, After(l, isa, junk1, s, n - 1), After(l, isa, junk2, t, n - 1));
    }
  }
}

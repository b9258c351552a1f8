/**
 The dispatcher in closed form, free of PMP checks because none of its accesses is ever refused, and
 the refinement of the concrete ecall path by one atomic service step.
 */
module Services {
  import opened Bits
  import opened Memory
  import opened Pmp
  import opened Monitor
  import opened Sign
  import opened Trampoline

  // ---- the services, as changes of memory ----

  function Signed(l: Layout, m: Mem, b: Word, len: Word): Mem
    requires l.Valid()
  {
    if SignRejects(l.prot, b, len) then m else Transform(m, b, len, KeyOf(l, m))
  }

  /** The counter: the second word of g_prot. */
  function CounterOf(l: Layout, m: Mem): Word
    requires l.Valid()
  {
    l.CounterAligned();
    Load32(m, l.prot + 4)
  }

  /** The counter's next value. */
  function Bumped(l: Layout, m: Mem): Word
    requires l.Valid()
  {
    l.CounterAligned();
    Add32(Load32(m, l.Counter()), 1)
  }

  /** The effect of the service a U-mode program asks for in a7, with arguments in a0 and a1. */
  function ServiceMem(l: Layout, m: Mem, a7: Word, a0: Word, a1: Word): Mem
    requires l.Valid()
  {
    l.CounterAligned();
    if a7 == SVC_GET_COUNTER then Store32(m, l.Counter(), Bumped(l, m))
    else if a7 == SVC_SIGN then Signed(l, m, a0, a1)
    else m
  }

  function ServiceResult(l: Layout, m: Mem, a7: Word): Word
    requires l.Valid()
  {
    if a7 == SVC_GET_COUNTER then Bumped(l, m)
    else if a7 == SVC_SIGN then 0
    else 0xFFFF_FFFF
  }

  /** Memory after DispatchEcall on the frame at f. */
  function EcallMem(l: Layout, m: Mem, f: Word): Mem
    requires l.Valid() && FrameAt(f)
  {
    var a7 := Load32(m, Slot(f, 7));
    Store32(ServiceMem(l, m, a7, Load32(m, Slot(f, 0)), Load32(m, Slot(f, 1))), Slot(f, 0),
            ServiceResult(l, m, a7))
  }

  lemma EcallMeaning(l: Layout, s: State, f: Word)
    requires Free(l, s) && FrameAt(f)
    ensures DispatchEcall(l, s, f) == s.(mem := EcallMem(l, s.mem, f))
  {
    hide Allows, Store32, Load32, Transform, Programmed, SvcSign;
    FreeMachine(l, s);
    assert Natural(Slot(f, 0), 4) && Natural(Slot(f, 1), 4) && Natural(Slot(f, 7), 4);
    var a7 := Load32(s.mem, Slot(f, 7));
    if a7 == SVC_GET_COUNTER {
      l.CounterAligned();
      assert Natural(l.Counter(), 4);
      var s1 := s.(mem := Store32(s.mem, l.Counter(), Bumped(l, s.mem)));
      assert MachineMay(s1, Slot(f, 0), 4, Write);
    } else if a7 == SVC_SIGN {
      var b, len := Load32(s.mem, Slot(f, 0)), Load32(s.mem, Slot(f, 1));
      SvcSignMeaning(l, s, b, len);
      var s1 := s.(mem := Signed(l, s.mem, b, len));
      assert MachineMay(s1, Slot(f, 0), 4, Write);
    }
  }

  /** DispatchSelfTest without its checks. */
  function SelfTested(l: Layout, s: State): State
    requires l.Valid()
  {
    var m1 := Store32(s.mem, l.Mailbox(MB_XH3_MCAUSE), s.csr.mcause);
    var m2 := Store32(m1, l.stage, STAGE_U);
    s.(mem := m2, csr := s.csr.(pmp := s.csr.pmp.(m0 := 0),
       mepc := NextPc(s.csr.mepc, InstrLength(Load16(m2, s.csr.mepc)))))
  }

  /** DispatchHalt without its checks. */
  function Halting(l: Layout, s: State): State
    requires l.Valid()
  {
    if s.csr.mcause == CAUSE_LOAD_FAULT || s.csr.mcause == CAUSE_STORE_FAULT then
      var m1 := Store32(s.mem, l.Mailbox(MB_MCAUSE), s.csr.mcause);
      var m2 := Store32(m1, l.Mailbox(MB_MTVAL), s.csr.mtval);
      s.(mem := Store32(m2, l.Mailbox(MB_STAGE), 0x600D), halted := true)
    else
      s.(mem := Store32(s.mem, l.Mailbox(MB_STAGE), 0xDEAD), halted := true)
  }

  /** Monitor data outside g_prot is within M-mode's reach, restricted or not. */
  lemma DataMay(l: Layout, s: State, a: Word, kind: Access)
    requires l.Valid() && Programmed(s.csr.pmp, l.prot)
    requires a % 4 == 0 && Apart(a, 4, l.prot, 64)
    ensures MachineMay(s, a, 4, kind)
  {
    hide Allows, Programmed;
    ProgrammedMeaning(s.csr.pmp, l.prot, Machine, a, 4, kind);
  }

  /** The self-test path takes no nested trap: the restriction is lifted before the opcode is read. */
  lemma SelfTestMeaning(l: Layout, s: State)
    requires l.Valid() && Programmed(s.csr.pmp, l.prot)
    ensures DispatchSelfTest(l, s) == SelfTested(l, s)
  {
    hide Allows, Store32, Load16;
    DataMay(l, s, l.Mailbox(MB_XH3_MCAUSE), Write);
    var s1 := MStore32(s, l.Mailbox(MB_XH3_MCAUSE), s.csr.mcause);
    var s2 := s1.(csr := s1.csr.(pmp := s1.csr.pmp.(m0 := 0)));
    Lifted(l, s2);
    assert Natural(l.stage, 4) && Natural(s.csr.mepc, 2);
    var s3 := MStore32(s2, l.stage, STAGE_U);
    assert MachineMay(s3, s.csr.mepc, 2, Read);
  }

  lemma Lifted(l: Layout, s: State)
    requires l.Valid() && Programmed(s.csr.pmp.(m0 := 0), l.prot) && s.csr.pmp.m0 == 0
    ensures forall a: Word, n: nat, kind: Access ::
              Natural(a, n) ==> Allows(s.csr.pmp, Machine, a, n, kind)
  {
    FreeMachine(l, s);
  }

  lemma HaltMeaning(l: Layout, s: State)
    requires l.Valid() && Programmed(s.csr.pmp, l.prot)
    ensures DispatchHalt(l, s) == Halting(l, s)
  {
    hide Allows, Store32, Programmed;
    DataMay(l, s, l.Mailbox(MB_MCAUSE), Write);
    DataMay(l, s, l.Mailbox(MB_STAGE), Write);
    var s1 := MStore32(s, l.Mailbox(MB_MCAUSE), s.csr.mcause);
    DataMay(l, s1, l.Mailbox(MB_MTVAL), Write);
    var s2 := MStore32(s1, l.Mailbox(MB_MTVAL), s.csr.mtval);
    DataMay(l, s2, l.Mailbox(MB_STAGE), Write);
  }

  predicate SelfTestRuns(l: Layout, s: State)
    requires l.Valid()
  {
    && (s.csr.mcause == CAUSE_LOAD_FAULT || s.csr.mcause == CAUSE_STORE_FAULT)
    && Load32(s.mem, l.stage) == STAGE_XH3
  }

  function Dispatched(l: Layout, s: State, f: Word): State
    requires l.Valid() && FrameAt(f)
  {
    if s.csr.mcause == CAUSE_ECALL_U then
      s.(mem := EcallMem(l, s.mem, f), csr := s.csr.(mepc := NextPc(s.csr.mepc, 4)))
    else if SelfTestRuns(l, s) then SelfTested(l, s)
    else Halting(l, s)
  }

  /**
   trap_dispatch, for every cause and frame: each of its accesses is one the PMP grants, so it never
   traps into itself. Only a U-mode call needs M-mode to be free.
   */
  lemma DispatchMeaning(l: Layout, s: State, f: Word)
    requires l.Valid() && Programmed(s.csr.pmp, l.prot) && FrameAt(f)
    requires s.csr.mcause == CAUSE_ECALL_U ==> s.csr.pmp.m0 == 0
    ensures Dispatch(l, s, f) == Dispatched(l, s, f)
  {
    hide Allows, Programmed, Store32, Load32, DispatchEcall, DispatchSelfTest, DispatchHalt,
         EcallMem, SelfTested, Halting;
    if s.csr.mcause == CAUSE_ECALL_U {
      EcallMeaning(l, s, f);
    } else {
      DataMay(l, s, l.stage, Read);
      SelfTestMeaning(l, s);
      HaltMeaning(l, s);
    }
  }

  /** A whole trap in closed form: save the frame, dispatch, and either halt or return from it. */
  function TrapClosed(l: Layout, junk: Regs, s: State): State
    requires l.Valid()
  {
    var d := Dispatched(l, Entered(l, s), l.Frame());
    if d.halted then d.(regs := Clobber(d.regs, junk)) else Returned(l, s, d)
  }

  lemma EnteredFacts(l: Layout, s: State)
    requires l.Valid()
    ensures var e := Entered(l, s);
            && e.csr == s.csr.(mscratch := s.regs[SP]) && e.halted == s.halted && e.nested == s.nested
            && e.mode == s.mode && e.pc == s.pc
  {
    hide SaveFrame;
  }

  lemma TrapMeaning(l: Layout, junk: Regs, s: State, cause: Word, tval: Word)
    requires Running(l, s) && s.csr.mscratch == l.StackTop()
    requires cause == CAUSE_ECALL_U ==> s.csr.pmp.m0 == 0
    ensures Trap(l, junk, s, cause, tval) == TrapClosed(l, junk, TakeTrap(s, cause, tval))
  {
    hide Programmed, Load32, EcallMem, SelfTested, Halting, Entered, Returned, Clobber, Dispatch;
    var t := TakeTrap(s, cause, tval);
    TrampolineMeaning(l, junk, t);
    EnteredFacts(l, t);
    DispatchMeaning(l, Entered(l, t), l.Frame());
    DispatchedFlags(l, Entered(l, t), l.Frame());
  }

  lemma DispatchedFlags(l: Layout, s: State, f: Word)
    requires l.Valid() && FrameAt(f)
    ensures Dispatched(l, s, f).nested == s.nested
  {
    hide Load32, Store32, EcallMem, Load16;
  }

  // ---- the ecall path as one atomic step ----

  /**
   Signing flips no byte of the saved a1, a2, ..., ra: every buffer byte among them meets a zero key byte.
   The a0 slot does not matter, since the result is stored there afterwards.
   */
  ghost predicate SparesFrame(l: Layout, s: State)
    requires l.Valid()
  {
    || s.regs[A7] != SVC_SIGN
    || SignRejects(l.prot, s.regs[A0], s.regs[A1])
    || (forall x: Word | In(x, l.Frame() + 4, 60) && Sub32(x, s.regs[A0]) < s.regs[A1] ::
          KeyOf(l, s.mem)[Sub32(x, s.regs[A0]) % 16] == 0)
  }

  /**
   What an ecall should do: run the service, put its result in a0, go on after the 4-byte
   instruction. The caller's saved registers, with the result for a0, stay behind on the trap stack.
   */
  function AtomicEcall(l: Layout, s: State, tval: Word): State
    requires l.Valid()
  {
    var result := ServiceResult(l, s.mem, s.regs[A7]);
    var served := ServiceMem(l, s.mem, s.regs[A7], s.regs[A0], s.regs[A1]);
    var next := NextPc(s.pc, 4);
    s.(regs := s.regs[A0 := result], pc := next,
       mem := SaveFrame(served, l.Frame(), s.regs[A0 := result], 16),
       csr := s.csr.(mepc := next, mcause := CAUSE_ECALL_U, mtval := tval, mpp := User))
  }

  /** Neither the frame nor anything in it enters into what a service does elsewhere. */
  lemma ServiceOffFrame(l: Layout, m1: Mem, m2: Mem, a7: Word, a0: Word, a1: Word)
    requires l.Valid() && SameOutside(m1, m2, l.Frame(), 64)
    ensures ServiceResult(l, m1, a7) == ServiceResult(l, m2, a7)
    ensures SameOutside(ServiceMem(l, m1, a7, a0, a1), ServiceMem(l, m2, a7, a0, a1), l.Frame(), 64)
  {
    hide Xor8, Load32;
    l.CounterAligned();
    LoadSame(m1, m2, l.Counter());
    assert KeyOf(l, m1) == KeyOf(l, m2);
  }

  lemma ServiceOnFrame(l: Layout, m: Mem, s: State)
    requires l.Valid() && KeyOf(l, m) == KeyOf(l, s.mem)
    ensures SparesFrame(l, s) <==>
            SameInside(m, ServiceMem(l, m, s.regs[A7], s.regs[A0], s.regs[A1]), l.Frame() + 4, 60)
  {
    hide Xor8, Load32, SignRejects;
    var t := ServiceMem(l, m, s.regs[A7], s.regs[A0], s.regs[A1]);
    if s.regs[A7] == SVC_SIGN && !SignRejects(l.prot, s.regs[A0], s.regs[A1]) {
      var key := KeyOf(l, s.mem);
      forall x: Word | In(x, l.Frame() + 4, 60)
        ensures t[x] == m[x] <==>
                (Sub32(x, s.regs[A0]) < s.regs[A1] ==> key[Sub32(x, s.regs[A0]) % 16] == 0)
      {
        if Sub32(x, s.regs[A0]) < s.regs[A1] {
          Xor8Changes(m[x], key[Sub32(x, s.regs[A0]) % 16]);
        }
      }
    }
  }

  /** The dispatcher's memory is the atomic step's iff signing spares the frame. */
  lemma EcallMemMeaning(l: Layout, s: State, saved: Mem)
    requires l.Valid()
    requires saved == SaveFrame(s.mem, l.Frame(), s.regs[SP := l.Frame()], 16)
    ensures EcallMem(l, saved, l.Frame()) == AtomicEcall(l, s, 0).mem <==> SparesFrame(l, s)
  {
    hide Load32, Store32, ServiceMem, ServiceResult, SaveFrame, FRAME_REGS, SparesFrame;
    FrameRegsText();
    FrameOrder();
    var f := l.Frame();
    var regs := s.regs[SP := f];
    SaveFrameReads(s.mem, f, regs, 16);
    assert Load32(saved, Slot(f, 0)) == s.regs[A0] && Load32(saved, Slot(f, 1)) == s.regs[A1]
        && Load32(saved, Slot(f, 7)) == s.regs[A7];
    var result := ServiceResult(l, s.mem, s.regs[A7]);
    var served := ServiceMem(l, s.mem, s.regs[A7], s.regs[A0], s.regs[A1]);
    var servedLate := ServiceMem(l, saved, s.regs[A7], s.regs[A0], s.regs[A1]);
    ServiceOffFrame(l, s.mem, saved, s.regs[A7], s.regs[A0], s.regs[A1]);
    assert KeyOf(l, saved) == KeyOf(l, s.mem);
    ServiceOnFrame(l, saved, s);
    var target := s.regs[A0 := result];
    SaveFrameReads(served, f, target, 16);
    forall j: nat | 0 < j < 16 ensures regs[FRAME_REGS[j]] == target[FRAME_REGS[j]] {
      FrameRegsDistinct(0, j);
    }
    SameFrames(f, saved, servedLate, SaveFrame(served, f, target, 16), result);
  }

  /** Storing the result into one memory gives the other iff all slots above the first are as saved. */
  lemma SameFrames(f: Word, saved: Mem, late: Mem, atomic: Mem, result: Word)
    requires FrameAt(f) && SameOutside(late, atomic, f, 64) && Load32(atomic, Slot(f, 0)) == result
    requires forall j: nat | 0 < j < 16 :: Load32(atomic, Slot(f, j)) == Load32(saved, Slot(f, j))
    ensures Store32(late, Slot(f, 0), result) == atomic <==> SameInside(saved, late, f + 4, 60)
  {
    hide Load32, Store32;
    var concrete := Store32(late, Slot(f, 0), result);
    forall x: Word | In(x, f + 4, 60) ensures atomic[x] == saved[x] && concrete[x] == late[x] {
      var j := (x - f) / 4;
      assert In(x, Slot(f, j), 4);
      LoadInjective(saved, atomic, Slot(f, j));
    }
    if SameInside(saved, late, f + 4, 60) {
      forall j: nat | j < 16 ensures Load32(concrete, Slot(f, j)) == Load32(atomic, Slot(f, j)) {
        if j > 0 {
          LoadSame(concrete, atomic, Slot(f, j));
        }
      }
      FrameDetermines(concrete, atomic, f);
    }
  }

  lemma FrameOrder()
    ensures |FRAME_REGS| == 16 && FRAME_REGS[0] == A0 && FRAME_REGS[1] == A1 && FRAME_REGS[7] == A7
  {
  }

  /**
   The concrete ecall path -- sp/mscratch swap, sixteen stores, dispatcher, sixteen loads, swap, mret --
   is one atomic service step, for every register file, every memory and every behaviour of the
   compiled dispatcher's own registers, exactly when signing spares the saved frame.
   */
  lemma EcallRefinesAtomic(l: Layout, junk: Regs, s: State, tval: Word)
    requires Free(l, s) && Running(l, s) && s.mode.User? && s.csr.mscratch == l.StackTop()
    ensures Trap(l, junk, s, CAUSE_ECALL_U, tval) == AtomicEcall(l, s, tval) <==> SparesFrame(l, s)
  {
    hide Programmed, Load32, Store32, ServiceMem, ServiceResult, EcallMem, SaveFrame, RestoreRegs, FRAME_REGS,
         SparesFrame;
    FrameRegsText();
    FrameOrder();
    var f := l.Frame();
    var t := TakeTrap(s, CAUSE_ECALL_U, tval);
    TrapMeaning(l, junk, s, CAUSE_ECALL_U, tval);
    var e := Entered(l, t);
    EcallMemMeaning(l, s, e.mem);
    var d := Dispatched(l, e, f);
    assert Trap(l, junk, s, CAUSE_ECALL_U, tval).mem == EcallMem(l, e.mem, f);
    if SparesFrame(l, s) {
      var result := ServiceResult(l, s.mem, s.regs[A7]);
      var served := ServiceMem(l, s.mem, s.regs[A7], s.regs[A0], s.regs[A1]);
      var target := s.regs[A0 := result];
      SaveFrameReads(served, f, target, 16);
      RestoreIs(d.mem, f, s.regs, target);
    }
  }

  /**
   The answers in plain numbers, for any call that spares the frame: a7 = 0 answers the counter word at
   g_prot + 4, gone up by one modulo 2^32; a7 = 1 answers 0; anything else answers all ones.
   */
  lemma EcallAnswers(l: Layout, junk: Regs, s: State, tval: Word)
    requires Free(l, s) && Running(l, s) && s.mode.User? && s.csr.mscratch == l.stack + 512
    requires SparesFrame(l, s)
    ensures var t := Trap(l, junk, s, 8, tval);
            var count := Add32(CounterOf(l, s.mem), 1);
            var answer := if s.regs[17] == 0 then count else if s.regs[17] == 1 then 0 else 0xFFFF_FFFF;
            && t.regs == s.regs[10 := answer]
            && t.pc == Add32(s.pc, 4) && t.mode.User? && t.csr.mscratch == l.stack + 512
            && (s.regs[17] == 0 ==> CounterOf(l, t.mem) == count)
  {
    hide Programmed, Load32, Trap, SparesFrame, SaveFrame, Store32, SvcSign, Transform, FRAME_REGS;
    l.CounterAligned();
    EcallRefinesAtomic(l, junk, s, tval);
    var served := ServiceMem(l, s.mem, s.regs[17], s.regs[10], s.regs[11]);
    var t := AtomicEcall(l, s, tval);
    SaveFrameReads(served, l.Frame(), t.regs, 16);
    LoadSame(served, t.mem, l.prot + 4);
  }

  /**
   And their effect on any byte off the frame: a7 = 0 touches the counter's four bytes only; a7 = 1 signs
   the buffer that a0 and a1 give, unless it is longer than 64 bytes or meets g_prot; anything else nothing.
   */
  lemma EcallBytes(l: Layout, junk: Regs, s: State, tval: Word, x: Word)
    requires Free(l, s) && Running(l, s) && s.mode.User? && s.csr.mscratch == l.stack + 512
    requires SparesFrame(l, s) && !In(x, l.stack + 448, 64)
    ensures var t := Trap(l, junk, s, 8, tval);
            var i := Sub32(x, s.regs[10]);
            if s.regs[17] == 1 && i < s.regs[11] <= 64 && !Overlaps(s.regs[10], s.regs[11], l.prot)
            then forall k: nat :: Bit(t.mem[x], k) == (Bit(s.mem[x], k) != Bit(s.mem[l.prot + 8 + i % 16], k))
            else t.mem[x] == s.mem[x] || (s.regs[17] == 0 && In(x, l.prot + 4, 4))
  {
    hide Programmed, Load32, Trap, Overlaps, SparesFrame, SaveFrame, Bit, Transform, SvcSign, FRAME_REGS;
    EcallRefinesAtomic(l, junk, s, tval);
    var served := ServiceMem(l, s.mem, s.regs[17], s.regs[10], s.regs[11]);
    SaveFrameReads(served, l.Frame(), AtomicEcall(l, s, tval).regs, 16);
    SvcSignMeaning(l, s, s.regs[10], s.regs[11]);
    SvcSignBytes(l, s, s.regs[10], s.regs[11], x);
  }
}

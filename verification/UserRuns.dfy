/**
 Every run of U-mode code from the drop on: arbitrary programs (self-modifying ones included), any
 interleaving of fetches, loads, stores, calls and other traps, with any contents written to the
 mailbox, the stage flag or the trap stack.
 */
module UserRuns {
  import opened Bits
  import opened Memory
  import opened Pmp
  import opened Monitor
  import opened Sign
  import opened Trampoline
  import opened Services

  datatype Width = W8 | W16 | W32
  {
    function Bytes(): nat { match this case W8 => 1 case W16 => 2 case W32 => 4 }
  }

  /** What one U-mode instruction may do. */
  datatype Action =
    | Compute(regs: Regs, pc: CodeAddr)
    | Load(rd: RegName, src: Word, loadWidth: Width, signed: bool)
    | Store(dst: Word, storeWidth: Width, value: Word)
    | Raise(cause: Word, tval: Word)

  /**
   The U-mode instruction set: any function of the fetched bits, the registers and pc; and the mtval
   the hart reports for a refused access.
   */
  datatype Isa = Isa(decode: (Word, Regs, CodeAddr) -> Action, tval: Word -> Word)

  datatype Fetched = Opcode(bits: Word, length: Length) | Refused

  /** Fetch by halfwords, each under the PMP. */
  function Fetch(p: PmpCsrs, m: Mem, pc: CodeAddr): Fetched
  {
    var next := NextPc(pc, 2);
    if !Allows(p, User, pc, 2, Execute) then Refused
    else
      var half := Load16(m, pc);
      if InstrLength(half) == 2 then Opcode(half, 2)
      else if !Allows(p, User, next, 2, Execute) then Refused
      else Opcode(half + 0x1_0000 * (Load16(m, next) as int), 4)
  }

  /** An instruction either completes or traps. */
  datatype Attempt = Done(next: State) | Faults(cause: Word, tval: Word)

  function Extend(v: Word, w: Width, signed: bool): Word
  {
    if signed && w.W8? && v >= 0x80 then Add32(v, 0xFFFF_FF00)
    else if signed && w.W16? && v >= 0x8000 then Add32(v, 0xFFFF_0000)
    else v
  }

  function LoadWidth(m: Mem, a: Word, w: Width): Word
    requires a % w.Bytes() == 0
  {
    match w case W8 => m[a] case W16 => Load16(m, a) case W32 => Load32(m, a)
  }

  function StoreWidth(m: Mem, a: Word, w: Width, v: Word): Mem
    requires a % w.Bytes() == 0
  {
    match w case W8 => m[a := ByteOf(v, 0)] case W16 => Store16(m, a, v) case W32 => Store32(m, a, v)
  }

  function LoadInstr(isa: Isa, s: State, rd: RegName, a: Word, w: Width, signed: bool, next: CodeAddr): Attempt
  {
    if a % w.Bytes() != 0 then Faults(4, a)
    else if !Allows(s.csr.pmp, User, a, w.Bytes(), Read) then Faults(CAUSE_LOAD_FAULT, isa.tval(a))
    else Done(s.(regs := s.regs[rd := Extend(LoadWidth(s.mem, a, w), w, signed)], pc := next))
  }

  function StoreInstr(isa: Isa, s: State, a: Word, w: Width, v: Word, next: CodeAddr): Attempt
  {
    if a % w.Bytes() != 0 then Faults(6, a)
    else if !Allows(s.csr.pmp, User, a, w.Bytes(), Write) then Faults(CAUSE_STORE_FAULT, isa.tval(a))
    else Done(s.(mem := StoreWidth(s.mem, a, w, v), pc := next))
  }

  function Instruction(isa: Isa, s: State): Attempt
  {
    match Fetch(s.csr.pmp, s.mem, s.pc)
    case Refused => Faults(CAUSE_FETCH_FAULT, isa.tval(s.pc))
    case Opcode(bits, length) =>
      var next := NextPc(s.pc, length);
      match isa.decode(bits, s.regs, s.pc)
      case Compute(regs, pc) => Done(s.(regs := regs, pc := pc))
      case Load(rd, a, w, signed) => LoadInstr(isa, s, rd, a, w, signed, next)
      case Store(a, w, v) => StoreInstr(isa, s, a, w, v, next)
      case Raise(cause, tval) => Faults(cause, tval)
  }

  /** One step of U-mode: an instruction, or a trap with all of its handling. */
  function Step(l: Layout, isa: Isa, junk: State -> Regs, s: State): State
    requires l.Valid()
  {
    if s.halted then s
    else match Instruction(isa, s)
      case Done(t) => t
      case Faults(cause, tval) => Trap(l, junk(s), s, cause, tval)
  }

  function After(l: Layout, isa: Isa, junk: State -> Regs, s: State, n: nat): State
    requires l.Valid()
  {
    if n == 0 then s else Step(l, isa, junk, After(l, isa, junk, s, n - 1))
  }

  // ---- what every run keeps ----

  /** U-mode as the monitor leaves it: M-mode free, its trap stack in mscratch, no trap inside a trap. */
  predicate Dropped(l: Layout, s: State)
  {
    && Free(l, s)
    && !s.nested
    && (s.halted || (s.mode.User? && s.csr.mscratch == l.StackTop()))
  }

  /** Every byte of g_prot but the counter's: secret, key and padding. */
  ghost predicate SecretsKept(l: Layout, m1: Mem, m2: Mem)
  {
    forall a: Word :: In(a, l.prot, 64) && !In(a, l.prot + 4, 4) ==> m2[a] == m1[a]
  }

  /** Did this step of U-mode ask for SVC_GET_COUNTER? */
  predicate AsksCounter(isa: Isa, s: State)
  {
    !s.halted && s.regs[A7] == SVC_GET_COUNTER
    && var i := Instruction(isa, s); i.Faults? && i.cause == CAUSE_ECALL_U
  }

  function Bump(n: Word, asked: bool): Word
  {
    if asked then Add32(n, 1) else n
  }

  lemma StoreWidthFrame(m: Mem, a: Word, w: Width, v: Word)
    requires a % w.Bytes() == 0
    ensures SameOutside(m, StoreWidth(m, a, w, v), a, w.Bytes())
  {
    hide ByteOf;
  }

  /** An instruction that completes in U-mode never writes g_prot. */
  lemma InstructionKeeps(l: Layout, isa: Isa, s: State)
    requires Dropped(l, s) && !s.halted && Instruction(isa, s).Done?
    ensures var t := Instruction(isa, s).next;
            Dropped(l, t) && SameInside(s.mem, t.mem, l.prot, 64) && t.csr == s.csr && !t.halted
  {
    hide Allows, StoreWidth, LoadWidth, Extend, Programmed;
    var o := Fetch(s.csr.pmp, s.mem, s.pc);
    var act := isa.decode(o.bits, s.regs, s.pc);
    if act.Store? {
      ProgrammedMeaning(s.csr.pmp, l.prot, User, act.dst, act.storeWidth.Bytes(), Write);
      StoreWidthFrame(s.mem, act.dst, act.storeWidth, act.value);
    }
  }

  // ---- what the handler keeps ----

  lemma StoreOffProt(l: Layout, m: Mem, a: Word, v: Word)
    requires l.Valid() && a % 4 == 0 && Apart(a, 4, l.prot, 64)
    ensures SameInside(m, Store32(m, a, v), l.prot, 64)
  {
    hide Load32;
  }

  lemma CounterSame(l: Layout, m1: Mem, m2: Mem)
    requires l.Valid() && SameInside(m1, m2, l.prot, 64)
    ensures SecretsKept(l, m1, m2) && CounterOf(l, m1) == CounterOf(l, m2)
  {
    hide Load32;
    l.CounterAligned();
    LoadSame(m1, m2, l.Counter());
  }

  /** Only the counter service writes g_prot, and only the counter. */
  lemma ServiceKeeps(l: Layout, m: Mem, a7: Word, a0: Word, a1: Word)
    requires l.Valid()
    ensures var t := ServiceMem(l, m, a7, a0, a1);
            SecretsKept(l, m, t) && CounterOf(l, t) == Bump(CounterOf(l, m), a7 == SVC_GET_COUNTER)
  {
    hide Load32, Transform;
    var t := ServiceMem(l, m, a7, a0, a1);
    if a7 != SVC_GET_COUNTER {
      forall a: Word | In(a, l.prot, 64) ensures t[a] == m[a] {
        if a7 == SVC_SIGN && !SignRejects(l.prot, a0, a1) {
          KeyUntouched(l, m, a0, a1, a1, a);
        }
      }
      CounterSame(l, m, t);
    }
  }

  lemma EcallMemKeeps(l: Layout, m: Mem)
    requires l.Valid()
    ensures var t := EcallMem(l, m, l.Frame());
            && SecretsKept(l, m, t)
            && CounterOf(l, t) == Bump(CounterOf(l, m), Load32(m, Slot(l.Frame(), 7)) == SVC_GET_COUNTER)
  {
    hide Load32, Store32, ServiceMem, ServiceResult, Bump;
    var f := l.Frame();
    var a7, a0, a1 := Load32(m, Slot(f, 7)), Load32(m, Slot(f, 0)), Load32(m, Slot(f, 1));
    ServiceKeeps(l, m, a7, a0, a1);
    var served := ServiceMem(l, m, a7, a0, a1);
    StoreOffProt(l, served, Slot(f, 0), ServiceResult(l, m, a7));
    CounterSame(l, served, EcallMem(l, m, f));
  }

  lemma OthersKeep(l: Layout, s: State)
    requires l.Valid()
    ensures SameInside(s.mem, SelfTested(l, s).mem, l.prot, 64)
    ensures SameInside(s.mem, Halting(l, s).mem, l.prot, 64)
  {
    hide Load32, ByteOf, Load16;
  }

  lemma DispatchedKeeps(l: Layout, s: State)
    requires l.Valid()
    ensures var t := Dispatched(l, s, l.Frame());
            && SecretsKept(l, s.mem, t.mem)
            && CounterOf(l, t.mem) == Bump(CounterOf(l, s.mem),
                 s.csr.mcause == CAUSE_ECALL_U && Load32(s.mem, Slot(l.Frame(), 7)) == SVC_GET_COUNTER)
            && t.nested == s.nested
  {
    hide Load32, Store32, EcallMem, CounterOf, Load16;
    EcallMemKeeps(l, s.mem);
    OthersKeep(l, s);
    var t := Dispatched(l, s, l.Frame());
    if s.csr.mcause != CAUSE_ECALL_U {
      CounterSame(l, s.mem, t.mem);
    }
  }

  lemma DispatchedCsr(l: Layout, s: State)
    requires l.Valid()
    ensures Kept(s, Dispatched(l, s, l.Frame()))
  {
    hide Load32, Store32, EcallMem, Load16;
  }

  lemma EnteredKeeps(l: Layout, s: State)
    requires l.Valid()
    ensures SecretsKept(l, s.mem, Entered(l, s).mem) && CounterOf(l, Entered(l, s).mem) == CounterOf(l, s.mem)
    ensures Load32(Entered(l, s).mem, Slot(l.Frame(), 7)) == s.regs[A7]
  {
    hide Load32, Store32, CounterOf, SaveFrame, FRAME_REGS;
    FrameOrder();
    SaveFrameReads(s.mem, l.Frame(), s.regs[SP := l.Frame()], 16);
    CounterSame(l, s.mem, Entered(l, s).mem);
  }

  /** Trap, handler and return (or halt), whatever the cause and whatever U-mode left in memory. */
  lemma TrapKeeps(l: Layout, junk: Regs, s: State, cause: Word, tval: Word)
    requires Dropped(l, s) && !s.halted
    ensures var t := Trap(l, junk, s, cause, tval);
            && Dropped(l, t)
            && SecretsKept(l, s.mem, t.mem)
            && CounterOf(l, t.mem) == Bump(CounterOf(l, s.mem),
                 cause == CAUSE_ECALL_U && s.regs[A7] == SVC_GET_COUNTER)
  {
    hide Load32, Programmed, Entered, RestoreRegs, Dispatched, Clobber, CounterOf, Bump;
    var u := TakeTrap(s, cause, tval);
    TrapMeaning(l, junk, s, cause, tval);
    var e := Entered(l, u);
    EnteredFacts(l, u);
    EnteredKeeps(l, u);
    DispatchedKeeps(l, e);
    DispatchedCsr(l, e);
    KeptProgrammed(e, Dispatched(l, e, l.Frame()), l.prot);
  }

  // ---- runs ----

  lemma SecretsKeptTransitive(l: Layout, m1: Mem, m2: Mem, m3: Mem)
    requires SecretsKept(l, m1, m2) && SecretsKept(l, m2, m3)
    ensures SecretsKept(l, m1, m3)
  {
  }

  lemma StepKeeps(l: Layout, isa: Isa, junk: State -> Regs, s: State)
    requires Dropped(l, s)
    ensures var t := Step(l, isa, junk, s);
            && Dropped(l, t)
            && SecretsKept(l, s.mem, t.mem)
            && CounterOf(l, t.mem) == Bump(CounterOf(l, s.mem), AsksCounter(isa, s))
  {
    hide Trap, Instruction, Programmed, CounterOf;
    if !s.halted {
      match Instruction(isa, s)
      case Done(t) =>
        InstructionKeeps(l, isa, s);
        CounterSame(l, s.mem, t.mem);
      case Faults(cause, tval) =>
        TrapKeeps(l, junk(s), s, cause, tval);
    }
  }

  /** How often the first n steps asked for the counter. */
  function Asks(l: Layout, isa: Isa, junk: State -> Regs, s: State, n: nat): nat
    requires l.Valid()
  {
    if n == 0 then 0
    else Asks(l, isa, junk, s, n - 1) + if AsksCounter(isa, After(l, isa, junk, s, n - 1)) then 1 else 0
  }

  /** What those calls returned in a0, in order. */
  function Answers(l: Layout, isa: Isa, junk: State -> Regs, s: State, n: nat): seq<Word>
    requires l.Valid()
  {
    if n == 0 then [] else
      var earlier := Answers(l, isa, junk, s, n - 1);
      if AsksCounter(isa, After(l, isa, junk, s, n - 1)) then earlier + [After(l, isa, junk, s, n).regs[A0]]
      else earlier
  }

  /**
   Every run: secret, key and padding keep their bytes, PMPCFGM0 stays 0, the handler never traps into
   itself, and the counter has been bumped once per call, modulo 2^32.

   Premise, part of the machine model rather than of the requires: the compiled dispatcher keeps nothing
   it still needs in the words of g_m_trap_stack below the saved frame while svc_sign runs. That area is
   ordinary U-writable memory here, and a signed buffer may cover it.
   */
  lemma {:induction false} RunKeeps(l: Layout, isa: Isa, junk: State -> Regs, s: State, n: nat)
    requires Dropped(l, s)
    ensures var t := After(l, isa, junk, s, n);
            && Dropped(l, t) && t.csr.pmp.m0 == 0 && !t.nested
            && SecretsKept(l, s.mem, t.mem)
            && CounterOf(l, t.mem) == (CounterOf(l, s.mem) + Asks(l, isa, junk, s, n)) % 0x1_0000_0000
  {
    hide Step, Programmed, CounterOf, AsksCounter;
    if n > 0 {
      RunKeeps(l, isa, junk, s, n - 1);
      var t := After(l, isa, junk, s, n - 1);
      StepKeeps(l, isa, junk, t);
      SecretsKeptTransitive(l, s.mem, t.mem, After(l, isa, junk, s, n).mem);
      NextCount(CounterOf(l, s.mem), Asks(l, isa, junk, s, n - 1));
    }
  }

  lemma RunDropped(l: Layout, isa: Isa, junk: State -> Regs, s: State, n: nat)
    requires Dropped(l, s)
    ensures Dropped(l, After(l, isa, junk, s, n))
  {
    RunKeeps(l, isa, junk, s, n);
  }

  lemma AnswerOfStep(l: Layout, isa: Isa, junk: State -> Regs, s: State)
    requires Dropped(l, s) && AsksCounter(isa, s)
    ensures Step(l, isa, junk, s).regs[A0] == Add32(CounterOf(l, s.mem), 1)
  {
    hide Trap, Instruction, Programmed, SaveFrame, ServiceMem, Load32;
    EcallRefinesAtomic(l, junk(s), s, Instruction(isa, s).tval);
  }

  /** The n-th GET_COUNTER of any run from the drop returns n modulo 2^32. */
  lemma {:induction false} CounterAnswers(l: Layout, isa: Isa, junk: State -> Regs, s: State, n: nat)
    requires Dropped(l, s) && CounterOf(l, s.mem) == 0
    ensures var answers := Answers(l, isa, junk, s, n);
            && |answers| == Asks(l, isa, junk, s, n)
            && forall i | 0 <= i < |answers| :: answers[i] == (i + 1) % 0x1_0000_0000
  {
    hide Step, Programmed, CounterOf, AsksCounter;
    if n > 0 {
      CounterAnswers(l, isa, junk, s, n - 1);
      RunKeeps(l, isa, junk, s, n - 1);
      var t := After(l, isa, junk, s, n - 1);
      if AsksCounter(isa, t) {
        AnswerOfStep(l, isa, junk, t);
        NextCount(0, Asks(l, isa, junk, s, n - 1));
      }
    }
  }
}

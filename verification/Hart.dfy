/**
 The monitor as the C and assembly sources have it: one hart whose registers, CSRs and memory the
 functions update in place. Every M-mode access of the monitor goes through the PMP; `nested` records
 one that is refused.
 */
module Harts {
  import opened Bits
  import opened Memory
  import opened Pmp
  import opened Monitor
  import opened Sign
  import opened Services

  class Hart {
    const l: Layout
    var regs: Regs
    var pc: CodeAddr
    var mode: Mode
    var mem: Mem
    var csr: Csrs
    var halted: bool
    var nested: bool

    constructor (l: Layout, s: State)
      ensures this.l == l && State() == s
    {
      this.l := l;
      regs, pc, mode, mem, csr, halted, nested := s.regs, s.pc, s.mode, s.mem, s.csr, s.halted, s.nested;
    }

    function State(): State
      reads this
    {
      Monitor.State(regs, pc, mode, mem, csr, halted, nested)
    }

    // ---- M-mode loads and stores ----

    method Check(a: Word, n: nat, kind: Access)
      modifies this`nested
      ensures State() == MTouch(old(State()), a, n, kind)
    {
      if !Allows(csr.pmp, Machine, a, n, kind) {
        nested := true;
      }
    }

    method LoadByte(a: Word) returns (v: Byte)
      modifies this`nested
      ensures State() == MTouch(old(State()), a, 1, Read) && v == mem[a]
    {
      Check(a, 1, Read);
      v := mem[a];
    }

    method LoadWord(a: Word) returns (v: Word)
      requires a % 4 == 0
      modifies this`nested
      ensures State() == MTouch(old(State()), a, 4, Read) && v == Load32(mem, a)
    {
      Check(a, 4, Read);
      v := Load32(mem, a);
    }

    method StoreByte(a: Word, v: Byte)
      modifies this`mem, this`nested
      ensures State() == MStore8(old(State()), a, v)
    {
      hide Allows;
      if Allows(csr.pmp, Machine, a, 1, Write) {
        mem := mem[a := v];
      } else {
        nested := true;
      }
    }

    method StoreWord(a: Word, v: Word)
      requires a % 4 == 0
      modifies this`mem, this`nested
      ensures State() == MStore32(old(State()), a, v)
    {
      hide Allows, Store32;
      if Allows(csr.pmp, Machine, a, 4, Write) {
        mem := Store32(mem, a, v);
      } else {
        nested := true;
      }
    }

    // ---- svc_sign ----

    /** Sign the len bytes at b in place, unless the guard refuses the buffer. */
    method SvcSign(b: Word, len: Word)
      requires l.Valid()
      modifies this`mem, this`nested
      ensures State() == Monitor.SvcSign(l, old(State()), b, len)
      ensures Free(l, old(State())) ==> State() == old(State()).(mem := Signed(l, old(mem), b, len))
    {
      hide SignByte, Transform, Programmed;
      if Free(l, State()) {
        SvcSignMeaning(l, State(), b, len);
      }
      if len > 64 {
        return;
      }
      if Add32(b, len) > l.prot && b < Add32(l.prot, 64) {
        return;
      }
      var i := 0;
      while i < len
        invariant i <= len
        invariant SignFrom(l, State(), b, len, i) == SignFrom(l, old(State()), b, len, 0)
      {
        XorByte(b, i);
        i := i + 1;
      }
    }

    /** buf[i] ^= key[i % 16] */
    method XorByte(b: Word, i: Word)
      requires l.Valid()
      modifies this`mem, this`nested
      ensures State() == SignByte(l, old(State()), b, i)
    {
      hide Allows, Xor8;
      var a := Add32(b, i);
      var x := LoadByte(a);
      var k := LoadByte(l.Key() + i % 16);
      StoreByte(a, Xor8(x, k));
    }

    // ---- trap_dispatch ----

    method TrapDispatch(f: Word)
      requires l.Valid() && FrameAt(f)
      modifies this`mem, this`nested, this`csr, this`halted
      ensures State() == Dispatch(l, old(State()), f)
      ensures Programmed(old(csr).pmp, l.prot) && (old(csr).mcause == CAUSE_ECALL_U ==> old(csr).pmp.m0 == 0)
        ==> State() == Dispatched(l, old(State()), f)
    {
      hide Allows, Load32, Store32, Programmed, Dispatched;
      if Programmed(csr.pmp, l.prot) && (csr.mcause == CAUSE_ECALL_U ==> csr.pmp.m0 == 0) {
        DispatchMeaning(l, State(), f);
      }
      var cause, epc := csr.mcause, csr.mepc;
      if cause == CAUSE_ECALL_U {
        Ecall(f);
        csr := csr.(mepc := NextPc(epc, 4));
        return;
      }
      if cause == CAUSE_LOAD_FAULT || cause == CAUSE_STORE_FAULT {
        var stage := LoadWord(l.stage);
        if stage == STAGE_XH3 {
          SelfTest(cause, epc);
          return;
        }
        StoreWord(l.Mailbox(MB_MCAUSE), cause);
        StoreWord(l.Mailbox(MB_MTVAL), csr.mtval);
        StoreWord(l.Mailbox(MB_STAGE), 0x600D);
        halted := true;
        return;
      }
      StoreWord(l.Mailbox(MB_STAGE), 0xDEAD);
      halted := true;
    }

    /** The switch over f->a7. */
    method Ecall(f: Word)
      requires l.Valid() && FrameAt(f)
      modifies this`mem, this`nested
      ensures State() == DispatchEcall(l, old(State()), f)
    {
      hide Allows, Load32, Store32;
      var a7 := LoadWord(Slot(f, 7));
      if a7 == SVC_GET_COUNTER {
        l.CounterAligned();
        var c := LoadWord(l.Counter());
        StoreWord(l.Counter(), Add32(c, 1));
        StoreWord(Slot(f, 0), Add32(c, 1));
      } else if a7 == SVC_SIGN {
        var b := LoadWord(Slot(f, 0));
        var len := LoadWord(Slot(f, 1));
        SvcSign(b, len);
        StoreWord(Slot(f, 0), 0);
      } else {
        StoreWord(Slot(f, 0), 0xFFFF_FFFF);
      }
    }

    /** The Xh3pmpm branch. */
    method SelfTest(cause: Word, epc: CodeAddr)
      requires l.Valid() && cause == csr.mcause && epc == csr.mepc
      modifies this`mem, this`nested, this`csr
      ensures State() == DispatchSelfTest(l, old(State()))
    {
      hide Allows, Load32, Store32;
      StoreWord(l.Mailbox(MB_XH3_MCAUSE), cause);
      csr := csr.(pmp := csr.pmp.(m0 := 0));
      StoreWord(l.stage, STAGE_U);
      Check(epc, 2, Read);
      var opcode := Load16(mem, epc);
      csr := csr.(mepc := NextPc(epc, if opcode % 4 == 3 then 4 else 2));
    }

    // ---- trap_entry ----

    /** One instruction of the trampoline; junk is what the called C code leaves in scratch registers. */
    method Execute(i: Instr, junk: Regs)
      requires l.Valid()
      modifies this
      ensures State() == Exec(l, junk, i, old(State()))
    {
      hide Allows, Load32, Store32, Dispatch, Clobber, Dispatched, Programmed;
      if halted || nested {
        return;
      }
      match i
      case CsrrwSpMscratch =>
        var sp := regs[SP];
        regs := regs[SP := csr.mscratch];
        csr := csr.(mscratch := sp);
      case AddiSp(imm) =>
        regs := regs[SP := (regs[SP] + imm) % 0x1_0000_0000];
      case Sw(r, off) =>
        var a := Add32(regs[SP], off);
        if a % 4 != 0 {
          nested := true;
        } else {
          StoreWord(a, regs[r]);
        }
      case Lw(r, off) =>
        var a := Add32(regs[SP], off);
        if a % 4 != 0 {
          nested := true;
        } else {
          var v := LoadWord(a);
          regs := regs[r := v];
        }
      case MvA0Sp =>
        regs := regs[A0 := regs[SP]];
      case CallDispatch =>
        var f := regs[A0];
        if !FrameAt(f) {
          nested := true;
        } else {
          TrapDispatch(f);
          regs := Clobber(regs, junk);
        }
      case Mret =>
        mode, pc := csr.mpp, csr.mepc;
        csr := csr.(mpp := User);
    }

    /** Run the trampoline to its end. */
    method TrapEntry(junk: Regs)
      requires l.Valid()
      modifies this
      ensures State() == ExecFrom(l, junk, 0, old(State()))
    {
      hide Exec, TRAMPOLINE;
      var k := 0;
      while k < |TRAMPOLINE|
        invariant k <= |TRAMPOLINE|
        invariant ExecFrom(l, junk, k, State()) == ExecFrom(l, junk, 0, old(State()))
      {
        Execute(TRAMPOLINE[k], junk);
        k := k + 1;
      }
    }

    /** The hart takes a trap and runs the handler. */
    method TakeAndHandle(cause: Word, tval: Word, junk: Regs)
      requires l.Valid()
      modifies this
      ensures State() == Trap(l, junk, old(State()), cause, tval)
    {
      hide ExecFrom;
      csr := csr.(mepc := pc, mcause := cause, mtval := tval, mpp := mode);
      mode, pc := Machine, csr.mtvec;
      TrapEntry(junk);
    }
  }
}

/**
 What running the 39 instructions of trap_entry amounts to: save sixteen registers on the trap
 stack, dispatch, load them back, and put sp and mscratch back where they were.
 */
module Trampoline {
  import opened Bits
  import opened Memory
  import opened Pmp
  import opened Monitor

  /** The first k registers of trap_frame_t stored at f. */
  function SaveFrame(m: Mem, f: Word, regs: Regs, k: nat): Mem
    requires FrameAt(f) && k <= 16
  {
    if k == 0 then m
    else Store32(SaveFrame(m, f, regs, k - 1), Slot(f, k - 1), regs[FRAME_REGS[k - 1]])
  }

  /** The first k registers of trap_frame_t loaded back from f. */
  function RestoreRegs(m: Mem, f: Word, regs: Regs, k: nat): Regs
    requires FrameAt(f) && k <= 16
  {
    if k == 0 then regs
    else RestoreRegs(m, f, regs, k - 1)[FRAME_REGS[k - 1] := Load32(m, Slot(f, k - 1))]
  }

  lemma {:induction false} SaveFrameReads(m: Mem, f: Word, regs: Regs, k: nat)
    requires FrameAt(f) && k <= 16
    ensures forall j: nat | j < k :: Load32(SaveFrame(m, f, regs, k), Slot(f, j)) == regs[FRAME_REGS[j]]
    ensures SameOutside(m, SaveFrame(m, f, regs, k), f, 64)
  {
    hide Store32, Load32;
    if k > 0 {
      SaveFrameReads(m, f, regs, k - 1);
      var prev := SaveFrame(m, f, regs, k - 1);
      var cur := SaveFrame(m, f, regs, k);
      forall j: nat | j < k
        ensures Load32(cur, Slot(f, j)) == regs[FRAME_REGS[j]]
      {
        if j < k - 1 {
          LoadSame(prev, cur, Slot(f, j));
        }
      }
    }
  }

  lemma FrameRegsDistinct(i: nat, j: nat)
    requires i < j < 16
    ensures FRAME_REGS[i] != FRAME_REGS[j] && FRAME_REGS[i] != SP && FRAME_REGS[j] != SP
  {
  }

  lemma {:induction false} RestoreRegsReads(m: Mem, f: Word, regs: Regs, k: nat)
    requires FrameAt(f) && k <= 16
    ensures forall j: nat | j < k :: RestoreRegs(m, f, regs, k)[FRAME_REGS[j]] == Load32(m, Slot(f, j))
  {
    hide Load32;
    if k > 0 {
      RestoreRegsReads(m, f, regs, k - 1);
      forall j: nat | j < k
        ensures RestoreRegs(m, f, regs, k)[FRAME_REGS[j]] == Load32(m, Slot(f, j))
      {
        if j < k - 1 {
          FrameRegsDistinct(j, k - 1);
        }
      }
    }
  }

  lemma {:induction false} RestoreRegsKeeps(m: Mem, f: Word, regs: Regs, k: nat, r: RegName)
    requires FrameAt(f) && k <= 16 && r !in FRAME_REGS
    ensures RestoreRegs(m, f, regs, k)[r] == regs[r]
  {
    hide Load32;
    if k > 0 {
      RestoreRegsKeeps(m, f, regs, k - 1, r);
      assert FRAME_REGS[k - 1] in FRAME_REGS;
    }
  }

  /** The loaded registers are the frame's words, whatever the sixteen held before. */
  lemma RestoreIs(m: Mem, f: Word, regs: Regs, target: Regs)
    requires FrameAt(f)
    requires forall j: nat | j < 16 :: Load32(m, Slot(f, j)) == target[FRAME_REGS[j]]
    requires forall r: RegName | r !in FRAME_REGS :: target[r] == regs[r]
    ensures RestoreRegs(m, f, regs, 16) == target
  {
    hide Load32, FRAME_REGS;
    FrameRegsText();
    RestoreRegsReads(m, f, regs, 16);
    var x := RestoreRegs(m, f, regs, 16);
    forall r: RegName ensures x[r] == target[r] {
      if r in FRAME_REGS {
        var j: nat :| j < 16 && FRAME_REGS[j] == r;
        assert x[FRAME_REGS[j]] == target[FRAME_REGS[j]];
      } else {
        RestoreRegsKeeps(m, f, regs, 16, r);
      }
    }
  }

  /** Two memories that agree off the frame and on its sixteen words are the same. */
  lemma FrameDetermines(m1: Mem, m2: Mem, f: Word)
    requires FrameAt(f) && SameOutside(m1, m2, f, 64)
    requires forall j: nat | j < 16 :: Load32(m1, Slot(f, j)) == Load32(m2, Slot(f, j))
    ensures m1 == m2
  {
    hide Load32;
    forall x: Word ensures m1[x] == m2[x] {
      if In(x, f, 64) {
        var j := (x - f) / 4;
        assert In(x, Slot(f, j), 4);
        LoadInjective(m1, m2, Slot(f, j));
      }
    }
  }

  // ---- running the program ----

  lemma ProgramText()
    ensures |TRAMPOLINE| == 39
    ensures TRAMPOLINE[0] == CsrrwSpMscratch && TRAMPOLINE[1] == AddiSp(-64)
    ensures TRAMPOLINE[18] == MvA0Sp && TRAMPOLINE[19] == CallDispatch
    ensures TRAMPOLINE[36] == AddiSp(64) && TRAMPOLINE[37] == CsrrwSpMscratch && TRAMPOLINE[38] == Mret
  {
  }

  lemma FrameRegsText()
    ensures |FRAME_REGS| == 16 && SP !in FRAME_REGS && A0 in FRAME_REGS
  {
    assert FRAME_REGS[0] == A0;
  }

  /** The trampoline saves every register the C code may spoil, and no other. */
  lemma FrameIsCallerSaved(r: RegName)
    ensures r in FRAME_REGS <==> CallerSaved(r)
  {
  }

  lemma SaveInstr(j: nat)
    requires j < 16
    ensures TRAMPOLINE[2 + j] == Sw(FRAME_REGS[j], 4 * j)
    ensures TRAMPOLINE[20 + j] == Lw(FRAME_REGS[j], 4 * j)
  {
  }

  /** The trap stack misses the protected block, so M-mode may use it even when restricted. */
  lemma FrameMay(l: Layout, s: State, a: Word, kind: Access)
    requires l.Valid() && Programmed(s.csr.pmp, l.prot)
    requires a % 4 == 0 && In(a, l.Frame(), 64)
    ensures MachineMay(s, a, 4, kind)
  {
    hide Allows, Programmed;
    ProgrammedMeaning(s.csr.pmp, l.prot, Machine, a, 4, kind);
  }

  predicate Running(l: Layout, s: State)
  {
    l.Valid() && Programmed(s.csr.pmp, l.prot) && !s.halted && !s.nested
  }

  lemma ExecSave(l: Layout, junk: Regs, s: State, j: nat)
    requires Running(l, s) && s.regs[SP] == l.Frame() && j < 16
    ensures FrameAt(l.Frame())
    ensures Exec(l, junk, TRAMPOLINE[2 + j], s)
         == s.(mem := Store32(s.mem, Slot(l.Frame(), j), s.regs[FRAME_REGS[j]]))
  {
    hide Store32, Programmed, Allows, Dispatch, Clobber, TRAMPOLINE, FRAME_REGS;
    ProgramText();
    FrameRegsText();
    SaveInstr(j);
    FrameMay(l, s, Slot(l.Frame(), j), Write);
  }

  lemma ExecLoad(l: Layout, junk: Regs, s: State, j: nat)
    requires Running(l, s) && s.regs[SP] == l.Frame() && j < 16
    ensures FrameAt(l.Frame())
    ensures Exec(l, junk, TRAMPOLINE[20 + j], s)
         == s.(regs := s.regs[FRAME_REGS[j] := Load32(s.mem, Slot(l.Frame(), j))])
  {
    hide Load32, Programmed, Allows, Dispatch, Clobber, TRAMPOLINE, FRAME_REGS;
    ProgramText();
    FrameRegsText();
    SaveInstr(j);
    FrameMay(l, s, Slot(l.Frame(), j), Read);
  }

  lemma {:induction false} RunSaves(l: Layout, junk: Regs, s: State, j: nat)
    requires Running(l, s) && s.regs[SP] == l.Frame() && j <= 16
    ensures FrameAt(l.Frame())
    ensures ExecFrom(l, junk, 2, s)
         == ExecFrom(l, junk, 2 + j, s.(mem := SaveFrame(s.mem, l.Frame(), s.regs, j)))
  {
    hide Store32, Programmed, Exec, TRAMPOLINE, FRAME_REGS;
    ProgramText();
    if j > 0 {
      RunSaves(l, junk, s, j - 1);
      ExecSave(l, junk, s.(mem := SaveFrame(s.mem, l.Frame(), s.regs, j - 1)), j - 1);
    }
  }

  lemma {:induction false} RunLoads(l: Layout, junk: Regs, s: State, j: nat)
    requires Running(l, s) && s.regs[SP] == l.Frame() && j <= 16
    ensures FrameAt(l.Frame())
    ensures ExecFrom(l, junk, 20, s)
         == ExecFrom(l, junk, 20 + j, s.(regs := RestoreRegs(s.mem, l.Frame(), s.regs, j)))
  {
    hide Load32, Programmed, Exec, TRAMPOLINE, FRAME_REGS;
    ProgramText();
    FrameRegsText();
    if j > 0 {
      RunLoads(l, junk, s, j - 1);
      RestoreRegsKeeps(s.mem, l.Frame(), s.regs, j - 1, SP);
      ExecLoad(l, junk, s.(regs := RestoreRegs(s.mem, l.Frame(), s.regs, j - 1)), j - 1);
    }
  }

  // ---- what the dispatcher leaves alone ----

  /** t differs from s at most in memory, the two flags, mepc and PMPCFGM0, which can only be lifted. */
  predicate Kept(s: State, t: State)
  {
    && (t.csr.pmp.m0 == s.csr.pmp.m0 || t.csr.pmp.m0 == 0)
    && t == s.(mem := t.mem, halted := t.halted, nested := t.nested,
               csr := s.csr.(mepc := t.csr.mepc, pmp := s.csr.pmp.(m0 := t.csr.pmp.m0)))
  }

  lemma KeptProgrammed(s: State, t: State, prot: Word)
    requires Kept(s, t) && Programmed(s.csr.pmp, prot)
    ensures Programmed(t.csr.pmp, prot)
  {
    hide PmpNapot;
  }

  lemma KeptTransitive(s: State, t: State, u: State)
    requires Kept(s, t) && Kept(t, u)
    ensures Kept(s, u)
  {
  }

  lemma SignByteKeeps(l: Layout, s: State, b: Word, i: Word)
    requires l.Valid()
    ensures Kept(s, SignByte(l, s, b, i))
  {
    hide Allows, Xor8;
  }

  lemma {:induction false} SignFromKeeps(l: Layout, s: State, b: Word, len: Word, i: nat)
    requires l.Valid() && i <= len
    ensures Kept(s, SignFrom(l, s, b, len, i))
    decreases len - i
  {
    hide SignByte, Kept;
    if i < len {
      var t := SignByte(l, s, b, i);
      SignByteKeeps(l, s, b, i);
      SignFromKeeps(l, t, b, len, i + 1);
      KeptTransitive(s, t, SignFrom(l, t, b, len, i + 1));
    } else {
      KeptSame(s);
    }
  }

  lemma KeptSame(s: State)
    ensures Kept(s, s)
  {
  }

  lemma DispatchEcallKeeps(l: Layout, s: State, f: Word)
    requires l.Valid() && FrameAt(f)
    ensures Kept(s, DispatchEcall(l, s, f))
  {
    hide Allows, Load32, Store32;
    var s1 := MTouch(s, Slot(f, 7), 4, Read);
    var a7 := Load32(s.mem, Slot(f, 7));
    if a7 == SVC_GET_COUNTER {
      assert Kept(s1, EcallCounter(l, s1, f));
    } else if a7 == SVC_SIGN {
      EcallSignKeeps(l, s1, f);
    }
  }

  lemma EcallSignKeeps(l: Layout, s: State, f: Word)
    requires l.Valid() && FrameAt(f)
    ensures Kept(s, EcallSign(l, s, f))
  {
    hide Allows, Load32, Store32, SignFrom;
    var s1 := MTouch(MTouch(s, Slot(f, 0), 4, Read), Slot(f, 1), 4, Read);
    SignFromKeeps(l, s1, Load32(s.mem, Slot(f, 0)), Load32(s.mem, Slot(f, 1)), 0);
  }

  lemma SelfTestKeeps(l: Layout, s: State)
    requires l.Valid()
    ensures Kept(s, DispatchSelfTest(l, s))
  {
    hide Allows, Store32, Load16;
  }

  lemma HaltKeeps(l: Layout, s: State)
    requires l.Valid()
    ensures Kept(s, DispatchHalt(l, s))
  {
    hide Allows, Store32;
  }

  lemma DispatchKeeps(l: Layout, s: State, f: Word)
    requires l.Valid() && FrameAt(f)
    ensures Kept(s, Dispatch(l, s, f))
  {
    hide Allows, Load32, Store32, DispatchEcall, DispatchSelfTest, DispatchHalt;
    DispatchEcallKeeps(l, s, f);
    var s0 := MTouch(s, l.stage, 4, Read);
    SelfTestKeeps(l, s0);
    HaltKeeps(l, s0);
    HaltKeeps(l, s);
  }

  // ---- the whole trampoline ----

  /** The state in which trap_dispatch is called. */
  function Entered(l: Layout, s: State): State
    requires l.Valid()
  {
    var regs := s.regs[SP := l.Frame()];
    s.(regs := regs[A0 := l.Frame()], mem := SaveFrame(s.mem, l.Frame(), regs, 16),
       csr := s.csr.(mscratch := s.regs[SP]))
  }

  /** The state mret leaves, given the state d in which trap_dispatch returned. */
  function Returned(l: Layout, s: State, d: State): State
    requires l.Valid()
  {
    d.(regs := RestoreRegs(d.mem, l.Frame(), s.regs, 16), mode := d.csr.mpp, pc := d.csr.mepc,
       csr := d.csr.(mscratch := l.StackTop(), mpp := User))
  }

  function Handled(l: Layout, junk: Regs, s: State): State
    requires l.Valid()
  {
    var d := Dispatch(l, Entered(l, s), l.Frame());
    if d.halted || d.nested then d.(regs := Clobber(d.regs, junk)) else Returned(l, s, d)
  }

  lemma RunEntry(l: Layout, junk: Regs, s: State)
    requires Running(l, s) && s.csr.mscratch == l.StackTop()
    ensures ExecFrom(l, junk, 0, s) == ExecFrom(l, junk, 19, Entered(l, s))
  {
    hide Programmed, SaveFrame, Dispatch, TRAMPOLINE, FRAME_REGS, Clobber;
    ProgramText();
    var s1 := Exec(l, junk, CsrrwSpMscratch, s);
    var s2 := Exec(l, junk, AddiSp(-64), s1);
    assert s2.regs == s.regs[SP := l.Frame()];
    assert ExecFrom(l, junk, 1, s1) == ExecFrom(l, junk, 2, s2);
    RunSaves(l, junk, s2, 16);
    var s3 := s2.(mem := SaveFrame(s2.mem, l.Frame(), s2.regs, 16));
    assert Exec(l, junk, TRAMPOLINE[18], s3) == Entered(l, s);
  }

  /** From the return of trap_dispatch in state d to mret. */
  lemma RunExit(l: Layout, junk: Regs, s: State, d: State)
    requires Running(l, d) && d.regs[SP] == l.Frame() && d.csr.mscratch == s.regs[SP]
    requires forall r: RegName | r !in FRAME_REGS && r != SP :: d.regs[r] == s.regs[r]
    ensures ExecFrom(l, junk, 20, d) == Returned(l, s, d)
  {
    hide Programmed, RestoreRegs, Dispatch, TRAMPOLINE, FRAME_REGS, Clobber;
    ProgramText();
    FrameRegsText();
    RunLoads(l, junk, d, 16);
    var d1 := d.(regs := RestoreRegs(d.mem, l.Frame(), d.regs, 16));
    RestoreRegsKeeps(d.mem, l.Frame(), d.regs, 16, SP);
    var d2 := Exec(l, junk, AddiSp(64), d1);
    var d3 := Exec(l, junk, CsrrwSpMscratch, d2);
    RestoredRegs(l, s, d);
    assert d3.regs == RestoreRegs(d.mem, l.Frame(), s.regs, 16);
    assert ExecFrom(l, junk, 36, d1) == ExecFrom(l, junk, 37, d2);
    assert ExecFrom(l, junk, 37, d2) == ExecFrom(l, junk, 38, d3);
    assert ExecFrom(l, junk, 38, d3) == Exec(l, junk, Mret, d3);
  }

  lemma RestoredRegs(l: Layout, s: State, d: State)
    requires l.Valid()
    requires forall r: RegName | r !in FRAME_REGS && r != SP :: d.regs[r] == s.regs[r]
    ensures RestoreRegs(d.mem, l.Frame(), d.regs, 16)[SP := s.regs[SP]]
         == RestoreRegs(d.mem, l.Frame(), s.regs, 16)
  {
    hide Load32, RestoreRegs, FRAME_REGS;
    FrameRegsText();
    var m, f := d.mem, l.Frame();
    var y := RestoreRegs(m, f, s.regs, 16);
    RestoreRegsReads(m, f, s.regs, 16);
    var target := y[SP := d.regs[SP]];
    forall r: RegName | r !in FRAME_REGS ensures target[r] == d.regs[r] && (r == SP || y[r] == s.regs[r]) {
      RestoreRegsKeeps(m, f, s.regs, 16, r);
    }
    RestoreIs(m, f, d.regs, target);
    RestoreRegsKeeps(m, f, s.regs, 16, SP);
  }

  lemma {:induction false} RunStopped(l: Layout, junk: Regs, k: nat, s: State)
    requires l.Valid() && k <= |TRAMPOLINE| && (s.halted || s.nested)
    ensures ExecFrom(l, junk, k, s) == s
    decreases |TRAMPOLINE| - k
  {
    if k < |TRAMPOLINE| {
      RunStopped(l, junk, k + 1, s);
    }
  }

  /**
   The trampoline in one step, for every register file, memory and behaviour of the compiled
   dispatcher's caller-saved registers.
   */
  lemma TrampolineMeaning(l: Layout, junk: Regs, s: State)
    requires Running(l, s) && s.csr.mscratch == l.StackTop()
    ensures ExecFrom(l, junk, 0, s) == Handled(l, junk, s)
  {
    hide Programmed, SaveFrame, RestoreRegs, Dispatch, TRAMPOLINE, FRAME_REGS;
    ProgramText();
    FrameRegsText();
    RunEntry(l, junk, s);
    var e := Entered(l, s);
    var d := Dispatch(l, e, l.Frame());
    DispatchKeeps(l, e, l.Frame());
    KeptProgrammed(e, d, l.prot);
    var d1 := d.(regs := Clobber(d.regs, junk));
    forall r: RegName ensures r in FRAME_REGS <==> CallerSaved(r) {
      FrameIsCallerSaved(r);
    }
    assert Exec(l, junk, CallDispatch, e) == d1;
    assert ExecFrom(l, junk, 19, e) == ExecFrom(l, junk, 20, d1);
    if d.halted || d.nested {
      RunStopped(l, junk, 20, d1);
    } else {
      RunExit(l, junk, s, d1);
    }
  }
}

/** main(): from reset to the drop to U-mode, with the M-mode self-test on the way. */
module Boot {
  import opened Bits
  import opened Memory
  import opened Pmp
  import opened Monitor
  import opened Services
  import opened Sign
  import opened Trampoline
  import opened UserRuns
  import opened Faults
  import opened Harts

  const MAGIC: Word := 0x504D_5002
  const SECRET: Word := 0x5EC0_0001
  const MB_N := 12
  const MB_XH3_BEFORE := 1
  const MB_XH3_AFTER := 3

  /** The PMP refuses M-mode nothing. */
  ghost predicate Open(p: PmpCsrs)
  {
    forall a: Word, n: nat, kind: Access :: Natural(a, n) ==> Allows(p, Machine, a, n, kind)
  }

  /** Reset: both entries off. */
  lemma ResetOpen(p: PmpCsrs)
    requires p.cfg == 0
    ensures Open(p)
  {
  }

  lemma FreeOpen(l: Layout, s: State)
    requires Free(l, s)
    ensures Open(s.csr.pmp)
  {
    FreeMachine(l, s);
  }

  lemma StoreOther(m: Mem, a: Word, v: Word, b: Word)
    requires a % 4 == 0 && b % 4 == 0 && Apart(a, 4, b, 4)
    ensures Load32(Store32(m, a, v), b) == Load32(m, b)
  {
    hide Load32, ByteOf;
    LoadSame(m, Store32(m, a, v), b);
  }

  /** The signing key main installs: A5, A6, ..., B4. */
  ghost predicate KeyInstalled(l: Layout, m: Mem)
    requires l.Valid()
  {
    forall x: Word | In(x, l.prot + 8, 16) :: m[x] == 0xA5 + (x - (l.prot + 8))
  }

  /** A store M-mode is allowed to make. */
  method Put(h: Hart, a: Word, v: Word)
    requires a % 4 == 0 && Open(h.csr.pmp)
    modifies h`mem, h`nested
    ensures h.mem == Store32(old(h.mem), a, v) && h.nested == old(h.nested)
  {
    hide Allows, Store32;
    assert Natural(a, 4);
    h.StoreWord(a, v);
  }

  method Get(h: Hart, a: Word) returns (v: Word)
    requires a % 4 == 0 && Open(h.csr.pmp)
    modifies h`nested
    ensures v == Load32(h.mem, a) && h.nested == old(h.nested)
  {
    hide Allows, Load32;
    assert Natural(a, 4);
    v := h.LoadWord(a);
  }

  method ClearMailbox(h: Hart)
    requires h.l.Valid() && Open(h.csr.pmp)
    modifies h`mem, h`nested
    ensures h.nested == old(h.nested) && SameOutside(old(h.mem), h.mem, h.l.mb, 64)
    ensures forall i: nat | i < 12 ::
              Load32(h.mem, h.l.Mailbox(i)) == if i == 0 then 0x504D_5002 else 0
  {
    hide Load32, Store32, Open;
    var i := 0;
    while i < MB_N
      invariant 0 <= i <= MB_N
      invariant h.nested == old(h.nested) && SameOutside(old(h.mem), h.mem, h.l.mb, 64)
      invariant forall j: nat | j < i :: Load32(h.mem, h.l.Mailbox(j)) == 0
    {
      ghost var m := h.mem;
      Put(h, h.l.Mailbox(i), 0);
      forall j: nat | j < i ensures Load32(h.mem, h.l.Mailbox(j)) == 0 {
        StoreOther(m, h.l.Mailbox(i), 0, h.l.Mailbox(j));
      }
      i := i + 1;
    }
    ghost var m := h.mem;
    Put(h, h.l.Mailbox(0), MAGIC);
    forall j: nat | 0 < j < MB_N ensures Load32(h.mem, h.l.Mailbox(j)) == 0 {
      StoreOther(m, h.l.Mailbox(0), MAGIC, h.l.Mailbox(j));
    }
  }

  method InitProt(h: Hart)
    requires h.l.Valid() && Open(h.csr.pmp)
    modifies h`mem, h`nested
    ensures h.nested == old(h.nested) && SameOutside(old(h.mem), h.mem, h.l.prot, 64)
    ensures h.l.prot % 4 == 0 && Load32(h.mem, h.l.Secret()) == SECRET
    ensures CounterOf(h.l, h.mem) == 0 && KeyInstalled(h.l, h.mem)
  {
    hide Load32, Store32, Allows;
    h.l.CounterAligned();
    Put(h, h.l.Secret(), SECRET);
    ghost var m1 := h.mem;
    Put(h, h.l.Counter(), 0);
    StoreOther(m1, h.l.Counter(), 0, h.l.Secret());
    ghost var m2 := h.mem;
    var i := 0;
    while i < 16
      invariant 0 <= i <= 16
      invariant h.nested == old(h.nested)
      invariant SameOutside(m2, h.mem, h.l.Key(), 16)
      invariant forall x: Word | In(x, h.l.Key(), i) :: h.mem[x] == 0xA5 + (x - h.l.Key())
    {
      assert Natural(h.l.Key() + i, 1);
      h.StoreByte(h.l.Key() + i, 0xA5 + i);
      i := i + 1;
    }
    LoadSame(m2, h.mem, h.l.Secret());
    LoadSame(m2, h.mem, h.l.Counter());
  }

  /** pmp_isolate_secret */
  method PmpIsolateSecret(h: Hart)
    requires h.l.Valid()
    modifies h`csr
    ensures Programmed(h.csr.pmp, h.l.prot) && h.csr.pmp.m0 == 0
    ensures h.csr == old(h.csr).(pmp := h.csr.pmp)
  {
    CfgValue();
    h.csr := h.csr.(pmp := h.csr.pmp.(addr0 := PmpNapot(h.l.prot, 64)));
    h.csr := h.csr.(pmp := h.csr.pmp.(addr1 := 0xFFFF_FFFF));
    h.csr := h.csr.(pmp := h.csr.pmp.(cfg := IsolateCfg()));
    h.csr := h.csr.(pmp := h.csr.pmp.(m0 := 0));
  }

  /** The load at address at, refused because PMPCFGM0 covers entry 0: trap, recovery, resumption. */
  method SelfTestRead(h: Hart, at: CodeAddr, tval: Word, junk: Regs)
    requires Running(h.l, h.State()) && h.csr.mscratch == h.l.StackTop()
    requires h.csr.pmp.m0 == 1 && h.mode.Machine? && Load32(h.mem, h.l.stage) == STAGE_XH3
    modifies h
    ensures Recovered(h.l, old(h.State()).(pc := at), h.State(), CAUSE_LOAD_FAULT)
  {
    hide Programmed, Load32, Trap, Allows;
    h.l.CounterAligned();
    ProgrammedMeaning(h.csr.pmp, h.l.prot, Machine, h.l.Secret(), 4, Read);
    h.pc := at;
    if Allows(h.csr.pmp, Machine, h.l.Secret(), 4, Read) {
      assert false;
    } else {
      FaultHandled(h.l, junk, h.State(), CAUSE_LOAD_FAULT, tval);
      h.TakeAndHandle(CAUSE_LOAD_FAULT, tval, junk);
    }
  }

  /** Where main leaves the mailbox: what the demo is expected to have recorded by then. */
  ghost predicate MailboxReport(l: Layout, m: Mem)
    requires l.Valid()
  {
    && Load32(m, l.Mailbox(0)) == 0x504D_5002
    && Load32(m, l.Mailbox(1)) == 0x5EC0_0001
    && Load32(m, l.Mailbox(2)) == 5
    && Load32(m, l.Mailbox(3)) == 0x5EC0_0001
    && (forall i: nat | 4 <= i < 11 :: Load32(m, l.Mailbox(i)) == 0)
    && Load32(m, l.Mailbox(11)) == 0xA11
  }

  /** The memory side of the demonstration: two stores, the recovery, one more store. */
  ghost predicate DemoMemory(l: Layout, m0: Mem, m3: Mem, m4: Mem)
    requires l.Valid()
  {
    && OnlyRecorded(l, Store32(Store32(m0, l.Mailbox(MB_XH3_BEFORE), SECRET), l.stage, STAGE_XH3), m3)
    && Load32(m3, l.Mailbox(MB_XH3_MCAUSE)) == CAUSE_LOAD_FAULT
    && m4 == Store32(m3, l.Mailbox(MB_XH3_AFTER), SECRET)
  }

  lemma DemoBytes(l: Layout, m0: Mem, m3: Mem, m4: Mem)
    requires l.Valid() && DemoMemory(l, m0, m3, m4)
    ensures forall x: Word :: !In(x, l.mb + 4, 12) && !In(x, l.stage, 4) && !In(x, l.Frame(), 64) ==> m4[x] == m0[x]
  {
    hide Load32, ByteOf;
  }

  lemma DemoWords(l: Layout, m0: Mem, m3: Mem, m4: Mem)
    requires l.Valid() && DemoMemory(l, m0, m3, m4)
    ensures Load32(m4, l.Mailbox(MB_XH3_BEFORE)) == SECRET
    ensures Load32(m4, l.Mailbox(MB_XH3_MCAUSE)) == CAUSE_LOAD_FAULT
    ensures Load32(m4, l.Mailbox(MB_XH3_AFTER)) == SECRET
    ensures forall i: nat | i < MB_N && (i == 0 || i > 3) :: Load32(m4, l.Mailbox(i)) == Load32(m0, l.Mailbox(i))
  {
    hide Load32, Store32;
    DemoBytes(l, m0, m3, m4);
    var m1 := Store32(m0, l.Mailbox(MB_XH3_BEFORE), SECRET);
    LoadSame(m1, m4, l.Mailbox(MB_XH3_BEFORE));
    LoadSame(m3, m4, l.Mailbox(MB_XH3_MCAUSE));
    forall i: nat | i < MB_N && (i == 0 || i > 3)
      ensures Load32(m4, l.Mailbox(i)) == Load32(m0, l.Mailbox(i))
    {
      LoadSame(m0, m4, l.Mailbox(i));
    }
  }

  predicate InMachine(h: Hart)
    reads h
  {
    && Free(h.l, h.State()) && Running(h.l, h.State())
    && h.csr.mscratch == h.l.StackTop() && h.mode.Machine?
  }

  /**
   The Xh3pmpm demonstration: M-mode reads the secret, restricts itself, faults once, recovers on the
   next instruction boundary, and reads the secret again.
   */
  method Xh3Demo(h: Hart, at: CodeAddr, tval: Word, junk: Regs)
    requires InMachine(h) && CodeApart(h.l, at)
    requires h.l.prot % 4 == 0 && Load32(h.mem, h.l.Secret()) == SECRET
    modifies h
    ensures InMachine(h)
    ensures exists m3 :: DemoMemory(h.l, old(h.mem), m3, h.mem)
    ensures h.pc == NextPc(at, InstrLength(Load16(old(h.mem), at))) && h.csr.mtvec == old(h.csr).mtvec
  {
    hide Load32, Store32, Allows, Programmed, Load16;
    FreeOpen(h.l, h.State());
    var v := Get(h, h.l.Secret());
    Put(h, h.l.Mailbox(MB_XH3_BEFORE), v);
    Put(h, h.l.stage, STAGE_XH3);
    RestrictMachine(h);
    ghost var m2 := h.mem;
    SelfTestRead(h, at, tval, junk);
    ghost var m3 := h.mem;
    RecoveredFree(h.l, h.State());
    FreeOpen(h.l, h.State());
    SecretKept(h.l, old(h.mem), m2, m3, at);
    v := Get(h, h.l.Secret());
    Put(h, h.l.Mailbox(MB_XH3_AFTER), v);
    assert DemoMemory(h.l, old(h.mem), m3, h.mem);
  }

  method RestrictMachine(h: Hart)
    requires InMachine(h)
    modifies h`csr
    ensures Running(h.l, h.State()) && h.csr == old(h.csr).(pmp := old(h.csr).pmp.(m0 := 1))
  {
    h.csr := h.csr.(pmp := h.csr.pmp.(m0 := 1));
  }

  lemma RecoveredFree(l: Layout, s: State)
    requires Running(l, s) && s.csr.pmp.m0 == 0
    ensures Free(l, s)
  {
  }

  lemma SecretKept(l: Layout, m0: Mem, m2: Mem, m3: Mem, at: CodeAddr)
    requires l.Valid() && CodeApart(l, at) && l.prot % 4 == 0
    requires m2 == Store32(Store32(m0, l.Mailbox(MB_XH3_BEFORE), SECRET), l.stage, STAGE_XH3)
    requires OnlyRecorded(l, m2, m3)
    ensures Load32(m3, l.Secret()) == Load32(m0, l.Secret()) && Load16(m2, at) == Load16(m0, at)
  {
    hide Load32, ByteOf;
    LoadSame(m0, m3, l.Secret());
    assert m2[at + 1] == m0[at + 1];
  }

  /** The state the last mret of main leaves: U-mode, with everything in place behind it. */
  ghost predicate DropState(l: Layout, s: State, entry: CodeAddr)
    requires l.Valid() && l.prot % 4 == 0
  {
    && Dropped(l, s) && !s.halted && s.mode.User? && s.pc == entry
    && Load32(s.mem, l.prot) == 0x5EC0_0001 && CounterOf(l, s.mem) == 0 && KeyInstalled(l, s.mem)
    && Load32(s.mem, l.stage) == 2
    && MailboxReport(l, s.mem)
  }

  /** g_stage = STAGE_U; g_mb[MB_STAGE] = 0xA11; mstatus.MPP = U; mepc = entry; mret. */
  method DropToUser(h: Hart, entry: CodeAddr, junk: Regs)
    requires InMachine(h)
    modifies h
    ensures Dropped(h.l, h.State()) && !h.halted && h.mode.User? && h.pc == entry && h.csr.mtvec == old(h.csr).mtvec
    ensures h.mem == Store32(Store32(old(h.mem), h.l.stage, STAGE_U), h.l.Mailbox(MB_STAGE), 0xA11)
  {
    hide Load32, Store32, Allows, Programmed;
    FreeOpen(h.l, h.State());
    Put(h, h.l.stage, STAGE_U);
    Put(h, h.l.Mailbox(MB_STAGE), 0xA11);
    h.csr := h.csr.(mpp := User);
    h.csr := h.csr.(mepc := entry);
    h.Execute(Mret, junk);
  }

  /** The mailbox and g_prot as main has initialised them, before the demonstration. */
  ghost predicate Initialised(l: Layout, m: Mem)
    requires l.Valid() && l.prot % 4 == 0
  {
    && Load32(m, l.Secret()) == SECRET && CounterOf(l, m) == 0 && KeyInstalled(l, m)
    && (forall i: nat | i < MB_N :: Load32(m, l.Mailbox(i)) == if i == 0 then MAGIC else 0)
  }

  lemma InitialisedMemory(l: Layout, m1: Mem, m2: Mem)
    requires l.Valid() && l.prot % 4 == 0 && SameOutside(m1, m2, l.prot, 64)
    requires Load32(m2, l.Secret()) == SECRET && CounterOf(l, m2) == 0 && KeyInstalled(l, m2)
    requires forall i: nat | i < MB_N :: Load32(m1, l.Mailbox(i)) == if i == 0 then MAGIC else 0
    ensures Initialised(l, m2)
  {
    hide Load32, CounterOf, KeyInstalled;
    forall i: nat | i < MB_N ensures Load32(m2, l.Mailbox(i)) == if i == 0 then MAGIC else 0 {
      LoadSame(m1, m2, l.Mailbox(i));
    }
  }

  lemma DropMemory(l: Layout, m1: Mem, m3: Mem, m4: Mem, m5: Mem)
    requires l.Valid() && l.prot % 4 == 0 && Initialised(l, m1) && DemoMemory(l, m1, m3, m4)
    requires m5 == Store32(Store32(m4, l.stage, STAGE_U), l.Mailbox(MB_STAGE), 0xA11)
    ensures Load32(m5, l.Secret()) == SECRET && CounterOf(l, m5) == 0 && KeyInstalled(l, m5)
    ensures Load32(m5, l.stage) == STAGE_U && MailboxReport(l, m5)
  {
    hide Load32, Store32, DemoMemory;
    DemoWords(l, m1, m3, m4);
    DropProt(l, m1, m3, m4, m5);
    var ms := Store32(m4, l.stage, STAGE_U);
    LoadSame(ms, m5, l.stage);
    forall i: nat | i < MB_N && i != MB_STAGE ensures Load32(m5, l.Mailbox(i)) == Load32(m4, l.Mailbox(i)) {
      LoadSame(m4, m5, l.Mailbox(i));
    }
  }

  lemma DropProt(l: Layout, m1: Mem, m3: Mem, m4: Mem, m5: Mem)
    requires l.Valid() && l.prot % 4 == 0 && Initialised(l, m1) && DemoMemory(l, m1, m3, m4)
    requires m5 == Store32(Store32(m4, l.stage, STAGE_U), l.Mailbox(MB_STAGE), 0xA11)
    ensures Load32(m5, l.Secret()) == SECRET && CounterOf(l, m5) == 0 && KeyInstalled(l, m5)
  {
    hide Load32, Store32, DemoMemory;
    DemoBytes(l, m1, m3, m4);
    assert SameInside(m1, m5, l.prot, 64);
    LoadSame(m1, m5, l.Secret());
    CounterSame(l, m1, m5);
    assert KeyOf(l, m5) == KeyOf(l, m1);
  }

  /** main, from reset to U-mode. at is the self-test load, entry is u_mode_entry. */
  method BootToUser(h: Hart, trapEntry: CodeAddr, at: CodeAddr, entry: CodeAddr, tval: Word, junk: Regs)
    requires h.l.Valid() && CodeApart(h.l, at)
    requires h.mode.Machine? && !h.halted && !h.nested && h.csr.pmp.cfg == 0
    modifies h
    ensures h.l.prot % 4 == 0 && DropState(h.l, h.State(), entry) && h.csr.mtvec == trapEntry
  {
    hide Load32, Store32, Allows, Programmed, Initialised, KeyInstalled, CounterOf, DemoMemory, MailboxReport;
    h.l.CounterAligned();
    ResetOpen(h.csr.pmp);
    ClearMailbox(h);
    ghost var m0 := h.mem;
    InitProt(h);
    ghost var m1 := h.mem;
    InitialisedMemory(h.l, m0, m1);
    InitialisedSecret(h.l, m1);
    h.csr := h.csr.(mscratch := h.l.StackTop());
    h.csr := h.csr.(mtvec := trapEntry);
    PmpIsolateSecret(h);
    Xh3Demo(h, at, tval, junk);
    ghost var m4 := h.mem;
    ghost var m3 :| DemoMemory(h.l, m1, m3, m4);
    DropToUser(h, entry, junk);
    DropMemory(h.l, m1, m3, m4, h.mem);
  }

  lemma InitialisedSecret(l: Layout, m: Mem)
    requires l.Valid() && l.prot % 4 == 0 && Initialised(l, m)
    ensures Load32(m, l.Secret()) == SECRET
  {
  }

  /**
   From the state main leaves, for every U-mode program and every number of steps: the secret word and
   the sixteen key bytes are what main wrote, PMPCFGM0 is 0, and the n-th counter call returned n.
   */
  lemma FromTheDropOn(l: Layout, s: State, entry: CodeAddr, isa: Isa, junk: State -> Regs, n: nat)
    requires l.Valid() && l.prot % 4 == 0 && DropState(l, s, entry)
    ensures var t := After(l, isa, junk, s, n);
            var answers := Answers(l, isa, junk, s, n);
            && Load32(t.mem, l.prot) == 0x5EC0_0001 && KeyInstalled(l, t.mem) && t.csr.pmp.m0 == 0 && !t.nested
            && forall i | 0 <= i < |answers| :: answers[i] == (i + 1) % 0x1_0000_0000
  {
    hide Load32, Programmed, CounterOf, After, Answers, MailboxReport;
    RunKeeps(l, isa, junk, s, n);
    CounterAnswers(l, isa, junk, s, n);
    var t := After(l, isa, junk, s, n);
    LoadSame(s.mem, t.mem, l.Secret());
    assert KeyOf(l, t.mem) == KeyOf(l, s.mem);
  }
}

/** The memory check, lazy boundary switching, and what binding does to ACCESSCTRL. */
module TfmChecks {
  import opened Bits
  import opened Mpu
  import opened Cmse
  import opened AccessCtrl
  import opened TfmHal
  import opened TfmRuns

  // ---- tfm_hal_memory_check ----

  /** The whole buffer lies in range i and may be used as asked. */
  predicate Serves(r: Range, base: Word, size: Word, writes: bool)
    requires base + size <= 0x1_0000_0000 && size > 0
  {
    r.start <= base && base + size - 1 <= r.limit && (writes ==> r.writable)
  }

  /** The security attribution unit sees both ends of the buffer alike. */
  predicate EndsAlike(s: Sau, base: Word, last: Word)
  {
    && (s.ctrl % 2 == 1 ==> Reported(Find(s.regions, base)) == Reported(Find(s.regions, last)))
    && (Attribute(s, base).NonSecure? <==> Attribute(s, last).NonSecure?)
  }

  lemma RangeMatch(u: Unit, ranges: seq<Range>, a: Word)
    requires On(u) && Holds(u, ranges) && Disjoint(ranges) && (forall r | r in ranges :: Aligned(r))
    ensures var m := Find(u.regions, a);
            if m.One? then m.i < |ranges| && InRange(a, ranges[m.i]) && Programs(u.regions[m.i], ranges[m.i])
            else forall i: nat | i < |ranges| :: !InRange(a, ranges[i])
    ensures forall i: nat | i < |ranges| && InRange(a, ranges[i]) :: Find(u.regions, a) == One(i)
  {
    hide Hit, Aligned, Programs;
    if i: nat :| i < |ranges| && InRange(a, ranges[i]) {
      HoldsHit(u, ranges, a, i);
      FindOnly(u.regions, i, a);
    } else {
      HoldsMiss(u, ranges, a);
      FindMiss(u.regions, a);
    }
    forall i: nat | i < |ranges| && InRange(a, ranges[i]) ensures Find(u.regions, a) == One(i) {
      HoldsHit(u, ranges, a, i);
      FindOnly(u.regions, i, a);
    }
  }

  lemma Permission(u: Unit, ranges: seq<Range>, a: Word, i: nat)
    requires On(u) && Find(u.regions, a) == One(i) && i < |ranges| && Programs(u.regions[i], ranges[i])
    ensures Mpu.Allows(u, false, a, Read)
    ensures Mpu.Allows(u, false, a, Write) <==> ranges[i].writable
  {
    assert Grants(u.regions[i], false, Read) <==> Wants(ranges[i], Read);
    assert Grants(u.regions[i], false, Write) <==> Wants(ranges[i], Write);
  }

  /**
   For an unprivileged, secure-partition handle and a secure buffer: the check succeeds iff the buffer is
   readable-or-better as asked, does not start at 0 or wrap, lies entirely in one configured range with
   the permission, and the attribution unit does not tell its ends apart.
   */
  lemma MemoryCheckIff(x: CheckContext, st: HalState, ranges: seq<Range>, h: Word, base: Word, size: Word,
                       access: AccessType)
    requires Configured(st, ranges) && x.secure == st.mpu
    requires Disjoint(ranges) && (forall r | r in ranges :: Aligned(r))
    requires !HandlePrivileged(h) && !HandleNs(h) && size > 0 && !access.ns
    ensures CheckStatus(x, h, base, size, access) == Success
       <==> && base != 0 && access.readable
            && base + size <= 0x1_0000_0000
            && (exists i: nat :: i < |ranges| && Serves(ranges[i], base, size, access.writable))
            && EndsAlike(x.sau, base, base + size - 1)
  {
    hide Attribute, Find, Aligned, Holds, Programs, Mpu.Allows, Disjoint;
    if base + size <= 0x1_0000_0000 {
      var last := base + size - 1;
      CtrlOn(st.mpu);
      RangeMatch(st.mpu, ranges, base);
      RangeMatch(st.mpu, ranges, last);
      var m := Find(st.mpu.regions, base);
      if m.One? && Find(st.mpu.regions, last) == m {
        Permission(st.mpu, ranges, base, m.i);
        Permission(st.mpu, ranges, last, m.i);
        assert Serves(ranges[m.i], base, size, access.writable) <==> (access.writable ==> ranges[m.i].writable);
      } else if !m.One? {
        NoUnprivileged(st.mpu, base);
      }
      if i: nat :| i < |ranges| && Serves(ranges[i], base, size, access.writable) {
        assert InRange(base, ranges[i]) && InRange(last, ranges[i]);
      }
    }
  }

  lemma CtrlOn(u: Unit)
    requires u.ctrl == CTRL_VALUE
    ensures On(u)
  {
  }

  lemma NoUnprivileged(u: Unit, a: Word)
    requires On(u) && !Find(u.regions, a).One?
    ensures !Mpu.Allows(u, false, a, Read)
  {
  }

  /** So success grants every byte, not just the two ends that were looked at. */
  lemma MemoryCheckEveryByte(x: CheckContext, st: HalState, ranges: seq<Range>, h: Word, base: Word, size: Word,
                             access: AccessType, a: Word)
    requires Configured(st, ranges) && x.secure == st.mpu
    requires Disjoint(ranges) && (forall r | r in ranges :: Aligned(r))
    requires !HandlePrivileged(h) && !HandleNs(h) && size > 0 && !access.ns
    requires CheckStatus(x, h, base, size, access) == Success && base <= a < base + size
    ensures Mpu.Allows(st.mpu, false, a, Read)
    ensures access.writable ==> Mpu.Allows(st.mpu, false, a, Write)
  {
    hide Aligned, Holds, Mpu.Allows, Disjoint, CheckStatus, EndsAlike;
    MemoryCheckIff(x, st, ranges, h, base, size, access);
    CtrlOn(st.mpu);
    LookupIsMembership(st.mpu, ranges, a, Read);
    LookupIsMembership(st.mpu, ranges, a, Write);
  }

  /**
   A buffer checked for the Non-Secure side -- by the access flag or by the handle of the Non-Secure
   agent -- is Non-Secure in every byte.
   */
  lemma NonSecureCheckEveryByte(x: CheckContext, h: Word, base: Word, size: Word, access: AccessType, a: Word)
    requires access.ns || HandleNs(h)
    requires size > 0 && CheckStatus(x, h, base, size, access) == Success && base <= a < base + size
    requires x.sau.ctrl % 2 == 1 && Separate(x.sau.regions)
    ensures Attribute(x.sau, a) == NonSecure
  {
    hide Attribute, Separate, CheckRange;
    var privileged := if HandleNs(h) then !x.nsNPriv else HandlePrivileged(h);
    CheckedIsNonSecure(x.nonSecure, x.sau, privileged, base, size,
                       Flags(!access.writable, access.writable, true), a);
  }

  /**
   ... and the Non-Secure MPU grants the access at every byte: reading always; writing, if asked for, always to
   an unprivileged caller and to a privileged one iff no read-only region reaches in.
   */
  lemma NonSecureCheckPermits(x: CheckContext, h: Word, base: Word, size: Word, access: AccessType)
    requires access.ns || HandleNs(h)
    requires size > 0 && CheckStatus(x, h, base, size, access) == Success
    requires Separate(x.nonSecure.regions)
    ensures var privileged := if HandleNs(h) then !x.nsNPriv else HandlePrivileged(h);
            && (forall a: Word | base <= a < base + size :: Mpu.Allows(x.nonSecure, privileged, a, Read))
            && (access.writable && !privileged ==>
                  forall a: Word | base <= a < base + size :: Mpu.Allows(x.nonSecure, false, a, Write))
            && (privileged ==>
                  ((forall a: Word | base <= a < base + size :: Mpu.Allows(x.nonSecure, true, a, Write))
                   <==> !On(x.nonSecure) || NoReadOnly(x.nonSecure.regions, base, size)))
  {
    hide Separate, CheckRange, Mpu.Allows, NoReadOnly;
    var privileged := if HandleNs(h) then !x.nsNPriv else HandlePrivileged(h);
    CheckedEveryByte(x.nonSecure, x.sau, privileged, base, size, Flags(!access.writable, access.writable, true));
  }

  /**
   For the Non-Secure side the check succeeds iff the buffer does not start at 0 or wrap, reading is asked
   for, both ends lie in the same regions of both units, and the first byte is Non-Secure and granted by the
   Non-Secure MPU -- at the privilege of the Non-Secure caller for its agent's handle, else of the handle.
   */
  lemma NonSecureCheckIff(x: CheckContext, h: Word, base: Word, size: Word, access: AccessType)
    requires access.ns || Bit(h, 0)
    requires size > 0 && Separate(x.nonSecure.regions) && Separate(x.sau.regions)
    ensures CheckStatus(x, h, base, size, access) == Success
       <==> && base != 0 && access.readable && base + size <= 0x1_0000_0000
            && (On(x.nonSecure) ==> SameRegions(x.nonSecure.regions, base, base + size - 1))
            && (x.sau.ctrl % 2 == 1 ==> SameRegions(x.sau.regions, base, base + size - 1))
            && Attribute(x.sau, base) == NonSecure
            && Mpu.Allows(x.nonSecure, if Bit(h, 0) then !x.nsNPriv else Bit(h, 1), base,
                          if access.writable then Write else Read)
  {
    hide Separate, CheckRange, Mpu.Allows, SameRegions, Attribute, On, Bit;
    HandleBits(h);
    var privileged := if Bit(h, 0) then !x.nsNPriv else Bit(h, 1);
    CheckRangeIff(x.nonSecure, x.sau, privileged, base, size, Flags(!access.writable, access.writable, true));
  }

  /** Privilege is bit 1 of a handle, Non-Secure agency bit 0. */
  lemma HandleBits(h: Word)
    ensures HandlePrivileged(h) == Bit(h, 1) && HandleNs(h) == Bit(h, 0)
  {
    assert Pow2(0) == 1 && Pow2(1) == 2;
  }

  // ---- ... for privileged partitions ----

  /** A byte is in the same ranges as another. */
  ghost predicate SameRanges(ranges: seq<Range>, a: Word, b: Word)
  {
    forall i: nat | i < |ranges| :: InRange(a, ranges[i]) <==> InRange(b, ranges[i])
  }

  /** No range that contains the byte is read-only. */
  ghost predicate MayWrite(ranges: seq<Range>, a: Word)
  {
    forall i: nat | i < |ranges| && InRange(a, ranges[i]) :: ranges[i].writable
  }

  /**
   For a privileged, secure-partition handle and a secure buffer: the check succeeds iff reading is asked
   for, the buffer does not start at 0 or wrap, its ends lie in the same range or both in none, that
   range may be written if writing is asked for, and the attribution unit does not tell the ends apart.
   */
  lemma PrivilegedCheckIff(x: CheckContext, st: HalState, ranges: seq<Range>, h: Word, base: Word, size: Word,
                           access: AccessType)
    requires Configured(st, ranges) && x.secure == st.mpu
    requires Disjoint(ranges) && (forall r | r in ranges :: Aligned(r))
    requires HandlePrivileged(h) && !HandleNs(h) && size > 0 && !access.ns
    ensures CheckStatus(x, h, base, size, access) == Success
       <==> && base != 0 && access.readable
            && base + size <= 0x1_0000_0000
            && SameRanges(ranges, base, base + size - 1)
            && (access.writable ==> MayWrite(ranges, base))
            && EndsAlike(x.sau, base, base + size - 1)
  {
    hide Attribute, Aligned, Holds, Programs, Mpu.Allows, Disjoint, Find;
    if base + size <= 0x1_0000_0000 {
      var last := base + size - 1;
      CtrlOn(st.mpu);
      PrivilegedLookup(st.mpu, ranges, base);
      PrivilegedLookup(st.mpu, ranges, last);
      SameMatch(st.mpu, ranges, base, last);
    }
  }

  /** The unit reports the same region for two addresses iff they lie in the same ranges. */
  lemma SameMatch(u: Unit, ranges: seq<Range>, a: Word, b: Word)
    requires On(u) && Holds(u, ranges) && Disjoint(ranges) && (forall r | r in ranges :: Aligned(r))
    ensures Reported(Find(u.regions, a)) == Reported(Find(u.regions, b)) <==> SameRanges(ranges, a, b)
  {
    hide Find, Aligned, Holds, Programs, Disjoint;
    RangeMatch(u, ranges, a);
    RangeMatch(u, ranges, b);
    var m, n := Find(u.regions, a), Find(u.regions, b);
    if m.One? {
      assert InRange(b, ranges[m.i]) ==> n == m;
    }
  }

  /**
   What success is worth then. Reading is granted at every byte of the buffer; writing at every byte iff
   no read-only range reaches into it, which the two end points do not tell.
   */
  lemma PrivilegedCheckEveryByte(x: CheckContext, st: HalState, ranges: seq<Range>, h: Word, base: Word, size: Word,
                                 access: AccessType)
    requires Configured(st, ranges) && x.secure == st.mpu
    requires Disjoint(ranges) && (forall r | r in ranges :: Aligned(r))
    requires HandlePrivileged(h) && !HandleNs(h) && size > 0 && !access.ns
    requires CheckStatus(x, h, base, size, access) == Success
    ensures forall a: Word | base <= a < base + size :: Mpu.Allows(st.mpu, true, a, Read)
    ensures (forall a: Word | base <= a < base + size :: Mpu.Allows(st.mpu, true, a, Write))
       <==> (forall i: nat | i < |ranges| && !ranges[i].writable :: Misses(ranges[i], base, size))
  {
    hide Aligned, Holds, Mpu.Allows, Disjoint, CheckRange;
    CtrlOn(st.mpu);
    forall a: Word | base <= a < base + size
      ensures Mpu.Allows(st.mpu, true, a, Read)
      ensures Mpu.Allows(st.mpu, true, a, Write) <==> MayWrite(ranges, a)
    {
      PrivilegedLookup(st.mpu, ranges, a);
    }
    if i: nat :| i < |ranges| && !ranges[i].writable && !Misses(ranges[i], base, size) {
      var a := if ranges[i].start <= base then base else ranges[i].start;
      assert InRange(a, ranges[i]) && !MayWrite(ranges, a);
      assert base <= a < base + size && !Mpu.Allows(st.mpu, true, a, Write);
    }
  }

  /** The range is empty or shares no byte with the buffer. */
  predicate Misses(r: Range, base: Word, size: Word)
  {
    r.limit < r.start || r.limit < base || base + size <= r.start
  }

  /** Unprivileged code at 0x1000_0020, application code and data elsewhere. */
  const GAP_SYMBOLS := Symbols(0, 0, 0x1000_0020, 0x1000_0040, 0x1001_0000, 0x1001_1000, 0x2000_0000, 0x2000_1000, 0, 0)

  lemma GapRanges(pxn: bool, level1: bool)
    ensures var ranges := StaticRanges(Config(false, false, pxn, level1), GAP_SYMBOLS);
            && ranges == [Range(0x1000_0020, 0x1000_003F, false, true), Range(0x1001_0000, 0x1001_0FFF, false, true),
                          Range(0x2000_0000, 0x2000_0FFF, true, false)]
            && Disjoint(ranges) && forall r | r in ranges :: Aligned(r)
  {
  }

  /**
   The input: after set-up with these symbols, a privileged read-write check of 0x1000_0000 to 0x1000_005F
   succeeds, both ends being on the background map, and the first byte of the code between them cannot be
   written.
   */
  lemma PrivilegedCheckGap(pxn: bool, level1: bool, regions: seq<Region>, x: CheckContext)
    requires |regions| >= 3 && x.sau.ctrl == 0
    requires x.secure == StaticUnit(Config(false, false, pxn, level1), GAP_SYMBOLS, regions)
    ensures CheckStatus(x, PRIVILEGED_HANDLE, 0x1000_0000, 0x60, AccessType(true, true, false)) == Success
    ensures !Mpu.Allows(x.secure, true, 0x1000_0020, Write)
  {
    hide StaticUnit, StaticRanges, Mpu.Allows, CheckStatus, Disjoint;
    var c := Config(false, false, pxn, level1);
    var ranges := StaticRanges(c, GAP_SYMBOLS);
    GapRanges(pxn, level1);
    assert |StaticTable(c, GAP_SYMBOLS)| == 3;
    hide StaticTable;
    SetUpConfigured(c, GAP_SYMBOLS, regions, map[]);
    var st := HalState(3, x.secure, map[]);
    PrivilegedCheckIff(x, st, ranges, PRIVILEGED_HANDLE, 0x1000_0000, 0x60, AccessType(true, true, false));
    PrivilegedLookup(x.secure, ranges, 0x1000_0020);
    assert InRange(0x1000_0020, ranges[0]) && !ranges[0].writable;
  }

  /** Handles: bind encodes privilege and NS agency, and they can be read back. */
  lemma HandleRoundTrip(privileged: bool, nsAgent: bool)
    ensures HandlePrivileged(Handle(privileged, nsAgent)) == privileged
    ensures HandleNs(Handle(privileged, nsAgent)) == nsAgent
    ensures Handle(false, false) == 0 && Handle(false, true) == 1 && Handle(true, false) == 2 && Handle(true, true) == 3
  {
  }

  // ---- lazy switching ----

  /** CONTROL after each switch of a scheduler that always activates. */
  function Eager(control: Word, handles: seq<Word>): seq<Word>
    decreases handles
  {
    if handles == [] then []
    else
      var next := Activated(control, handles[0]);
      [next] + Eager(next, handles[1..])
  }

  /** ... and of one that activates only when tfm_hal_boundary_need_switch says so. */
  function Lazy(control: Word, current: Word, handles: seq<Word>): seq<Word>
    decreases handles
  {
    if handles == [] then []
    else
      var next := if NeedSwitch(current, handles[0]) then Activated(control, handles[0]) else control;
      [next] + Lazy(next, handles[0], handles[1..])
  }

  lemma {:induction false} LazyIsEager(control: Word, current: Word, handles: seq<Word>)
    requires InStep(control, current)
    ensures Lazy(control, current, handles) == Eager(control, handles)
    decreases handles
  {
    if handles != [] {
      var next := Activated(control, handles[0]);
      LazyIsEager(next, handles[0], handles[1..]);
    }
  }

  /**
   Lazy switching refines eager switching -- the whole of CONTROL agrees after every switch of every
   schedule -- exactly when CONTROL starts in step with the current boundary.
   */
  lemma LazyRefinesEager(control: Word, current: Word)
    ensures (forall handles :: Lazy(control, current, handles) == Eager(control, handles))
       <==> InStep(control, current)
  {
    if InStep(control, current) {
      forall handles ensures Lazy(control, current, handles) == Eager(control, handles) {
        LazyIsEager(control, current, handles);
      }
    } else {
      var once := [current];
      assert Lazy(control, current, once)[0] == control;
      assert Eager(control, once)[0] == Activated(control, current) != control;
    }
  }

  /** Switching touches nPRIV and no other bit of CONTROL. */
  lemma {:induction false} OtherBitsKept(control: Word, handles: seq<Word>, i: nat)
    requires i < |handles|
    ensures i < |Eager(control, handles)|
    ensures Eager(control, handles)[i] / 2 == control / 2 && InStep(Eager(control, handles)[i], handles[i])
    decreases handles
  {
    var next := Activated(control, handles[0]);
    if i > 0 {
      OtherBitsKept(next, handles[1..], i - 1);
    }
  }

  // ---- ACCESSCTRL under binding ----

  lemma NoWiderTransitive(d: Device, x: AccessCtrl.Regs, y: AccessCtrl.Regs, z: AccessCtrl.Regs)
    requires NoWider(d, x, y) && NoWider(d, y, z)
    ensures NoWider(d, x, z)
  {
  }

  lemma NoWiderSame(d: Device, x: AccessCtrl.Regs)
    ensures NoWider(d, x, x)
  {
  }

  lemma {:induction false} BindNoWider(p: Platform, pxn: bool, privileged: bool, s: HalState, refs: seq<Word>)
    requires p.Valid() && Local(p.dev) && TakesOrIgnores(p.dev)
    ensures NoWider(p.dev, s.ac, BindRefs(p, pxn, privileged, s, refs).0.ac)
    decreases refs
  {
    hide Local, TakesOrIgnores, NoWider;
    NoWiderSame(p.dev, s.ac);
    if refs != [] && refs[0] in p.allowed {
      var d := p.data[refs[0]];
      var (t, ok) := BindRef(p, pxn, privileged, s, refs[0]);
      ConfigureNoWider(p.dev, s.ac, d.reg, privileged);
      BindNoWider(p, pxn, privileged, t, refs[1..]);
      if ok {
        NoWiderTransitive(p.dev, s.ac, t.ac, BindRefs(p, pxn, privileged, t, refs[1..]).0.ac);
      }
    }
  }

  /** Over every run of binds no register gains the NSU bit, and no cleared NSP bit comes back. */
  lemma {:induction false} RunNoWider(p: Platform, pxn: bool, s: HalState, rs: seq<Request>)
    requires p.Valid() && Local(p.dev) && TakesOrIgnores(p.dev)
    ensures NoWider(p.dev, s.ac, TfmRuns.After(p, pxn, s, rs).ac)
  {
    hide Local, TakesOrIgnores, NoWider, BindRefs;
    NoWiderSame(p.dev, s.ac);
    if rs != [] {
      var init := rs[..|rs| - 1];
      RunNoWider(p, pxn, s, init);
      var u := TfmRuns.After(p, pxn, s, init);
      var r := rs[|rs| - 1];
      if r.q.Some? && r.wantsHandle {
        BindNoWider(p, pxn, Privileged(p, r.q.value), u, NamedRefs(r.q.value.assets));
        NoWiderTransitive(p.dev, s.ac, u.ac, TfmRuns.After(p, pxn, s, rs).ac);
      }
    }
  }

  /** The reference makes bind write this register. */
  predicate Writes(p: Platform, ref: Word, r: AcReg)
    requires p.Valid()
  {
    ref in p.allowed && !p.data[ref].skipPpc && p.data[ref].reg == Some(r)
  }

  lemma BindRefClass(p: Platform, ready: AccessCtrl.Regs -> bool, pxn: bool, privileged: bool, s: HalState, ref: Word,
                     r: AcReg)
    requires p.Valid() && Local(p.dev) && Writable(p.dev, ready) && ready(s.ac)
    ensures var t := BindRef(p, pxn, privileged, s, ref).0.ac;
            ready(t) && Shows(p.dev, t, r) == if Writes(p, ref, r) then BoundBits(privileged) else Shows(p.dev, s.ac, r)
  {
    hide Granular, MmioRegion, Local, Writable, Shows, AccessCtrl.Configure;
    if ref in p.allowed && !p.data[ref].skipPpc {
      ConfigureShows(p.dev, ready, s.ac, p.data[ref].reg, privileged, r);
    }
  }

  /**
   After a successful bind every register named by the partition's assets shows the class of the
   partition -- Secure privileged or Secure unprivileged -- and every other register what it showed before.
   */
  lemma {:induction false} BindClasses(p: Platform, ready: AccessCtrl.Regs -> bool, pxn: bool, privileged: bool,
                                       s: HalState, refs: seq<Word>, r: AcReg)
    requires p.Valid() && Local(p.dev) && Writable(p.dev, ready) && ready(s.ac)
    requires BindRefs(p, pxn, privileged, s, refs).1
    ensures Shows(p.dev, BindRefs(p, pxn, privileged, s, refs).0.ac, r)
         == if exists x :: x in refs && Writes(p, x, r) then BoundBits(privileged) else Shows(p.dev, s.ac, r)
    decreases refs
  {
    hide Local, Writable, Granular, MmioRegion, Shows, BindRef;
    if refs != [] {
      var (t, ok) := BindRef(p, pxn, privileged, s, refs[0]);
      assert refs == [refs[0]] + refs[1..];
      BindRefClass(p, ready, pxn, privileged, s, refs[0], r);
      BindClasses(p, ready, pxn, privileged, t, refs[1..], r);
    }
  }

  /** Reference j does not stop the loop, when all before it have not. */
  predicate Passes(p: Platform, privileged: bool, s: HalState, refs: seq<Word>, j: nat)
    requires p.Valid() && j < |refs|
  {
    refs[j] in p.allowed && (privileged || (Granular(p.data[refs[j]]) && s.n + j < |s.mpu.regions|))
  }

  /** The loop gets to reference k. */
  predicate Reaches(p: Platform, privileged: bool, s: HalState, refs: seq<Word>, k: nat)
    requires p.Valid() && k < |refs|
  {
    forall j: nat | j < k :: Passes(p, privileged, s, refs, j)
  }

  /** The loop gets to a reference that makes it write r. */
  predicate TriesToWrite(p: Platform, privileged: bool, s: HalState, refs: seq<Word>, r: AcReg)
    requires p.Valid()
  {
    exists k: nat :: k < |refs| && Reaches(p, privileged, s, refs, k) && Writes(p, refs[k], r)
  }

  lemma TriesNext(p: Platform, privileged: bool, s: HalState, t: HalState, refs: seq<Word>, r: AcReg)
    requires p.Valid() && refs != [] && |t.mpu.regions| == |s.mpu.regions| && (privileged || t.n == s.n + 1)
    requires Passes(p, privileged, s, refs, 0)
    ensures TriesToWrite(p, privileged, s, refs, r)
       <==> Writes(p, refs[0], r) || TriesToWrite(p, privileged, t, refs[1..], r)
  {
    hide Granular, Writes;
    var rest := refs[1..];
    forall j: nat | j < |rest| ensures Passes(p, privileged, t, rest, j) == Passes(p, privileged, s, refs, j + 1) {
    }
    forall k: nat | k < |rest| ensures Reaches(p, privileged, t, rest, k) == Reaches(p, privileged, s, refs, k + 1) {
      ReachesNext(p, privileged, s, t, refs, k);
    }
    hide Passes;
    if Writes(p, refs[0], r) {
      assert Reaches(p, privileged, s, refs, 0);
    }
    if TriesToWrite(p, privileged, t, rest, r) {
      var k: nat :| k < |rest| && Reaches(p, privileged, t, rest, k) && Writes(p, rest[k], r);
      assert Reaches(p, privileged, s, refs, k + 1) && refs[k + 1] == rest[k];
    }
    if TriesToWrite(p, privileged, s, refs, r) && !Writes(p, refs[0], r) {
      var k: nat :| k < |refs| && Reaches(p, privileged, s, refs, k) && Writes(p, refs[k], r);
      assert Reaches(p, privileged, t, rest, k - 1) && rest[k - 1] == refs[k];
    }
  }

  lemma ReachesNext(p: Platform, privileged: bool, s: HalState, t: HalState, refs: seq<Word>, k: nat)
    requires p.Valid() && k + 1 < |refs| && Passes(p, privileged, s, refs, 0)
    requires forall j: nat | j < |refs| - 1 ::
               Passes(p, privileged, t, refs[1..], j) == Passes(p, privileged, s, refs, j + 1)
    ensures Reaches(p, privileged, t, refs[1..], k) == Reaches(p, privileged, s, refs, k + 1)
  {
    hide Passes;
    if Reaches(p, privileged, t, refs[1..], k) {
      forall j: nat | j < k + 1 ensures Passes(p, privileged, s, refs, j) {
        if j > 0 {
          assert Passes(p, privileged, t, refs[1..], j - 1);
        }
      }
    }
    if Reaches(p, privileged, s, refs, k + 1) {
      forall j: nat | j < k ensures Passes(p, privileged, t, refs[1..], j) {
        assert Passes(p, privileged, s, refs, j + 1);
      }
    }
  }

  /**
   Failed or not, a bind has written the registers of the references its loop got to -- the one that stopped it
   included, if it is on the allow-list -- and no other.
   */
  lemma {:induction false} BindLeavesClasses(p: Platform, ready: AccessCtrl.Regs -> bool, pxn: bool, privileged: bool,
                                             s: HalState, refs: seq<Word>, r: AcReg)
    requires p.Valid() && Local(p.dev) && Writable(p.dev, ready) && ready(s.ac)
    ensures Shows(p.dev, BindRefs(p, pxn, privileged, s, refs).0.ac, r)
         == if TriesToWrite(p, privileged, s, refs, r) then BoundBits(privileged) else Shows(p.dev, s.ac, r)
    decreases refs
  {
    hide Local, Writable, Granular, MmioRegion, Shows, BindRef, TriesToWrite, Passes;
    if refs == [] {
      TriesNone(p, privileged, s, refs, r);
    } else {
      var (t, ok) := BindRef(p, pxn, privileged, s, refs[0]);
      BindRefClass(p, ready, pxn, privileged, s, refs[0], r);
      BindRefPasses(p, pxn, privileged, s, refs);
      if ok {
        BindLeavesClasses(p, ready, pxn, privileged, t, refs[1..], r);
        TriesNext(p, privileged, s, t, refs, r);
      } else {
        TriesNone(p, privileged, s, refs, r);
      }
    }
  }

  lemma TriesNone(p: Platform, privileged: bool, s: HalState, refs: seq<Word>, r: AcReg)
    requires p.Valid() && (refs == [] || !Passes(p, privileged, s, refs, 0))
    ensures TriesToWrite(p, privileged, s, refs, r) <==> refs != [] && Writes(p, refs[0], r)
  {
    hide Passes, Writes;
    if refs != [] && Writes(p, refs[0], r) {
      assert Reaches(p, privileged, s, refs, 0);
    }
  }

  lemma BindRefPasses(p: Platform, pxn: bool, privileged: bool, s: HalState, refs: seq<Word>)
    requires p.Valid() && refs != []
    ensures var (t, ok) := BindRef(p, pxn, privileged, s, refs[0]);
            && (ok <==> Passes(p, privileged, s, refs, 0))
            && |t.mpu.regions| == |s.mpu.regions| && (ok && !privileged ==> t.n == s.n + 1)
  {
    hide MmioRegion, AccessCtrl.Configure;
  }

  lemma {:induction false} BindReady(p: Platform, ready: AccessCtrl.Regs -> bool, pxn: bool, privileged: bool,
                                     s: HalState, refs: seq<Word>)
    requires p.Valid() && Local(p.dev) && Writable(p.dev, ready) && ready(s.ac)
    ensures ready(BindRefs(p, pxn, privileged, s, refs).0.ac)
    decreases refs
  {
    hide Local, Writable, Granular, MmioRegion, Shows, BindRef;
    if refs != [] {
      BindRefClass(p, ready, pxn, privileged, s, refs[0], SRAM0);
      var (t, ok) := BindRef(p, pxn, privileged, s, refs[0]);
      if ok {
        BindReady(p, ready, pxn, privileged, t, refs[1..]);
      }
    }
  }

  /** Set-up, lock word included, and every run of binds leave the block taking the next bind's writes. */
  lemma {:induction false} RunReady(p: Platform, ready: AccessCtrl.Regs -> bool, pxn: bool, multiCore: bool,
                                    before: AccessCtrl.Regs, s: HalState, rs: seq<Request>)
    requires p.Valid() && Local(p.dev) && Writable(p.dev, ready)
    requires ready(before) && s.ac == BusFiltered(p.dev, multiCore, before)
    ensures ready(TfmRuns.After(p, pxn, s, rs).ac)
  {
    hide Local, Writable, BindRefs, BusFiltered;
    if rs == [] {
      WritableSucceeds(p.dev, ready, multiCore, before);
    } else {
      var init := rs[..|rs| - 1];
      RunReady(p, ready, pxn, multiCore, before, s, init);
      var u := TfmRuns.After(p, pxn, s, init);
      var r := rs[|rs| - 1];
      if r.q.Some? && r.wantsHandle {
        BindReady(p, ready, pxn, Privileged(p, r.q.value), u, NamedRefs(r.q.value.assets));
      }
    }
  }

  /** So a bind that succeeds at any point of any run after set-up gives exactly its registers its class. */
  lemma BindClassesAfterRun(p: Platform, ready: AccessCtrl.Regs -> bool, pxn: bool, multiCore: bool,
                            before: AccessCtrl.Regs, s: HalState, rs: seq<Request>, q: Partition, r: AcReg)
    requires p.Valid() && Local(p.dev) && Writable(p.dev, ready)
    requires ready(before) && s.ac == BusFiltered(p.dev, multiCore, before)
    ensures var u := TfmRuns.After(p, pxn, s, rs);
            var refs := NamedRefs(q.assets);
            var (t, ok) := BindRefs(p, pxn, Privileged(p, q), u, refs);
            ok ==> Shows(p.dev, t.ac, r) == if exists x :: x in refs && Writes(p, x, r)
                                            then BoundBits(Privileged(p, q)) else Shows(p.dev, u.ac, r)
  {
    hide Local, Writable, BindRefs, BusFiltered, Shows, TfmRuns.After, Writes;
    RunReady(p, ready, pxn, multiCore, before, s, rs);
    var u := TfmRuns.After(p, pxn, s, rs);
    var refs := NamedRefs(q.assets);
    if BindRefs(p, pxn, Privileged(p, q), u, refs).1 {
      BindClasses(p, ready, pxn, Privileged(p, q), u, refs, r);
    }
  }

  lemma ClassNonSecure(multiCore: bool, r: AcReg)
    ensures !NonSecureUnpriv(ClassBits(multiCore, r))
    ensures r in C0_C1_UNPRIV || r in C0_UNPRIV ==> !NonSecurePriv(ClassBits(multiCore, r))
  {
    hide C0_C1_UNPRIV, C0_UNPRIV;
  }

  /**
   From a set-up whose read-backs matched to any later bind: no register ever grants unprivileged
   Non-Secure access, and the Secure-only registers never grant Non-Secure access at all.
   */
  lemma NonSecureNeverGains(p: Platform, pxn: bool, multiCore: bool, before: AccessCtrl.Regs, s: HalState,
                            rs: seq<Request>, r: AcReg)
    requires p.Valid() && Local(p.dev) && TakesOrIgnores(p.dev)
    requires BusOk(p.dev, multiCore, before) && s.ac == BusFiltered(p.dev, multiCore, before)
    ensures var bits := Shows(p.dev, TfmRuns.After(p, pxn, s, rs).ac, r);
            && !NonSecureUnpriv(bits)
            && (r in C0_C1_UNPRIV || r in C0_UNPRIV ==> !NonSecurePriv(bits))
  {
    hide BusOk, BusFiltered, ClassBits, TfmRuns.After, C0_C1_UNPRIV, C0_UNPRIV, Shows, Local, TakesOrIgnores;
    SuccessCertifies(p.dev, multiCore, before, r);
    RunNoWider(p, pxn, s, rs);
    ClassNonSecure(multiCore, r);
  }
}

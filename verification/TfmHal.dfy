/**
 The TF-M isolation HAL: static MPU boundaries, partition binding with its run-time allocation of MPU
 regions for named MMIO, boundary activation and the memory check. Memory protection is on; isolation
 level 1 treats every partition as privileged.
 */
module TfmHal {
  import opened Bits
  import opened Mpu
  import opened Cmse
  import opened AccessCtrl
  import opened RegionTables

  // ---- static boundaries ----

  datatype Config = Config(trustZone: bool, partitionMeta: bool, pxn: bool, level1: bool)

  /** Linker symbols, as addresses; every End or Limit is one past the last byte. */
  datatype Symbols = Symbols(
    veneerBase: Word, veneerLimit: Word, unprivCodeBase: Word, unprivCodeLimit: Word,
    appCodeStart: Word, appCodeEnd: Word, appRwStart: Word, appRwEnd: Word, metaBase: Word, metaLimit: Word)

  /** mpu_region_attributes, entry by entry. */
  function StaticTable(c: Config, s: Symbols): seq<Region>
  {
    (if c.trustZone then
       [Region(Rbar(s.veneerBase, true, true, false), Rlar(Sub32(s.veneerLimit, 1), false, 0))]
     else [])
    + [Region(Rbar(s.unprivCodeBase, true, true, false), Rlar(Sub32(s.unprivCodeLimit, 1), false, 0))]
    + [Region(Rbar(s.appCodeStart, true, true, false), Rlar(Sub32(s.appCodeEnd, 1), c.pxn && !c.level1, 0))]
    + [Region(Rbar(s.appRwStart, false, true, true), Rlar(Sub32(s.appRwEnd, 1), c.pxn, 1))]
    + (if c.partitionMeta then
         [Region(Rbar(s.metaBase, false, true, true), Rlar(Sub32(s.metaLimit, 1), c.pxn, 1))]
       else [])
  }

  /** The same table as the address ranges it is meant to open to unprivileged code. */
  function StaticRanges(c: Config, s: Symbols): seq<Range>
  {
    (if c.trustZone then [Range(s.veneerBase, Sub32(s.veneerLimit, 1), false, true)] else [])
    + [Range(s.unprivCodeBase, Sub32(s.unprivCodeLimit, 1), false, true)]
    + [Range(s.appCodeStart, Sub32(s.appCodeEnd, 1), false, true)]
    + [Range(s.appRwStart, Sub32(s.appRwEnd, 1), true, false)]
    + (if c.partitionMeta then [Range(s.metaBase, Sub32(s.metaLimit, 1), true, false)] else [])
  }

  lemma StaticTablePrograms(c: Config, s: Symbols)
    ensures |StaticTable(c, s)| == |StaticRanges(c, s)|
    ensures forall i: nat | i < |StaticTable(c, s)| :: Programs(StaticTable(c, s)[i], StaticRanges(c, s)[i])
  {
    hide Programs, Rbar, Rlar;
    EncodePrograms(Range(s.veneerBase, Sub32(s.veneerLimit, 1), false, true), false, 0);
    EncodePrograms(Range(s.unprivCodeBase, Sub32(s.unprivCodeLimit, 1), false, true), false, 0);
    EncodePrograms(Range(s.appCodeStart, Sub32(s.appCodeEnd, 1), false, true), c.pxn && !c.level1, 0);
    EncodePrograms(Range(s.appRwStart, Sub32(s.appRwEnd, 1), true, false), c.pxn, 1);
    EncodePrograms(Range(s.metaBase, Sub32(s.metaLimit, 1), true, false), c.pxn, 1);
  }

  const PRIVILEGED_HANDLE: Word := 2
  const CTRL_VALUE: Word := CTRL_PRIVDEFENA + CTRL_HFNMIENA + CTRL_ENABLE

  /** What the HAL owns: n_configured_regions, the MPU and the ACCESSCTRL registers. */
  datatype HalState = HalState(n: nat, mpu: Unit, ac: AccessCtrl.Regs)

  /** Every region's RLAR cleared, RBAR left as it was. */
  function Cleared(regions: seq<Region>): (r: seq<Region>)
    ensures |r| == |regions|
  {
    seq(|regions|, i requires 0 <= i < |regions| => regions[i].(rlar := 0))
  }

  /** The MPU after a successful set-up. */
  function StaticUnit(c: Config, s: Symbols, regions: seq<Region>): Unit
    requires |StaticTable(c, s)| <= |regions|
  {
    Unit(StaticTable(c, s) + Cleared(regions)[|StaticTable(c, s)|..], CTRL_VALUE)
  }

  /** Writing entry i of a table over registers whose first i entries are written already. */
  lemma SpliceNext(table: seq<Region>, regs: seq<Region>, i: nat)
    requires i < |table| <= |regs|
    ensures (table[..i] + regs[i..])[i := table[i]] == table[..i + 1] + regs[i + 1..]
  {
  }

  // ---- partitions and assets ----

  /** platform_data_t; skipPpc: periph_ppc_bank is PPC_SP_DO_NOT_CONFIGURE; reg None: AC_DO_NOT_CONFIGURE. */
  datatype PlatformData = PlatformData(start: Word, limit: Word, skipPpc: bool, reg: Option<AcReg>)

  datatype Asset = Asset(namedMmio: bool, devRef: Word)
  datatype Partition = Partition(psaRot: bool, nsAgentTz: bool, assets: seq<Asset>)

  /** The platform: allow-list of device references, what they point to, ACCESSCTRL, isolation level. */
  datatype Platform = Platform(allowed: seq<Word>, data: map<Word, PlatformData>, dev: Device, level1: bool)
  {
    /** Allow-list entries point to real platform data. */
    predicate Valid() { forall r | r in allowed :: r in data }
  }

  predicate Granular(d: PlatformData) { d.start % 32 == 0 && d.limit % 32 == 31 }

  function MmioRange(d: PlatformData): Range { Range(d.start, d.limit, true, false) }

  function MmioRegion(d: PlatformData, pxn: bool): Region
  {
    Region(Rbar(d.start, false, true, true), Rlar(d.limit, pxn, 2))
  }

  /** The named MMIO references of a partition, in asset order. */
  function NamedRefs(assets: seq<Asset>): seq<Word>
  {
    if assets == [] then []
    else if assets[0].namedMmio then [assets[0].devRef] + NamedRefs(assets[1..])
    else NamedRefs(assets[1..])
  }

  // ---- the binding loop on values ----

  /** One named asset: new state, and whether the loop goes on. */
  function BindRef(p: Platform, pxn: bool, privileged: bool, s: HalState, ref: Word): (HalState, bool)
    requires p.Valid()
  {
    if ref !in p.allowed then (s, false)
    else
      var d := p.data[ref];
      var s1 := if d.skipPpc then s else s.(ac := AccessCtrl.Configure(p.dev, s.ac, d.reg, privileged));
      if privileged then (s1, true)
      else if |s.mpu.regions| <= s.n || !Granular(d) then (s1, false)
      else (s1.(n := s.n + 1, mpu := Unit(s.mpu.regions[s.n := MmioRegion(d, pxn)], CTRL_VALUE)), true)
  }

  function BindRefs(p: Platform, pxn: bool, privileged: bool, s: HalState, refs: seq<Word>): (HalState, bool)
    requires p.Valid()
    decreases refs
  {
    if refs == [] then (s, true)
    else
      var (t, ok) := BindRef(p, pxn, privileged, s, refs[0]);
      if ok then BindRefs(p, pxn, privileged, t, refs[1..]) else (t, false)
  }

  lemma BindRefsCons(p: Platform, pxn: bool, privileged: bool, s: HalState, ref: Word, rest: seq<Word>)
    requires p.Valid()
    ensures BindRefs(p, pxn, privileged, s, [ref] + rest)
         == var (t, ok) := BindRef(p, pxn, privileged, s, ref);
            if ok then BindRefs(p, pxn, privileged, t, rest) else (t, false)
  {
    assert ([ref] + rest)[1..] == rest;
  }

  /** The handle: privilege in bit 1, TrustZone NS agent in bit 0. */
  function Handle(privileged: bool, nsAgent: bool): Word
  {
    (if privileged then 2 else 0) + (if nsAgent then 1 else 0)
  }

  predicate HandlePrivileged(h: Word) { h / 2 % 2 == 1 }
  predicate HandleNs(h: Word) { h % 2 == 1 }

  predicate Privileged(p: Platform, q: Partition) { p.level1 || q.psaRot }

  /** Binding a partition: the state it leaves, and whether it succeeds. */
  function BindResult(p: Platform, pxn: bool, s: HalState, q: Partition): (HalState, bool)
    requires p.Valid()
  {
    BindRefs(p, pxn, Privileged(p, q), s, NamedRefs(q.assets))
  }

  // ---- tfm_hal_boundary_need_switch, tfm_hal_activate_boundary ----

  predicate NeedSwitch(from: Word, to: Word)
  {
    from != to && !(HandlePrivileged(from) && HandlePrivileged(to))
  }

  /** CONTROL.nPRIV is what the handle asks for. */
  predicate InStep(control: Word, boundary: Word)
  {
    control % 2 == (if HandlePrivileged(boundary) then 0 else 1)
  }

  /** CONTROL with nPRIV (bit 0) set to the handle's privilege. */
  function Activated(control: Word, boundary: Word): (r: Word)
    ensures InStep(r, boundary) && r / 2 == control / 2
  {
    control - control % 2 + (if HandlePrivileged(boundary) then 0 else 1)
  }

  // ---- tfm_hal_memory_check ----

  datatype Status = Success | ErrorGeneric | ErrorInvalidInput | ErrorMemFault

  datatype AccessType = AccessType(readable: bool, writable: bool, ns: bool)

  /** The two MPUs, the SAU and the Non-Secure CONTROL.nPRIV the intrinsic sees. */
  datatype CheckContext = CheckContext(secure: Unit, nonSecure: Unit, sau: Sau, nsNPriv: bool)

  // ---- the HAL ----

  class Hal {
    const c: Config
    const s: Symbols
    const p: Platform
    const m: MemoryRegions
    const ctl: Controller
    const sau: SauPort
    const dma: DmaPort
    var n: nat
    var mpu: Unit
    var control: Word

    constructor (c: Config, s: Symbols, p: Platform, m: MemoryRegions, ctl: Controller, sau: SauPort, dma: DmaPort,
                 mpu: Unit, control: Word)
      ensures this.c == c && this.s == s && this.p == p && this.m == m
      ensures this.ctl == ctl && this.sau == sau && this.dma == dma
      ensures this.control == control && State() == HalState(0, mpu, ctl.regs)
    {
      this.c, this.s, this.p, this.m, this.ctl, this.sau, this.dma := c, s, p, m, ctl, sau, dma;
      this.n, this.mpu, this.control := 0, mpu, control;
    }

    /** The block the platform data speak of, and eight regions in each attribution unit. */
    ghost predicate Valid()
      reads this, sau, dma
    {
      p.Valid() && ctl.d == p.dev && |sau.regions| == 8 && |dma.regions| == 8
    }

    function State(): HalState
      reads this, ctl
    {
      HalState(n, mpu, ctl.regs)
    }

    method SetRegion(i: nat, r: Region)
      requires i < |mpu.regions|
      modifies this`mpu
      ensures mpu == old(mpu).(regions := old(mpu).regions[i := r])
    {
      mpu := mpu.(regions := mpu.regions[i := r]);
    }

    method Disable()
      modifies this`mpu
      ensures mpu == old(mpu).(ctrl := old(mpu).ctrl - old(mpu).ctrl % 2)
    {
      mpu := mpu.(ctrl := mpu.ctrl - mpu.ctrl % 2);
    }

    method ClearAll()
      modifies this`mpu
      ensures mpu == old(mpu).(regions := Cleared(old(mpu).regions))
    {
      var i := 0;
      while i < |mpu.regions|
        invariant i <= |mpu.regions| == |old(mpu).regions|
        invariant mpu.ctrl == old(mpu).ctrl
        invariant mpu.regions == Cleared(old(mpu).regions)[..i] + old(mpu).regions[i..]
      {
        SpliceNext(Cleared(old(mpu).regions), old(mpu).regions, i);
        SetRegion(i, mpu.regions[i].(rlar := 0));
        i := i + 1;
      }
    }

    method Configure(table: seq<Region>)
      requires |table| <= |mpu.regions|
      modifies this`mpu
      ensures mpu == old(mpu).(regions := table + old(mpu).regions[|table|..])
    {
      var i := 0;
      while i < |table|
        invariant i <= |table| <= |mpu.regions| == |old(mpu).regions|
        invariant mpu.ctrl == old(mpu).ctrl
        invariant mpu.regions == table[..i] + old(mpu).regions[i..]
      {
        SpliceNext(table, old(mpu).regions, i);
        SetRegion(i, table[i]);
        i := i + 1;
      }
    }

    /**
     The SAU is programmed first and on every path, ACCESSCTRL next, the DMA only if every read-back
     matched. Success leaves exactly the static table in the MPU, enabled; failure leaves the MPU and
     the boundary as they were.
     */
    method SetUpStaticBoundaries() returns (status: Status, boundary: Option<Word>)
      requires Valid()
      modifies this`n, this`mpu, sau, dma, ctl`regs
      ensures Valid() && sau.regions == TfmSau(m, old(sau.regions)) && sau.ctrl % 2 == 1
      ensures ctl.regs == BusFiltered(p.dev, ctl.multiCore, old(ctl.regs))
      ensures dma.Table() == if BusOk(p.dev, ctl.multiCore, old(ctl.regs)) then TfmDma(m) else old(dma.Table())
      ensures status == Success <==>
        BusOk(p.dev, ctl.multiCore, old(ctl.regs)) && |StaticTable(c, s)| <= |old(mpu).regions|
      ensures status == Success ==>
        && boundary == Some(PRIVILEGED_HANDLE)
        && n == |StaticTable(c, s)| && mpu == StaticUnit(c, s, old(mpu).regions)
      ensures status != Success ==> status == ErrorGeneric && boundary == None && n == old(n) && mpu == old(mpu)
    {
      hide StaticTable, BusOk, BusFiltered, TfmSau, TfmDma;
      sau.SauAndIdauCfg(m);
      var busOk := ctl.BusFilterCfg();
      if !busOk {
        return ErrorGeneric, None;
      }
      dma.DmaSecurityConfig(m);
      var table := StaticTable(c, s);
      if |mpu.regions| < |table| {
        return ErrorGeneric, None;
      }
      if On(mpu) {
        Disable();
      }
      ClearAll();
      Configure(table);
      n := |table|;
      mpu := mpu.(ctrl := CTRL_VALUE);
      return Success, Some(PRIVILEGED_HANDLE);
    }

    /** Is the reference on the platform's allow-list? */
    method FindAllowed(ref: Word) returns (found: bool)
      ensures found <==> ref in p.allowed
    {
      var j := 0;
      while j < |p.allowed|
        invariant j <= |p.allowed|
        invariant ref !in p.allowed[..j]
      {
        if ref == p.allowed[j] {
          return true;
        }
        j := j + 1;
      }
      return false;
    }

    /**
     Bind a partition. None stands for a null load-information pointer, wantsHandle false for a null
     boundary pointer; boundary None means *p_boundary is not written.
     */
    method BindBoundary(q: Option<Partition>, wantsHandle: bool) returns (status: Status, boundary: Option<Word>)
      requires p.Valid() && ctl.d == p.dev
      modifies this`n, this`mpu, ctl`regs
      ensures q.None? || !wantsHandle ==> status == ErrorGeneric && boundary == None && State() == old(State())
      ensures q.Some? && wantsHandle ==>
        var privileged := Privileged(p, q.value);
        var (t, ok) := BindResult(p, c.pxn, old(State()), q.value);
        && State() == t
        && status == (if ok then Success else ErrorGeneric)
        && boundary == (if ok then Some(Handle(privileged, q.value.nsAgentTz)) else None)
    {
      if q.None? || !wantsHandle {
        return ErrorGeneric, None;
      }
      var privileged := Privileged(p, q.value);
      var assets := q.value.assets;
      var i := 0;
      while i < |assets|
        invariant i <= |assets|
        invariant BindRefs(p, c.pxn, privileged, old(State()), NamedRefs(assets))
               == BindRefs(p, c.pxn, privileged, State(), NamedRefs(assets[i..]))
      {
        assert assets[i..][1..] == assets[i + 1..];
        if assets[i].namedMmio {
          BindRefsCons(p, c.pxn, privileged, State(), assets[i].devRef, NamedRefs(assets[i + 1..]));
          var ok := BindAsset(assets[i].devRef, privileged);
          if !ok {
            return ErrorGeneric, None;
          }
        }
        i := i + 1;
      }
      return Success, Some(Handle(privileged, q.value.nsAgentTz));
    }

    /** The body of the asset loop for a named MMIO asset. */
    method BindAsset(ref: Word, privileged: bool) returns (ok: bool)
      requires p.Valid() && ctl.d == p.dev
      modifies this`n, this`mpu, ctl`regs
      ensures (State(), ok) == BindRef(p, c.pxn, privileged, old(State()), ref)
    {
      var found := FindAllowed(ref);
      if !found {
        return false;
      }
      var d := p.data[ref];
      if !d.skipPpc {
        if privileged {
          ctl.ConfigureToSecurePrivileged(d.reg);
        } else {
          ctl.ConfigureToSecureUnprivileged(d.reg);
        }
      }
      if !privileged {
        if |mpu.regions| <= n {
          return false;
        }
        if d.start % 32 != 0 {
          return false;
        }
        if d.limit % 32 != 31 {
          return false;
        }
        if On(mpu) {
          Disable();
        }
        SetRegion(n, MmioRegion(d, c.pxn));
        n := n + 1;
        mpu := mpu.(ctrl := CTRL_VALUE);
      }
      return true;
    }

    /** Only nPRIV changes, to what the handle asks for. */
    method ActivateBoundary(boundary: Word)
      modifies this`control
      ensures control % 2 == (if boundary / 2 % 2 == 1 then 0 else 1) && control / 2 == old(control) / 2
      ensures control == Activated(old(control), boundary)
    {
      var privileged := HandlePrivileged(boundary);
      var ctrl := control;
      ctrl := ctrl - ctrl % 2 + (if privileged then 0 else 1);
      control := ctrl;
    }

    /** tfm_hal_memory_check */
    method MemoryCheck(x: CheckContext, boundary: Word, base: Word, size: Word, access: AccessType)
      returns (status: Status)
      ensures size == 0 ==> status == Success
      ensures size > 0 ==> (status == ErrorInvalidInput <==> base == 0 || !access.readable)
      ensures status != Success && status != ErrorInvalidInput ==> status == ErrorMemFault
      ensures status == CheckStatus(x, boundary, base, size, access)
    {
      if size == 0 {
        return Success;
      }
      if base == 0 {
        return ErrorInvalidInput;
      }
      var flags := Flags(false, false, false);
      if access.readable && access.writable {
        flags := flags.(readWrite := true);
      } else if access.readable {
        flags := flags.(read := true);
      } else {
        return ErrorInvalidInput;
      }
      if access.ns {
        flags := flags.(nonSecure := true);
      }
      var unprivileged := false;
      if !HandlePrivileged(boundary) {
        unprivileged := true;
      }
      if HandleNs(boundary) {
        if x.nsNPriv {
          unprivileged := true;
        } else {
          unprivileged := false;
        }
        flags := flags.(nonSecure := true);
      }
      var unit := if flags.nonSecure then x.nonSecure else x.secure;
      if CheckRange(unit, x.sau, !unprivileged, base, size, flags) {
        return Success;
      } else {
        return ErrorMemFault;
      }
    }
  }

  /** The memory check in terms of what is asked: who, how, and on whose MPU. */
  function CheckStatus(x: CheckContext, boundary: Word, base: Word, size: Word, access: AccessType): Status
  {
    var ns := access.ns || HandleNs(boundary);
    var privileged := if HandleNs(boundary) then !x.nsNPriv else HandlePrivileged(boundary);
    if size == 0 then Success
    else if base == 0 || !access.readable then ErrorInvalidInput
    else if CheckRange(if ns then x.nonSecure else x.secure, x.sau, privileged, base, size,
                       Flags(!access.writable, access.writable, ns)) then Success
    else ErrorMemFault
  }
}

/**
 The two pairs of region tables: SAU and DMA-MPU in TF-M's target_cfg.c and in minimal-tz. Register
 writes become an attribution of every one of the 2^32 addresses, and the tables are compared.
 */
module RegionTables {
  import opened Bits
  import opened Mpu
  import opened Cmse

  const PPB_BASE: Word := 0xE000_0000
  const SRAM4_BASE: Word := 0x2004_0000

  const ENABLE: Word := 1
  const NSC: Word := 2
  /** DMA-MPU limit register: EN bit 0, P bit 1, S bit 2. */
  const DMA_EN: Word := 1
  const DMA_P: Word := 2

  /** `value & ~0x1F` */
  function Granule(a: Word): Word { a - a % 32 }

  // ---- the SAU, programmed through its region number register ----

  class SauPort {
    var rnr: nat
    var regions: seq<Region>
    var ctrl: Word

    constructor (regions: seq<Region>, ctrl: Word)
      ensures this.regions == regions && this.ctrl == ctrl
    {
      this.rnr, this.regions, this.ctrl := 0, regions, ctrl;
    }

    function Table(): Sau reads this { Sau(regions, ctrl) }

    method WriteRbar(v: Word)
      requires rnr < |regions|
      modifies this`regions
      ensures regions == old(regions)[rnr := Region(v, old(regions)[rnr].rlar)]
    {
      regions := regions[rnr := regions[rnr].(rbar := v)];
    }

    method WriteRlar(v: Word)
      requires rnr < |regions|
      modifies this`regions
      ensures regions == old(regions)[rnr := Region(old(regions)[rnr].rbar, v)]
    {
      regions := regions[rnr := regions[rnr].(rlar := v)];
    }

    /** RNR, RBAR, RLAR in a row. */
    method Program(i: nat, rbar: Word, rlar: Word)
      requires i < |regions|
      modifies this`rnr, this`regions
      ensures regions == old(regions)[i := Region(rbar, rlar)]
    {
      rnr := i;
      WriteRbar(rbar);
      WriteRlar(rlar);
    }

    /** sau_and_idau_cfg */
    method SauAndIdauCfg(m: MemoryRegions)
      requires |regions| == 8
      modifies this`rnr, this`regions, this`ctrl
      ensures regions == TfmSau(m, old(regions)) && ctrl % 2 == 1
    {
      Program(2, Granule(m.veneerBase), Granule(m.veneerLimit) + ENABLE + NSC);
      Program(3, Granule(m.nsBase), Granule(m.nsLimit) + ENABLE);
      Program(4, Granule(SRAM4_BASE), Granule(PPB_BASE - 1) + ENABLE);
      Program(7, 0, 0);
      ctrl := ctrl - ctrl % 2 + 1;
    }

    /** tz_sau_config */
    method TzSauConfig()
      requires |regions| == 8
      modifies this`rnr, this`regions, this`ctrl
      ensures regions == TzSau(old(regions)) && ctrl == 1
    {
      Program(0, Granule(VENEER_START), Granule(VENEER_LIMIT) + ENABLE + NSC);
      Program(1, Granule(NS_FLASH_START), Granule(NS_FLASH_LIMIT) + ENABLE);
      Program(2, Granule(NS_RAM_START), Granule(NS_RAM_LIMIT) + ENABLE);
      Program(3, Granule(0x4000_0000), Granule(PPB_BASE - 1) + ENABLE);
      ctrl := 1;
    }
  }

  // ---- the DMA's own MPU ----

  /** Regions and, from mpu_ctrl, the attribution of what no region covers. */
  datatype DmaMpu = DmaMpu(regions: seq<Region>, restSecure: bool)

  /**
   Non-Secure to the DMA: in a region without the S bit, or in none when the rest is Non-Secure. All
   programmed regions are without the S bit, so their priority plays no part.
   */
  predicate DmaNonSecure(d: DmaMpu, a: Word)
  {
    if exists i: nat :: i < |d.regions| && Hit(d.regions[i], a)
    then exists i: nat :: i < |d.regions| && Hit(d.regions[i], a) && d.regions[i].rlar / 4 % 2 == 0
    else !d.restSecure
  }

  class DmaPort {
    var regions: seq<Region>
    var restSecure: bool

    constructor (regions: seq<Region>)
      ensures this.regions == regions
    {
      this.regions, this.restSecure := regions, false;
    }

    function Table(): DmaMpu reads this { DmaMpu(regions, restSecure) }

    method Program(i: nat, bar: Word, lar: Word)
      requires i < |regions|
      modifies this`regions
      ensures regions == old(regions)[i := Region(bar, lar)]
    {
      regions := regions[i := regions[i].(rbar := bar)];
      regions := regions[i := regions[i].(rlar := lar)];
    }

    /** The region part of dma_security_config, which always reports success. */
    method DmaSecurityConfig(m: MemoryRegions)
      requires |regions| == 8
      modifies this
      ensures Table() == TfmDma(m) && |regions| == 8
    {
      restSecure := true;
      Program(0, Granule(m.veneerBase), Granule(m.veneerLimit) + DMA_P + DMA_EN);
      Program(1, Granule(m.nsBase), Granule(m.veneerLimit) + DMA_P + DMA_EN);
      Program(2, Granule(SRAM4_BASE), Granule(PPB_BASE - 1) + DMA_P + DMA_EN);
      Program(3, 0, 0);
      Program(4, 0, 0);
      Program(5, 0, 0);
      Program(6, 0, 0);
      Program(7, 0, 0);
      assert regions == TfmDma(m).regions;
    }

    /** tz_dma_mpu_config */
    method TzDmaMpuConfig()
      requires |regions| == 8
      modifies this
      ensures Table() == TzDma()
    {
      restSecure := true;
      Program(0, Granule(VENEER_START), Granule(VENEER_LIMIT) + DMA_P + DMA_EN);
      Program(1, Granule(NS_FLASH_START), Granule(NS_FLASH_LIMIT) + DMA_P + DMA_EN);
      Program(2, Granule(NS_RAM_START), Granule(PPB_BASE - 1) + DMA_P + DMA_EN);
      var i := 3;
      while i < 8
        invariant 3 <= i <= 8 == |regions|
        invariant restSecure && regions[..3] == TzDma().regions[..3]
        invariant forall j | 3 <= j < i :: regions[j] == Region(0, 0)
      {
        Program(i, 0, 0);
        i := i + 1;
      }
      assert regions == TzDma().regions;
    }
  }

  // ---- what the tables say ----

  /** memory_regions: limits are inclusive. */
  datatype MemoryRegions = MemoryRegions(veneerBase: Word, veneerLimit: Word, nsBase: Word, nsLimit: Word)
  {
    /** Granule-aligned; veneers below the Non-Secure partition (possibly empty) below SRAM4. */
    predicate Valid()
    {
      && veneerBase % 32 == 0 && veneerLimit % 32 == 31 && nsBase % 32 == 0 && nsLimit % 32 == 31
      && veneerBase <= veneerLimit < nsBase <= nsLimit + 1 && nsLimit < SRAM4_BASE
    }
  }

  function TfmSau(m: MemoryRegions, before: seq<Region>): (r: seq<Region>)
    requires |before| == 8
    ensures |r| == 8
  {
    [before[0], before[1],
     Region(Granule(m.veneerBase), Granule(m.veneerLimit) + ENABLE + NSC),
     Region(Granule(m.nsBase), Granule(m.nsLimit) + ENABLE),
     Region(Granule(SRAM4_BASE), Granule(PPB_BASE - 1) + ENABLE),
     before[5], before[6], Region(0, 0)]
  }

  function TfmDma(m: MemoryRegions): DmaMpu
  {
    DmaMpu([Region(Granule(m.veneerBase), Granule(m.veneerLimit) + DMA_P + DMA_EN),
            Region(Granule(m.nsBase), Granule(m.veneerLimit) + DMA_P + DMA_EN),
            Region(Granule(SRAM4_BASE), Granule(PPB_BASE - 1) + DMA_P + DMA_EN),
            Region(0, 0), Region(0, 0), Region(0, 0), Region(0, 0), Region(0, 0)], true)
  }

  const VENEER_START: Word := 0x100F_F000
  const VENEER_LIMIT: Word := 0x100F_FFFF
  const NS_FLASH_START: Word := 0x1010_0000
  const NS_FLASH_LIMIT: Word := 0x101F_FFFF
  const NS_RAM_START: Word := 0x2004_0000
  const NS_RAM_LIMIT: Word := 0x2007_FFFF

  function TzSau(before: seq<Region>): seq<Region>
    requires |before| == 8
  {
    [Region(Granule(VENEER_START), Granule(VENEER_LIMIT) + ENABLE + NSC),
     Region(Granule(NS_FLASH_START), Granule(NS_FLASH_LIMIT) + ENABLE),
     Region(Granule(NS_RAM_START), Granule(NS_RAM_LIMIT) + ENABLE),
     Region(Granule(0x4000_0000), Granule(PPB_BASE - 1) + ENABLE),
     before[4], before[5], before[6], before[7]]
  }

  function TzDma(): DmaMpu
  {
    DmaMpu([Region(Granule(VENEER_START), Granule(VENEER_LIMIT) + DMA_P + DMA_EN),
            Region(Granule(NS_FLASH_START), Granule(NS_FLASH_LIMIT) + DMA_P + DMA_EN),
            Region(Granule(NS_RAM_START), Granule(PPB_BASE - 1) + DMA_P + DMA_EN),
            Region(0, 0), Region(0, 0), Region(0, 0), Region(0, 0), Region(0, 0)], true)
  }

  /** Limit register words: the address field and the low bits do not disturb one another. */
  lemma LimitFields(limit: Word, low: Word)
    requires low < 32 && limit % 32 == 31
    ensures var v := Granule(limit) + low;
            && v % 32 == low && v - v % 32 + 31 == limit
            && v % 2 == low % 2 && v / 2 % 2 == low / 2 % 2 && v / 4 % 2 == low / 4 % 2
  {
    Fields(limit / 32, low);
    assert Granule(limit) == 32 * (limit / 32);
  }

  lemma BlockHit(base: Word, limit: Word, low: Word, a: Word)
    requires low < 32 && low % 2 == 1 && base % 32 == 0 && limit % 32 == 31
    ensures Hit(Region(Granule(base), Granule(limit) + low), a) <==> base <= a <= limit
  {
    LimitFields(limit, low);
  }

  lemma OffMisses(r: Region, a: Word)
    requires r.rlar % 2 == 0
    ensures !Hit(r, a)
  {
  }

  predicate Within(a: Word, base: Word, limit: Word) { base <= a <= limit }

  // ---- minimal-tz ----

  predicate TzNonSecure(a: Word)
  {
    || Within(a, 0x1010_0000, 0x101F_FFFF)
    || Within(a, 0x2004_0000, 0x2007_FFFF)
    || Within(a, 0x4000_0000, 0xDFFF_FFFF)
  }

  lemma TzSauHits(before: seq<Region>, a: Word)
    requires |before| == 8 && forall i | 4 <= i < 8 :: !Enabled(before[i])
    ensures var t := TzSau(before);
            && (Hit(t[0], a) <==> Within(a, VENEER_START, VENEER_LIMIT))
            && (Hit(t[1], a) <==> Within(a, NS_FLASH_START, NS_FLASH_LIMIT))
            && (Hit(t[2], a) <==> Within(a, NS_RAM_START, NS_RAM_LIMIT))
            && (Hit(t[3], a) <==> Within(a, 0x4000_0000, PPB_BASE - 1))
            && !Hit(t[4], a) && !Hit(t[5], a) && !Hit(t[6], a) && !Hit(t[7], a)
            && Nsc(t[0]) && !Nsc(t[1]) && !Nsc(t[2]) && !Nsc(t[3])
  {
    hide Hit;
    BlockHit(VENEER_START, VENEER_LIMIT, 3, a);
    BlockHit(NS_FLASH_START, NS_FLASH_LIMIT, 1, a);
    BlockHit(NS_RAM_START, NS_RAM_LIMIT, 1, a);
    BlockHit(0x4000_0000, PPB_BASE - 1, 1, a);
    OffMisses(before[4], a);
    OffMisses(before[5], a);
    OffMisses(before[6], a);
    OffMisses(before[7], a);
  }

  /** tz_sau_config as an attribution of every address. */
  lemma TzSauMeaning(before: seq<Region>, a: Word)
    requires |before| == 8 && forall i | 4 <= i < 8 :: !Enabled(before[i])
    ensures Attribute(Sau(TzSau(before), 1), a)
         == if Within(a, 0x100F_F000, 0x100F_FFFF) then NonSecureCallable
            else if TzNonSecure(a) then NonSecure
            else Secure
  {
    hide Hit, Nsc;
    TzSauHits(before, a);
    hide TzSau;
    var t := TzSau(before);
    if Within(a, VENEER_START, VENEER_LIMIT) {
      FindOnly(t, 0, a);
    } else if Within(a, NS_FLASH_START, NS_FLASH_LIMIT) {
      FindOnly(t, 1, a);
    } else if Within(a, NS_RAM_START, NS_RAM_LIMIT) {
      FindOnly(t, 2, a);
    } else if Within(a, 0x4000_0000, PPB_BASE - 1) {
      FindOnly(t, 3, a);
    } else {
      FindMiss(t, a);
    }
  }

  /** Its regions share no address. */
  lemma TzSauSeparate(before: seq<Region>)
    requires |before| == 8 && forall i | 4 <= i < 8 :: !Enabled(before[i])
    ensures Separate(TzSau(before))
  {
    LimitFields(VENEER_LIMIT, 3);
    LimitFields(NS_FLASH_LIMIT, 1);
    LimitFields(NS_RAM_LIMIT, 1);
    LimitFields(PPB_BASE - 1, 1);
    var t := TzSau(before);
    assert !Enabled(t[4]) && !Enabled(t[5]) && !Enabled(t[6]) && !Enabled(t[7]);
  }

  lemma TzDmaMeaning(a: Word)
    ensures DmaNonSecure(TzDma(), a)
       <==> Within(a, 0x100F_F000, 0x100F_FFFF) || Within(a, 0x1010_0000, 0x101F_FFFF)
            || Within(a, 0x2004_0000, 0xDFFF_FFFF)
  {
    hide Hit;
    var t := TzDma().regions;
    BlockHit(VENEER_START, VENEER_LIMIT, 3, a);
    BlockHit(NS_FLASH_START, NS_FLASH_LIMIT, 3, a);
    BlockHit(NS_RAM_START, PPB_BASE - 1, 3, a);
    LimitFields(VENEER_LIMIT, 3);
    LimitFields(NS_FLASH_LIMIT, 3);
    LimitFields(PPB_BASE - 1, 3);
    OffMisses(Region(0, 0), a);
    assert Hit(t[0], a) <==> Within(a, VENEER_START, VENEER_LIMIT);
    assert Hit(t[1], a) <==> Within(a, NS_FLASH_START, NS_FLASH_LIMIT);
    assert Hit(t[2], a) <==> Within(a, NS_RAM_START, PPB_BASE - 1);
  }

  /**
   minimal-tz's DMA-MPU is meant to mirror its SAU. It does at every address but those between the end
   of Non-Secure RAM and the peripherals, which only the DMA sees as Non-Secure.
   */
  lemma TzMirror(before: seq<Region>, a: Word)
    requires |before| == 8 && forall i | 4 <= i < 8 :: !Enabled(before[i])
    ensures (DmaNonSecure(TzDma(), a) <==> !Attribute(Sau(TzSau(before), 1), a).Secure?)
       <==> !Within(a, 0x2008_0000, 0x3FFF_FFFF)
    ensures Within(a, 0x2008_0000, 0x3FFF_FFFF)
       ==> DmaNonSecure(TzDma(), a) && Attribute(Sau(TzSau(before), 1), a) == Secure
  {
    hide Attribute, DmaNonSecure;
    TzSauMeaning(before, a);
    TzDmaMeaning(a);
  }

  // ---- TF-M ----

  lemma TfmSauHits(m: MemoryRegions, before: seq<Region>, a: Word)
    requires m.Valid() && |before| == 8 && forall i | i in {0, 1, 5, 6} :: !Enabled(before[i])
    ensures var t := TfmSau(m, before);
            && (Hit(t[2], a) <==> Within(a, m.veneerBase, m.veneerLimit))
            && (Hit(t[3], a) <==> Within(a, m.nsBase, m.nsLimit))
            && (Hit(t[4], a) <==> Within(a, SRAM4_BASE, PPB_BASE - 1))
            && !Hit(t[0], a) && !Hit(t[1], a) && !Hit(t[5], a) && !Hit(t[6], a) && !Hit(t[7], a)
            && Nsc(t[2]) && !Nsc(t[3]) && !Nsc(t[4])
  {
    hide Hit;
    BlockHit(m.veneerBase, m.veneerLimit, 3, a);
    BlockHit(m.nsBase, m.nsLimit, 1, a);
    BlockHit(SRAM4_BASE, PPB_BASE - 1, 1, a);
    LimitFields(m.veneerLimit, 3);
    LimitFields(m.nsLimit, 1);
    LimitFields(PPB_BASE - 1, 1);
    OffMisses(before[0], a);
    OffMisses(before[1], a);
    OffMisses(before[5], a);
    OffMisses(before[6], a);
    OffMisses(Region(0, 0), a);
  }

  /** sau_and_idau_cfg as an attribution of every address. */
  lemma TfmSauMeaning(m: MemoryRegions, before: seq<Region>, ctrl: Word, a: Word)
    requires m.Valid() && ctrl % 2 == 1
    requires |before| == 8 && forall i | i in {0, 1, 5, 6} :: !Enabled(before[i])
    ensures Attribute(Sau(TfmSau(m, before), ctrl), a)
         == if Within(a, m.veneerBase, m.veneerLimit) then NonSecureCallable
            else if Within(a, m.nsBase, m.nsLimit) || Within(a, 0x2004_0000, 0xDFFF_FFFF) then NonSecure
            else Secure
  {
    hide Hit, Nsc;
    TfmSauHits(m, before, a);
    hide TfmSau;
    var t := TfmSau(m, before);
    if Within(a, m.veneerBase, m.veneerLimit) {
      FindOnly(t, 2, a);
    } else if Within(a, m.nsBase, m.nsLimit) {
      FindOnly(t, 3, a);
    } else if Within(a, SRAM4_BASE, PPB_BASE - 1) {
      FindOnly(t, 4, a);
    } else {
      FindMiss(t, a);
    }
  }

  /** Region 1 ends at the veneers' limit, below its own base: it covers nothing. */
  lemma TfmDmaMeaning(m: MemoryRegions, a: Word)
    requires m.Valid()
    ensures DmaNonSecure(TfmDma(m), a)
       <==> Within(a, m.veneerBase, m.veneerLimit) || Within(a, 0x2004_0000, 0xDFFF_FFFF)
  {
    hide Hit;
    var t := TfmDma(m).regions;
    BlockHit(m.veneerBase, m.veneerLimit, 3, a);
    BlockHit(m.nsBase, m.veneerLimit, 3, a);
    BlockHit(SRAM4_BASE, PPB_BASE - 1, 3, a);
    LimitFields(m.veneerLimit, 3);
    LimitFields(PPB_BASE - 1, 3);
    OffMisses(Region(0, 0), a);
    assert Hit(t[0], a) <==> Within(a, m.veneerBase, m.veneerLimit);
    assert !Hit(t[1], a);
    assert Hit(t[2], a) <==> Within(a, SRAM4_BASE, PPB_BASE - 1);
  }

  /** The DMA's Non-Secure set is the SAU's NS and NSC set without the Non-Secure flash partition. */
  lemma TfmDmaIsSauWithoutFlash(m: MemoryRegions, before: seq<Region>, ctrl: Word, a: Word)
    requires m.Valid() && ctrl % 2 == 1
    requires |before| == 8 && forall i | i in {0, 1, 5, 6} :: !Enabled(before[i])
    ensures DmaNonSecure(TfmDma(m), a)
       <==> !Attribute(Sau(TfmSau(m, before), ctrl), a).Secure? && !Within(a, m.nsBase, m.nsLimit)
  {
    hide Attribute, DmaNonSecure, TfmSau, TfmDma;
    TfmSauMeaning(m, before, ctrl, a);
    TfmDmaMeaning(m, a);
  }

  /** So the tables mirror each other, as the comment in the source says, only with no such partition. */
  lemma TfmMirrorIff(m: MemoryRegions, before: seq<Region>, ctrl: Word)
    requires m.Valid() && ctrl % 2 == 1
    requires |before| == 8 && forall i | i in {0, 1, 5, 6} :: !Enabled(before[i])
    ensures (forall a: Word ::
               DmaNonSecure(TfmDma(m), a) <==> !Attribute(Sau(TfmSau(m, before), ctrl), a).Secure?)
       <==> m.nsLimit < m.nsBase
  {
    hide Attribute, DmaNonSecure, TfmSau, TfmDma;
    forall a: Word
      ensures DmaNonSecure(TfmDma(m), a)
         <==> !Attribute(Sau(TfmSau(m, before), ctrl), a).Secure? && !Within(a, m.nsBase, m.nsLimit)
    {
      TfmDmaIsSauWithoutFlash(m, before, ctrl, a);
    }
    TfmSauMeaning(m, before, ctrl, m.nsBase);
  }

  /** Every region either DMA-MPU table opens is for privileged bus masters only. */
  lemma DmaPrivileged(m: MemoryRegions, r: Region)
    requires m.Valid() && (r in TfmDma(m).regions || r in TzDma().regions) && Enabled(r)
    ensures r.rlar / 2 % 2 == 1
  {
    LimitFields(m.veneerLimit, 3);
    LimitFields(PPB_BASE - 1, 3);
    LimitFields(VENEER_LIMIT, 3);
    LimitFields(NS_FLASH_LIMIT, 3);
  }

  /** The low bits of the limit words: enable in bit 0; bit 1 is NSC in the SAU and privileged in the DMA-MPU. */
  lemma LimitBits(m: MemoryRegions, before: seq<Region>)
    requires m.Valid() && |before| == 8
    ensures var t := TfmSau(m, before);
            t[2].rlar % 32 == 3 && t[3].rlar % 32 == 1 && t[4].rlar % 32 == 1 && t[7].rlar == 0
    ensures var t := TzSau(before);
            t[0].rlar % 32 == 3 && t[1].rlar % 32 == 1 && t[2].rlar % 32 == 1 && t[3].rlar % 32 == 1
    ensures forall i | 0 <= i < 3 :: TfmDma(m).regions[i].rlar % 32 == 3 && TzDma().regions[i].rlar % 32 == 3
  {
    hide Granule;
    LimitFields(m.veneerLimit, 3);
    LimitFields(m.nsLimit, 1);
    LimitFields(PPB_BASE - 1, 1);
    LimitFields(PPB_BASE - 1, 3);
    LimitFields(VENEER_LIMIT, 3);
    LimitFields(NS_FLASH_LIMIT, 1);
    LimitFields(NS_FLASH_LIMIT, 3);
    LimitFields(NS_RAM_LIMIT, 1);
  }
}

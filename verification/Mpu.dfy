/**
 The Armv8-M memory protection unit (PMSAv8, Arm DDI 0553): RBAR/RLAR layouts and region lookup over
 inclusive 32-byte granules. Overlapping matches fault; PRIVDEFENA is a background map for privileged
 code only.
 */
module Mpu {
  import opened Bits

  /** The two registers of one region. */
  datatype Region = Region(rbar: Word, rlar: Word)

  /** ARM_MPU_RBAR, non-shareable: BASE in bits 31:5, AP[2:1] in 2:1, XN in bit 0. */
  function Rbar(base: Word, readOnly: bool, unprivileged: bool, executeNever: bool): Word
  {
    base - base % 32 + (if readOnly then 4 else 0) + (if unprivileged then 2 else 0)
      + (if executeNever then 1 else 0)
  }

  /** ARM_MPU_RLAR(_PXN): LIMIT in bits 31:5, PXN in bit 4, AttrIndx in 3:1, EN in bit 0. */
  function Rlar(limit: Word, pxn: bool, attr: nat): Word
    requires attr < 8
  {
    limit - limit % 32 + (if pxn then 16 else 0) + 2 * attr + 1
  }

  const CTRL_ENABLE: Word := 1
  const CTRL_HFNMIENA: Word := 2
  const CTRL_PRIVDEFENA: Word := 4

  /** The register file of the unit; regions.Length is TYPE.DREGION. */
  datatype Unit = Unit(regions: seq<Region>, ctrl: Word)

  predicate On(u: Unit) { u.ctrl % 2 == 1 }

  // ---- lookup ----

  predicate Enabled(r: Region) { r.rlar % 2 == 1 }

  predicate Hit(r: Region, a: Word)
  {
    Enabled(r) && r.rbar - r.rbar % 32 <= a <= r.rlar - r.rlar % 32 + 31
  }

  predicate Grants(r: Region, privileged: bool, kind: Access)
  {
    var np := r.rbar / 2 % 2 == 1;
    var ro := r.rbar / 4 % 2 == 1;
    var xn := r.rbar % 2 == 1;
    var pxn := r.rlar / 16 % 2 == 1;
    && (privileged || np)
    && (match kind
        case Read => true
        case Write => !ro
        case Execute => !xn && !(privileged && pxn))
  }

  predicate OnlyHit(regions: seq<Region>, i: nat, a: Word)
  {
    i < |regions| && Hit(regions[i], a) && forall j: nat | j < |regions| && j != i :: !Hit(regions[j], a)
  }

  /** How many regions an address matches: none, region i alone, or several. */
  datatype Match = Miss | One(i: nat) | Many

  function Find(regions: seq<Region>, a: Word): (m: Match)
    ensures m.Miss? ==> forall i: nat | i < |regions| :: !Hit(regions[i], a)
    ensures m.One? ==> OnlyHit(regions, m.i, a)
    ensures m.Many? ==> exists i: nat, j: nat :: i < j < |regions| && Hit(regions[i], a) && Hit(regions[j], a)
  {
    if regions == [] then Miss
    else
      var n := |regions| - 1;
      var m := Find(regions[..n], a);
      if !Hit(regions[n], a) then m
      else match m
        case Miss => One(n)
        case One(i) => assert Hit(regions[i], a); Many
        case Many => Many
  }

  /** The default memory map: peripheral and device space is execute-never. */
  predicate Background(a: Word, kind: Access)
  {
    kind.Execute? ==> a < 0x4000_0000 || 0x6000_0000 <= a < 0xA000_0000
  }

  /** What the unit lets through. */
  predicate Allows(u: Unit, privileged: bool, a: Word, kind: Access)
  {
    if !On(u) then Background(a, kind)
    else match Find(u.regions, a)
      case One(i) => Grants(u.regions[i], privileged, kind)
      case Miss => privileged && u.ctrl / 4 % 2 == 1 && Background(a, kind)
      case Many => false
  }

  lemma FindOnly(regions: seq<Region>, i: nat, a: Word)
    requires OnlyHit(regions, i, a)
    ensures Find(regions, a) == One(i)
  {
    hide Hit;
  }

  lemma FindMiss(regions: seq<Region>, a: Word)
    requires forall i: nat | i < |regions| :: !Hit(regions[i], a)
    ensures Find(regions, a) == Miss
  {
    hide Hit;
  }

  // ---- regions as address ranges ----

  /** An unprivileged region the firmware wants: [start, limit], inclusive. */
  datatype Range = Range(start: Word, limit: Word, writable: bool, executable: bool)

  predicate Aligned(r: Range) { r.start % 32 == 0 && r.limit % 32 == 31 }

  predicate InRange(a: Word, r: Range) { r.start <= a <= r.limit }

  predicate Wants(r: Range, kind: Access)
  {
    match kind case Read => true case Write => r.writable case Execute => r.executable
  }

  /** The registers hold this range for unprivileged code. */
  predicate Programs(g: Region, r: Range)
  {
    && Enabled(g)
    && g.rbar - g.rbar % 32 == r.start - r.start % 32
    && g.rlar - g.rlar % 32 == r.limit - r.limit % 32
    && (forall kind: Access :: Grants(g, false, kind) <==> Wants(r, kind))
  }

  lemma EncodePrograms(r: Range, pxn: bool, attr: nat)
    requires attr < 8
    ensures Programs(Region(Rbar(r.start, !r.writable, true, !r.executable), Rlar(r.limit, pxn, attr)), r)
  {
    RbarFields(r.start, !r.writable, !r.executable);
    RlarFields(r.limit, pxn, attr);
    hide Rbar, Rlar;
    GrantsFields(Region(Rbar(r.start, !r.writable, true, !r.executable), Rlar(r.limit, pxn, attr)), r);
  }

  lemma RbarFields(base: Word, readOnly: bool, executeNever: bool)
    ensures var v := Rbar(base, readOnly, true, executeNever);
            && v - v % 32 == base - base % 32
            && v % 2 == (if executeNever then 1 else 0)
            && v / 2 % 2 == 1 && v / 4 % 2 == (if readOnly then 1 else 0)
  {
    var low := (if readOnly then 4 else 0) + 2 + if executeNever then 1 else 0;
    assert base - base % 32 == 32 * (base / 32);
    Fields(base / 32, low);
  }

  lemma RlarFields(limit: Word, pxn: bool, attr: nat)
    requires attr < 8
    ensures var v := Rlar(limit, pxn, attr);
            v - v % 32 == limit - limit % 32 && v % 2 == 1
  {
    var low := (if pxn then 16 else 0) + 2 * attr + 1;
    assert limit - limit % 32 == 32 * (limit / 32);
    Fields(limit / 32, low);
  }

  /** The five low bits of a register word are independent of its address field. */
  lemma Fields(q: nat, low: nat)
    requires low < 32
    ensures var v := 32 * q + low;
            v % 32 == low && v % 2 == low % 2 && v / 2 % 2 == low / 2 % 2 && v / 4 % 2 == low / 4 % 2
  {
    AddressBits(q, low);
    Halve(16 * q, low);
    Halve(8 * q, low / 2);
    Halve(4 * q, low / 2 / 2);
    Quarter(32 * q + low);
    Quarter(low);
  }

  lemma AddressBits(q: nat, low: nat)
    requires low < 32
    ensures (32 * q + low) % 32 == low
  {
  }

  lemma Quarter(x: nat)
    ensures x / 4 == x / 2 / 2
  {
  }

  lemma Halve(k: nat, x: nat)
    ensures (2 * k + x) % 2 == x % 2 && (2 * k + x) / 2 == k + x / 2
  {
  }

  /** RBAR bit by bit: XN, unprivileged, read-only below the address. */
  lemma RbarBits(base: Word, readOnly: bool, unprivileged: bool, executeNever: bool)
    requires base % 32 == 0
    ensures var v := Rbar(base, readOnly, unprivileged, executeNever);
            v - v % 32 == base && Bit(v, 0) == executeNever && Bit(v, 1) == unprivileged && Bit(v, 2) == readOnly
  {
    assert Pow2(0) == 1 && Pow2(1) == 2 && Pow2(2) == 4;
    LowFields(base / 32, (if readOnly then 4 else 0) + (if unprivileged then 2 else 0) + if executeNever then 1 else 0,
              base);
  }

  /** RLAR bit by bit: enable and PXN below the address. */
  lemma RlarBits(limit: Word, pxn: bool, attr: nat)
    requires attr < 8 && limit % 32 == 31
    ensures var v := Rlar(limit, pxn, attr); v - v % 32 + 31 == limit && Bit(v, 0) && Bit(v, 4) == pxn
  {
    assert Pow2(0) == 1 && Pow2(1) == 2 && Pow2(4) == 16;
    LowFields(limit / 32, (if pxn then 16 else 0) + 2 * attr + 1, limit - 31);
  }

  lemma LowFields(q: nat, low: nat, base: nat)
    requires low < 32 && base == 32 * q
    ensures var v := base + low;
            && v % 32 == low && v % 2 == low % 2 && v / 2 % 2 == low / 2 % 2 && v / 4 % 2 == low / 4 % 2
            && v / 16 % 2 == low / 16
  {
    Fields(q, low);
    DivByBlock(2 * q + low / 16, 16, low % 16, base + low);
    Halve(q, low / 16);
  }

  lemma GrantsFields(g: Region, r: Range)
    requires g.rbar % 2 == (if r.executable then 0 else 1)
    requires g.rbar / 2 % 2 == 1 && g.rbar / 4 % 2 == (if r.writable then 0 else 1)
    ensures forall kind: Access :: Grants(g, false, kind) <==> Wants(r, kind)
  {
  }

  lemma ProgramsHit(g: Region, r: Range, a: Word)
    requires Programs(g, r) && Aligned(r)
    ensures Hit(g, a) <==> InRange(a, r)
  {
  }

  ghost predicate Disjoint(ranges: seq<Range>)
  {
    forall i: nat, j: nat, a: Word | i < j < |ranges| :: !(InRange(a, ranges[i]) && InRange(a, ranges[j]))
  }

  lemma DisjointOnce(ranges: seq<Range>, i: nat, j: nat, a: Word)
    requires Disjoint(ranges) && i < |ranges| && j < |ranges|
    requires InRange(a, ranges[i]) && InRange(a, ranges[j])
    ensures i == j
  {
  }

  /** The unit holds exactly these ranges: one per slot from 0 on, every further slot disabled. */
  predicate Holds(u: Unit, ranges: seq<Range>)
  {
    && |ranges| <= |u.regions|
    && (forall i: nat | i < |ranges| :: Programs(u.regions[i], ranges[i]))
    && (forall i: nat | |ranges| <= i < |u.regions| :: !Enabled(u.regions[i]))
  }

  /** Unprivileged access is membership: in a range, with its permission. */
  ghost predicate Granted(ranges: seq<Range>, a: Word, kind: Access)
  {
    exists i: nat :: i < |ranges| && InRange(a, ranges[i]) && Wants(ranges[i], kind)
  }

  lemma HoldsHit(u: Unit, ranges: seq<Range>, a: Word, i: nat)
    requires Holds(u, ranges) && Disjoint(ranges) && (forall r | r in ranges :: Aligned(r))
    requires i < |ranges| && InRange(a, ranges[i])
    ensures OnlyHit(u.regions, i, a)
  {
    hide Programs, Hit, Aligned;
    ProgramsHit(u.regions[i], ranges[i], a);
    forall j: nat | j < |u.regions| && j != i ensures !Hit(u.regions[j], a) {
      if j < |ranges| {
        ProgramsHit(u.regions[j], ranges[j], a);
        assert !(InRange(a, ranges[i]) && InRange(a, ranges[j]));
      } else {
        DisabledMisses(u.regions[j], a);
      }
    }
  }

  lemma DisabledMisses(g: Region, a: Word)
    requires !Enabled(g)
    ensures !Hit(g, a)
  {
  }

  lemma HoldsMiss(u: Unit, ranges: seq<Range>, a: Word)
    requires Holds(u, ranges) && (forall r | r in ranges :: Aligned(r))
    requires forall i: nat | i < |ranges| :: !InRange(a, ranges[i])
    ensures forall j: nat | j < |u.regions| :: !Hit(u.regions[j], a)
  {
    hide Programs, Hit, Aligned;
    forall j: nat | j < |u.regions| ensures !Hit(u.regions[j], a) {
      if j < |ranges| {
        ProgramsHit(u.regions[j], ranges[j], a);
      } else {
        DisabledMisses(u.regions[j], a);
      }
    }
  }

  /**
   The lookup theorem: with granule-aligned, pairwise disjoint ranges the unit lets unprivileged code do
   exactly what membership in a range with that permission says.
   */
  lemma LookupIsMembership(u: Unit, ranges: seq<Range>, a: Word, kind: Access)
    requires On(u) && Holds(u, ranges) && Disjoint(ranges) && (forall r | r in ranges :: Aligned(r))
    ensures Allows(u, false, a, kind) <==> Granted(ranges, a, kind)
  {
    hide Aligned, Hit;
    if i: nat :| i < |ranges| && InRange(a, ranges[i]) {
      HoldsHit(u, ranges, a, i);
      FindOnly(u.regions, i, a);
      if j: nat :| j < |ranges| && InRange(a, ranges[j]) && Wants(ranges[j], kind) {
        DisjointOnce(ranges, i, j, a);
      }
    } else {
      HoldsMiss(u, ranges, a);
      FindMiss(u.regions, a);
    }
  }

  /** An address in two ranges is lost to everyone: overlapping matches fault. */
  lemma OverlapFaults(u: Unit, ranges: seq<Range>, i: nat, j: nat, a: Word, privileged: bool, kind: Access)
    requires On(u) && Holds(u, ranges) && (forall r | r in ranges :: Aligned(r))
    requires i < j < |ranges| && InRange(a, ranges[i]) && InRange(a, ranges[j])
    ensures !Allows(u, privileged, a, kind)
  {
    hide Aligned, Hit, Programs;
    ProgramsHit(u.regions[i], ranges[i], a);
    ProgramsHit(u.regions[j], ranges[j], a);
    assert Find(u.regions, a).Many?;
  }

  /** Disjointness is exactly what membership needs. */
  lemma MembershipIffDisjoint(u: Unit, ranges: seq<Range>)
    requires On(u) && Holds(u, ranges) && (forall r | r in ranges :: Aligned(r))
    ensures (forall a: Word, kind: Access :: Allows(u, false, a, kind) <==> Granted(ranges, a, kind))
       <==> Disjoint(ranges)
  {
    hide Aligned, Holds, Allows;
    if Disjoint(ranges) {
      forall a: Word, kind: Access ensures Allows(u, false, a, kind) <==> Granted(ranges, a, kind) {
        LookupIsMembership(u, ranges, a, kind);
      }
    } else {
      var i: nat, j: nat, a: Word :| i < j < |ranges| && InRange(a, ranges[i]) && InRange(a, ranges[j]);
      OverlapFaults(u, ranges, i, j, a, false, Read);
      assert Granted(ranges, a, Read);
    }
  }

  /**
   Privileged code over the same table: it reads everything, writes all but the read-only ranges, and
   executes in no range that is execute-never.
   */
  lemma PrivilegedLookup(u: Unit, ranges: seq<Range>, a: Word)
    requires On(u) && u.ctrl / 4 % 2 == 1 && Holds(u, ranges) && Disjoint(ranges)
    requires forall r | r in ranges :: Aligned(r)
    ensures Allows(u, true, a, Read)
    ensures Allows(u, true, a, Write) <==> forall i: nat | i < |ranges| && InRange(a, ranges[i]) :: ranges[i].writable
    ensures Allows(u, true, a, Execute) ==>
              forall i: nat | i < |ranges| && InRange(a, ranges[i]) :: ranges[i].executable
  {
    hide Aligned, Hit, Grants;
    if i: nat :| i < |ranges| && InRange(a, ranges[i]) {
      HoldsHit(u, ranges, a, i);
      FindOnly(u.regions, i, a);
      PrivilegedGrants(u.regions[i], ranges[i]);
      forall j: nat | j < |ranges| && InRange(a, ranges[j]) ensures j == i {
        DisjointOnce(ranges, i, j, a);
      }
    } else {
      HoldsMiss(u, ranges, a);
      FindMiss(u.regions, a);
    }
  }

  lemma PrivilegedGrants(g: Region, r: Range)
    requires Programs(g, r)
    ensures Grants(g, true, Read) && (Grants(g, true, Write) <==> r.writable)
    ensures Grants(g, true, Execute) ==> r.executable
  {
    assert Grants(g, false, Read) <==> Wants(r, Read);
    assert Grants(g, false, Write) <==> Wants(r, Write);
    assert Grants(g, false, Execute) <==> Wants(r, Execute);
  }
}

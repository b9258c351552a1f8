/**
 TrustZone attribution and the address range check intrinsic. The security attribution unit has
 regions of the same register layout as the MPU, with NSC in RLAR bit 1. The intrinsic follows the
 "Address range check intrinsic" of Arm's Armv8-M Security Extensions: Requirements on Development
 Tools.
 */
module Cmse {
  import opened Bits
  import opened Mpu

  // ---- SAU ----

  datatype Attribution = Secure | NonSecureCallable | NonSecure

  /** Register file of the SAU; ctrl bit 0 enables it, bit 1 (ALLNS) rules while it is off. */
  datatype Sau = Sau(regions: seq<Region>, ctrl: Word)

  predicate Nsc(r: Region) { r.rlar / 2 % 2 == 1 }

  /** No region, or more than one, leaves an address Secure. */
  function Attribute(s: Sau, a: Word): Attribution
  {
    if s.ctrl % 2 == 0 then (if s.ctrl / 2 % 2 == 1 then NonSecure else Secure)
    else match Find(s.regions, a)
      case One(i) => if Nsc(s.regions[i]) then NonSecureCallable else NonSecure
      case _ => Secure
  }

  // ---- TT responses ----

  /** What a test-target instruction reports for one address; regions only when exactly one matches. */
  datatype Response = Response(mpu: Match, sau: Match, readable: bool, writable: bool, nonSecure: bool)

  /** A region number is reported only when exactly one region matches. */
  function Reported(m: Match): Match
  {
    if m.One? then m else Miss
  }

  function TestTarget(u: Unit, s: Sau, privileged: bool, a: Word): Response
  {
    Response(Reported(if On(u) then Find(u.regions, a) else Miss),
             Reported(if s.ctrl % 2 == 1 then Find(s.regions, a) else Miss),
             Allows(u, privileged, a, Read), Allows(u, privileged, a, Write),
             Attribute(s, a).NonSecure?)
  }

  /** The flags argument of cmse_check_address_range, without the choice of MPU and privilege. */
  datatype Flags = Flags(read: bool, readWrite: bool, nonSecure: bool)

  /**
   cmse_check_address_range(p, size, flags) != NULL: the range does not wrap, both end points get the
   same response, and that response suffices.
   */
  predicate CheckRange(u: Unit, s: Sau, privileged: bool, p: Word, size: nat, flags: Flags)
    requires size > 0
  {
    && p + size <= 0x1_0000_0000
    && var first := TestTarget(u, s, privileged, p);
       var last := TestTarget(u, s, privileged, p + size - 1);
       && first == last
       && (flags.read ==> first.readable)
       && (flags.readWrite ==> first.readable && first.writable)
       && (flags.nonSecure ==> first.nonSecure)
  }

  // ---- from end points to every byte ----

  /** No address lies in two regions of the table. */
  predicate Separate(regions: seq<Region>)
  {
    forall i: nat, j: nat | i < j < |regions| :: Clear(regions[i], regions[j])
  }

  /** At least one of the two is disabled or they share no address. */
  predicate Clear(r: Region, q: Region)
  {
    || !Enabled(r) || !Enabled(q)
    || r.rlar - r.rlar % 32 + 31 < q.rbar - q.rbar % 32
    || q.rlar - q.rlar % 32 + 31 < r.rbar - r.rbar % 32
    || r.rlar - r.rlar % 32 + 31 < r.rbar - r.rbar % 32
    || q.rlar - q.rlar % 32 + 31 < q.rbar - q.rbar % 32
  }

  lemma ClearOnce(r: Region, q: Region, a: Word)
    requires Clear(r, q) && Hit(r, a)
    ensures !Hit(q, a)
  {
  }

  lemma HitConvex(r: Region, a: Word, b: Word, c: Word)
    requires Hit(r, a) && Hit(r, c) && a <= b <= c
    ensures Hit(r, b)
  {
  }

  /** Both ends in region i, and no overlaps: then everything between is in region i alone. */
  lemma BetweenEnds(regions: seq<Region>, i: nat, a: Word, b: Word, c: Word)
    requires Separate(regions) && OnlyHit(regions, i, a) && OnlyHit(regions, i, c) && a <= b <= c
    ensures OnlyHit(regions, i, b)
  {
    hide Hit, Clear;
    HitConvex(regions[i], a, b, c);
    forall j: nat | j < |regions| && j != i ensures !Hit(regions[j], b) {
      if i < j {
        ClearOnce(regions[i], regions[j], b);
      } else if Hit(regions[j], b) {
        ClearOnce(regions[j], regions[i], b);
      }
    }
  }

  /** A range that passes the check with CMSE_NONSECURE is Non-Secure in every byte. */
  lemma CheckedIsNonSecure(u: Unit, s: Sau, privileged: bool, p: Word, size: nat, flags: Flags, a: Word)
    requires size > 0 && CheckRange(u, s, privileged, p, size, flags) && flags.nonSecure
    requires s.ctrl % 2 == 1 && Separate(s.regions)
    requires p <= a < p + size
    ensures Attribute(s, a) == NonSecure
  {
    hide Allows, Separate, OnlyHit, Nsc;
    var last := p + size - 1;
    var i := Find(s.regions, p).i;
    assert Find(s.regions, last) == One(i);
    BetweenEnds(s.regions, i, p, a, last);
    FindOnly(s.regions, i, a);
  }

  /** A range that passes an unprivileged check lies, in every byte, in one region with the permission. */
  lemma CheckedIsOneRegion(u: Unit, s: Sau, p: Word, size: nat, flags: Flags)
    requires size > 0 && CheckRange(u, s, false, p, size, flags) && (flags.read || flags.readWrite)
    requires On(u) && Separate(u.regions)
    ensures var m := Find(u.regions, p);
            && m.One? && m.i < |u.regions| && Grants(u.regions[m.i], false, Read)
            && (flags.readWrite ==> Grants(u.regions[m.i], false, Write))
            && forall a: Word | p <= a < p + size :: OnlyHit(u.regions, m.i, a)
  {
    hide Separate, Hit, Grants, Attribute;
    var last := p + size - 1;
    var i := Find(u.regions, p).i;
    assert Find(u.regions, last) == One(i);
    forall a: Word | p <= a < p + size ensures OnlyHit(u.regions, i, a) {
      BetweenEnds(u.regions, i, p, a, last);
    }
  }

  /** No read-only region reaches into the range. */
  ghost predicate NoReadOnly(regions: seq<Region>, p: Word, size: nat)
  {
    forall a: Word | p <= a < p + size :: NoneReadOnly(regions, a)
  }

  predicate NoneReadOnly(regions: seq<Region>, a: Word)
  {
    forall i: nat | i < |regions| && Hit(regions[i], a) :: !ReadOnly(regions[i])
  }

  predicate ReadOnly(r: Region) { r.rbar / 4 % 2 == 1 }

  /**
   What a passed check grants at every byte, not just at the two ends: reading always; writing, if it was
   asked for, to an unprivileged caller always and to a privileged one iff no read-only region reaches in.
   */
  lemma CheckedEveryByte(u: Unit, s: Sau, privileged: bool, p: Word, size: nat, flags: Flags)
    requires size > 0 && CheckRange(u, s, privileged, p, size, flags) && (flags.read || flags.readWrite)
    requires Separate(u.regions)
    ensures forall a: Word | p <= a < p + size :: Allows(u, privileged, a, Read)
    ensures !privileged && flags.readWrite ==> forall a: Word | p <= a < p + size :: Allows(u, false, a, Write)
    ensures privileged ==>
              ((forall a: Word | p <= a < p + size :: Allows(u, true, a, Write))
               <==> !On(u) || NoReadOnly(u.regions, p, size))
  {
    hide Separate, OnlyHit, Grants, Attribute;
    if On(u) {
      if privileged {
        PrivilegedBytes(u, s, p, size, flags);
      } else {
        CheckedIsOneRegion(u, s, p, size, flags);
        forall a: Word | p <= a < p + size ensures Find(u.regions, a) == Find(u.regions, p) {
          FindOnly(u.regions, Find(u.regions, p).i, a);
        }
      }
    }
  }

  lemma PrivilegedBytes(u: Unit, s: Sau, p: Word, size: nat, flags: Flags)
    requires size > 0 && CheckRange(u, s, true, p, size, flags) && (flags.read || flags.readWrite)
    requires On(u) && Separate(u.regions)
    ensures forall a: Word | p <= a < p + size :: Allows(u, true, a, Read)
    ensures (forall a: Word | p <= a < p + size :: Allows(u, true, a, Write)) <==> NoReadOnly(u.regions, p, size)
  {
    hide Separate, OnlyHit, Grants, NoneReadOnly, Attribute;
    forall a: Word | p <= a < p + size
      ensures Allows(u, true, a, Read)
      ensures Allows(u, true, a, Write) <==> NoneReadOnly(u.regions, a)
    {
      var m := Find(u.regions, p);
      if m.One? {
        assert Find(u.regions, p + size - 1) == m;
        BetweenEnds(u.regions, m.i, p, a, p + size - 1);
        FindOnly(u.regions, m.i, a);
      }
      PrivilegedByte(u, a);
    }
  }

  lemma PrivilegedByte(u: Unit, a: Word)
    requires On(u) && Separate(u.regions) && (u.ctrl / 4 % 2 == 1 || Find(u.regions, a).One?)
    ensures Allows(u, true, a, Read)
    ensures Allows(u, true, a, Write) <==> NoneReadOnly(u.regions, a)
  {
    hide Hit, Clear;
    var m := Find(u.regions, a);
    if m.Many? {
      var i: nat, j: nat :| i < j < |u.regions| && Hit(u.regions[i], a) && Hit(u.regions[j], a);
      ClearOnce(u.regions[i], u.regions[j], a);
    }
  }

  // ---- exactly when it passes ----

  /** The two addresses lie in the same regions. */
  predicate SameRegions(regions: seq<Region>, a: Word, b: Word)
  {
    forall i: nat | i < |regions| :: Hit(regions[i], a) <==> Hit(regions[i], b)
  }

  lemma NotMany(regions: seq<Region>, a: Word)
    requires Separate(regions)
    ensures !Find(regions, a).Many?
  {
    hide Hit, Clear;
    if Find(regions, a).Many? {
      var i: nat, j: nat :| i < j < |regions| && Hit(regions[i], a) && Hit(regions[j], a);
      ClearOnce(regions[i], regions[j], a);
    }
  }

  lemma SameFind(regions: seq<Region>, a: Word, b: Word)
    requires Separate(regions)
    ensures Find(regions, a) == Find(regions, b) <==> SameRegions(regions, a, b)
    ensures Reported(Find(regions, a)) == Find(regions, a)
  {
    hide Hit, Separate;
    NotMany(regions, a);
    NotMany(regions, b);
    if SameRegions(regions, a, b) {
      match Find(regions, a)
      case One(i) => FindOnly(regions, i, b);
      case Miss => FindMiss(regions, b);
    }
  }

  lemma SameGrants(u: Unit, privileged: bool, a: Word, b: Word)
    requires On(u) ==> Find(u.regions, a) == Find(u.regions, b)
    ensures Allows(u, privileged, a, Read) == Allows(u, privileged, b, Read)
    ensures Allows(u, privileged, a, Write) == Allows(u, privileged, b, Write)
    ensures Allows(u, privileged, a, Write) ==> Allows(u, privileged, a, Read)
  {
    hide Find;
  }

  /**
   With tables whose regions do not overlap: no wrap, both ends in the same MPU and attribution regions as
   far as those units are on, and the permission and attribution asked for at the first byte.
   */
  lemma CheckRangeIff(u: Unit, s: Sau, privileged: bool, p: Word, size: nat, flags: Flags)
    requires size > 0 && Separate(u.regions) && Separate(s.regions)
    ensures CheckRange(u, s, privileged, p, size, flags)
       <==> && p + size <= 0x1_0000_0000
            && (On(u) ==> SameRegions(u.regions, p, p + size - 1))
            && (s.ctrl % 2 == 1 ==> SameRegions(s.regions, p, p + size - 1))
            && (flags.read ==> Allows(u, privileged, p, Read))
            && (flags.readWrite ==> Allows(u, privileged, p, Write))
            && (flags.nonSecure ==> Attribute(s, p) == NonSecure)
  {
    hide Separate, Allows, SameRegions, Find, On;
    if p + size <= 0x1_0000_0000 {
      var last := p + size - 1;
      SameFind(u.regions, p, last);
      SameFind(u.regions, last, p);
      SameFind(s.regions, p, last);
      SameFind(s.regions, last, p);
      if On(u) ==> Find(u.regions, p) == Find(u.regions, last) {
        SameGrants(u, privileged, p, last);
      }
    }
  }
}

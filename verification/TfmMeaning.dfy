/**
 The TF-M results in the source's own terms: assets by index, registers by value, ranges by linker symbol,
 handles by bit.
 */
module TfmMeaning {
  import opened Bits
  import opened Mpu
  import opened AccessCtrl
  import opened TfmHal
  import opened TfmRuns
  import opened TfmChecks

  // ---- the named assets of a partition ----

  /** The named MMIO assets among the first n. */
  function NamedAmong(assets: seq<Asset>, n: nat): set<nat>
    requires n <= |assets|
  {
    set i: nat | i < n && assets[i].namedMmio
  }

  lemma {:induction false} NamedRefsSnoc(assets: seq<Asset>, x: Asset)
    ensures NamedRefs(assets + [x]) == NamedRefs(assets) + if x.namedMmio then [x.devRef] else []
    decreases assets
  {
    if assets == [] {
      assert [] + [x] == [x] && [x][1..] == [];
    } else {
      assert (assets + [x])[1..] == assets[1..] + [x];
      NamedRefsSnoc(assets[1..], x);
    }
  }

  lemma NamedAmongNext(assets: seq<Asset>, n: nat)
    requires n < |assets|
    ensures NamedAmong(assets, n + 1) == NamedAmong(assets, n) + if assets[n].namedMmio then {n} else {}
    ensures |NamedAmong(assets, n + 1)| == |NamedAmong(assets, n)| + if assets[n].namedMmio then 1 else 0
  {
    assert n !in NamedAmong(assets, n);
    assert NamedAmong(assets, n + 1) == NamedAmong(assets, n) + if assets[n].namedMmio then {n} else {};
  }

  /**
   The references the binding loop works through are those of the named assets, in asset order: as many as
   there are named assets, and that of asset i at the place given by the named assets before it.
   */
  lemma {:induction false} NamedInOrder(assets: seq<Asset>, n: nat)
    requires n <= |assets|
    ensures |NamedRefs(assets[..n])| == |NamedAmong(assets, n)|
    ensures forall i: nat | i < n && assets[i].namedMmio ::
              |NamedAmong(assets, i)| < |NamedRefs(assets[..n])|
              && NamedRefs(assets[..n])[|NamedAmong(assets, i)|] == assets[i].devRef
  {
    if n > 0 {
      var m := n - 1;
      NamedInOrder(assets, m);
      NamedAmongNext(assets, m);
      assert assets[..n] == assets[..m] + [assets[m]];
      NamedRefsSnoc(assets[..m], assets[m]);
    }
  }

  lemma {:induction false} NamedIffAmong(assets: seq<Asset>, n: nat, r: Word)
    requires n <= |assets|
    ensures r in NamedRefs(assets[..n]) <==> exists i: nat :: i < n && assets[i].namedMmio && assets[i].devRef == r
  {
    if n > 0 {
      NamedIffAmong(assets, n - 1, r);
      assert assets[..n] == assets[..n - 1] + [assets[n - 1]];
      NamedRefsSnoc(assets[..n - 1], assets[n - 1]);
    }
  }

  lemma NamedIff(assets: seq<Asset>, r: Word)
    ensures r in NamedRefs(assets) <==> exists i: nat :: i < |assets| && assets[i].namedMmio && assets[i].devRef == r
  {
    assert assets[..|assets|] == assets;
    NamedIffAmong(assets, |assets|, r);
  }

  // ---- binding, asset by asset ----

  /** Every named asset is on the allow-list. */
  predicate AllAllowed(p: Platform, q: Partition)
  {
    forall i: nat | i < |q.assets| && q.assets[i].namedMmio :: q.assets[i].devRef in p.allowed
  }

  /** Every named asset starts and ends with a granule. */
  predicate AllAligned(p: Platform, q: Partition)
    requires p.Valid() && AllAllowed(p, q)
  {
    forall i: nat | i < |q.assets| && q.assets[i].namedMmio ::
      p.data[q.assets[i].devRef].start % 32 == 0 && p.data[q.assets[i].devRef].limit % 32 == 31
  }

  lemma AssetsAsRefs(p: Platform, q: Partition)
    requires p.Valid()
    ensures AllAllowed(p, q) <==> forall r | r in NamedRefs(q.assets) :: r in p.allowed
    ensures AllAllowed(p, q) ==>
              (AllAligned(p, q) <==> forall r | r in NamedRefs(q.assets) :: Granular(p.data[r]))
  {
    hide NamedRefs;
    forall r: Word
      ensures r in NamedRefs(q.assets) <==>
              exists i: nat :: i < |q.assets| && q.assets[i].namedMmio && q.assets[i].devRef == r
    {
      NamedIff(q.assets, r);
    }
    forall i: nat | i < |q.assets| && q.assets[i].namedMmio ensures q.assets[i].devRef in NamedRefs(q.assets) {
    }
  }

  /**
   Bind succeeds iff every named asset is on the allow-list and the partition is privileged -- as all are at
   isolation level 1 -- or every named asset is granule-aligned and there are regions left for all of them.
   Assets that are not named MMIO play no part.
   */
  lemma BindByAssets(p: Platform, pxn: bool, s: HalState, q: Partition)
    requires p.Valid() && s.n <= |s.mpu.regions|
    ensures BindResult(p, pxn, s, q).1
       <==> && AllAllowed(p, q)
            && (p.level1 || q.psaRot
                || (AllAligned(p, q) && s.n + |NamedAmong(q.assets, |q.assets|)| <= |s.mpu.regions|))
  {
    hide NamedRefs, NamedAmong, BindRefs, Granular, AllAllowed, AllAligned;
    assert q.assets[..|q.assets|] == q.assets;
    NamedInOrder(q.assets, |q.assets|);
    AssetsAsRefs(p, q);
    BindSucceedsIff(p, pxn, s, q);
  }

  /**
   A successful bind of an unprivileged partition gives named asset i the region after those of the named
   assets before it -- read-write, unprivileged, execute-never, from start to limit -- and no other region
   changes; a privileged one leaves the MPU as it is, whatever becomes of it.
   */
  lemma BindRegions(p: Platform, pxn: bool, s: HalState, q: Partition)
    requires p.Valid() && s.n <= |s.mpu.regions|
    ensures var (t, ok) := BindResult(p, pxn, s, q);
            && (p.level1 || q.psaRot ==> t.n == s.n && t.mpu == s.mpu)
            && (ok && !p.level1 && !q.psaRot ==>
                  && t.n == s.n + |NamedAmong(q.assets, |q.assets|)|
                  && |t.mpu.regions| == |s.mpu.regions|
                  && (forall i: nat | i < |q.assets| && q.assets[i].namedMmio ::
                        var k := s.n + |NamedAmong(q.assets, i)|;
                        k < t.n <= |t.mpu.regions| && q.assets[i].devRef in p.data
                        && Programs(t.mpu.regions[k], Range(p.data[q.assets[i].devRef].start,
                                                            p.data[q.assets[i].devRef].limit, true, false)))
                  && (forall k: nat | k < |s.mpu.regions| && !(s.n <= k < t.n) ::
                        t.mpu.regions[k] == s.mpu.regions[k]))
  {
    hide NamedRefs, NamedAmong, BindRefs, Granular, MmioRegion, Programs;
    assert q.assets[..|q.assets|] == q.assets;
    NamedInOrder(q.assets, |q.assets|);
    BindSucceedsIff(p, pxn, s, q);
    var (t, ok) := BindResult(p, pxn, s, q);
    if ok && !p.level1 && !q.psaRot {
      forall i: nat | i < |q.assets| && q.assets[i].namedMmio
        ensures var k := s.n + |NamedAmong(q.assets, i)|;
                && k < t.n && q.assets[i].devRef in p.data
                && t.mpu.regions[k] == MmioRegion(p.data[q.assets[i].devRef], pxn)
                && Programs(t.mpu.regions[k], MmioRange(p.data[q.assets[i].devRef]))
      {
        assert NamedRefs(q.assets)[|NamedAmong(q.assets, i)|] == q.assets[i].devRef;
        assert q.assets[i].devRef in NamedRefs(q.assets);
        MmioPrograms(p.data[q.assets[i].devRef], pxn);
      }
    }
  }

  /** An asset that is not named MMIO changes nothing: leave it out, and the bind is the same. */
  lemma UnnamedIgnored(p: Platform, pxn: bool, s: HalState, q: Partition, i: nat)
    requires p.Valid() && i < |q.assets| && !q.assets[i].namedMmio
    ensures BindResult(p, pxn, s, q) == BindResult(p, pxn, s, q.(assets := q.assets[..i] + q.assets[i + 1..]))
  {
    NamedRefsWithout(q.assets, i);
  }

  lemma {:induction false} NamedRefsWithout(assets: seq<Asset>, i: nat)
    requires i < |assets| && !assets[i].namedMmio
    ensures NamedRefs(assets) == NamedRefs(assets[..i] + assets[i + 1..])
    decreases assets
  {
    if i == 0 {
      assert assets[..0] + assets[1..] == assets[1..];
    } else {
      NamedRefsWithout(assets[1..], i - 1);
      assert (assets[..i] + assets[i + 1..])[1..] == assets[1..][..i - 1] + assets[1..][i..];
    }
  }

  /**
   After a successful bind at any point of any run after set-up, every register named by one of the
   partition's assets reads 0x98 -- debug, core 0, Secure privileged -- for a privileged partition and 0x9C --
   Secure unprivileged as well -- for another; every other register reads what it read before.
   */
  lemma BindClassesByAssets(p: Platform, ready: AccessCtrl.Regs -> bool, pxn: bool, multiCore: bool,
                            before: AccessCtrl.Regs, s: HalState, rs: seq<Request>, q: Partition, r: AcReg)
    requires p.Valid() && Local(p.dev) && Writable(p.dev, ready)
    requires ready(before) && s.ac == BusFiltered(p.dev, multiCore, before)
    ensures var u := TfmRuns.After(p, pxn, s, rs);
            var (t, ok) := BindResult(p, pxn, u, q);
            ok ==> Shows(p.dev, t.ac, r) == if NamesRegister(p, q, r) then (if p.level1 || q.psaRot then 0x98 else 0x9C)
                                            else Shows(p.dev, u.ac, r)
  {
    hide Local, Writable, BindRefs, BusFiltered, Shows, TfmRuns.After, NamedRefs;
    BindClassesAfterRun(p, ready, pxn, multiCore, before, s, rs, q, r);
    ClassValues(multiCore, r);
    var u := TfmRuns.After(p, pxn, s, rs);
    var refs := NamedRefs(q.assets);
    if BindResult(p, pxn, u, q).1 {
      SuccessAllowed(p, pxn, u, q);
      forall x: Word
        ensures x in refs <==> exists i: nat :: i < |q.assets| && q.assets[i].namedMmio && q.assets[i].devRef == x
      {
        NamedIff(q.assets, x);
      }
      forall x | x in refs && Writes(p, x, r) ensures NamesRegister(p, q, r) {
        var i: nat :| i < |q.assets| && q.assets[i].namedMmio && q.assets[i].devRef == x;
        assert NamesAt(p, q, i, r);
      }
      if NamesRegister(p, q, r) {
        var i: nat :| i < |q.assets| && q.assets[i].namedMmio && NamesAt(p, q, i, r);
        assert q.assets[i].devRef in refs;
        assert Writes(p, q.assets[i].devRef, r);
      }
    }
  }

  /** Asset i is a device the ACCESSCTRL register r belongs to, and the platform does not skip it. */
  predicate NamesAt(p: Platform, q: Partition, i: nat, r: AcReg)
    requires i < |q.assets|
  {
    var ref := q.assets[i].devRef;
    ref in p.data && !p.data[ref].skipPpc && p.data[ref].reg == Some(r)
  }

  predicate NamesRegister(p: Platform, q: Partition, r: AcReg)
  {
    exists i: nat :: i < |q.assets| && q.assets[i].namedMmio && NamesAt(p, q, i, r)
  }

  lemma {:induction false} AllowedIfOk(p: Platform, pxn: bool, privileged: bool, s: HalState, refs: seq<Word>)
    requires p.Valid() && BindRefs(p, pxn, privileged, s, refs).1
    ensures forall x | x in refs :: x in p.allowed
    decreases refs
  {
    hide Granular, MmioRegion, AccessCtrl.Configure;
    if refs != [] {
      assert refs == [refs[0]] + refs[1..];
      AllowedIfOk(p, pxn, privileged, BindRef(p, pxn, privileged, s, refs[0]).0, refs[1..]);
    }
  }

  lemma SuccessAllowed(p: Platform, pxn: bool, s: HalState, q: Partition)
    requires p.Valid() && BindResult(p, pxn, s, q).1
    ensures forall x | x in NamedRefs(q.assets) :: x in p.allowed
  {
    AllowedIfOk(p, pxn, Privileged(p, q), s, NamedRefs(q.assets));
  }

  // ---- the lock ----

  lemma {:induction false} BindKeepsFront(p: Platform, pxn: bool, privileged: bool, s: HalState, refs: seq<Word>)
    requires p.Valid() && p.dev == EightBit(p.dev.offset) && Offsets(p.dev.offset)
    ensures SameFront(s.ac, BindRefs(p, pxn, privileged, s, refs).0.ac)
    decreases refs
  {
    hide Granular, MmioRegion, WriteOne, Offsets, EightBit;
    if refs != [] && refs[0] in p.allowed {
      var (t, ok) := BindRef(p, pxn, privileged, s, refs[0]);
      var reg := p.data[refs[0]].reg;
      if reg.Some? {
        WriteKeepsFront(p.dev.offset, s.ac, Entry(reg.value, BoundBits(privileged)));
      }
      assert SameFront(s.ac, t.ac);
      BindKeepsFront(p, pxn, privileged, t, refs[1..]);
    }
  }

  lemma {:induction false} RunKeepsFront(p: Platform, pxn: bool, s: HalState, rs: seq<Request>)
    requires p.Valid() && p.dev == EightBit(p.dev.offset) && Offsets(p.dev.offset)
    ensures SameFront(s.ac, TfmRuns.After(p, pxn, s, rs).ac)
    decreases rs
  {
    hide BindRefs, Offsets, EightBit;
    if rs != [] {
      var init := rs[..|rs| - 1];
      RunKeepsFront(p, pxn, s, init);
      var u := TfmRuns.After(p, pxn, s, init);
      var r := rs[|rs| - 1];
      if r.q.Some? && r.wantsHandle {
        BindKeepsFront(p, pxn, Privileged(p, r.q.value), u, NamedRefs(r.q.value.assets));
      }
    }
  }

  /**
   From a reset block of eight-bit registers, set-up and any run of binds: LOCK reads 0x6, core 1 and the DMA
   shut out and core 0 in control, and both GPIO masks are what bus_filter_cfg wrote.
   */
  lemma LockHeld(p: Platform, pxn: bool, multiCore: bool, before: AccessCtrl.Regs, s: HalState, rs: seq<Request>)
    requires p.Valid() && p.dev == EightBit(p.dev.offset) && Offsets(p.dev.offset)
    requires 0x00 in before ==> before[0x00] == 0
    requires s.ac == BusFiltered(p.dev, multiCore, before)
    ensures var t := TfmRuns.After(p, pxn, s, rs).ac;
            && 0x00 in t && t[0x00] == 6
            && 0x0C in t && t[0x0C] == 0xFFFF_FFFC
            && 0x10 in t && t[0x10] == 0xFF00_FFFF
  {
    hide Offsets, EightBit, BusFiltered, TfmRuns.After;
    FilteredFront(p.dev.offset, multiCore, before);
    RunKeepsFront(p, pxn, s, rs);
  }

  // ---- the static boundaries, symbol by symbol ----

  /** From a start symbol up to, not including, a limit symbol. */
  predicate Spans(start: Word, limit: Word, a: Word) { start <= a <= Sub32(limit, 1) }

  predicate InVeneers(c: Config, sy: Symbols, a: Word) { c.trustZone && Spans(sy.veneerBase, sy.veneerLimit, a) }

  predicate InUnprivCode(sy: Symbols, a: Word) { Spans(sy.unprivCodeBase, sy.unprivCodeLimit, a) }

  predicate InAppCode(sy: Symbols, a: Word) { Spans(sy.appCodeStart, sy.appCodeEnd, a) }

  predicate InData(c: Config, sy: Symbols, a: Word)
  {
    Spans(sy.appRwStart, sy.appRwEnd, a) || (c.partitionMeta && Spans(sy.metaBase, sy.metaLimit, a))
  }

  lemma StaticGranted(c: Config, sy: Symbols, a: Word)
    ensures var code := InVeneers(c, sy, a) || InUnprivCode(sy, a) || InAppCode(sy, a);
            && (Mpu.Granted(StaticRanges(c, sy), a, Read) <==> code || InData(c, sy, a))
            && (Mpu.Granted(StaticRanges(c, sy), a, Write) <==> InData(c, sy, a))
            && (Mpu.Granted(StaticRanges(c, sy), a, Execute) <==> code)
  {
    var ranges := StaticRanges(c, sy);
    var k := if c.trustZone then 1 else 0;
    assert c.trustZone ==> ranges[0] == Range(sy.veneerBase, Sub32(sy.veneerLimit, 1), false, true);
    assert ranges[k] == Range(sy.unprivCodeBase, Sub32(sy.unprivCodeLimit, 1), false, true);
    assert ranges[k + 1] == Range(sy.appCodeStart, Sub32(sy.appCodeEnd, 1), false, true);
    assert ranges[k + 2] == Range(sy.appRwStart, Sub32(sy.appRwEnd, 1), true, false);
    assert c.partitionMeta ==> ranges[k + 3] == Range(sy.metaBase, Sub32(sy.metaLimit, 1), true, false);
  }

  /**
   Unprivileged code after set-up and any run of binds, with ranges that do not overlap: it reads veneers, code,
   data and accepted devices, writes data and accepted devices, executes veneers and code, and nothing else.
   */
  lemma UnprivilegedAccess(c: Config, sy: Symbols, p: Platform, regions: seq<Region>, ac: AccessCtrl.Regs,
                           rs: seq<Request>, a: Word)
    requires p.Valid() && |StaticTable(c, sy)| <= |regions|
    requires forall r | r in StaticRanges(c, sy) :: Aligned(r)
    requires var s := HalState(|StaticTable(c, sy)|, StaticUnit(c, sy, regions), ac);
             var taken := AllAccepted(p, c.pxn, s, rs);
             Acceptable(p, taken) && Disjoint(StaticRanges(c, sy) + MmioRanges(p, taken))
    ensures var s := HalState(|StaticTable(c, sy)|, StaticUnit(c, sy, regions), ac);
            var u := TfmRuns.After(p, c.pxn, s, rs).mpu;
            var mmio := InMmio(p, AllAccepted(p, c.pxn, s, rs), a);
            var code := InVeneers(c, sy, a) || InUnprivCode(sy, a) || InAppCode(sy, a);
            && (Mpu.Allows(u, false, a, Read) <==> code || InData(c, sy, a) || mmio)
            && (Mpu.Allows(u, false, a, Write) <==> InData(c, sy, a) || mmio)
            && (Mpu.Allows(u, false, a, Execute) <==> code)
  {
    hide StaticTable, StaticRanges, StaticUnit, AllAccepted, TfmRuns.After, Mpu.Allows, Disjoint, Aligned, Mpu.Granted,
         InMmio, Spans;
    AccessAfterRun(c, sy, p, regions, ac, rs);
    StaticGranted(c, sy, a);
  }

  // ---- privileged execution ----

  /** Bits 4 of RLAR and 0 of RBAR: privileged code may execute a region iff neither is set. */
  lemma ExecuteBits(base: Word, limit: Word, readOnly: bool, executeNever: bool, pxn: bool, attr: nat)
    requires attr < 8
    ensures Grants(Region(Rbar(base, readOnly, true, executeNever), Rlar(limit, pxn, attr)), true, Execute)
       <==> !executeNever && !pxn
  {
    RbarFields(base, readOnly, executeNever);
    RlarPxn(limit, pxn, attr);
    hide Rbar, Rlar;
  }

  /** The memory attribute a region names. */
  function AttrIndex(r: Region): nat { r.rlar / 2 % 8 }

  lemma RlarAttr(base: Word, limit: Word, pxn: bool, attr: nat)
    requires attr < 8
    ensures AttrIndex(Region(base, Rlar(limit, pxn, attr))) == attr
  {
    var q := limit / 32;
    assert limit - limit % 32 == 32 * q;
    var m := 2 * q + if pxn then 1 else 0;
    assert Rlar(limit, pxn, attr) == 2 * (8 * m + attr) + 1;
    Halve(8 * m + attr, 1);
    DivByBlock(m, 8, attr, 8 * m + attr);
  }

  /** Code is attribute 0, data attribute 1, devices attribute 2. */
  lemma RegionAttributes(c: Config, sy: Symbols, d: PlatformData)
    ensures var t := StaticTable(c, sy);
            var k := if c.trustZone then 3 else 2;
            && |t| > k
            && (forall i: nat | i < k :: AttrIndex(t[i]) == 0)
            && (forall i: nat | k <= i < |t| :: AttrIndex(t[i]) == 1)
    ensures AttrIndex(MmioRegion(d, c.pxn)) == 2
  {
    hide AttrIndex, Rbar, Rlar;
    RlarAttr(Rbar(sy.veneerBase, true, true, false), Sub32(sy.veneerLimit, 1), false, 0);
    RlarAttr(Rbar(sy.unprivCodeBase, true, true, false), Sub32(sy.unprivCodeLimit, 1), false, 0);
    RlarAttr(Rbar(sy.appCodeStart, true, true, false), Sub32(sy.appCodeEnd, 1), c.pxn && !c.level1, 0);
    RlarAttr(Rbar(sy.appRwStart, false, true, true), Sub32(sy.appRwEnd, 1), c.pxn, 1);
    RlarAttr(Rbar(sy.metaBase, false, true, true), Sub32(sy.metaLimit, 1), c.pxn, 1);
    RlarAttr(Rbar(d.start, false, true, true), d.limit, c.pxn, 2);
  }

  lemma RlarPxn(limit: Word, pxn: bool, attr: nat)
    requires attr < 8
    ensures Rlar(limit, pxn, attr) / 16 % 2 == (if pxn then 1 else 0)
  {
    var q := limit / 32;
    assert limit - limit % 32 == 32 * q;
    var low := 2 * attr + 1;
    assert Rlar(limit, pxn, attr) == 16 * (2 * q + (if pxn then 1 else 0)) + low && low < 16;
  }

  /** The static table entry of each area, and whether privileged code may execute it. */
  lemma StaticExecute(c: Config, sy: Symbols)
    ensures var t := StaticTable(c, sy);
            var k := if c.trustZone then 1 else 0;
            && |t| >= k + 3
            && (c.trustZone ==> Grants(t[0], true, Execute))
            && Grants(t[k], true, Execute)
            && (Grants(t[k + 1], true, Execute) <==> !c.pxn || c.level1)
            && (forall j: nat | k + 2 <= j < |t| :: !Grants(t[j], true, Execute))
  {
    hide Grants, Rbar, Rlar;
    var t := StaticTable(c, sy);
    var k := if c.trustZone then 1 else 0;
    ExecuteBits(sy.veneerBase, Sub32(sy.veneerLimit, 1), true, false, false, 0);
    ExecuteBits(sy.unprivCodeBase, Sub32(sy.unprivCodeLimit, 1), true, false, false, 0);
    ExecuteBits(sy.appCodeStart, Sub32(sy.appCodeEnd, 1), true, false, c.pxn && !c.level1, 0);
    ExecuteBits(sy.appRwStart, Sub32(sy.appRwEnd, 1), false, true, c.pxn, 1);
    ExecuteBits(sy.metaBase, Sub32(sy.metaLimit, 1), false, true, c.pxn, 1);
    var veneers := Region(Rbar(sy.veneerBase, true, true, false), Rlar(Sub32(sy.veneerLimit, 1), false, 0));
    assert c.trustZone ==> t[0] == veneers;
  }

  /**
   Privileged code after set-up, with static ranges that do not overlap: it executes veneers and unprivileged
   core code, application code iff PXN is not in use or the isolation level is 1, data never.
   */
  lemma PrivilegedExecution(c: Config, sy: Symbols, regions: seq<Region>, a: Word)
    requires |StaticTable(c, sy)| <= |regions|
    requires Disjoint(StaticRanges(c, sy)) && forall r | r in StaticRanges(c, sy) :: Aligned(r)
    ensures var u := StaticUnit(c, sy, regions);
            && (InVeneers(c, sy, a) || InUnprivCode(sy, a) ==> Mpu.Allows(u, true, a, Execute))
            && (InAppCode(sy, a) ==> (Mpu.Allows(u, true, a, Execute) <==> !c.pxn || c.level1))
            && (InData(c, sy, a) ==> !Mpu.Allows(u, true, a, Execute))
  {
    hide StaticTable, StaticUnit, Disjoint, Aligned, Grants, Mpu.Allows, Holds;
    SetUpConfigured(c, sy, regions, map[]);
    StaticExecute(c, sy);
    StaticTablePrograms(c, sy);
    var u, ranges := StaticUnit(c, sy, regions), StaticRanges(c, sy);
    StaticSlots(c, sy, regions);
    CtrlOn(u);
    var k := if c.trustZone then 1 else 0;
    if InVeneers(c, sy, a) { ExecuteInRange(u, ranges, 0, a); }
    if InUnprivCode(sy, a) { ExecuteInRange(u, ranges, k, a); }
    if InAppCode(sy, a) { ExecuteInRange(u, ranges, k + 1, a); }
    if Spans(sy.appRwStart, sy.appRwEnd, a) { ExecuteInRange(u, ranges, k + 2, a); }
    if c.partitionMeta && Spans(sy.metaBase, sy.metaLimit, a) { ExecuteInRange(u, ranges, k + 3, a); }
  }

  lemma StaticSlots(c: Config, sy: Symbols, regions: seq<Region>)
    requires |StaticTable(c, sy)| <= |regions|
    ensures var u := StaticUnit(c, sy, regions);
            && |u.regions| == |regions|
            && forall i: nat | i < |StaticTable(c, sy)| :: u.regions[i] == StaticTable(c, sy)[i]
  {
    hide StaticTable;
  }

  lemma ExecuteInRange(u: Unit, ranges: seq<Range>, i: nat, a: Word)
    requires On(u) && Holds(u, ranges) && Disjoint(ranges) && (forall r | r in ranges :: Aligned(r))
    requires i < |ranges| && InRange(a, ranges[i])
    ensures i < |u.regions| && (Mpu.Allows(u, true, a, Execute) <==> Grants(u.regions[i], true, Execute))
  {
    hide Disjoint, Aligned, Hit, Grants;
    HoldsHit(u, ranges, a, i);
    FindOnly(u.regions, i, a);
  }

  // ---- switching ----

  /** CONTROL is in step with a boundary iff nPRIV, its bit 0, is the opposite of the handle's bit 1. */
  lemma InStepBits(control: Word, boundary: Word)
    ensures InStep(control, boundary) <==> Bit(control, 0) != Bit(boundary, 1)
  {
    HandleBits(boundary);
    BitZero(control);
  }

  /** No switch is asked for exactly between equal handles and between privileged ones. */
  lemma NoSwitchIff(from: Word, to: Word)
    ensures !NeedSwitch(from, to) <==> from == to || (Bit(from, 1) && Bit(to, 1))
  {
    HandleBits(from);
    HandleBits(to);
  }
}

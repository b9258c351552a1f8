/** What binding means, one call at a time and over every run of set-up followed by binds. */
module TfmRuns {
  import opened Bits
  import opened Mpu
  import opened AccessCtrl
  import opened TfmHal

  // ---- one bind ----

  /** The leading references that are accepted and still find a free region, cap regions in all. */
  function Taken(p: Platform, cap: nat, n: nat, refs: seq<Word>): seq<Word>
    requires p.Valid()
    decreases refs
  {
    if refs == [] || refs[0] !in p.allowed || n >= cap || !Granular(p.data[refs[0]]) then []
    else [refs[0]] + Taken(p, cap, n + 1, refs[1..])
  }

  predicate Acceptable(p: Platform, refs: seq<Word>)
    requires p.Valid()
  {
    forall r | r in refs :: r in p.allowed && Granular(p.data[r])
  }

  lemma {:induction false} TakenFacts(p: Platform, cap: nat, n: nat, refs: seq<Word>)
    requires p.Valid() && n <= cap
    ensures var t := Taken(p, cap, n, refs);
            && |t| <= |refs| && n + |t| <= cap && t == refs[..|t|] && Acceptable(p, t)
            && (t == refs <==> Acceptable(p, refs) && n + |refs| <= cap)
    decreases refs
  {
    if refs != [] && refs[0] in p.allowed && n < cap && Granular(p.data[refs[0]]) {
      TakenFacts(p, cap, n + 1, refs[1..]);
      var u := Taken(p, cap, n + 1, refs[1..]);
      assert refs == [refs[0]] + refs[1..];
      assert refs[..|u| + 1] == [refs[0]] + refs[1..][..|u|];
      assert Acceptable(p, refs) <==> Acceptable(p, refs[1..]);
    } else if refs != [] {
      assert refs[0] in refs;
    }
  }

  function MmioRegions(p: Platform, pxn: bool, refs: seq<Word>): (rs: seq<Region>)
    requires p.Valid() && Acceptable(p, refs)
    ensures |rs| == |refs|
  {
    seq(|refs|, i requires 0 <= i < |refs| => MmioRegion(p.data[refs[i]], pxn))
  }

  function MmioRanges(p: Platform, refs: seq<Word>): (rs: seq<Range>)
    requires p.Valid() && Acceptable(p, refs)
    ensures |rs| == |refs|
  {
    seq(|refs|, i requires 0 <= i < |refs| => MmioRange(p.data[refs[i]]))
  }

  /** The register file with the given regions in slots n, n + 1, ... */
  function Filled(regions: seq<Region>, n: nat, rs: seq<Region>): (t: seq<Region>)
    requires n + |rs| <= |regions|
    ensures |t| == |regions|
  {
    regions[..n] + rs + regions[n + |rs|..]
  }

  /** An unprivileged reference that gets a region: allowed, aligned, and there is one left. */
  predicate Fits(p: Platform, cap: nat, n: nat, ref: Word)
    requires p.Valid()
  {
    ref in p.allowed && n < cap && Granular(p.data[ref])
  }

  lemma TakenStep(p: Platform, cap: nat, n: nat, refs: seq<Word>)
    requires p.Valid() && refs != []
    ensures Taken(p, cap, n, refs)
         == if Fits(p, cap, n, refs[0]) then [refs[0]] + Taken(p, cap, n + 1, refs[1..]) else []
  {
  }

  /** One reference: the next slot and on, or the MPU untouched and no further. */
  lemma UnprivilegedStep(p: Platform, pxn: bool, s: HalState, ref: Word)
    requires p.Valid() && s.n <= |s.mpu.regions|
    ensures var (u, go) := BindRef(p, pxn, false, s, ref);
            && (go <==> Fits(p, |s.mpu.regions|, s.n, ref))
            && (go ==> u.n == s.n + 1
                       && u.mpu == Unit(s.mpu.regions[s.n := MmioRegion(p.data[ref], pxn)], CTRL_VALUE))
            && (!go ==> u.n == s.n && u.mpu == s.mpu)
  {
    hide MmioRegion, Granular, AccessCtrl.Configure;
  }

  /** Binding an unprivileged partition fills the next slots in asset order, for as long as it can. */
  lemma {:induction false} UnprivilegedBind(p: Platform, pxn: bool, s: HalState, refs: seq<Word>)
    requires p.Valid() && s.n <= |s.mpu.regions|
    ensures var taken := Taken(p, |s.mpu.regions|, s.n, refs);
            var (t, ok) := BindRefs(p, pxn, false, s, refs);
            && Acceptable(p, taken) && s.n + |taken| <= |s.mpu.regions|
            && t.n == s.n + |taken|
            && t.mpu.regions == Filled(s.mpu.regions, s.n, MmioRegions(p, pxn, taken))
            && t.mpu.ctrl == (if taken == [] then s.mpu.ctrl else CTRL_VALUE)
            && (ok <==> taken == refs)
    decreases refs
  {
    hide MmioRegion, Granular, BindRef, Acceptable;
    var cap := |s.mpu.regions|;
    TakenFacts(p, cap, s.n, refs);
    if refs != [] {
      var taken := Taken(p, cap, s.n, refs);
      TakenStep(p, cap, s.n, refs);
      UnprivilegedStep(p, pxn, s, refs[0]);
      hide Taken;
      if Fits(p, cap, s.n, refs[0]) {
        var (u, go) := BindRef(p, pxn, false, s, refs[0]);
        var rest := Taken(p, cap, s.n + 1, refs[1..]);
        UnprivilegedBind(p, pxn, u, refs[1..]);
        FilledStep(p, pxn, s.mpu.regions, s.n, refs[0], rest);
        assert refs == [refs[0]] + refs[1..];
        assert taken == refs <==> rest == refs[1..] by {
          assert taken[1..] == rest;
        }
      }
    }
  }

  lemma FilledStep(p: Platform, pxn: bool, regions: seq<Region>, n: nat, ref: Word, rest: seq<Word>)
    requires p.Valid() && Acceptable(p, [ref] + rest) && Acceptable(p, rest)
    requires n + 1 + |rest| <= |regions| && ref in p.data
    ensures Filled(regions[n := MmioRegion(p.data[ref], pxn)], n + 1, MmioRegions(p, pxn, rest))
         == Filled(regions, n, MmioRegions(p, pxn, [ref] + rest))
  {
    hide MmioRegion, Granular;
    assert MmioRegions(p, pxn, [ref] + rest) == [MmioRegion(p.data[ref], pxn)] + MmioRegions(p, pxn, rest);
  }

  /** Binding a privileged partition leaves the MPU alone. */
  lemma {:induction false} PrivilegedBind(p: Platform, pxn: bool, s: HalState, refs: seq<Word>)
    requires p.Valid()
    ensures var (t, ok) := BindRefs(p, pxn, true, s, refs);
            && t.n == s.n && t.mpu == s.mpu
            && (ok <==> forall r | r in refs :: r in p.allowed)
    decreases refs
  {
    if refs != [] {
      assert refs == [refs[0]] + refs[1..];
      var (u, go) := BindRef(p, pxn, true, s, refs[0]);
      if go {
        PrivilegedBind(p, pxn, u, refs[1..]);
      }
    }
  }

  /** What the caller can check beforehand. */
  predicate CanBind(p: Platform, s: HalState, q: Partition)
    requires p.Valid()
  {
    var refs := NamedRefs(q.assets);
    && (forall r | r in refs :: r in p.allowed)
    && (Privileged(p, q)
        || ((forall r | r in refs :: Granular(p.data[r])) && s.n + |refs| <= |s.mpu.regions|))
  }

  /**
   Bind succeeds iff every named asset is allowed and, for an unprivileged partition, aligned and with
   room left; success adds exactly those regions in asset order, none for a privileged partition.
   */
  lemma BindSucceedsIff(p: Platform, pxn: bool, s: HalState, q: Partition)
    requires p.Valid() && s.n <= |s.mpu.regions|
    ensures var refs := NamedRefs(q.assets);
            var (t, ok) := BindRefs(p, pxn, Privileged(p, q), s, refs);
            && (ok <==> CanBind(p, s, q))
            && (Privileged(p, q) ==> t.n == s.n && t.mpu == s.mpu)
            && (ok && !Privileged(p, q) ==>
                  && Acceptable(p, refs) && t.n == s.n + |refs| <= |s.mpu.regions|
                  && t.mpu.regions == Filled(s.mpu.regions, s.n, MmioRegions(p, pxn, refs)))
  {
    hide BindRefs, Filled, MmioRegions, Taken, Granular;
    var refs := NamedRefs(q.assets);
    if Privileged(p, q) {
      PrivilegedBind(p, pxn, s, refs);
    } else {
      UnprivilegedBind(p, pxn, s, refs);
      TakenFacts(p, |s.mpu.regions|, s.n, refs);
    }
  }

  // ---- runs ----

  /** A call of tfm_hal_bind_boundary; None and false are the null pointers. */
  datatype Request = Request(q: Option<Partition>, wantsHandle: bool)

  function Bound(p: Platform, pxn: bool, s: HalState, r: Request): HalState
    requires p.Valid()
  {
    if r.q.None? || !r.wantsHandle then s
    else BindResult(p, pxn, s, r.q.value).0
  }

  /** The MMIO references a call gets regions for, failing calls included. */
  function Accepted(p: Platform, s: HalState, r: Request): seq<Word>
    requires p.Valid()
  {
    if r.q.None? || !r.wantsHandle || Privileged(p, r.q.value) then []
    else Taken(p, |s.mpu.regions|, s.n, NamedRefs(r.q.value.assets))
  }

  function After(p: Platform, pxn: bool, s: HalState, rs: seq<Request>): HalState
    requires p.Valid()
  {
    if rs == [] then s else Bound(p, pxn, After(p, pxn, s, rs[..|rs| - 1]), rs[|rs| - 1])
  }

  function AllAccepted(p: Platform, pxn: bool, s: HalState, rs: seq<Request>): seq<Word>
    requires p.Valid()
  {
    if rs == [] then []
    else
      var init := rs[..|rs| - 1];
      AllAccepted(p, pxn, s, init) + Accepted(p, After(p, pxn, s, init), rs[|rs| - 1])
  }

  /** The MPU is on and holds exactly these ranges, as many as n_configured_regions says. */
  predicate Configured(s: HalState, ranges: seq<Range>)
  {
    s.mpu.ctrl == 7 && s.n == |ranges| && Holds(s.mpu, ranges)
  }

  /** Set-up leaves the static ranges configured. */
  lemma SetUpConfigured(c: Config, sy: Symbols, regions: seq<Region>, ac: AccessCtrl.Regs)
    requires |StaticTable(c, sy)| <= |regions|
    ensures Configured(HalState(|StaticTable(c, sy)|, StaticUnit(c, sy, regions), ac), StaticRanges(c, sy))
  {
    hide StaticTable, StaticRanges, Programs;
    StaticTablePrograms(c, sy);
  }

  lemma FilledHolds(p: Platform, pxn: bool, s: HalState, t: HalState, ranges: seq<Range>, taken: seq<Word>)
    requires p.Valid() && Acceptable(p, taken) && Configured(s, ranges)
    requires s.n + |taken| <= |s.mpu.regions| && t.n == s.n + |taken| && t.mpu.ctrl == CTRL_VALUE
    requires t.mpu.regions == Filled(s.mpu.regions, s.n, MmioRegions(p, pxn, taken))
    ensures Configured(t, ranges + MmioRanges(p, taken))
  {
    hide Programs, MmioRegion, Enabled, Granular;
    var all := ranges + MmioRanges(p, taken);
    forall i: nat | i < |all| ensures Programs(t.mpu.regions[i], all[i]) {
      if i >= |ranges| {
        MmioPrograms(p.data[taken[i - |ranges|]], pxn);
      }
    }
  }

  lemma MmioPrograms(d: PlatformData, pxn: bool)
    ensures Programs(MmioRegion(d, pxn), MmioRange(d))
  {
    hide Programs, Rbar, Rlar;
    EncodePrograms(MmioRange(d), pxn, 2);
  }

  /** One call, successful or not: accepted ranges are appended, nothing configured is touched. */
  lemma BoundConfigured(p: Platform, pxn: bool, s: HalState, r: Request, ranges: seq<Range>)
    requires p.Valid() && Configured(s, ranges)
    ensures var t := Bound(p, pxn, s, r);
            var taken := Accepted(p, s, r);
            && Acceptable(p, taken)
            && Configured(t, ranges + MmioRanges(p, taken))
            && |t.mpu.regions| == |s.mpu.regions| && s.n <= t.n <= |t.mpu.regions|
            && t.mpu.regions[..s.n] == s.mpu.regions[..s.n]
  {
    hide BindRefs, Taken, Holds, Granular;
    HoldsRoom(s.mpu, ranges);
    var t := Bound(p, pxn, s, r);
    if r.q.Some? && r.wantsHandle && !Privileged(p, r.q.value) {
      UnprivilegedBind(p, pxn, s, NamedRefs(r.q.value.assets));
      FilledHolds(p, pxn, s, t, ranges, Accepted(p, s, r));
    } else {
      if r.q.Some? && r.wantsHandle {
        PrivilegedBind(p, pxn, s, NamedRefs(r.q.value.assets));
      }
      assert ranges + MmioRanges(p, []) == ranges;
    }
  }

  lemma HoldsRoom(u: Unit, ranges: seq<Range>)
    requires Holds(u, ranges)
    ensures |ranges| <= |u.regions|
  {
  }

  /**
   Every run: the MPU is on after every call, n_configured_regions stays within the unit and never
   decreases, what was configured at the start is still there, and the unit holds the starting ranges
   followed by every accepted MMIO range in order.
   */
  lemma {:induction false} RunConfigured(p: Platform, pxn: bool, s: HalState, rs: seq<Request>, ranges: seq<Range>)
    requires p.Valid() && Configured(s, ranges)
    ensures var t := After(p, pxn, s, rs);
            var taken := AllAccepted(p, pxn, s, rs);
            && Acceptable(p, taken)
            && Configured(t, ranges + MmioRanges(p, taken))
            && |t.mpu.regions| == |s.mpu.regions| && s.n <= t.n <= |t.mpu.regions|
            && t.mpu.regions[..s.n] == s.mpu.regions[..s.n]
  {
    hide Bound, Accepted, Granular, Holds;
    if rs == [] {
      HoldsRoom(s.mpu, ranges);
      assert ranges + MmioRanges(p, []) == ranges;
    } else {
      var init := rs[..|rs| - 1];
      RunConfigured(p, pxn, s, init, ranges);
      var u := After(p, pxn, s, init);
      var before := AllAccepted(p, pxn, s, init);
      BoundConfigured(p, pxn, u, rs[|rs| - 1], ranges + MmioRanges(p, before));
      var last := Accepted(p, u, rs[|rs| - 1]);
      assert ranges + MmioRanges(p, before + last) == ranges + MmioRanges(p, before) + MmioRanges(p, last);
      assert After(p, pxn, s, rs).mpu.regions[..s.n] == After(p, pxn, s, rs).mpu.regions[..u.n][..s.n];
    }
  }

  /** A region configured at some point of a run is never rewritten afterwards. */
  lemma NeverRewritten(p: Platform, pxn: bool, s: HalState, rs: seq<Request>, later: seq<Request>, ranges: seq<Range>)
    requires p.Valid() && Configured(s, ranges)
    ensures var t := After(p, pxn, s, rs);
            var u := After(p, pxn, t, later);
            t.n <= |t.mpu.regions| && t.n <= |u.mpu.regions| && u.mpu.regions[..t.n] == t.mpu.regions[..t.n]
  {
    RunConfigured(p, pxn, s, rs, ranges);
    var t := After(p, pxn, s, rs);
    RunConfigured(p, pxn, t, later, ranges + MmioRanges(p, AllAccepted(p, pxn, s, rs)));
  }

  ghost predicate InMmio(p: Platform, refs: seq<Word>, a: Word)
    requires p.Valid() && Acceptable(p, refs)
  {
    exists r :: r in refs && p.data[r].start <= a <= p.data[r].limit
  }

  /**
   What unprivileged code may do after set-up and any sequence of binds, failing ones included: read,
   write or execute what a static range grants, and read or write accepted MMIO, nothing else -- exactly
   when no two of those ranges overlap. Binding never checks that; an address in two of them is lost.
   */
  lemma AccessAfterRun(c: Config, sy: Symbols, p: Platform, regions: seq<Region>, ac: AccessCtrl.Regs,
                       rs: seq<Request>)
    requires p.Valid() && |StaticTable(c, sy)| <= |regions|
    requires forall r | r in StaticRanges(c, sy) :: Aligned(r)
    ensures var s := HalState(|StaticTable(c, sy)|, StaticUnit(c, sy, regions), ac);
            var taken := AllAccepted(p, c.pxn, s, rs);
            && Acceptable(p, taken)
            && ((forall a: Word, kind: Access :: Mpu.Allows(After(p, c.pxn, s, rs).mpu, false, a, kind)
                   <==> Granted(StaticRanges(c, sy), a, kind) || (!kind.Execute? && InMmio(p, taken, a)))
                <==> Disjoint(StaticRanges(c, sy) + MmioRanges(p, taken)))
  {
    hide StaticTable, StaticRanges, StaticUnit, AllAccepted, After, Mpu.Allows, Disjoint, Aligned,
         Holds, Granted, InMmio;
    var s := HalState(|StaticTable(c, sy)|, StaticUnit(c, sy, regions), ac);
    SetUpConfigured(c, sy, regions, ac);
    RunConfigured(p, c.pxn, s, rs, StaticRanges(c, sy));
    var taken := AllAccepted(p, c.pxn, s, rs);
    MmioAligned(p, taken);
    MembershipIffDisjoint(After(p, c.pxn, s, rs).mpu, StaticRanges(c, sy) + MmioRanges(p, taken));
    forall a: Word, kind: Access
      ensures Granted(StaticRanges(c, sy) + MmioRanges(p, taken), a, kind)
         <==> Granted(StaticRanges(c, sy), a, kind) || (!kind.Execute? && InMmio(p, taken, a))
    {
      GrantedSplit(p, StaticRanges(c, sy), taken, a, kind);
    }
  }

  lemma MmioAligned(p: Platform, refs: seq<Word>)
    requires p.Valid() && Acceptable(p, refs)
    ensures forall r | r in MmioRanges(p, refs) :: Aligned(r)
  {
  }

  lemma GrantedSplit(p: Platform, ranges: seq<Range>, refs: seq<Word>, a: Word, kind: Access)
    requires p.Valid() && Acceptable(p, refs)
    ensures Granted(ranges + MmioRanges(p, refs), a, kind)
       <==> Granted(ranges, a, kind) || (!kind.Execute? && InMmio(p, refs, a))
  {
    var all := ranges + MmioRanges(p, refs);
    if Granted(ranges, a, kind) {
      var i: nat :| i < |ranges| && InRange(a, ranges[i]) && Wants(ranges[i], kind);
      assert all[i] == ranges[i];
    } else if !kind.Execute? && InMmio(p, refs, a) {
      var r :| r in refs && p.data[r].start <= a <= p.data[r].limit;
      var j: nat :| j < |refs| && refs[j] == r;
      assert all[|ranges| + j] == MmioRange(p.data[r]);
    }
    if Granted(all, a, kind) {
      var i: nat :| i < |all| && InRange(a, all[i]) && Wants(all[i], kind);
      if i >= |ranges| {
        assert refs[i - |ranges|] in refs;
      } else {
        assert ranges[i] == all[i];
      }
    }
  }

  /**
   Two unprivileged partitions that name the same device: nothing stops it. Both binds succeed if there is
   room, and afterwards nobody, privileged or not, may touch a byte of that device.
   */
  lemma SharedMmioLost(p: Platform, pxn: bool, s: HalState, ranges: seq<Range>, q1: Partition, q2: Partition, ref: Word)
    requires p.Valid() && Configured(s, ranges) && forall r | r in ranges :: Aligned(r)
    requires !Privileged(p, q1) && !Privileged(p, q2)
    requires ref in NamedRefs(q1.assets) && ref in NamedRefs(q2.assets)
    requires Acceptable(p, NamedRefs(q1.assets)) && Acceptable(p, NamedRefs(q2.assets))
    requires s.n + |NamedRefs(q1.assets)| + |NamedRefs(q2.assets)| <= |s.mpu.regions|
    ensures var t := Bound(p, pxn, s, Request(Some(q1), true));
            var u := Bound(p, pxn, t, Request(Some(q2), true));
            && BindRefs(p, pxn, false, s, NamedRefs(q1.assets)).1
            && BindRefs(p, pxn, false, t, NamedRefs(q2.assets)).1
            && forall a: Word, privileged: bool, kind: Access | InRange(a, MmioRange(p.data[ref])) ::
                 !Mpu.Allows(u.mpu, privileged, a, kind)
  {
    hide BindRefs, Taken, Holds, Granular, Mpu.Allows, NamedRefs, Filled, MmioRegions;
    var refs1, refs2 := NamedRefs(q1.assets), NamedRefs(q2.assets);
    var r1, r2 := Request(Some(q1), true), Request(Some(q2), true);
    var t := Bound(p, pxn, s, r1);
    HoldsRoom(s.mpu, ranges);
    BindSucceedsIff(p, pxn, s, q1);
    TakenFacts(p, |s.mpu.regions|, s.n, refs1);
    BoundConfigured(p, pxn, s, r1, ranges);
    BindSucceedsIff(p, pxn, t, q2);
    TakenFacts(p, |t.mpu.regions|, t.n, refs2);
    var after1 := ranges + MmioRanges(p, refs1);
    BoundConfigured(p, pxn, t, r2, after1);
    var u := Bound(p, pxn, t, r2);
    var all := after1 + MmioRanges(p, refs2);
    MmioAligned(p, refs1);
    MmioAligned(p, refs2);
    var i: nat :| i < |refs1| && refs1[i] == ref;
    var j: nat :| j < |refs2| && refs2[j] == ref;
    assert all[|ranges| + i] == MmioRange(p.data[ref]) && all[|after1| + j] == MmioRange(p.data[ref]);
    forall a: Word, privileged: bool, kind: Access | InRange(a, MmioRange(p.data[ref]))
      ensures !Mpu.Allows(u.mpu, privileged, a, kind)
    {
      OverlapFaults(u.mpu, all, |ranges| + i, |after1| + j, a, privileged, kind);
    }
  }
}

/** minimal-tz's Secure services behind the NSC veneers, and every run of them. */
module SecureService {
  import opened Bits
  import opened Memory
  import opened Cmse
  import opened Monitor
  import opened Mpu
  import opened RegionTables
  import opened Sign

  const SECURE_SIGN_MAX := 256
  const S_RAM_START: Word := 0x2000_0000
  const S_RAM_LIMIT: Word := 0x2003_FFFF

  /** What the Non-Secure side owns and may change between calls: its MPU and its privilege level. */
  datatype Caller = Caller(mpu: Unit, privileged: bool)

  /** What the gate runs against: the attribution, and where the linker put s_key and s_counter. */
  datatype World = World(sau: Sau, key: Word, counter: Word)
  {
    /** key and counter in Secure RAM, disjoint, the counter word-aligned. */
    predicate Placed()
    {
      && S_RAM_START <= key && key + 15 <= S_RAM_LIMIT
      && S_RAM_START <= counter && counter + 3 <= S_RAM_LIMIT && counter % 4 == 0
      && Apart(key, 16, counter, 4)
    }

    /** The table tz_sau_config leaves, with the regions it does not program disabled. */
    predicate Configured()
    {
      && |sau.regions| == 8 && sau.ctrl == 1
      && (forall i | 4 <= i < 8 :: !Enabled(sau.regions[i]))
      && sau.regions == TzSau(sau.regions)
    }
  }

  function KeyAt(w: World, m: Mem): Key
    requires w.Placed()
  {
    m[w.key..w.key as int + 16]
  }

  // ---- secure_sign on values ----

  predicate Readable(w: World, c: Caller, p: Word, len: Word)
    requires len > 0
  {
    CheckRange(c.mpu, w.sau, c.privileged, p, len, Flags(true, false, true))
  }

  predicate Writable(w: World, c: Caller, p: Word, len: Word)
    requires len > 0
  {
    CheckRange(c.mpu, w.sau, c.privileged, p, len, Flags(false, true, true))
  }

  /** The return code. */
  function SignCode(w: World, c: Caller, challenge: Word, out: Word, len: Word): int
  {
    if len == 0 || len > SECURE_SIGN_MAX then -1
    else if !Readable(w, c, challenge, len) then -2
    else if !Writable(w, c, out, len) then -3
    else 0
  }

  function CopiedByte(m: Mem, challenge: Word, out: Word, len: nat, key: Key, a: Word): Byte
    requires challenge + len <= 0x1_0000_0000
  {
    if out <= a < out + len then Xor8(m[challenge + (a - out)], key[(a - out) % 16]) else m[a]
  }

  /** Every out byte the old challenge byte xor the key, everything else as it was. */
  function SignedCopy(m: Mem, challenge: Word, out: Word, len: nat, key: Key): Mem
    requires challenge + len <= 0x1_0000_0000
  {
    seq(0x1_0000_0000, a requires 0 <= a < 0x1_0000_0000 => CopiedByte(m, challenge, out, len, key, a))
  }

  function SignResult(w: World, c: Caller, m: Mem, challenge: Word, out: Word, len: Word): Mem
    requires w.Placed()
  {
    if SignCode(w, c, challenge, out, len) == 0 then SignedCopy(m, challenge, out, len, KeyAt(w, m)) else m
  }

  // ---- the services ----

  class Gate {
    const w: World
    var mem: Mem

    constructor (w: World, m: Mem)
      ensures this.w == w && mem == m
    {
      this.w, this.mem := w, m;
    }

    /** secret_next_counter, behind secure_get_counter. */
    method SecureGetCounter() returns (r: Word)
      requires w.Placed()
      modifies this`mem
      ensures r == Add32(Load32(old(mem), w.counter), 1)
      ensures Load32(mem, w.counter) == r && SameOutside(old(mem), mem, w.counter, 4)
      ensures mem == Apply(w, old(mem), GetCounter)
    {
      r := Add32(Load32(mem, w.counter), 1);
      mem := Store32(mem, w.counter, r);
    }

    /** out[i] = in[i] ^ key[i % 16], also when the two are one buffer. */
    method SecretKeyedTransform(input: array<Byte>, output: array<Byte>, len: Word)
      requires w.Placed() && len <= input.Length && len <= output.Length
      modifies output
      ensures forall i: nat | i < len :: output[i] == Xor8(old(input[i]), KeyAt(w, mem)[i % 16])
      ensures forall i: nat | len <= i < output.Length :: output[i] == old(output[i])
    {
      hide Xor8;
      var i := 0;
      while i < len
        invariant i <= len
        invariant forall j: nat | j < i :: output[j] == Xor8(old(input[j]), KeyAt(w, mem)[j % 16])
        invariant forall j: nat | i <= j < input.Length :: input[j] == old(input[j])
        invariant forall j: nat | i <= j < output.Length :: output[j] == old(output[j])
      {
        output[i] := Xor8(input[i], mem[w.key + i % 16]);
        i := i + 1;
      }
    }

    /**
     secure_sign, for buffers that may overlap in any way: 0, -1, -2 or -3 as the arguments deserve, and
     memory is the signed copy of the *old* challenge on 0 and untouched otherwise.
     */
    method SecureSign(c: Caller, challenge: Word, out: Word, len: Word) returns (rc: int)
      requires w.Placed()
      modifies this`mem
      ensures rc == SignCode(w, c, challenge, out, len)
      ensures mem == SignResult(w, c, old(mem), challenge, out, len)
    {
      hide Xor8, CheckRange;
      if len == 0 || len > SECURE_SIGN_MAX {
        return -1;
      }
      if !CheckRange(c.mpu, w.sau, c.privileged, challenge, len, Flags(true, false, true)) {
        return -2;
      }
      if !CheckRange(c.mpu, w.sau, c.privileged, out, len, Flags(false, true, true)) {
        return -3;
      }
      CheckedFits(w, c, challenge, len, Flags(true, false, true));
      CheckedFits(w, c, out, len, Flags(false, true, true));
      var tmpIn := new Byte[SECURE_SIGN_MAX];
      var tmpOut := new Byte[SECURE_SIGN_MAX];
      var i := 0;
      while i < len
        invariant i <= len
        invariant mem == old(mem)
        invariant forall j: nat | j < i :: tmpIn[j] == mem[challenge as int + j]
      {
        tmpIn[i] := mem[challenge + i];
        i := i + 1;
      }
      SecretKeyedTransform(tmpIn, tmpOut, len);
      ghost var key := KeyAt(w, old(mem));
      assert forall j: nat | j < len :: tmpOut[j] == Xor8(old(mem)[challenge as int + j], key[j % 16]);
      CopyOut(tmpOut, out, len);
      forall j: nat | j < len ensures mem[out as int + j] == Xor8(old(mem)[challenge as int + j], key[j % 16]) {
        assert mem[out as int + j] == tmpOut[j];
      }
      SignedCopyIs(old(mem), mem, challenge, out, len, key);
      rc := 0;
    }

    method CopyOut(tmpOut: array<Byte>, out: Word, len: Word)
      requires len <= tmpOut.Length && out as int + len <= 0x1_0000_0000
      modifies this`mem
      ensures SameOutside(old(mem), mem, out, len)
      ensures forall j: nat | j < len :: mem[out as int + j] == tmpOut[j]
    {
      var i := 0;
      while i < len
        invariant i <= len
        invariant SameOutside(old(mem), mem, out, i)
        invariant forall j: nat | j < i :: mem[out as int + j] == tmpOut[j]
      {
        mem := mem[out + i := tmpOut[i]];
        i := i + 1;
      }
    }
  }

  lemma CheckedFits(w: World, c: Caller, p: Word, len: Word, flags: Flags)
    requires len > 0 && CheckRange(c.mpu, w.sau, c.privileged, p, len, flags)
    ensures p + len <= 0x1_0000_0000
  {
  }

  lemma SignedCopyIs(m: Mem, t: Mem, challenge: Word, out: Word, len: nat, key: Key)
    requires challenge + len <= 0x1_0000_0000 && out + len <= 0x1_0000_0000
    requires SameOutside(m, t, out, len)
    requires forall j: nat | j < len :: t[out as int + j] == Xor8(m[challenge as int + j], key[j % 16])
    ensures t == SignedCopy(m, challenge, out, len, key)
  {
    hide Xor8;
    var s := SignedCopy(m, challenge, out, len, key);
    forall a: Word ensures t[a] == s[a] {
      if In(a, out, len) {
        assert t[out + (a - out)] == Xor8(m[challenge + (a - out)], key[(a - out) % 16]);
      }
    }
  }

  // ---- under the table of tz_sau_config ----

  lemma ConfiguredAttribution(w: World, a: Word)
    requires w.Configured()
    ensures Attribute(w.sau, a) == Attribute(Sau(TzSau(w.sau.regions), 1), a)
    ensures S_RAM_START <= a <= S_RAM_LIMIT ==> Attribute(w.sau, a) == Secure
  {
    hide TzSau, Attribute;
    TzSauMeaning(w.sau.regions, a);
  }

  /** Every byte secure_sign reads or writes for its caller is Non-Secure: not Secure, not NSC. */
  lemma SignStaysNonSecure(w: World, c: Caller, challenge: Word, out: Word, len: Word, a: Word)
    requires w.Configured() && SignCode(w, c, challenge, out, len) == 0
    requires In(a, challenge, len) || In(a, out, len)
    ensures Attribute(w.sau, a) == NonSecure
  {
    hide TzSau, Attribute, Separate, CheckRange;
    TzSauSeparate(w.sau.regions);
    if In(a, challenge, len) {
      CheckedIsNonSecure(c.mpu, w.sau, c.privileged, challenge, len, Flags(true, false, true), a);
    } else {
      CheckedIsNonSecure(c.mpu, w.sau, c.privileged, out, len, Flags(false, true, true), a);
    }
  }

  /** What the DMA can reach and the CPU's Non-Secure side cannot: the veneers, and the gap below 0x4000_0000. */
  predicate DmaHole(a: Word)
  {
    Within(a, 0x100F_F000, 0x100F_FFFF) || Within(a, 0x2008_0000, 0x3FFF_FFFF)
  }

  /**
   m2 differs from m1 in no byte that Non-Secure code may not touch, save those of the counter and, if the
   DMA took part, those only the DMA reaches.
   */
  ghost predicate KeptBut(w: World, m1: Mem, m2: Mem, dma: bool)
  {
    forall a: Word ::
      Attribute(w.sau, a) != NonSecure && !In(a, w.counter, 4) && !(dma && DmaHole(a)) ==> m2[a] == m1[a]
  }

  lemma SignKeeps(w: World, c: Caller, m: Mem, challenge: Word, out: Word, len: Word)
    requires w.Placed() && w.Configured()
    ensures var t := SignResult(w, c, m, challenge, out, len);
            KeptBut(w, m, t, false) && Load32(t, w.counter) == Load32(m, w.counter)
  {
    hide Attribute, Load32, Xor8, TzSau, SignCode;
    var t := SignResult(w, c, m, challenge, out, len);
    if SignCode(w, c, challenge, out, len) == 0 {
      SignFits(w, c, challenge, out, len);
      forall a: Word | Attribute(w.sau, a) != NonSecure ensures t[a] == m[a] {
        if In(a, out, len) {
          SignStaysNonSecure(w, c, challenge, out, len, a);
        }
      }
      CounterSecure(w);
      LoadSame(m, t, w.counter);
    }
  }

  // ---- exactly which code ----

  /** From a to b without leaving one Non-Secure block: flash partition, RAM, or peripherals up to the PPB. */
  predicate InOneBlock(a: Word, b: Word)
  {
    || 0x1010_0000 <= a <= b <= 0x101F_FFFF
    || 0x2004_0000 <= a <= b <= 0x2007_FFFF
    || 0x4000_0000 <= a <= b <= 0xDFFF_FFFF
  }

  lemma TzOneBlock(w: World, a: Word, b: Word)
    requires w.Configured() && a <= b
    ensures SameRegions(w.sau.regions, a, b) && Attribute(w.sau, a) == NonSecure <==> InOneBlock(a, b)
  {
    hide TzSau, Attribute, Hit, Find;
    TzSauHits(w.sau.regions, a);
    TzSauHits(w.sau.regions, b);
    TzSauMeaning(w.sau.regions, a);
    assert w.sau == Sau(TzSau(w.sau.regions), 1);
    if SameRegions(w.sau.regions, a, b) {
      forall i | 0 <= i < 4 ensures Hit(w.sau.regions[i], a) <==> Hit(w.sau.regions[i], b) {
      }
    }
  }

  /** The len bytes at p, within one Non-Secure block and one MPU region or none, granted to the caller. */
  predicate Granted(c: Caller, p: Word, len: nat, kind: Access)
    requires len > 0
  {
    && p + len <= 0x1_0000_0000
    && InOneBlock(p, p + len - 1)
    && (On(c.mpu) ==> SameRegions(c.mpu.regions, p, p + len - 1))
    && Allows(c.mpu, c.privileged, p, kind)
  }

  /**
   The return code, from the arguments and the tables alone: -1 for an empty or over-long request, else -2
   for a challenge the caller may not read, else -3 for an out it may not write, else 0.
   */
  lemma SignCodeIs(w: World, c: Caller, challenge: Word, out: Word, len: Word)
    requires w.Configured() && Separate(c.mpu.regions)
    ensures SignCode(w, c, challenge, out, len)
         == if len == 0 || len > 256 then -1
            else if !Granted(c, challenge, len, Read) then -2
            else if !Granted(c, out, len, Write) then -3
            else 0
  {
    hide Separate, CheckRange, Allows, SameRegions, Attribute, On, TzSau, InOneBlock;
    TzSauSeparate(w.sau.regions);
    if 0 < len <= 256 {
      CheckRangeIff(c.mpu, w.sau, c.privileged, challenge, len, Flags(true, false, true));
      CheckRangeIff(c.mpu, w.sau, c.privileged, out, len, Flags(false, true, true));
      if challenge + len <= 0x1_0000_0000 {
        TzOneBlock(w, challenge, challenge + len - 1);
      }
      if out + len <= 0x1_0000_0000 {
        TzOneBlock(w, out, out + len - 1);
      }
    }
  }

  /** A caller without an MPU, as the demo's: every buffer pair within Non-Secure blocks is accepted. */
  lemma SignWithoutMpu(w: World, c: Caller, challenge: Word, out: Word, len: Word)
    requires w.Configured() && !On(c.mpu) && 1 <= len <= 256
    requires challenge + len <= 0x1_0000_0000 && InOneBlock(challenge, challenge + len - 1)
    requires out + len <= 0x1_0000_0000 && InOneBlock(out, out + len - 1)
    ensures SignCode(w, c, challenge, out, len) == 0
  {
    hide Attribute;
    var bare := Caller(Unit([], c.mpu.ctrl), c.privileged);
    SignCodeIs(w, bare, challenge, out, len);
    assert SignCode(w, bare, challenge, out, len) == 0;
  }

  /**
   What an accepted call does, bit by bit: out byte i is the old challenge byte i, each bit flipped where
   byte i % 16 of the key has a one; every other byte of memory stays, and all of it on any other code.
   */
  lemma SignBytes(w: World, c: Caller, m: Mem, challenge: Word, out: Word, len: Word, x: Word)
    requires w.Placed()
    ensures var t := SignResult(w, c, m, challenge, out, len);
            if SignCode(w, c, challenge, out, len) == 0 && out <= x < out + len
            then challenge + (x - out) < 0x1_0000_0000
                 && forall k: nat ::
                      Bit(t[x], k) == (Bit(m[challenge + (x - out)], k) != Bit(m[w.key + (x - out) % 16], k))
            else t[x] == m[x]
  {
    hide SignCode, Bit;
    if SignCode(w, c, challenge, out, len) == 0 {
      SignFits(w, c, challenge, out, len);
    }
  }

  /**
   And the caller might have made the same accesses itself, as far as its own MPU goes: it may read every
   byte of the challenge, and write every byte of out -- for a privileged caller iff no read-only region of
   its MPU reaches into out, which the check of the two end points does not tell.
   */
  lemma SignPermits(w: World, c: Caller, challenge: Word, out: Word, len: Word)
    requires SignCode(w, c, challenge, out, len) == 0 && Separate(c.mpu.regions)
    ensures forall a: Word | In(a, challenge, len) :: Allows(c.mpu, c.privileged, a, Read)
    ensures (forall a: Word | In(a, out, len) :: Allows(c.mpu, c.privileged, a, Write))
       <==> !c.privileged || !On(c.mpu) || NoReadOnly(c.mpu.regions, out, len)
  {
    hide CheckRange, Allows, Separate, NoReadOnly;
    CheckedEveryByte(c.mpu, w.sau, c.privileged, challenge, len, Flags(true, false, true));
    CheckedEveryByte(c.mpu, w.sau, c.privileged, out, len, Flags(false, true, true));
  }

  lemma CounterSecure(w: World)
    requires w.Placed() && w.Configured()
    ensures forall a: Word | In(a, w.counter, 4) || In(a, w.key, 16) :: Attribute(w.sau, a) == Secure
  {
    hide TzSau, Attribute;
    forall a: Word | In(a, w.counter, 4) || In(a, w.key, 16) ensures Attribute(w.sau, a) == Secure {
      ConfiguredAttribution(w, a);
    }
  }

  lemma SignFits(w: World, c: Caller, challenge: Word, out: Word, len: Word)
    requires SignCode(w, c, challenge, out, len) == 0
    ensures 0 < len <= SECURE_SIGN_MAX && challenge + len <= 0x1_0000_0000 && out + len <= 0x1_0000_0000
  {
  }

  // ---- every run ----

  /**
   What the Non-Secure side can do: call a service with its MPU and privilege in whatever state it likes,
   store a byte where the SAU lets it, or have the DMA store one where the DMA-MPU lets it.
   */
  datatype Event =
    | GetCounter
    | SignCall(c: Caller, challenge: Word, out: Word, len: Word)
    | NsStore(a: Word, v: Byte)
    | DmaStore(a: Word, v: Byte)

  function Apply(w: World, m: Mem, e: Event): Mem
    requires w.Placed()
  {
    match e
    case GetCounter => Store32(m, w.counter, Add32(Load32(m, w.counter), 1))
    case SignCall(c, i, o, len) => SignResult(w, c, m, i, o, len)
    case NsStore(a, v) => if Attribute(w.sau, a) == NonSecure then m[a := v] else m
    case DmaStore(a, v) => if TzDmaReach(a) then m[a := v] else m
  }

  /** The table of tz_dma_mpu_config calls the address Non-Secure. */
  predicate TzDmaReach(a: Word) { DmaNonSecure(TzDma(), a) }

  function Run(w: World, m: Mem, es: seq<Event>): Mem
    requires w.Placed()
  {
    if es == [] then m else Apply(w, Run(w, m, es[..|es| - 1]), es[|es| - 1])
  }

  function Count(es: seq<Event>): nat
  {
    if es == [] then 0
    else Count(es[..|es| - 1]) + if es[|es| - 1].GetCounter? then 1 else 0
  }

  predicate UsesDma(es: seq<Event>)
  {
    exists i | 0 <= i < |es| :: es[i].DmaStore?
  }

  /** The DMA-MPU table against the CPU's view: Non-Secure memory, and the hole. */
  lemma DmaReach(w: World, a: Word)
    requires w.Configured()
    ensures Attribute(w.sau, a) != NonSecure ==> (TzDmaReach(a) <==> DmaHole(a))
  {
    hide TzSau, Attribute, DmaNonSecure, TzDma;
    TzSauMeaning(w.sau.regions, a);
    TzDmaMeaning(a);
  }

  lemma ApplyKeeps(w: World, m: Mem, e: Event)
    requires w.Placed() && w.Configured()
    ensures var t := Apply(w, m, e);
            && KeptBut(w, m, t, e.DmaStore?)
            && Load32(t, w.counter)
               == if e.GetCounter? then Add32(Load32(m, w.counter), 1) else Load32(m, w.counter)
  {
    hide Attribute, Load32, ByteOf, TzSau, SignResult, TzDmaReach;
    match e
    case GetCounter =>
    case SignCall(c, i, o, len) => SignKeeps(w, c, m, i, o, len);
    case NsStore(a, v) =>
      CounterSecure(w);
      LoadSame(m, Apply(w, m, e), w.counter);
    case DmaStore(a, v) =>
      CounterSecure(w);
      DmaReach(w, a);
      LoadSame(m, Apply(w, m, e), w.counter);
  }

  lemma KeptButTransitive(w: World, m1: Mem, m2: Mem, m3: Mem, dma1: bool, dma2: bool)
    requires KeptBut(w, m1, m2, dma1) && KeptBut(w, m2, m3, dma2)
    ensures KeptBut(w, m1, m3, dma1 || dma2)
  {
    hide Attribute;
  }

  /**
   Every interleaving of service calls, Non-Secure stores and Non-Secure DMA, whatever the Non-Secure side
   does to its own MPU and privilege in between: the key is what it was, the counter has gone up by the
   number of secure_get_counter calls, and so has no other guarded byte changed -- but the hole the DMA-MPU
   leaves, and that only if the DMA took part.
   */
  lemma {:induction false} RunKeepsSecure(w: World, m: Mem, es: seq<Event>)
    requires w.Placed() && w.Configured()
    ensures var t := Run(w, m, es);
            && KeptBut(w, m, t, UsesDma(es))
            && KeyAt(w, t) == KeyAt(w, m)
            && Load32(t, w.counter) == (Load32(m, w.counter) + Count(es)) % 0x1_0000_0000
  {
    hide Attribute, Load32, TzSau, Apply;
    if es != [] {
      var init := es[..|es| - 1];
      var last := es[|es| - 1];
      RunKeepsSecure(w, m, init);
      ApplyKeeps(w, Run(w, m, init), last);
      NextCount(Load32(m, w.counter), Count(init));
      KeptButTransitive(w, m, Run(w, m, init), Run(w, m, es), UsesDma(init), last.DmaStore?);
      assert UsesDma(init) || last.DmaStore? ==> UsesDma(es);
    }
    CounterSecure(w);
    var t := Run(w, m, es);
    forall a: Word | In(a, w.key, 16) ensures t[a] == m[a] {
    }
  }

  /** The hole is real and exact: the DMA changes a guarded byte iff it is there. */
  lemma DmaReachesIff(w: World, m: Mem, a: Word)
    requires w.Placed() && w.Configured() && Attribute(w.sau, a) != NonSecure
    ensures (exists v: Byte :: Run(w, m, [DmaStore(a, v)])[a] != m[a]) <==> DmaHole(a)
  {
    hide Attribute, TzSau, TzDmaReach;
    DmaReach(w, a);
    forall v: Byte ensures Run(w, m, [DmaStore(a, v)]) == Apply(w, m, DmaStore(a, v)) {
      var one := [DmaStore(a, v)];
      assert one[..0] == [];
    }
    var other: Byte := if m[a] == 0 then 1 else 0;
    assert DmaHole(a) ==> Run(w, m, [DmaStore(a, other)])[a] != m[a];
  }

  // ---- the two sign services agree ----

  /** Signing in place twice restores the memory. */
  lemma SignTwice(w: World, c: Caller, m: Mem, buf: Word, len: Word)
    requires w.Placed() && w.Configured()
    ensures SignResult(w, c, SignResult(w, c, m, buf, buf, len), buf, buf, len) == m
  {
    hide Attribute, Xor8, TzSau, SignCode;
    if SignCode(w, c, buf, buf, len) == 0 {
      SignFits(w, c, buf, buf, len);
      var t := SignResult(w, c, m, buf, buf, len);
      CounterSecure(w);
      forall a: Word | In(a, w.key, 16) ensures t[a] == m[a] {
        if In(a, buf, len) {
          SignStaysNonSecure(w, c, buf, buf, len, a);
        }
      }
      assert KeyAt(w, t) == KeyAt(w, m);
      CopyIsTransform(m, buf, len, KeyAt(w, m));
      CopyIsTransform(t, buf, len, KeyAt(w, m));
      TransformInvolution(m, buf, len, KeyAt(w, m));
    }
  }

  /** Where nothing wraps, signing a buffer onto itself is svc_sign's transform. */
  lemma CopyIsTransform(m: Mem, buf: Word, len: Word, key: Key)
    requires buf + len <= 0x1_0000_0000
    ensures SignedCopy(m, buf, buf, len, key) == Transform(m, buf, len, key)
  {
    hide Xor8;
    var s, t := SignedCopy(m, buf, buf, len, key), Transform(m, buf, len, key);
    forall a: Word ensures s[a] == t[a] {
    }
  }

  /**
   The monitor's svc_sign and secure_sign are siblings: on equal bytes and equal keys, a buffer both
   accept ends with the same bytes -- even where the monitor's buffer wraps past 2^32.
   */
  lemma SiblingsAgree(l: Layout, s: State, b1: Word, w: World, c: Caller, m: Mem, b2: Word, len: Word, i: Word)
    requires Free(l, s) && !SignRejects(l.prot, b1, len)
    requires w.Placed() && SignCode(w, c, b2, b2, len) == 0
    requires KeyOf(l, s.mem) == KeyAt(w, m)
    requires forall j: Word | j < len :: s.mem[Add32(b1, j)] == m[b2 as int + j]
    requires i < len
    ensures b2 + i < 0x1_0000_0000
    ensures SvcSign(l, s, b1, len).mem[Add32(b1, i)] == SignResult(w, c, m, b2, b2, len)[b2 + i]
  {
    hide Xor8, SignCode, SvcSign, SignRejects;
    SignFits(w, c, b2, b2, len);
    SvcSignMeaning(l, s, b1, len);
    assert Sub32(Add32(b1, i), b1) == i;
  }
}

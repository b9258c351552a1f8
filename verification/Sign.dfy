/** The keyed transform both services apply, in closed form, and what svc_sign's guard really tests. */
module Sign {
  import opened Bits
  import opened Memory
  import opened Pmp
  import opened Monitor

  type Key = k: seq<Byte> | |k| == 16 witness seq(16, _ => 0)

  /** The memory after buf[i] ^= key[i % 16] for every i below len, buf + i taken modulo 2^32. */
  function Transform(m: Mem, b: Word, len: nat, key: Key): Mem
  {
    seq(0x1_0000_0000, a requires 0 <= a < 0x1_0000_0000 =>
      if Sub32(a, b) < len then Xor8(m[a], key[Sub32(a, b) % 16]) else m[a])
  }

  function KeyOf(l: Layout, m: Mem): Key
    requires l.Valid()
  {
    m[l.Key()..l.Key() + 16]
  }

  /** Applying the transform twice restores the memory: signing is its own inverse. */
  lemma TransformInvolution(m: Mem, b: Word, len: nat, key: Key)
    ensures Transform(Transform(m, b, len, key), b, len, key) == m
  {
    var t := Transform(m, b, len, key);
    forall a: Word ensures Transform(t, b, len, key)[a] == m[a] {
      if Sub32(a, b) < len {
        Xor8Involution(m[a], key[Sub32(a, b) % 16]);
      }
    }
  }

  lemma TransformStep(m: Mem, b: Word, i: Word, key: Key)
    ensures var a := Add32(b, i);
            Transform(m, b, i + 1, key) == Transform(m, b, i, key)[a := Xor8(m[a], key[i % 16])]
    ensures Transform(m, b, i, key)[Add32(b, i)] == m[Add32(b, i)]
  {
    hide Xor8;
    var a := Add32(b, i);
    assert Sub32(a, b) == i;
    var t := Transform(m, b, i, key)[a := Xor8(m[a], key[i % 16])];
    forall x: Word ensures Transform(m, b, i + 1, key)[x] == t[x] {
      assert x != a ==> Sub32(x, b) != i;
    }
  }

  // ---- the guard ----

  /** Some byte of the len-byte buffer at b, counted modulo 2^32, lies in the 64 bytes at p. */
  ghost predicate Overlaps(b: Word, len: Word, p: Word)
  {
    exists i: Word :: i < len && In(Add32(b, i), p, 64)
  }

  /**
   The guard is exact under 32-bit wrap: for every buffer of 1 to 64 bytes it rejects iff a byte of
   the buffer lies in the protected block.
   */
  lemma GuardExact(p: Word, b: Word, len: Word)
    requires 64 <= p <= 0x1_0000_0000 - 128
    requires 1 <= len <= 64
    ensures SignRejects(p, b, len) <==> Overlaps(b, len, p)
  {
    if SignRejects(p, b, len) {
      var i: Word := if b >= p then 0 else p - b;
      assert i < len && In(Add32(b, i), p, 64);
    }
    if Overlaps(b, len, p) {
      var i: Word :| i < len && In(Add32(b, i), p, 64);
    }
  }

  /**
   The only 64-byte aligned blocks for which it is not exact are the first and the last of the
   address map: there a wrapped buffer is let through.
   */
  lemma GuardExactIff(p: Word)
    requires p % 64 == 0
    ensures (forall b: Word, len: Word | 1 <= len <= 64 :: SignRejects(p, b, len) <==> Overlaps(b, len, p))
       <==> 64 <= p <= 0x1_0000_0000 - 128
  {
    if 64 <= p <= 0x1_0000_0000 - 128 {
      forall b: Word, len: Word | 1 <= len <= 64
        ensures SignRejects(p, b, len) <==> Overlaps(b, len, p)
      {
        GuardExact(p, b, len);
      }
    } else if p < 64 {
      assert In(Add32(0xFFFF_FFFF, 1), p, 64);
      assert Overlaps(0xFFFF_FFFF, 2, p) && !SignRejects(p, 0xFFFF_FFFF, 2);
    } else {
      assert In(Add32(p, 0), p, 64);
      assert Overlaps(p, 1, p) && !SignRejects(p, p, 1);
    }
  }

  /** An accepted buffer has no byte in g_prot, the empty buffer included. */
  lemma AcceptedMisses(l: Layout, b: Word, len: Word, i: Word)
    requires l.Valid() && !SignRejects(l.prot, b, len) && i < len
    ensures !In(Add32(b, i), l.prot, 64)
  {
    GuardExact(l.prot, b, len);
  }

  // ---- svc_sign ----

  /** M-mode is not restricted: the state the monitor runs services in. */
  predicate Free(l: Layout, s: State)
  {
    l.Valid() && Programmed(s.csr.pmp, l.prot) && s.csr.pmp.m0 == 0
  }

  /** Then the PMP refuses M-mode nothing. */
  lemma FreeMachine(l: Layout, s: State)
    requires Free(l, s)
    ensures forall a: Word, n: nat, kind: Access ::
              Natural(a, n) ==> Allows(s.csr.pmp, Machine, a, n, kind)
  {
    forall a: Word, n: nat, kind: Access | Natural(a, n)
      ensures Allows(s.csr.pmp, Machine, a, n, kind)
    {
      ProgrammedMeaning(s.csr.pmp, l.prot, Machine, a, n, kind);
    }
  }

  /** One round of the loop while M-mode is free. */
  lemma SignByteMeaning(l: Layout, s: State, b: Word, i: Word)
    requires Free(l, s)
    ensures var a := Add32(b, i);
            SignByte(l, s, b, i)
            == s.(mem := s.mem[a := Xor8(s.mem[a], s.mem[l.Key() + i % 16])])
  {
    hide Allows, Xor8;
    FreeMachine(l, s);
    assert Natural(Add32(b, i), 1) && Natural(l.Key() + i % 16, 1);
  }

  lemma {:induction false} SignFromMeaning(l: Layout, s0: State, b: Word, len: Word, i: nat)
    requires Free(l, s0) && !SignRejects(l.prot, b, len) && i <= len
    ensures var key := KeyOf(l, s0.mem);
            SignFrom(l, s0.(mem := Transform(s0.mem, b, i, key)), b, len, i)
            == s0.(mem := Transform(s0.mem, b, len, key))
    decreases len - i
  {
    hide Allows, Xor8, SignByte, Transform, Programmed;
    if i < len {
      var key := KeyOf(l, s0.mem);
      var s := s0.(mem := Transform(s0.mem, b, i, key));
      SignByteMeaning(l, s, b, i);
      KeyUntouched(l, s0.mem, b, len, i, l.Key() + i % 16);
      TransformStep(s0.mem, b, i, key);
      SignFromMeaning(l, s0, b, len, i + 1);
    }
  }

  /** An accepted buffer leaves g_prot alone, so the loop reads the same key throughout. */
  lemma KeyUntouched(l: Layout, m: Mem, b: Word, len: Word, i: nat, a: Word)
    requires l.Valid() && !SignRejects(l.prot, b, len) && i <= len
    requires In(a, l.prot, 64)
    ensures Transform(m, b, i, KeyOf(l, m))[a] == m[a]
  {
    hide Xor8;
    if Sub32(a, b) < i {
      assert Add32(b, Sub32(a, b)) == a;
      AcceptedMisses(l, b, len, Sub32(a, b));
    }
  }

  /** What svc_sign does while M-mode is free: nothing if the guard rejects, else the transform. */
  lemma SvcSignMeaning(l: Layout, s: State, b: Word, len: Word)
    requires Free(l, s)
    ensures SvcSign(l, s, b, len)
         == if SignRejects(l.prot, b, len) then s else s.(mem := Transform(s.mem, b, len, KeyOf(l, s.mem)))
  {
    if !SignRejects(l.prot, b, len) {
      hide Xor8, Allows;
      var key := KeyOf(l, s.mem);
      assert Transform(s.mem, b, 0, key) == s.mem;
      SignFromMeaning(l, s, b, len, 0);
    }
  }

  /**
   svc_sign byte by byte, from memory to memory: the byte at x is signed iff it is among the first len <= 64
   bytes from b, counted modulo 2^32, and none of those lies in g_prot; then each of its bits is flipped
   where the key byte has a one, byte i of the buffer with byte i % 16 of the key.
   */
  lemma SvcSignBytes(l: Layout, s: State, b: Word, len: Word, x: Word)
    requires Free(l, s)
    ensures var t := SvcSign(l, s, b, len);
            var i := Sub32(x, b);
            && t == s.(mem := t.mem)
            && if i < len <= 64 && !Overlaps(b, len, l.prot)
               then forall k: nat :: Bit(t.mem[x], k) == (Bit(s.mem[x], k) != Bit(s.mem[l.prot + 8 + i % 16], k))
               else t.mem[x] == s.mem[x]
  {
    hide SvcSign, SignRejects, Programmed, Overlaps, Bit;
    SvcSignMeaning(l, s, b, len);
    if len > 64 {
      LongRejected(l.prot, b, len);
    } else if len > 0 {
      GuardExact(l.prot, b, len);
    }
  }

  lemma LongRejected(p: Word, b: Word, len: Word)
    requires len > 64
    ensures SignRejects(p, b, len)
  {
  }

  lemma KeyKept(l: Layout, m: Mem, b: Word, len: Word)
    requires l.Valid() && !SignRejects(l.prot, b, len)
    ensures KeyOf(l, Transform(m, b, len, KeyOf(l, m))) == KeyOf(l, m)
  {
    hide Transform, SignRejects;
    var t := Transform(m, b, len, KeyOf(l, m));
    forall a: Word | In(a, l.Key(), 16) ensures t[a] == m[a] {
      KeyUntouched(l, m, b, len, len, a);
    }
  }

  /** Signing any buffer twice leaves the state as it was. */
  lemma SvcSignTwice(l: Layout, s: State, b: Word, len: Word)
    requires Free(l, s)
    ensures SvcSign(l, SvcSign(l, s, b, len), b, len) == s
  {
    hide Transform, SvcSign, Programmed, SignRejects;
    SvcSignMeaning(l, s, b, len);
    var t := SvcSign(l, s, b, len);
    SvcSignMeaning(l, t, b, len);
    if !SignRejects(l.prot, b, len) {
      KeyKept(l, s.mem, b, len);
      TransformInvolution(s.mem, b, len, KeyOf(l, s.mem));
    }
  }
}

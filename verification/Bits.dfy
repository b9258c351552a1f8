/** 32-bit words, bytes and the C bit operators the firmware uses, over mathematical integers. */
module Bits {

  type Word = x: int | 0 <= x < 0x1_0000_0000
  type Byte = x: int | 0 <= x < 0x100

  /** What the protection units of both architectures tell apart. */
  datatype Access = Read | Write | Execute

  /** Unsigned 32-bit addition: the sum modulo 2^32. */
  function Add32(a: Word, b: Word): (r: Word)
    ensures r == (a + b) % 0x1_0000_0000
  {
    if a + b < 0x1_0000_0000 then a + b else a + b - 0x1_0000_0000
  }

  /** Unsigned 32-bit subtraction: the difference modulo 2^32. */
  function Sub32(a: Word, b: Word): (r: Word)
    ensures r == (a - b) % 0x1_0000_0000
  {
    if a >= b then a - b else a - b + 0x1_0000_0000
  }

  /** Counting on, modulo 2^32. */
  lemma NextCount(c: Word, k: nat)
    ensures (c + k + 1) % 0x1_0000_0000 == Add32((c + k) % 0x1_0000_0000, 1)
  {
  }

  function Pow2(n: nat): (r: nat)
    ensures r > 0
  {
    if n == 0 then 1 else 2 * Pow2(n - 1)
  }

  lemma DoubleProduct(p: nat, q: nat)
    ensures 2 * (p * q) == (2 * p) * q
  {
  }

  lemma {:induction false} Pow2Sum(m: nat, n: nat)
    ensures Pow2(m + n) == Pow2(m) * Pow2(n)
  {
    if m > 0 {
      Pow2Sum(m - 1, n);
      DoubleProduct(Pow2(m - 1), Pow2(n));
    }
  }

  lemma Pow2Of32()
    ensures Pow2(32) == 0x1_0000_0000
  {
    assert Pow2(8) == 0x100;
    Pow2Sum(8, 8);
    Pow2Sum(16, 16);
  }

  lemma DivByBlock(q: nat, d: nat, r: nat, x: nat)
    requires d > 0 && r < d && x == q * d + r
    ensures x / d == q && x % d == r
  {
    var e := x / d;
    assert e < q ==> (e + 1) * d <= q * d;
    assert e > q ==> (q + 1) * d <= e * d;
  }

  /** Bit i of a number. */
  predicate Bit(v: nat, i: nat) { v / Pow2(i) % 2 == 1 }

  lemma BitZero(v: nat)
    ensures Bit(v, 0) <==> v % 2 == 1
  {
    assert Pow2(0) == 1;
  }

  lemma BitOfHalf(v: nat, i: nat)
    ensures Bit(v, i + 1) == Bit(v / 2, i)
  {
    var p := Pow2(i);
    var q, r := v / 2 / p, v / 2 % p;
    assert v / 2 == q * p + r;
    assert q * (2 * p) == 2 * (q * p);
    DivByBlock(q, 2 * p, 2 * r + v % 2, v);
  }

  /** Bitwise exclusive or, least significant bit first. */
  function BitXor(a: nat, b: nat): nat
    decreases a + b
  {
    if a == 0 && b == 0 then 0 else (if a % 2 == b % 2 then 0 else 1) + 2 * BitXor(a / 2, b / 2)
  }

  /** Bitwise or, least significant bit first. */
  function BitOr(a: nat, b: nat): nat
    decreases a + b
  {
    if a == 0 && b == 0 then 0
    else (if a % 2 == 1 || b % 2 == 1 then 1 else 0) + 2 * BitOr(a / 2, b / 2)
  }

  /** What exclusive or is: a bit is set iff it is set in exactly one of the two. */
  lemma {:induction false} XorBits(a: nat, b: nat, i: nat)
    ensures Bit(BitXor(a, b), i) == (Bit(a, i) != Bit(b, i))
    decreases i
  {
    var x := BitXor(a, b);
    if a == 0 && b == 0 {
    } else {
      assert x / 2 == BitXor(a / 2, b / 2) && (x % 2 == 0 <==> a % 2 == b % 2);
      if i == 0 {
        BitZero(x);
        BitZero(a);
        BitZero(b);
      } else {
        BitOfHalf(x, i - 1);
        BitOfHalf(a, i - 1);
        BitOfHalf(b, i - 1);
        XorBits(a / 2, b / 2, i - 1);
      }
    }
  }

  /** What or is: a bit is set iff it is set in one of the two. */
  lemma {:induction false} OrBits(a: nat, b: nat, i: nat)
    ensures Bit(BitOr(a, b), i) == (Bit(a, i) || Bit(b, i))
    decreases i
  {
    var x := BitOr(a, b);
    if a == 0 && b == 0 {
    } else {
      assert x / 2 == BitOr(a / 2, b / 2) && (x % 2 == 1 <==> a % 2 == 1 || b % 2 == 1);
      if i == 0 {
        BitZero(x);
        BitZero(a);
        BitZero(b);
      } else {
        BitOfHalf(x, i - 1);
        BitOfHalf(a, i - 1);
        BitOfHalf(b, i - 1);
        OrBits(a / 2, b / 2, i - 1);
      }
    }
  }

  /** XOR with the same operand twice gives the first operand back. */
  lemma {:induction false} XorInvolution(a: nat, b: nat)
    ensures BitXor(BitXor(a, b), b) == a
    decreases a + b
  {
    if a != 0 || b != 0 {
      var x := BitXor(a, b);
      var half := BitXor(a / 2, b / 2);
      assert x / 2 == half && (x % 2 == 0 <==> a % 2 == b % 2);
      XorInvolution(a / 2, b / 2);
    }
  }

  /** XOR of two n-bit numbers is an n-bit number. */
  lemma {:induction false} XorBound(a: nat, b: nat, n: nat)
    requires a < Pow2(n) && b < Pow2(n)
    ensures BitXor(a, b) < Pow2(n)
  {
    if n > 0 && (a != 0 || b != 0) {
      XorBound(a / 2, b / 2, n - 1);
    }
  }

  /** The C expression `(uint8_t)(a ^ b)` on two bytes. */
  function Xor8(a: Byte, b: Byte): (r: Byte)
    ensures forall i: nat :: Bit(r, i) == (Bit(a, i) != Bit(b, i))
  {
    assert Pow2(8) == 256;
    XorBound(a, b, 8);
    assert forall i: nat :: Bit(BitXor(a, b), i) == (Bit(a, i) != Bit(b, i)) by {
      forall i: nat ensures Bit(BitXor(a, b), i) == (Bit(a, i) != Bit(b, i)) {
        XorBits(a, b, i);
      }
    }
    BitXor(a, b)
  }

  lemma Xor8Involution(a: Byte, b: Byte)
    ensures Xor8(Xor8(a, b), b) == a
  {
    XorInvolution(a, b);
  }

  /** XOR leaves a number as it is only with zero. */
  lemma {:induction false} XorChanges(a: nat, b: nat)
    ensures BitXor(a, b) == a <==> b == 0
    decreases a + b
  {
    if a != 0 || b != 0 {
      XorChanges(a / 2, b / 2);
    }
  }

  lemma Xor8Changes(a: Byte, b: Byte)
    ensures Xor8(a, b) == a <==> b == 0
  {
    XorChanges(a, b);
  }

  /** Or-ing a number whose low n bits are zero with n low bits is adding them. */
  lemma {:induction false} OrDisjoint(m: nat, low: nat, n: nat)
    requires low < Pow2(n)
    ensures BitOr(m * Pow2(n), low) == m * Pow2(n) + low
  {
    if n == 0 {
      OrZero(m);
      assert m * Pow2(0) == m;
    } else {
      var h := m * Pow2(n - 1);
      assert m * Pow2(n) == 2 * h;
      OrDisjoint(m, low / 2, n - 1);
    }
  }

  lemma {:induction false} OrZero(a: nat)
    ensures BitOr(a, 0) == a
  {
    if a != 0 {
      OrZero(a / 2);
    }
  }

  /** Or of two n-bit numbers is an n-bit number. */
  lemma {:induction false} OrBound(a: nat, b: nat, n: nat)
    requires a < Pow2(n) && b < Pow2(n)
    ensures BitOr(a, b) < Pow2(n)
  {
    if n > 0 && (a != 0 || b != 0) {
      OrBound(a / 2, b / 2, n - 1);
    }
  }

  /** The C expression `a | b` on two 32-bit words. */
  function Or32(a: Word, b: Word): (r: Word)
    ensures forall i: nat :: Bit(r, i) == (Bit(a, i) || Bit(b, i))
  {
    Pow2Of32();
    OrBound(a, b, 32);
    assert forall i: nat :: Bit(BitOr(a, b), i) == (Bit(a, i) || Bit(b, i)) by {
      forall i: nat ensures Bit(BitOr(a, b), i) == (Bit(a, i) || Bit(b, i)) {
        OrBits(a, b, i);
      }
    }
    BitOr(a, b)
  }
}

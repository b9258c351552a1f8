/** Byte-addressed little-endian memory: one byte behind each of the 2^32 addresses. */
module Memory {
  import opened Bits

  type Mem = m: seq<Byte> | |m| == 0x1_0000_0000
    witness seq(0x1_0000_0000, _ => 0)

  /** Byte number k of a word, least significant first. */
  function ByteOf(v: Word, k: nat): Byte
    requires k < 4
  {
    if k == 0 then v % 0x100
    else if k == 1 then v / 0x100 % 0x100
    else if k == 2 then v / 0x1_0000 % 0x100
    else v / 0x100_0000
  }

  /** The four bytes of a word, weighed by position, are the word. */
  lemma BytesJoin(v: Word)
    ensures v == ByteOf(v, 0) as int + 0x100 * (ByteOf(v, 1) as int)
                 + 0x1_0000 * (ByteOf(v, 2) as int) + 0x100_0000 * (ByteOf(v, 3) as int)
  {
    var h := v / 0x100;
    assert h / 0x100 == v / 0x1_0000;
    assert h / 0x100 / 0x100 == v / 0x100_0000;
  }

  function Load16(m: Mem, a: Word): (r: Word)
    requires a % 2 == 0
    ensures r < 0x1_0000
  {
    m[a] as int + 0x100 * (m[a + 1] as int)
  }

  function Load32(m: Mem, a: Word): Word
    requires a % 4 == 0
  {
    m[a] as int + 0x100 * (m[a + 1] as int)
    + 0x1_0000 * (m[a + 2] as int) + 0x100_0000 * (m[a + 3] as int)
  }

  function Store16(m: Mem, a: Word, v: Word): (r: Mem)
    requires a % 2 == 0
    ensures Load16(r, a) == v % 0x1_0000
    ensures forall x: Word :: !(a <= x < a + 2) ==> r[x] == m[x]
  {
    m[a := ByteOf(v, 0)][a + 1 := ByteOf(v, 1)]
  }

  function Store32(m: Mem, a: Word, v: Word): (r: Mem)
    requires a % 4 == 0
    ensures Load32(r, a) == v
    ensures forall x: Word :: !(a <= x < a + 4) ==> r[x] == m[x]
  {
    BytesJoin(v);
    m[a := ByteOf(v, 0)][a + 1 := ByteOf(v, 1)][a + 2 := ByteOf(v, 2)][a + 3 := ByteOf(v, 3)]
  }

  /** The address lies in the size-byte block at base. */
  predicate In(a: int, base: int, size: int)
  {
    base <= a < base + size
  }

  /** The two blocks share no byte. */
  predicate Apart(a: int, n: int, b: int, m: int)
  {
    a + n <= b || b + m <= a
  }

  /** m2 differs from m1 at most inside the block. */
  ghost predicate SameOutside(m1: Mem, m2: Mem, base: int, size: int)
  {
    forall x: Word :: !In(x, base, size) ==> m2[x] == m1[x]
  }

  ghost predicate SameInside(m1: Mem, m2: Mem, base: int, size: int)
  {
    forall x: Word :: In(x, base, size) ==> m2[x] == m1[x]
  }

  lemma LoadSame(m1: Mem, m2: Mem, a: Word)
    requires a % 4 == 0 && SameInside(m1, m2, a, 4)
    ensures Load32(m1, a) == Load32(m2, a)
  {
    assert m1[a + 1] == m2[a + 1] && m1[a + 2] == m2[a + 2] && m1[a + 3] == m2[a + 3];
  }

  /** A word determines its four bytes. */
  lemma LoadInjective(m1: Mem, m2: Mem, a: Word)
    requires a % 4 == 0 && Load32(m1, a) == Load32(m2, a)
    ensures SameInside(m1, m2, a, 4)
  {
    var h1, h2 := m1[a + 2] as int + 0x100 * (m1[a + 3] as int), m2[a + 2] as int + 0x100 * (m2[a + 3] as int);
    var g1, g2 := m1[a + 1] as int + 0x100 * h1, m2[a + 1] as int + 0x100 * h2;
    SameDigit(m1[a], g1, m2[a], g2);
    SameDigit(m1[a + 1], h1, m2[a + 1], h2);
    SameDigit(m1[a + 2], m1[a + 3], m2[a + 2], m2[a + 3]);
  }

  lemma SameDigit(b1: Byte, h1: nat, b2: Byte, h2: nat)
    requires b1 as int + 0x100 * h1 == b2 as int + 0x100 * h2
    ensures b1 == b2 && h1 == h2
  {
  }
}

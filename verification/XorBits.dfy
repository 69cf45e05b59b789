/** What `Xor` of Word64 computes, byte by byte. */
module XorBits {
  import opened Word64

  function One(b: bool): nat { if b then 1 else 0 }

  lemma Halve(a: nat, b: bool)
    ensures (2 * a + One(b)) / 2 == a && (2 * a + One(b)) % 2 == One(b)
  {
  }

  lemma Parity(a: nat, b: nat, c: bool, d: bool)
    ensures (2 * a + One(c) + (2 * b + One(d))) % 2 == One(c != d)
  {
  }

  /** `r` is the exclusive or of `a` and `b`. */
  predicate IsXor(a: nat, b: nat, r: nat) { Xor(a, b) == r }

  lemma OneBit(a: nat, b: nat, r: nat, c: bool, d: bool)
    requires IsXor(a, b, r)
    ensures IsXor(2 * a + One(c), 2 * b + One(d), 2 * r + One(c != d))
  {
    Halve(a, c);
    Halve(b, d);
    XorStep(2 * a + One(c), 2 * b + One(d));
    Parity(a, b, c, d);
  }

  lemma TwoBits(a: nat, b: nat, r: nat, c: bool, d: bool, e: bool, f: bool, x: nat, y: nat, z: nat)
    requires IsXor(a, b, r)
    requires x == 4 * a + 2 * One(c) + One(e) && y == 4 * b + 2 * One(d) + One(f)
    requires z == 4 * r + 2 * One(c != d) + One(e != f)
    ensures IsXor(x, y, z)
  {
    OneBit(a, b, r, c, d);
    OneBit(2 * a + One(c), 2 * b + One(d), 2 * r + One(c != d), e, f);
  }

  /** Four bits, the highest first. */
  datatype Nibble = Nibble(a: bool, b: bool, c: bool, d: bool)

  function Num4(n: Nibble): nat { 8 * One(n.a) + 4 * One(n.b) + 2 * One(n.c) + One(n.d) }

  function Differ4(n: Nibble, m: Nibble): Nibble { Nibble(n.a != m.a, n.b != m.b, n.c != m.c, n.d != m.d) }

  lemma FourBits(a: nat, b: nat, r: nat, n: Nibble, m: Nibble, x: nat, y: nat, z: nat)
    requires IsXor(a, b, r)
    requires x == 16 * a + Num4(n) && y == 16 * b + Num4(m) && z == 16 * r + Num4(Differ4(n, m))
    ensures IsXor(x, y, z)
  {
    var a2, b2, r2 := 4 * a + 2 * One(n.a) + One(n.b), 4 * b + 2 * One(m.a) + One(m.b),
                      4 * r + 2 * One(n.a != m.a) + One(n.b != m.b);
    TwoBits(a, b, r, n.a, m.a, n.b, m.b, a2, b2, r2);
    TwoBits(a2, b2, r2, n.c, m.c, n.d, m.d, x, y, z);
  }

  /** A byte. */
  datatype Octet = Octet(high: Nibble, low: Nibble)

  function Num8(n: Octet): nat { 16 * Num4(n.high) + Num4(n.low) }

  function Differ8(n: Octet, m: Octet): Octet { Octet(Differ4(n.high, m.high), Differ4(n.low, m.low)) }

  lemma EightBits(a: nat, b: nat, r: nat, n: Octet, m: Octet, x: nat, y: nat, z: nat)
    requires IsXor(a, b, r)
    requires x == 0x100 * a + Num8(n) && y == 0x100 * b + Num8(m) && z == 0x100 * r + Num8(Differ8(n, m))
    ensures IsXor(x, y, z)
  {
    var a1, b1, r1 := 16 * a + Num4(n.high), 16 * b + Num4(m.high), 16 * r + Num4(Differ4(n.high, m.high));
    FourBits(a, b, r, n.high, m.high, a1, b1, r1);
    FourBits(a1, b1, r1, n.low, m.low, x, y, z);
  }

  function UpperOf(x: bv8): Nibble { Nibble(x & 128 != 0, x & 64 != 0, x & 32 != 0, x & 16 != 0) }

  function LowerOf(x: bv8): Nibble { Nibble(x & 8 != 0, x & 4 != 0, x & 2 != 0, x & 1 != 0) }

  function OctetOf(x: bv8): Octet { Octet(UpperOf(x), LowerOf(x)) }

  lemma UpperXor(x: bv8, y: bv8)
    ensures Differ4(UpperOf(x), UpperOf(y)) == UpperOf(x ^ y)
  {
  }

  lemma LowerXor(x: bv8, y: bv8)
    ensures Differ4(LowerOf(x), LowerOf(y)) == LowerOf(x ^ y)
  {
  }

  lemma UpperNum(x: bv8)
    ensures 16 * Num4(UpperOf(x)) == (x & 0xF0) as nat
  {
  }

  lemma LowerNum(x: bv8)
    ensures Num4(LowerOf(x)) == (x & 0x0F) as nat
  {
  }

  lemma OctetNum(x: bv8)
    ensures Num8(OctetOf(x)) == x as nat
  {
    UpperNum(x);
    LowerNum(x);
    assert (x & 0xF0) as nat + (x & 0x0F) as nat == x as nat;
  }

  lemma OneByte(a: nat, b: nat, r: nat, p: bv8, q: bv8, x: nat, y: nat, z: nat)
    requires IsXor(a, b, r)
    requires x == 0x100 * a + p as nat && y == 0x100 * b + q as nat && z == 0x100 * r + (p ^ q) as nat
    ensures IsXor(x, y, z)
  {
    UpperXor(p, q);
    LowerXor(p, q);
    OctetNum(p);
    OctetNum(q);
    OctetNum(p ^ q);
    EightBits(a, b, r, OctetOf(p), OctetOf(q), x, y, z);
  }

  // ----- words -----

  function Num16(p: bv8, q: bv8): nat { 0x100 * (p as nat) + q as nat }

  lemma TwoBytes(a: nat, b: nat, r: nat, p: bv8, q: bv8, p': bv8, q': bv8, x: nat, y: nat, z: nat)
    requires IsXor(a, b, r)
    requires x == 0x1_0000 * a + Num16(p, p') && y == 0x1_0000 * b + Num16(q, q')
    requires z == 0x1_0000 * r + Num16(p ^ q, p' ^ q')
    ensures IsXor(x, y, z)
  {
    var a1, b1, r1 := 0x100 * a + p as nat, 0x100 * b + q as nat, 0x100 * r + (p ^ q) as nat;
    OneByte(a, b, r, p, q, a1, b1, r1);
    OneByte(a1, b1, r1, p', q', x, y, z);
  }

  function Num32(a: bv8, b: bv8, c: bv8, d: bv8): nat { 0x1_0000 * Num16(a, b) + Num16(c, d) }

  lemma FourBytes(a: nat, b: nat, r: nat, p: bv8, q: bv8, p': bv8, q': bv8, s: bv8, t: bv8, s': bv8, t': bv8,
                  x: nat, y: nat, z: nat)
    requires IsXor(a, b, r)
    requires x == 0x1_0000_0000 * a + Num32(p, p', s, s') && y == 0x1_0000_0000 * b + Num32(q, q', t, t')
    requires z == 0x1_0000_0000 * r + Num32(p ^ q, p' ^ q', s ^ t, s' ^ t')
    ensures IsXor(x, y, z)
  {
    var a2, b2, r2 := 0x1_0000 * a + Num16(p, p'), 0x1_0000 * b + Num16(q, q'), 0x1_0000 * r + Num16(p ^ q, p' ^ q');
    TwoBytes(a, b, r, p, q, p', q', a2, b2, r2);
    TwoBytes(a2, b2, r2, s, t, s', t', x, y, z);
  }

  lemma UpperBytes(p: bv8, q: bv8, p': bv8, q': bv8, s: bv8, t: bv8, s': bv8, t': bv8)
    ensures IsXor(Num32(p, p', s, s'), Num32(q, q', t, t'), Num32(p ^ q, p' ^ q', s ^ t, s' ^ t'))
  {
    assert IsXor(0, 0, 0);
    FourBytes(0, 0, 0, p, q, p', q', s, t, s', t', Num32(p, p', s, s'), Num32(q, q', t, t'),
              Num32(p ^ q, p' ^ q', s ^ t, s' ^ t'));
  }

  function Num64(a: bv8, b: bv8, c: bv8, d: bv8, e: bv8, f: bv8, g: bv8, h: bv8): nat {
    0x1_0000_0000 * Num32(a, b, c, d) + Num32(e, f, g, h)
  }

  /** Xor is the exclusive or of the bytes, the highest first. */
  lemma XorBytes(a: bv8, b: bv8, c: bv8, d: bv8, e: bv8, f: bv8, g: bv8, h: bv8,
                 a': bv8, b': bv8, c': bv8, d': bv8, e': bv8, f': bv8, g': bv8, h': bv8, x: nat, y: nat, z: nat)
    requires x == Num64(a, b, c, d, e, f, g, h) && y == Num64(a', b', c', d', e', f', g', h')
    requires z == Num64(a ^ a', b ^ b', c ^ c', d ^ d', e ^ e', f ^ f', g ^ g', h ^ h')
    ensures IsXor(x, y, z)
  {
    UpperBytes(a, a', b, b', c, c', d, d');
    FourBytes(Num32(a, b, c, d), Num32(a', b', c', d'), Num32(a ^ a', b ^ b', c ^ c', d ^ d'),
              e, e', f, f', g, g', h, h', x, y, z);
  }
}

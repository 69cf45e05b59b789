/** What CityHash64 gives for some decimal user ids, worked out step by step. */
module CityValues {
  import opened Word64
  import opened CityHash
  import opened XorBits

  // ----- HashLen16 -----

  /** The values that HashLen16 goes through from `u` and `v` to `r`. */
  datatype Trail = Trail(u: Word, v: Word, x: Word, m: Word, q: Word, a: Word, y: Word, n: Word, w: Word, b: Word,
                         r: Word)

  /** Times kMul, modulo 2^64. */
  predicate TimesKmul(a: Word, r: Word) { a * 0x9ddfea08eb382d69 % 0x1_0000_0000_0000_0000 == r }

  predicate Products(t: Trail) {
    && TimesKmul(t.x, t.m) && t.q == t.m / 0x8000_0000_0000
    && TimesKmul(t.y, t.n) && t.w == t.n / 0x8000_0000_0000
    && TimesKmul(t.b, t.r)
  }

  predicate FirstXors(t: Trail) { IsXor(t.u, t.v, t.x) && IsXor(t.m, t.q, t.a) }

  predicate LastXors(t: Trail) { IsXor(t.v, t.a, t.y) && IsXor(t.n, t.w, t.b) }

  lemma HashLen16Is(t: Trail)
    requires Products(t) && FirstXors(t) && LastXors(t)
    ensures HashLen16(t.u, t.v) == t.r
  {
  }

  // ----- loads and rotations -----

  /** Four bytes, the lowest first, below the rest. */
  function Little(a: nat, b: nat, c: nat, d: nat, rest: nat): nat {
    a + 0x100 * b + 0x1_0000 * c + 0x100_0000 * d + 0x1_0000_0000 * rest
  }

  lemma LoadFour(s: seq<Byte>, p: nat, q: nat)
    requires p + 4 <= q <= |s|
    ensures Load(s, p, q) == Little(s[p], s[p + 1], s[p + 2], s[p + 3], Load(s, p + 4, q))
  {
    assert Load(s, p, q) == s[p] + 0x100 * (s[p + 1] + 0x100 * Load(s, p + 2, q));
    assert Load(s, p + 2, q) == s[p + 2] + 0x100 * (s[p + 3] + 0x100 * Load(s, p + 4, q));
  }

  /** The bytes in memory, the lowest first. */
  lemma Load32Is(s: seq<Byte>, p: nat, a: nat, b: nat, c: nat, d: nat)
    requires p + 4 <= |s| && s[p] == a && s[p + 1] == b && s[p + 2] == c && s[p + 3] == d
    ensures Load32(s, p) == Little(a, b, c, d, 0)
  {
    LoadFour(s, p, p + 4);
  }

  lemma Load64Is(s: seq<Byte>, p: nat, a: nat, b: nat, c: nat, d: nat, e: nat, f: nat, g: nat, h: nat)
    requires p + 8 <= |s| && s[p] == a && s[p + 1] == b && s[p + 2] == c && s[p + 3] == d
    requires s[p + 4] == e && s[p + 5] == f && s[p + 6] == g && s[p + 7] == h
    ensures Load64(s, p) == Little(a, b, c, d, Little(e, f, g, h, 0))
  {
    LoadFour(s, p, p + 8);
    LoadFour(s, p + 4, p + 8);
  }

  lemma RotateIs(v: Word, shift: nat, p: nat, q: nat, high: nat, low: nat)
    requires 1 <= shift <= 63 && Pow2(shift) == p && Pow2(64 - shift) == q
    requires v == high * p + low && low < p
    ensures Rotate(v, shift) == high + low * q
  {
    QuotientIs(v, p, high, low);
  }

  lemma LowPowers()
    ensures Pow2(10) == 0x400 && Pow2(20) == 0x10_0000 && Pow2(21) == 0x20_0000
  {
    Pow2Next8(0);
    Pow2Next8(8);
    assert Pow2(10) == 2 * Pow2(9) == 4 * Pow2(8);
    assert Pow2(19) == 2 * Pow2(18) && Pow2(18) == 2 * Pow2(17) == 4 * Pow2(16);
    assert Pow2(21) == 2 * Pow2(20) == 4 * Pow2(19);
  }

  lemma MiddlePowers()
    ensures Pow2(30) == 0x4000_0000 && Pow2(34) == 0x4_0000_0000
  {
    WordIsPow();
    assert Pow2(32) == 2 * Pow2(31) == 4 * Pow2(30);
    assert Pow2(34) == 2 * Pow2(33) == 4 * Pow2(32);
  }

  lemma HighPowers()
    ensures Pow2(43) == 0x800_0000_0000 && Pow2(44) == 0x1000_0000_0000 && Pow2(54) == 0x40_0000_0000_0000
  {
    WordIsPow();
    assert Pow2(47) == 2 * Pow2(46) == 4 * Pow2(45);
    assert Pow2(45) == 2 * Pow2(44) == 4 * Pow2(43);
    Pow2Next8(46);
  }

  // ----- up to 3 digits -----

  lemma Products3()
    ensures Mul(0x3733, K2) == 0x48bae102778dc8bd && Mul(0xe7, K3) == 0xa1a1b4d9beed7181
    ensures 0xe91b55dbc960b93c / 0x8000_0000_0000 == 0x1d236 && Mul(0xe91b55dbc9616b0a, K2) == 0x421069ec8b728816
  {
  }

  lemma Xors3()
    ensures IsXor(0x48bae102778dc8bd, 0xa1a1b4d9beed7181, 0xe91b55dbc960b93c)
    ensures IsXor(0xe91b55dbc960b93c, 0x1d236, 0xe91b55dbc9616b0a)
  {
    XorBytes(0x48, 0xba, 0xe1, 0x02, 0x77, 0x8d, 0xc8, 0xbd,
             0xa1, 0xa1, 0xb4, 0xd9, 0xbe, 0xed, 0x71, 0x81,
             0x48bae102778dc8bd, 0xa1a1b4d9beed7181, 0xe91b55dbc960b93c);
    XorBytes(0xe9, 0x1b, 0x55, 0xdb, 0xc9, 0x60, 0xb9, 0x3c,
             0x00, 0x00, 0x00, 0x00, 0x00, 0x01, 0xd2, 0x36,
             0xe91b55dbc960b93c, 0x1d236, 0xe91b55dbc9616b0a);
  }

  lemma Len3Is(s: seq<Byte>, p: Word, q: Word, x: Word, m: Word)
    requires s == [51, 55, 57] && Mul(0x3733, K2) == p && Mul(0xe7, K3) == q
    requires IsXor(p, q, x) && IsXor(x, x / 0x8000_0000_0000, m)
    ensures Hash64(s, 0, |s|) == Mul(m, K2)
  {
  }

  /** User 379. */
  lemma HashOf3Digits(s: seq<Byte>)
    requires s == [51, 55, 57]
    ensures Hash64(s, 0, |s|) == 0x421069ec8b728816
  {
    Products3();
    Xors3();
    Len3Is(s, 0x48bae102778dc8bd, 0xa1a1b4d9beed7181, 0xe91b55dbc960b93c, 0xe91b55dbc9616b0a);
  }

  // ----- 4 to 8 digits -----

  const TRAIL4 := Trail(0x18981818c, 0x31303031, 0x1b8b1b1bd, 0x8393231b5d781f85, 0x10726, 0x8393231b5d7918a3,
                        0x8393231b6c492892, 0xd178c9172c134de2, 0x1a2f1, 0xd178c9172c12ef13, 0x16697324f265cb)

  lemma Products4()
    ensures Products(TRAIL4)
  {
  }

  lemma FirstXors4()
    ensures FirstXors(TRAIL4)
  {
    XorBytes(0x00, 0x00, 0x00, 0x01, 0x89, 0x81, 0x81, 0x8c,
             0x00, 0x00, 0x00, 0x00, 0x31, 0x30, 0x30, 0x31,
             0x18981818c, 0x31303031, 0x1b8b1b1bd);
    XorBytes(0x83, 0x93, 0x23, 0x1b, 0x5d, 0x78, 0x1f, 0x85,
             0x00, 0x00, 0x00, 0x00, 0x00, 0x01, 0x07, 0x26,
             0x8393231b5d781f85, 0x10726, 0x8393231b5d7918a3);
  }

  lemma LastXors4()
    ensures LastXors(TRAIL4)
  {
    XorBytes(0x00, 0x00, 0x00, 0x00, 0x31, 0x30, 0x30, 0x31,
             0x83, 0x93, 0x23, 0x1b, 0x5d, 0x79, 0x18, 0xa3,
             0x31303031, 0x8393231b5d7918a3, 0x8393231b6c492892);
    XorBytes(0xd1, 0x78, 0xc9, 0x17, 0x2c, 0x13, 0x4d, 0xe2,
             0x00, 0x00, 0x00, 0x00, 0x00, 0x01, 0xa2, 0xf1,
             0xd178c9172c134de2, 0x1a2f1, 0xd178c9172c12ef13);
  }

  lemma Mixed4()
    ensures HashLen16(TRAIL4.u, TRAIL4.v) == 0x16697324f265cb
  {
    Products4();
    FirstXors4();
    LastXors4();
    HashLen16Is(TRAIL4);
  }

  /** User 1001. */
  lemma HashOf4Digits(s: seq<Byte>)
    requires s == [49, 48, 48, 49]
    ensures Hash64(s, 0, |s|) == 0x16697324f265cb
  {
    Load32Is(s, 0, 49, 48, 48, 49);
    assert Hash64(s, 0, 4) == HashLen16(TRAIL4.u, TRAIL4.v);
    Mixed4();
  }

  // ----- 9 to 16 digits -----

  const TRAIL10 := Trail(0x3030303030303031, 0xe8c4c0c0c0c0c0c, 0x3ebc7c3c3c3c3c3d, 0x28b2a7ac77a36e05, 0x5165,
                         0x28b2a7ac77a33f60, 0x263eeba07baf336c, 0xa56d1077ea86134c, 0x14ada,
                         0xa56d1077ea875996, 0xc7ee4af147131c86)

  lemma Products10()
    ensures Products(TRAIL10)
  {
  }

  lemma FirstXors10()
    ensures FirstXors(TRAIL10)
  {
    XorBytes(0x30, 0x30, 0x30, 0x30, 0x30, 0x30, 0x30, 0x31,
             0x0e, 0x8c, 0x4c, 0x0c, 0x0c, 0x0c, 0x0c, 0x0c,
             0x3030303030303031, 0xe8c4c0c0c0c0c0c, 0x3ebc7c3c3c3c3c3d);
    XorBytes(0x28, 0xb2, 0xa7, 0xac, 0x77, 0xa3, 0x6e, 0x05,
             0x00, 0x00, 0x00, 0x00, 0x00, 0x00, 0x51, 0x65,
             0x28b2a7ac77a36e05, 0x5165, 0x28b2a7ac77a33f60);
  }

  lemma LastXors10()
    ensures LastXors(TRAIL10)
  {
    XorBytes(0x0e, 0x8c, 0x4c, 0x0c, 0x0c, 0x0c, 0x0c, 0x0c,
             0x28, 0xb2, 0xa7, 0xac, 0x77, 0xa3, 0x3f, 0x60,
             0xe8c4c0c0c0c0c0c, 0x28b2a7ac77a33f60, 0x263eeba07baf336c);
    XorBytes(0xa5, 0x6d, 0x10, 0x77, 0xea, 0x86, 0x13, 0x4c,
             0x00, 0x00, 0x00, 0x00, 0x00, 0x01, 0x4a, 0xda,
             0xa56d1077ea86134c, 0x14ada, 0xa56d1077ea875996);
  }

  lemma Mixed10()
    ensures HashLen16(TRAIL10.u, TRAIL10.v) == 0xc7ee4af147131c86
  {
    Products10();
    FirstXors10();
    LastXors10();
    HashLen16Is(TRAIL10);
  }

  lemma Len10Is(s: seq<Byte>, w: Word, b: Word, v: Word, h: Word, r: Word)
    requires |s| == 10 && Load64(s, 0) == w && Load64(s, 2) == b && Rotate(Add(b, 10), 10) == v
    requires HashLen16(w, v) == h && IsXor(h, b, r)
    ensures Hash64(s, 0, |s|) == r
  {
  }

  lemma Turned10()
    ensures Rotate(Add(0x3130303030303030, 10), 10) == TRAIL10.v
  {
    LowPowers();
    HighPowers();
    RotateIs(0x313030303030303a, 10, 0x400, 0x40000000000000, 0xc4c0c0c0c0c0c, 0x3a);
  }

  lemma Load10At0(s: seq<Byte>)
    requires s == [49, 48, 48, 48, 48, 48, 48, 48, 48, 49]
    ensures Load64(s, 0) == 0x3030303030303031
  {
    Load64Is(s, 0, 49, 48, 48, 48, 48, 48, 48, 48);
  }

  lemma Load10At2(s: seq<Byte>)
    requires s == [49, 48, 48, 48, 48, 48, 48, 48, 48, 49]
    ensures Load64(s, 2) == 0x3130303030303030
  {
    Load64Is(s, 2, 48, 48, 48, 48, 48, 48, 48, 49);
  }

  lemma Ended10()
    ensures IsXor(0xc7ee4af147131c86, 0x3130303030303030, 0xf6de7ac177232cb6)
  {
    XorBytes(0xc7, 0xee, 0x4a, 0xf1, 0x47, 0x13, 0x1c, 0x86,
             0x31, 0x30, 0x30, 0x30, 0x30, 0x30, 0x30, 0x30,
             0xc7ee4af147131c86, 0x3130303030303030, 0xf6de7ac177232cb6);
  }

  /** User 1000000001. */
  lemma HashOf10Digits(s: seq<Byte>)
    requires s == [49, 48, 48, 48, 48, 48, 48, 48, 48, 49]
    ensures Hash64(s, 0, |s|) == 0xf6de7ac177232cb6
  {
    Load10At0(s);
    Load10At2(s);
    Turned10();
    Mixed10();
    Ended10();
    Len10Is(s, 0x3030303030303031, 0x3130303030303030, TRAIL10.v, TRAIL10.r, 0xf6de7ac177232cb6);
  }

  // ----- 17 to 32 digits -----

  /** The values that HashLen17to32 goes through: its four words, and from them `u` and `v`. */
  datatype Words = Words(w0: Word, w1: Word, w2: Word, w3: Word, a: Word, ab: Word, abTurned: Word, c: Word,
                         cTurned: Word, d: Word, bx: Word, bxTurned: Word, u: Word, v: Word)

  predicate Loaded(s: seq<Byte>, t: Words)
    requires |s| >= 17
  {
    && Load64(s, 0) == t.w0 && Load64(s, 8) == t.w1
    && Load64(s, |s| - 8) == t.w2 && Load64(s, |s| - 16) == t.w3
  }

  predicate Summed(t: Words, len: nat) {
    && t.a == t.w0 * 0xb492b66fbe98f273 % 0x1_0000_0000_0000_0000 && t.ab == Sub(t.a, t.w1)
    && t.c == t.w2 * 0x9ae16a3b2f90404f % 0x1_0000_0000_0000_0000
    && t.d == t.w3 * 0xc3a5c85c97cb3127 % 0x1_0000_0000_0000_0000
    && t.u == Add(Add(t.abTurned, t.cTurned), t.d)
    && len <= 32 && t.v == Add(Sub(Add(t.a, t.bxTurned), t.c), len)
  }

  predicate Turned(t: Words) {
    && Rotate(t.ab, 43) == t.abTurned && Rotate(t.c, 30) == t.cTurned
    && IsXor(t.w1, 0xc949d7c7509e6557, t.bx) && Rotate(t.bx, 20) == t.bxTurned
  }

  lemma Hash17Is(s: seq<Byte>, t: Words)
    requires 17 <= |s| <= 32 && Loaded(s, t) && Summed(t, |s|) && Turned(t)
    ensures Hash64(s, 0, |s|) == HashLen16(t.u, t.v)
  {
  }

  const WORDS17 := Words(0x3030303030303031, 0x3030303030303030, 0x3130303030303030, 0x3030303030303030,
                         0xaaad4ed32e4bf803, 0x7a7d1ea2fe1bc7d3, 0xd45fc378fa6f4fa3, 0x771dd9eed5eaded0,
                         0x57ab7b41dc7767bb, 0xc91a047316a08750, 0xf979e7f760ae5567, 0xe5567f979e7f760a,
                         0xf525432ded873eae, 0x18e5f47bf6e08f4e)

  const TRAIL17 := Trail(0xf525432ded873eae, 0x18e5f47bf6e08f4e, 0xedc0b7561b67b1e0, 0x8037d31a00cc54e0,
                         0x1006f, 0x8037d31a00cd548f, 0x98d22761f62ddbc1, 0x8ff49a3e45a80f29, 0x11fe9,
                         0x8ff49a3e45a910c0, 0xffd9ab2534499ec0)

  lemma Products17()
    ensures Products(TRAIL17)
  {
  }

  lemma FirstXors17()
    ensures FirstXors(TRAIL17)
  {
    XorBytes(0xf5, 0x25, 0x43, 0x2d, 0xed, 0x87, 0x3e, 0xae,
             0x18, 0xe5, 0xf4, 0x7b, 0xf6, 0xe0, 0x8f, 0x4e,
             0xf525432ded873eae, 0x18e5f47bf6e08f4e, 0xedc0b7561b67b1e0);
    XorBytes(0x80, 0x37, 0xd3, 0x1a, 0x00, 0xcc, 0x54, 0xe0,
             0x00, 0x00, 0x00, 0x00, 0x00, 0x01, 0x00, 0x6f,
             0x8037d31a00cc54e0, 0x1006f, 0x8037d31a00cd548f);
  }

  lemma LastXors17()
    ensures LastXors(TRAIL17)
  {
    XorBytes(0x18, 0xe5, 0xf4, 0x7b, 0xf6, 0xe0, 0x8f, 0x4e,
             0x80, 0x37, 0xd3, 0x1a, 0x00, 0xcd, 0x54, 0x8f,
             0x18e5f47bf6e08f4e, 0x8037d31a00cd548f, 0x98d22761f62ddbc1);
    XorBytes(0x8f, 0xf4, 0x9a, 0x3e, 0x45, 0xa8, 0x0f, 0x29,
             0x00, 0x00, 0x00, 0x00, 0x00, 0x01, 0x1f, 0xe9,
             0x8ff49a3e45a80f29, 0x11fe9, 0x8ff49a3e45a910c0);
  }

  lemma Mixed17()
    ensures HashLen16(TRAIL17.u, TRAIL17.v) == 0xffd9ab2534499ec0
  {
    Products17();
    FirstXors17();
    LastXors17();
    HashLen16Is(TRAIL17);
  }

  lemma Load17At0(s: seq<Byte>)
    requires s == [49, 48, 48, 48, 48, 48, 48, 48, 48, 48, 48, 48, 48, 48, 48, 48, 49]
    ensures Load64(s, 0) == 0x3030303030303031
  {
    Load64Is(s, 0, 49, 48, 48, 48, 48, 48, 48, 48);
  }

  lemma Load17At8(s: seq<Byte>)
    requires s == [49, 48, 48, 48, 48, 48, 48, 48, 48, 48, 48, 48, 48, 48, 48, 48, 49]
    ensures Load64(s, 8) == 0x3030303030303030
  {
    Load64Is(s, 8, 48, 48, 48, 48, 48, 48, 48, 48);
  }

  lemma Load17At9(s: seq<Byte>)
    requires s == [49, 48, 48, 48, 48, 48, 48, 48, 48, 48, 48, 48, 48, 48, 48, 48, 49]
    ensures Load64(s, 9) == 0x3130303030303030
  {
    Load64Is(s, 9, 48, 48, 48, 48, 48, 48, 48, 49);
  }

  lemma Load17At1(s: seq<Byte>)
    requires s == [49, 48, 48, 48, 48, 48, 48, 48, 48, 48, 48, 48, 48, 48, 48, 48, 49]
    ensures Load64(s, 1) == 0x3030303030303030
  {
    Load64Is(s, 1, 48, 48, 48, 48, 48, 48, 48, 48);
  }

  lemma Summed17()
    ensures Summed(WORDS17, 17)
  {
  }

  lemma Turned17()
    ensures Turned(WORDS17)
  {
    LowPowers();
    MiddlePowers();
    HighPowers();
    RotateIs(0x7a7d1ea2fe1bc7d3, 43, 0x80000000000, 0x200000, 0xf4fa3, 0x6a2fe1bc7d3);
    RotateIs(0x771dd9eed5eaded0, 30, 0x40000000, 0x400000000, 0x1dc7767bb, 0x15eaded0);
    RotateIs(0xf979e7f760ae5567, 20, 0x100000, 0x100000000000, 0xf979e7f760a, 0xe5567);
    XorBytes(0x30, 0x30, 0x30, 0x30, 0x30, 0x30, 0x30, 0x30,
             0xc9, 0x49, 0xd7, 0xc7, 0x50, 0x9e, 0x65, 0x57,
             0x3030303030303030, 0xc949d7c7509e6557, 0xf979e7f760ae5567);
  }

  /** User 10000000000000001. */
  lemma HashOf17Digits(s: seq<Byte>)
    requires s == [49, 48, 48, 48, 48, 48, 48, 48, 48, 48, 48, 48, 48, 48, 48, 48, 49]
    ensures Hash64(s, 0, |s|) == 0xffd9ab2534499ec0
  {
    Load17At0(s);
    Load17At8(s);
    Load17At9(s);
    Load17At1(s);
    Summed17();
    Turned17();
    Hash17Is(s, WORDS17);
    Mixed17();
  }

  const WORDS19 := Words(0x3032373333323239, 0x3537373435383633, 0x3730383537373435, 0x3836333032373333,
                         0x801d263092de719b, 0x4ae5eefc5da63b68, 0xdf8bb4c76d095cbd, 0xd2ecd213efe65c5b,
                         0xbf99716f4bb3484f, 0xf999a540e5a68fc5, 0xfc7ee0f365a65364, 0x65364fc7ee0f365a,
                         0x98becb779e6334d1, 0x1266a3e491074bad)

  const TRAIL19 := Trail(0x98becb779e6334d1, 0x1266a3e491074bad, 0x8ad868930f647f7c, 0x4d20b0e8b1c115dc,
                         0x9a41, 0x4d20b0e8b1c18f9d, 0x5f46130c20c6c430, 0xbd2e94cf5c82e7b0, 0x17a5d,
                         0xbd2e94cf5c839ded, 0xcc771c7b2f966f35)

  lemma Products19()
    ensures Products(TRAIL19)
  {
  }

  lemma FirstXors19()
    ensures FirstXors(TRAIL19)
  {
    XorBytes(0x98, 0xbe, 0xcb, 0x77, 0x9e, 0x63, 0x34, 0xd1,
             0x12, 0x66, 0xa3, 0xe4, 0x91, 0x07, 0x4b, 0xad,
             0x98becb779e6334d1, 0x1266a3e491074bad, 0x8ad868930f647f7c);
    XorBytes(0x4d, 0x20, 0xb0, 0xe8, 0xb1, 0xc1, 0x15, 0xdc,
             0x00, 0x00, 0x00, 0x00, 0x00, 0x00, 0x9a, 0x41,
             0x4d20b0e8b1c115dc, 0x9a41, 0x4d20b0e8b1c18f9d);
  }

  lemma LastXors19()
    ensures LastXors(TRAIL19)
  {
    XorBytes(0x12, 0x66, 0xa3, 0xe4, 0x91, 0x07, 0x4b, 0xad,
             0x4d, 0x20, 0xb0, 0xe8, 0xb1, 0xc1, 0x8f, 0x9d,
             0x1266a3e491074bad, 0x4d20b0e8b1c18f9d, 0x5f46130c20c6c430);
    XorBytes(0xbd, 0x2e, 0x94, 0xcf, 0x5c, 0x82, 0xe7, 0xb0,
             0x00, 0x00, 0x00, 0x00, 0x00, 0x01, 0x7a, 0x5d,
             0xbd2e94cf5c82e7b0, 0x17a5d, 0xbd2e94cf5c839ded);
  }

  lemma Mixed19()
    ensures HashLen16(TRAIL19.u, TRAIL19.v) == 0xcc771c7b2f966f35
  {
    Products19();
    FirstXors19();
    LastXors19();
    HashLen16Is(TRAIL19);
  }

  lemma Load19At0(s: seq<Byte>)
    requires s == [57, 50, 50, 51, 51, 55, 50, 48, 51, 54, 56, 53, 52, 55, 55, 53, 56, 48, 55]
    ensures Load64(s, 0) == 0x3032373333323239
  {
    Load64Is(s, 0, 57, 50, 50, 51, 51, 55, 50, 48);
  }

  lemma Load19At8(s: seq<Byte>)
    requires s == [57, 50, 50, 51, 51, 55, 50, 48, 51, 54, 56, 53, 52, 55, 55, 53, 56, 48, 55]
    ensures Load64(s, 8) == 0x3537373435383633
  {
    Load64Is(s, 8, 51, 54, 56, 53, 52, 55, 55, 53);
  }

  lemma Load19At11(s: seq<Byte>)
    requires s == [57, 50, 50, 51, 51, 55, 50, 48, 51, 54, 56, 53, 52, 55, 55, 53, 56, 48, 55]
    ensures Load64(s, 11) == 0x3730383537373435
  {
    Load64Is(s, 11, 53, 52, 55, 55, 53, 56, 48, 55);
  }

  lemma Load19At3(s: seq<Byte>)
    requires s == [57, 50, 50, 51, 51, 55, 50, 48, 51, 54, 56, 53, 52, 55, 55, 53, 56, 48, 55]
    ensures Load64(s, 3) == 0x3836333032373333
  {
    Load64Is(s, 3, 51, 51, 55, 50, 48, 51, 54, 56);
  }

  lemma Summed19()
    ensures Summed(WORDS19, 19)
  {
  }

  lemma Turned19()
    ensures Turned(WORDS19)
  {
    LowPowers();
    MiddlePowers();
    HighPowers();
    RotateIs(0x4ae5eefc5da63b68, 43, 0x80000000000, 0x200000, 0x95cbd, 0x6fc5da63b68);
    RotateIs(0xd2ecd213efe65c5b, 30, 0x40000000, 0x400000000, 0x34bb3484f, 0x2fe65c5b);
    RotateIs(0xfc7ee0f365a65364, 20, 0x100000, 0x100000000000, 0xfc7ee0f365a, 0x65364);
    XorBytes(0x35, 0x37, 0x37, 0x34, 0x35, 0x38, 0x36, 0x33,
             0xc9, 0x49, 0xd7, 0xc7, 0x50, 0x9e, 0x65, 0x57,
             0x3537373435383633, 0xc949d7c7509e6557, 0xfc7ee0f365a65364);
  }

  /** User 9223372036854775807. */
  lemma HashOf19Digits(s: seq<Byte>)
    requires s == [57, 50, 50, 51, 51, 55, 50, 48, 51, 54, 56, 53, 52, 55, 55, 53, 56, 48, 55]
    ensures Hash64(s, 0, |s|) == 0xcc771c7b2f966f35
  {
    Load19At0(s);
    Load19At8(s);
    Load19At11(s);
    Load19At3(s);
    Summed19();
    Turned19();
    Hash17Is(s, WORDS19);
    Mixed19();
  }
}

/** One hash of 45 bytes, one round of the long hash and one of CityMurmur, worked out. */
module CityRounds {
  import opened Word64
  import opened CityHash
  import opened XorBits
  import opened CityValues

  // ----- powers and loads -----

  lemma SmallPowers()
    ensures Pow2(7) == 0x80 && Pow2(12) == 0x1000 && Pow2(20) == 0x10_0000 && Pow2(21) == 0x20_0000
    ensures Pow2(22) == 0x40_0000 && Pow2(27) == 0x800_0000
  {
    LowPowers();
    MiddlePowers();
    Pow2Next8(0);
    assert Pow2(12) == 2 * Pow2(11) == 4 * Pow2(10) && Pow2(22) == 2 * Pow2(21) && Pow2(8) == 2 * Pow2(7);
    assert Pow2(30) == 2 * Pow2(29) == 4 * Pow2(28) && Pow2(28) == 2 * Pow2(27);
  }

  lemma LargePowers()
    ensures Pow2(31) == 0x8000_0000 && Pow2(33) == 0x2_0000_0000 && Pow2(37) == 0x20_0000_0000
    ensures Pow2(42) == 0x400_0000_0000 && Pow2(43) == 0x800_0000_0000 && Pow2(44) == 0x1000_0000_0000
    ensures Pow2(52) == 0x10_0000_0000_0000 && Pow2(57) == 0x200_0000_0000_0000
  {
    WordIsPow();
    MiddlePowers();
    HighPowers();
    assert Pow2(32) == 2 * Pow2(31) && Pow2(34) == 2 * Pow2(33) && Pow2(43) == 2 * Pow2(42);
    assert Pow2(37) == 2 * Pow2(36) == 4 * Pow2(35) && Pow2(35) == 2 * Pow2(34);
    assert Pow2(54) == 2 * Pow2(53) == 4 * Pow2(52) && Pow2(57) == 2 * Pow2(56) == 4 * Pow2(55);
    assert Pow2(55) == 2 * Pow2(54);
  }

  /** Every byte is its position. */
  predicate Counting(s: seq<Byte>) { forall i :: 0 <= i < |s| ==> s[i] as int == i }

  lemma CountingLoad(s: seq<Byte>, p: nat)
    requires Counting(s) && p + 8 <= |s|
    ensures Load64(s, p) == 0x0706050403020100 + 0x0101010101010101 * p
  {
    Load64Is(s, p, p, p + 1, p + 2, p + 3, p + 4, p + 5, p + 6, p + 7);
  }

  // ----- 33 to 64 bytes -----

  /** The values in one half. */
  datatype Halving = Halving(a: Word, z: Word, m: Word, n: Word, az: Word, azTurned: Word, aTurned: Word, a1: Word,
                             a1Turned: Word, a2: Word, a2Turned: Word, first: Word, second: Word)

  predicate HalfSums(t: Halving) {
    && t.az == Add(t.a, t.z) && t.a1 == Add(t.a, t.m) && t.a2 == Add(t.a1, t.n) && t.first == Add(t.a2, t.z)
    && t.second == Add(Add(t.azTurned, t.a2Turned), Add(t.aTurned, t.a1Turned))
  }

  predicate HalfTurns(t: Halving) {
    && Rotate(t.az, 52) == t.azTurned && Rotate(t.a, 37) == t.aTurned
    && Rotate(t.a1, 7) == t.a1Turned && Rotate(t.a2, 31) == t.a2Turned
  }

  lemma HalfIs(t: Halving)
    requires HalfSums(t) && HalfTurns(t)
    ensures Half64(t.a, t.z, t.m, t.n) == (t.first, t.second)
  {
  }

  const FRONT := Halving(0x9aaa15588739c846, 0x1f1e1d1c1b1a1918, 0xf0e0d0c0b0a0908, 0x1716151413121110,
                         0xb9c83274a253e15e, 0x83274a253e15eb9c, 0xc439ce4234d550aa, 0xa9b822649243d14e,
                         0x9d537044c92487a2, 0xc0ce3778a555e25e, 0x4aabc4bd819c6ef1, 0xdfec5494c06ffb76,
                         0x2f604d69bdac32d9)

  lemma FrontSums()
    ensures HalfSums(FRONT)
  {
  }

  lemma FrontTurns()
    ensures HalfTurns(FRONT)
  {
    SmallPowers();
    LargePowers();
    RotateIs(0xb9c83274a253e15e, 52, 0x10000000000000, 0x1000, 0xb9c, 0x83274a253e15e);
    RotateIs(0x9aaa15588739c846, 37, 0x2000000000, 0x8000000, 0x4d550aa, 0x188739c846);
    RotateIs(0xa9b822649243d14e, 7, 0x80, 0x200000000000000, 0x1537044c92487a2, 0x4e);
    RotateIs(0xc0ce3778a555e25e, 31, 0x80000000, 0x200000000, 0x1819c6ef1, 0x2555e25e);
  }

  const BACK := Halving(0x2b29272523211f1d, 0x2c2b2a2928272625, 0x1c1b1a1918171615, 0x24232221201f1e1d,
                        0x5754514e4b484542, 0x4514e4b484542575, 0x291908f8e9594939, 0x4744413e3b383532,
                        0x648e88827c76706a, 0x6b67635f5b57534f, 0xb6aea69ed6cec6be, 0x97928d88837e7974,
                        0x896b1ccec0f2a5d6)

  lemma BackSums()
    ensures HalfSums(BACK)
  {
  }

  lemma BackTurns()
    ensures HalfTurns(BACK)
  {
    SmallPowers();
    LargePowers();
    RotateIs(0x5754514e4b484542, 52, 0x10000000000000, 0x1000, 0x575, 0x4514e4b484542);
    RotateIs(0x2b29272523211f1d, 37, 0x2000000000, 0x8000000, 0x1594939, 0x523211f1d);
    RotateIs(0x4744413e3b383532, 7, 0x80, 0x200000000000000, 0x8e88827c76706a, 0x32);
    RotateIs(0x6b67635f5b57534f, 31, 0x80000000, 0x200000000, 0xd6cec6be, 0x5b57534f);
  }

  lemma FrontFrom(s: seq<Byte>, w0: Word, w8: Word, w16: Word, w24: Word, wx: Word)
    requires |s| == 45 && Load64(s, 0) == w0 && Load64(s, 8) == w8 && Load64(s, 16) == w16
    requires Load64(s, 24) == w24 && Load64(s, 29) == wx
    ensures Front64(s, 0, 45) == Half64(Add(w0, Mul(Add(45, wx), K0)), w24, w8, w16)
  {
  }

  lemma FrontIs(s: seq<Byte>)
    requires |s| == 45 && Counting(s)
    ensures Front64(s, 0, 45) == (FRONT.first, FRONT.second)
  {
    CountingLoad(s, 0);
    CountingLoad(s, 8);
    CountingLoad(s, 16);
    CountingLoad(s, 24);
    CountingLoad(s, 29);
    FrontFrom(s, 0x706050403020100, FRONT.m, FRONT.n, FRONT.z, 0x24232221201f1e1d);
    FrontStart();
    FrontSums();
    FrontTurns();
    HalfIs(FRONT);
  }

  lemma FrontStart()
    ensures Add(0x706050403020100, Mul(Add(45, 0x24232221201f1e1d), K0)) == FRONT.a
  {
  }

  lemma BackIs(s: seq<Byte>)
    requires |s| == 45 && Counting(s)
    ensures Back64(s, 0, 45) == (BACK.first, BACK.second)
  {
    CountingLoad(s, 16);
    CountingLoad(s, 13);
    CountingLoad(s, 37);
    CountingLoad(s, 21);
    CountingLoad(s, 29);
    BackSums();
    BackTurns();
    HalfIs(BACK);
  }

  lemma JoinIs(v: (Word, Word), w: (Word, Word), sum: Word, a: Word, b: Word, c: Word)
    requires sum == Sum64(v, w) && IsXor(sum, sum / 0x8000_0000_0000, a)
    requires b == Add(Mul(a, K0), v.1) && IsXor(b, b / 0x8000_0000_0000, c)
    ensures Join64(v, w) == Mul(c, K2)
  {
  }

  lemma Joined45()
    ensures Join64((FRONT.first, FRONT.second), (BACK.first, BACK.second)) == 0x518740c5ca3688d7
  {
    JoinSums();
    JoinProducts();
    JoinXors();
    JoinIs((FRONT.first, FRONT.second), (BACK.first, BACK.second),
           0x53640b2e690cc32f, 0x53640b2e690c65e7, 0x5a79978b2d3df00a, 0x5a79978b2d3d44f9);
  }

  lemma JoinSums()
    ensures Add(FRONT.first, BACK.second) == 0x695771638162a14c
    ensures Add(BACK.first, FRONT.second) == 0xc6f2daf2412aac4d
    ensures Add(0x8f5f65a94482c674, 0xc404a5852489fcbb) == 0x53640b2e690cc32f
    ensures Add(0x2b194a216f91bd31, FRONT.second) == 0x5a79978b2d3df00a
  {
  }

  lemma JoinProducts()
    ensures Mul(0x695771638162a14c, K2) == 0x8f5f65a94482c674
    ensures Mul(0xc6f2daf2412aac4d, K0) == 0xc404a5852489fcbb
    ensures Mul(0x53640b2e690c65e7, K0) == 0x2b194a216f91bd31 && Mul(0x5a79978b2d3d44f9, K2) == 0x518740c5ca3688d7
  {
  }

  lemma JoinXors()
    ensures IsXor(0x53640b2e690cc32f, 0x53640b2e690cc32f / 0x8000_0000_0000, 0x53640b2e690c65e7)
    ensures IsXor(0x5a79978b2d3df00a, 0x5a79978b2d3df00a / 0x8000_0000_0000, 0x5a79978b2d3d44f9)
  {
    assert 0x53640b2e690cc32f / 0x8000_0000_0000 == 0xa6c8 && 0x5a79978b2d3df00a / 0x8000_0000_0000 == 0xb4f3;
    XorBytes(0x53, 0x64, 0x0b, 0x2e, 0x69, 0x0c, 0xc3, 0x2f,
             0x00, 0x00, 0x00, 0x00, 0x00, 0x00, 0xa6, 0xc8,
             0x53640b2e690cc32f, 0xa6c8, 0x53640b2e690c65e7);
    XorBytes(0x5a, 0x79, 0x97, 0x8b, 0x2d, 0x3d, 0xf0, 0x0a,
             0x00, 0x00, 0x00, 0x00, 0x00, 0x00, 0xb4, 0xf3,
             0x5a79978b2d3df00a, 0xb4f3, 0x5a79978b2d3d44f9);
  }

  /** The bytes from 0 to 44. */
  lemma HashOf45Bytes(s: seq<Byte>)
    requires |s| == 45 && Counting(s)
    ensures Hash64(s, 0, |s|) == 0x518740c5ca3688d7
  {
    FrontIs(s);
    BackIs(s);
    Joined45();
  }

  // ----- over 64 bytes -----

  /** The values in WeakHashLen32WithSeeds. */
  datatype Weakening = Weakening(k: Four, a: Word, b: Word, a1: Word, b1: Word, b1Turned: Word, a2: Word,
                                 a2Turned: Word, first: Word, second: Word)

  predicate WeakSums(t: Weakening) {
    && t.a1 == Add(t.a, t.k.a) && t.b1 == Add(Add(t.b, t.a1), t.k.d) && t.a2 == Add(Add(t.a1, t.k.b), t.k.c)
    && t.first == Add(t.a2, t.k.d) && t.second == Add(Add(t.b1Turned, t.a2Turned), t.a1)
  }

  predicate WeakTurns(t: Weakening) { Rotate(t.b1, 21) == t.b1Turned && Rotate(t.a2, 44) == t.a2Turned }

  lemma WeakIs(t: Weakening)
    requires WeakSums(t) && WeakTurns(t)
    ensures Weak(t.k, t.a, t.b) == (t.first, t.second)
  {
  }

  const LOWER := Weakening(Four(8, 9, 10, 11), 0x86dd902eb8fcbc3f, 0xdf4c79398000000d, 0x86dd902eb8fcbc47,
                           0x662a096838fcbc5f, 0xe5e2fb31504b41c7, 0x86dd902eb8fcbc5a, 0x2eb8fcbc5a86dd9,
                           0x86dd902eb8fcbc65, 0x6fac1b2bcef06be7)

  lemma LowerWeakened()
    ensures Weak(LOWER.k, LOWER.a, LOWER.b) == (LOWER.first, LOWER.second)
  {
    SmallPowers();
    LargePowers();
    RotateIs(0x662a096838fcbc5f, 21, 0x200000, 0x80000000000, 0x331504b41c7, 0x1cbc5f);
    RotateIs(0x86dd902eb8fcbc5a, 44, 0x100000000000, 0x100000, 0x86dd9, 0x2eb8fcbc5a);
    LowerSums();
    WeakIs(LOWER);
  }

  lemma LowerSums()
    ensures WeakSums(LOWER)
  {
  }

  const UPPER := Weakening(Four(12, 13, 14, 15), 0xd9b0430580000007, 0xcaa8a2f8dbc0001b, 0xd9b0430580000013,
                           0xa458e5fe5bc0003d, 0x1ed22c72ff2de, 0xd9b043058000002e, 0x3058000002ed9b04,
                           0xd9b043058000003d, 0xa0a30284a1d8df5)

  lemma UpperWeakened()
    ensures Weak(UPPER.k, UPPER.a, UPPER.b) == (UPPER.first, UPPER.second)
  {
    SmallPowers();
    LargePowers();
    RotateIs(0xa458e5fe5bc0003d, 21, 0x200000, 0x80000000000, 0x522c72ff2de, 0x3d);
    RotateIs(0xd9b043058000002e, 44, 0x100000000000, 0x100000, 0xd9b04, 0x3058000002e);
    UpperSums();
    WeakIs(UPPER);
  }

  lemma UpperSums()
    ensures WeakSums(UPPER)
  {
  }

  lemma MixTurns()
    ensures Rotate(16, 37) == 0x80000000 && Rotate(21, 42) == 0x5400000 && Rotate(9, 33) == 0x480000000
  {
    SmallPowers();
    LargePowers();
    RotateIs(0x10, 37, 0x2000000000, 0x8000000, 0x0, 0x10);
    RotateIs(0x15, 42, 0x40000000000, 0x400000, 0x0, 0x15);
    RotateIs(0x9, 33, 0x200000000, 0x80000000, 0x0, 0x9);
  }

  lemma MixProducts()
    ensures Mul(0x80000000, K1) == 0xdf4c793980000000
    ensures Mul(0x5400000, K1) == 0xcaa8a2f8dbc00000 && Mul(0x480000000, K1) == 0xd9b0430580000000
    ensures Mul(5, K1) == LOWER.a
  {
  }

  lemma MixXor()
    ensures IsXor(0xdf4c793980000000, 7, 0xdf4c793980000007)
  {
    XorBytes(0xdf, 0x4c, 0x79, 0x39, 0x80, 0x00, 0x00, 0x00,
             0x00, 0x00, 0x00, 0x00, 0x00, 0x00, 0x00, 0x07,
             0xdf4c793980000000, 0x7, 0xdf4c793980000007);
  }

  /** A round on a state and a block that count from 1 to 15. */
  lemma MixIs()
    ensures Mix(State(1, 2, 3, (4, 5), (6, 7)), Block(Four(8, 9, 10, 11), Four(12, 13, 14, 15))) ==
              State(0xd9b0430580000000, 0xcaa8a2f8dbc00011, 0xdf4c793980000007,
                    (0x86dd902eb8fcbc65, 0x6fac1b2bcef06be7), (0xd9b043058000003d, 0xa0a30284a1d8df5))
  {
    MixTurns();
    MixProducts();
    MixXor();
    LowerWeakened();
    UpperWeakened();
  }

  // ----- CityMurmur -----

  lemma ChurnIs(h: Word, chunk: Word, m: Word, a: Word, k: Word, e: Word)
    requires Mul(chunk, K1) == m && IsXor(m, m / 0x8000_0000_0000, a) && Mul(a, K1) == k && IsXor(h, k, e)
    ensures Churn(h, chunk) == Mul(e, K1)
  {
  }

  lemma FirstChurned()
    ensures Churn(1, 5) == 0x89e14a5eab881e97
  {
    XorBytes(0x86, 0xdd, 0x90, 0x2e, 0xb8, 0xfc, 0xbc, 0x3f,
             0x00, 0x00, 0x00, 0x00, 0x00, 0x01, 0x0d, 0xbb,
             0x86dd902eb8fcbc3f, 0x10dbb, 0x86dd902eb8fdb184);
    XorBytes(0x00, 0x00, 0x00, 0x00, 0x00, 0x00, 0x00, 0x01,
             0xf0, 0x59, 0xe0, 0x7a, 0x4a, 0x25, 0x86, 0x4c,
             0x1, 0xf059e07a4a25864c, 0xf059e07a4a25864d);
    FirstProducts();
    ChurnIs(1, 5, 0x86dd902eb8fcbc3f, 0x86dd902eb8fdb184, 0xf059e07a4a25864c, 0xf059e07a4a25864d);
  }

  lemma FirstProducts()
    ensures Mul(5, K1) == 0x86dd902eb8fcbc3f && 0x86dd902eb8fcbc3f / 0x8000_0000_0000 == 0x10dbb
    ensures Mul(0x86dd902eb8fdb184, K1) == 0xf059e07a4a25864c && Mul(0xf059e07a4a25864d, K1) == 0x89e14a5eab881e97
  {
  }

  lemma SecondChurned()
    ensures Churn(3, 6) == 0xd46266adef17c9af
  {
    XorBytes(0x3b, 0x70, 0x46, 0x9e, 0x77, 0x95, 0xae, 0xb2,
             0x00, 0x00, 0x00, 0x00, 0x00, 0x00, 0x76, 0xe0,
             0x3b70469e7795aeb2, 0x76e0, 0x3b70469e7795d852);
    XorBytes(0x00, 0x00, 0x00, 0x00, 0x00, 0x00, 0x00, 0x03,
             0xc9, 0x90, 0xd5, 0x4e, 0xab, 0x7d, 0xb0, 0xd6,
             0x3, 0xc990d54eab7db0d6, 0xc990d54eab7db0d5);
    SecondProducts();
    ChurnIs(3, 6, 0x3b70469e7795aeb2, 0x3b70469e7795d852, 0xc990d54eab7db0d6, 0xc990d54eab7db0d5);
  }

  lemma SecondProducts()
    ensures Mul(6, K1) == 0x3b70469e7795aeb2 && 0x3b70469e7795aeb2 / 0x8000_0000_0000 == 0x76e0
    ensures Mul(0x3b70469e7795d852, K1) == 0xc990d54eab7db0d6 && Mul(0xc990d54eab7db0d5, K1) == 0xd46266adef17c9af
  {
  }

  /** A round on a state and a chunk that count from 1 to 6. */
  lemma MurmurStepIs()
    ensures MurmurStep(Murmur(1, 2, 3, 4), (5, 6)) ==
              Murmur(0x89e14a5eab881e97, 0x89e14a5eab881e95, 0xd46266adef17c9af, 0xd46266adef17c9ab)
  {
    FirstChurned();
    SecondChurned();
    XorBytes(0x00, 0x00, 0x00, 0x00, 0x00, 0x00, 0x00, 0x02,
             0x89, 0xe1, 0x4a, 0x5e, 0xab, 0x88, 0x1e, 0x97,
             0x2, 0x89e14a5eab881e97, 0x89e14a5eab881e95);
    XorBytes(0x00, 0x00, 0x00, 0x00, 0x00, 0x00, 0x00, 0x04,
             0xd4, 0x62, 0x66, 0xad, 0xef, 0x17, 0xc9, 0xaf,
             0x4, 0xd46266adef17c9af, 0xd46266adef17c9ab);
  }
}

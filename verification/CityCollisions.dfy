/** Where CityHash cannot lose information. */
module CityCollisions {
  import opened Word64
  import opened CityHash

  // ----- HashLen16 -----

  /** The first word that HashLen16 turns into `h` beside `v`. */
  function Unhash16(h: Word, v: Word): Word {
    var a := XorWord(Mul(ShiftMix(Mul(h, KMUL_INV)), KMUL_INV), v);
    XorWord(Mul(ShiftMix(a), KMUL_INV), v)
  }

  lemma XorWordUndo(a: Word, b: Word)
    ensures XorWord(XorWord(a, b), b) == a && XorWord(b, XorWord(b, a)) == a
    ensures XorWord(a, b) == XorWord(b, a)
  {
    XorUndo(a, b);
    XorSym(a, b);
    XorSym(b, Xor(b, a));
  }

  lemma KmulUndo(a: Word)
    ensures Mul(Mul(a, KMUL), KMUL_INV) == a && Mul(Mul(a, KMUL_INV), KMUL) == a
  {
    Inverses();
    MulUndo(a, KMUL, KMUL_INV);
    MulUndo(a, KMUL_INV, KMUL);
  }

  lemma K1Undo(a: Word)
    ensures Mul(Mul(a, K1), K1_INV) == a && Mul(Mul(a, K1_INV), K1) == a
  {
    Inverses();
    MulUndo(a, K1, K1_INV);
    MulUndo(a, K1_INV, K1);
  }

  /** For a fixed second word HashLen16 is a bijection of the first. */
  lemma HashLen16Bijective(u: Word, v: Word)
    ensures Unhash16(HashLen16(u, v), v) == u
    ensures HashLen16(Unhash16(u, v), v) == u
  {
    UnhashHash(u, v);
    HashUnhash(u, v);
  }

  lemma UnhashHash(u: Word, v: Word)
    ensures Unhash16(HashLen16(u, v), v) == u
  {
    var x := Mul(XorWord(u, v), KMUL);
    var a := ShiftMix(x);
    var y := Mul(XorWord(v, a), KMUL);
    KmulUndo(ShiftMix(y));
    ShiftMixTwice(y);
    KmulUndo(XorWord(v, a));
    XorWordUndo(v, a);
    XorWordUndo(a, v);
    ShiftMixTwice(x);
    KmulUndo(XorWord(u, v));
    XorWordUndo(u, v);
  }

  lemma HashUnhash(h: Word, v: Word)
    ensures HashLen16(Unhash16(h, v), v) == h
  {
    var y := ShiftMix(Mul(h, KMUL_INV));
    var b := Mul(y, KMUL_INV);
    var a := XorWord(b, v);
    var x := Mul(ShiftMix(a), KMUL_INV);
    XorWordUndo(x, v);
    KmulUndo(ShiftMix(a));
    ShiftMixTwice(a);
    XorWordUndo(b, v);
    XorWordUndo(v, b);
    KmulUndo(y);
    ShiftMixTwice(Mul(h, KMUL_INV));
    KmulUndo(h);
  }

  lemma HashLen16Injective(u: Word, u': Word, v: Word)
    requires HashLen16(u, v) == HashLen16(u', v)
    ensures u == u'
  {
    HashLen16Bijective(u, v);
    HashLen16Bijective(u', v);
  }

  /** Seeds neither add nor remove collisions. */
  lemma SeededCollisions(s: seq<Byte>, t: seq<Byte>, seed0: Word, seed1: Word)
    requires |s| < LENGTH_LIMIT && |t| < LENGTH_LIMIT
    ensures Hash64WithSeeds(s, 0, |s|, seed0, seed1) == Hash64WithSeeds(t, 0, |t|, seed0, seed1)
            <==> Hash64(s, 0, |s|) == Hash64(t, 0, |t|)
  {
    var h, h' := Hash64(s, 0, |s|), Hash64(t, 0, |t|);
    if Hash64WithSeeds(s, 0, |s|, seed0, seed1) == Hash64WithSeeds(t, 0, |t|, seed0, seed1) {
      HashLen16Injective(Sub(h, seed0), Sub(h', seed0), seed1);
      AddUndo(h, seed0);
      AddUndo(h', seed0);
    }
  }

  // ----- loads -----

  lemma LowByte(a: Byte, x: nat, b: Byte, y: nat)
    requires a + 0x100 * x == b + 0x100 * y
    ensures a == b && x == y
  {
  }

  lemma {:induction false} LoadInjective(s: seq<Byte>, t: seq<Byte>, p: nat, q: nat)
    requires p <= q <= |s| && q <= |t| && Load(s, p, q) == Load(t, p, q)
    ensures s[p..q] == t[p..q]
    decreases q - p
  {
    if p < q {
      LowByte(s[p], Load(s, p + 1, q), t[p], Load(t, p + 1, q));
      LoadInjective(s, t, p + 1, q);
      assert s[p..q] == [s[p]] + s[p + 1..q] && t[p..q] == [t[p]] + t[p + 1..q];
    }
  }

  lemma {:induction false} LoadSame(s: seq<Byte>, t: seq<Byte>, p: nat, q: nat)
    requires p <= q <= |s| && q <= |t| && s[p..q] == t[p..q]
    ensures Load(s, p, q) == Load(t, p, q)
    decreases q - p
  {
    if p < q {
      assert s[p] == s[p..q][0] == t[p];
      assert s[p + 1..q] == s[p..q][1..] && t[p + 1..q] == t[p..q][1..];
      LoadSame(s, t, p + 1, q);
    }
  }

  // ----- short keys -----

  /** The bytes at the end that decide the second word of HashLen16. */
  function TailOf(len: nat): nat {
    if len > 8 then 8 else if len >= 4 then 4 else 1
  }

  /** Keys of 1 to 16 bytes of one length that end alike never collide unless equal. */
  lemma ShortKeysDiffer(s: seq<Byte>, t: seq<Byte>)
    requires 1 <= |s| == |t| <= 16
    requires s[|s| - TailOf(|s|)..] == t[|s| - TailOf(|s|)..]
    ensures Hash64(s, 0, |s|) == Hash64(t, 0, |t|) <==> s == t
  {
    if Hash64(s, 0, |s|) == Hash64(t, 0, |t|) {
      var n := |s|;
      if n > 8 { Differ9to16(s, t); } else if n >= 4 { Differ4to8(s, t); } else { Differ1to3(s, t); }
    }
  }

  lemma Differ9to16(s: seq<Byte>, t: seq<Byte>)
    requires 8 < |s| == |t| <= 16 && s[|s| - 8..] == t[|s| - 8..]
    requires Len9to16(s, 0, |s|) == Len9to16(t, 0, |t|)
    ensures s == t
  {
    var n := |s|;
    assert s[n - 8..n - 8 + 8] == s[n - 8..] && t[n - 8..n - 8 + 8] == t[n - 8..];
    LoadSame(s, t, n - 8, n - 8 + 8);
    var b := Load64(s, n - 8);
    var v := RotateByAtLeast1(Add(b, n), n);
    XorWordUndo(HashLen16(Load64(s, 0), v), b);
    XorWordUndo(HashLen16(Load64(t, 0), v), b);
    HashLen16Injective(Load64(s, 0), Load64(t, 0), v);
    LoadInjective(s, t, 0, 0 + 8);
    Overlap(s, t, 8);
  }

  lemma Overlap(s: seq<Byte>, t: seq<Byte>, k: nat)
    requires k <= |s| == |t| <= 2 * k && s[0..0 + k] == t[0..0 + k] && s[|s| - k..] == t[|s| - k..]
    ensures s == t
  {
    forall i | 0 <= i < |s|
      ensures s[i] == t[i]
    {
      if i < k {
        assert s[0..0 + k][i] == t[0..0 + k][i];
      } else {
        assert s[|s| - k..][i - (|s| - k)] == t[|s| - k..][i - (|s| - k)];
      }
    }
  }

  lemma Differ4to8(s: seq<Byte>, t: seq<Byte>)
    requires 4 <= |s| == |t| <= 8 && s[|s| - 4..] == t[|s| - 4..]
    requires Len4to8(s, 0, |s|) == Len4to8(t, 0, |t|)
    ensures s == t
  {
    SameTail(s, t);
    Head32(|s|, Load32(s, 0), Load32(t, 0), Load32(s, |s| - 4));
    LoadInjective(s, t, 0, 0 + 4);
    Overlap(s, t, 4);
  }

  lemma SameTail(s: seq<Byte>, t: seq<Byte>)
    requires 4 <= |s| == |t| && s[|s| - 4..] == t[|s| - 4..]
    ensures Load32(s, |s| - 4) == Load32(t, |s| - 4)
  {
    var p := |s| - 4;
    assert s[p..p + 4] == s[p..] && t[p..p + 4] == t[p..];
    LoadSame(s, t, p, p + 4);
  }

  lemma Head32(n: nat, a: nat, b: nat, v: Word)
    requires n <= 8 && a < 0x1_0000_0000 && b < 0x1_0000_0000 && HashLen16(n + 8 * a, v) == HashLen16(n + 8 * b, v)
    ensures a == b
  {
    HashLen16Injective(n + 8 * a, n + 8 * b, v);
  }

  lemma Differ1to3(s: seq<Byte>, t: seq<Byte>)
    requires 1 <= |s| == |t| < 4 && s[|s| - 1..] == t[|s| - 1..]
    requires Len1to3(s, 0, |s|) == Len1to3(t, 0, |t|)
    ensures s == t
  {
    var n := |s|;
    assert s[n - 1] == s[n - 1..][0] == t[n - 1];
    var y, y', z := Ends(s), Ends(t), n + 4 * (s[n - 1] as int);
    SmallInjective(y, y', Mul(z, K3));
    LowByte(s[0], s[n / 2], t[0], t[n / 2]);
  }

  function Ends(s: seq<Byte>): nat
    requires s != []
  {
    var a: int, b: int := s[0], s[|s| / 2];
    a + 0x100 * b
  }

  lemma SmallInjective(y: Word, y': Word, q: Word)
    requires Mul(ShiftMix(XorWord(Mul(y, K2), q)), K2) == Mul(ShiftMix(XorWord(Mul(y', K2), q)), K2)
    ensures y == y'
  {
    var m, m' := Mul(y, K2), Mul(y', K2);
    Inverses();
    MulUndo(ShiftMix(XorWord(m, q)), K2, K2_INV);
    MulUndo(ShiftMix(XorWord(m', q)), K2, K2_INV);
    ShiftMixTwice(XorWord(m, q));
    ShiftMixTwice(XorWord(m', q));
    XorWordUndo(m, q);
    XorWordUndo(m', q);
    MulUndo(y, K2, K2_INV);
    MulUndo(y', K2, K2_INV);
  }

  // ----- 17 to 32 bytes -----

  lemma MulInjective(a: Word, b: Word, k: Word, inverse: Word)
    requires k * inverse % WORD == 1 && Mul(a, k) == Mul(b, k)
    ensures a == b
  {
    MulUndo(a, k, inverse);
    MulUndo(b, k, inverse);
  }

  lemma AddInjective(a: Word, b: Word, c: Word)
    ensures Add(c, a) == Add(c, b) ==> a == b
    ensures Add(a, c) == Add(b, c) ==> a == b
  {
  }

  /** Keys of 24 to 32 bytes of one length that agree outside the bytes that only one load
      sees, those from 16 to the last 8, never collide unless equal. */
  lemma MiddleShows(s: seq<Byte>, t: seq<Byte>)
    requires 24 <= |s| == |t| <= 32 && s[..16] == t[..16] && s[|s| - 8..] == t[|t| - 8..]
    ensures Hash64(s, 0, |s|) == Hash64(t, 0, |t|) <==> s == t
  {
    var n := |s|;
    SameOutside(s, t);
    if Hash64(s, 0, n) == Hash64(t, 0, n) {
      var a, b, c := Mul(Load64(s, 0), K1), Load64(s, 8), Mul(Load64(s, n - 8), K2);
      var v := Add(Sub(Add(a, Rotate(XorWord(b, K3), 20)), c), n);
      MiddleWord(Add(Rotate(Sub(a, b), 43), Rotate(c, 30)), Load64(s, n - 16), Load64(t, n - 16), v);
      LoadInjective(s, t, n - 16, n - 16 + 8);
      Rejoin(s, t);
    }
  }

  lemma SameOutside(s: seq<Byte>, t: seq<Byte>)
    requires 24 <= |s| == |t| <= 32 && s[..16] == t[..16] && s[|s| - 8..] == t[|t| - 8..]
    ensures Load64(s, 0) == Load64(t, 0) && Load64(s, 8) == Load64(t, 8) && Load64(s, |s| - 8) == Load64(t, |s| - 8)
  {
    var n := |s|;
    assert s[0..0 + 8] == s[..16][..8] && t[0..0 + 8] == t[..16][..8];
    assert s[8..8 + 8] == s[..16][8..] && t[8..8 + 8] == t[..16][8..];
    assert s[n - 8..n - 8 + 8] == s[n - 8..] && t[n - 8..n - 8 + 8] == t[n - 8..];
    LoadSame(s, t, 0, 0 + 8);
    LoadSame(s, t, 8, 8 + 8);
    LoadSame(s, t, n - 8, n - 8 + 8);
  }

  lemma MiddleWord(x: Word, w: Word, w': Word, v: Word)
    requires HashLen16(Add(x, Mul(w, K0)), v) == HashLen16(Add(x, Mul(w', K0)), v)
    ensures w == w'
  {
    HashLen16Injective(Add(x, Mul(w, K0)), Add(x, Mul(w', K0)), v);
    AddInjective(Mul(w, K0), Mul(w', K0), x);
    Inverses();
    MulInjective(w, w', K0, K0_INV);
  }

  lemma Rejoin(s: seq<Byte>, t: seq<Byte>)
    requires 24 <= |s| == |t| <= 32 && s[..16] == t[..16] && s[|s| - 8..] == t[|t| - 8..]
    requires s[|s| - 16..|s| - 16 + 8] == t[|s| - 16..|s| - 16 + 8]
    ensures s == t
  {
    var n := |s|;
    forall i | 0 <= i < n
      ensures s[i] == t[i]
    {
      if i < 16 {
        assert s[i] == s[..16][i] && t[i] == t[..16][i];
      } else if i < n - 8 {
        assert s[i] == s[n - 16..n - 16 + 8][i - (n - 16)] && t[i] == t[n - 16..n - 16 + 8][i - (n - 16)];
      } else {
        assert s[i] == s[n - 8..][i - (n - 8)] && t[i] == t[n - 8..][i - (n - 8)];
      }
    }
  }

  // ----- what the rounds of the long hashes see -----

  lemma SumShows(a: Word, b: Word, b': Word)
    ensures Add(a, b) == Add(a, b') <==> b == b'
    ensures Add(b, a) == Add(b', a) <==> b == b'
  {
  }

  lemma TurnBack(v: Word)
    ensures RotateByAtLeast1(Rotate(v, 21), 43) == v && Rotate(RotateByAtLeast1(v, 43), 21) == v
  {
    RotateBack(v, 21);
    RotateBack(v, 43);
  }

  /** The seeds that WeakHashLen32WithSeeds turns into `r` beside these words. */
  function Unweak(k: Four, r: (Word, Word)): (Word, Word) {
    var a2 := Sub(r.0, k.d);
    var a1 := Sub(Sub(a2, k.c), k.b);
    var b1 := Sub(Sub(r.1, a1), Rotate(a2, 44));
    (Sub(a1, k.a), Sub(Sub(RotateByAtLeast1(b1, 43), k.d), a1))
  }

  /** For fixed words it is injective in the seeds. */
  lemma WeakInvertible(k: Four, a: Word, b: Word)
    ensures Unweak(k, Weak(k, a, b)) == (a, b)
  {
    var a1 := Add(a, k.a);
    var t := Add(Add(b, a1), k.d);
    var a2 := Add(Add(a1, k.b), k.c);
    AddUndo(a2, k.d);
    AddUndo(Add(a1, k.b), k.c);
    AddUndo(a1, k.b);
    AddUndo(a, k.a);
    AddUndo(Add(Rotate(t, 21), Rotate(a2, 44)), a1);
    AddUndo(Rotate(t, 21), Rotate(a2, 44));
    TurnBack(t);
    AddUndo(Add(b, a1), k.d);
    AddUndo(b, a1);
  }

  lemma Sum4Shows(a: Word, m: Word, n: Word, z: Word, w: Word)
    ensures Add(Add(Add(w, m), n), z) == Add(Add(Add(a, m), n), z) <==> w == a
    ensures Add(Add(Add(a, w), n), z) == Add(Add(Add(a, m), n), z) <==> w == m
    ensures Add(Add(Add(a, m), w), z) == Add(Add(Add(a, m), n), z) <==> w == n
    ensures Add(Add(Add(a, m), n), w) == Add(Add(Add(a, m), n), z) <==> w == z
  {
    SumShows(m, w, a);
    SumShows(a, w, m);
    SumShows(n, Add(w, m), Add(a, m));
    SumShows(n, Add(a, w), Add(a, m));
    SumShows(Add(a, m), w, n);
    SumShows(z, Add(Add(w, m), n), Add(Add(a, m), n));
    SumShows(z, Add(Add(a, w), n), Add(Add(a, m), n));
    SumShows(z, Add(Add(a, m), w), Add(Add(a, m), n));
    SumShows(Add(Add(a, m), n), w, z);
  }

  /** For fixed seeds each single word shows in the first result. */
  lemma WeakShows(k: Four, a: Word, b: Word, w: Word)
    ensures Weak(k.(a := w), a, b).0 == Weak(k, a, b).0 <==> w == k.a
    ensures Weak(k.(b := w), a, b).0 == Weak(k, a, b).0 <==> w == k.b
    ensures Weak(k.(c := w), a, b).0 == Weak(k, a, b).0 <==> w == k.c
    ensures Weak(k.(d := w), a, b).0 == Weak(k, a, b).0 <==> w == k.d
  {
    Sum4Shows(Add(a, k.a), k.b, k.c, k.d, w);
    Sum4Shows(Add(a, k.a), k.b, k.c, k.d, Add(a, w));
    SumShows(a, w, k.a);
  }

  /** 33 to 64 bytes: each single word shows in the first result of its half. */
  lemma HalfShows(a: Word, z: Word, m: Word, n: Word, w: Word)
    ensures Half64(w, z, m, n).0 == Half64(a, z, m, n).0 <==> w == a
    ensures Half64(a, w, m, n).0 == Half64(a, z, m, n).0 <==> w == z
    ensures Half64(a, z, w, n).0 == Half64(a, z, m, n).0 <==> w == m
    ensures Half64(a, z, m, w).0 == Half64(a, z, m, n).0 <==> w == n
  {
    Sum4Shows(a, m, n, z, w);
  }

  lemma Turned(v: Word, w: Word, shift: nat)
    requires 1 <= shift <= 63
    ensures Rotate(v, shift) == Rotate(w, shift) <==> v == w
  {
    RotateBack(v, shift);
    RotateBack(w, shift);
  }

  lemma TimesK1(v: Word, w: Word)
    ensures Mul(v, K1) == Mul(w, K1) <==> v == w
  {
    K1Undo(v);
    K1Undo(w);
  }

  /** Over 64 bytes: each single word of a block shows in the state after its round. */
  lemma MixShowsLower(t: State, k: Block, w: Word)
    ensures Mix(t, k.(lower := k.lower.(a := w))) == Mix(t, k) <==> w == k.lower.a
    ensures Mix(t, k.(lower := k.lower.(b := w))) == Mix(t, k) <==> w == k.lower.b
    ensures Mix(t, k.(lower := k.lower.(c := w))) == Mix(t, k) <==> w == k.lower.c
    ensures Mix(t, k.(lower := k.lower.(d := w))) == Mix(t, k) <==> w == k.lower.d
  {
    var x := Mix(t, k).z;
    WeakShows(k.lower, Mul(t.v.1, K1), Add(x, t.w.0), w);
    var s := Add(Add(t.x, t.y), t.v.0);
    SumShows(s, w, k.lower.b);
    Turned(Add(s, w), Add(s, k.lower.b), 37);
    TimesK1(Rotate(Add(s, w), 37), Rotate(Add(s, k.lower.b), 37));
    XorWordUndo(Mul(Rotate(Add(s, w), 37), K1), t.w.1);
    XorWordUndo(Mul(Rotate(Add(s, k.lower.b), 37), K1), t.w.1);
  }

  lemma MixShowsUpper(t: State, k: Block, w: Word)
    ensures Mix(t, k.(upper := k.upper.(a := w))) == Mix(t, k) <==> w == k.upper.a
    ensures Mix(t, k.(upper := k.upper.(b := w))) == Mix(t, k) <==> w == k.upper.b
    ensures Mix(t, k.(upper := k.upper.(c := w))) == Mix(t, k) <==> w == k.upper.c
    ensures Mix(t, k.(upper := k.upper.(d := w))) == Mix(t, k) <==> w == k.upper.d
  {
    var (y, z) := (Mix(t, k).y, Mix(t, k).x);
    WeakShows(k.upper, Add(z, t.w.1), Add(y, k.lower.c), w);
    var r := Mul(Rotate(Add(Add(t.y, t.v.1), k.upper.c), 42), K1);
    SumShows(t.v.0, w, k.upper.b);
    SumShows(r, Add(t.v.0, w), Add(t.v.0, k.upper.b));
    var s := Add(t.y, t.v.1);
    SumShows(s, w, k.upper.c);
    Turned(Add(s, w), Add(s, k.upper.c), 42);
    TimesK1(Rotate(Add(s, w), 42), Rotate(Add(s, k.upper.c), 42));
    SumShows(Add(t.v.0, k.upper.b), Mul(Rotate(Add(s, w), 42), K1), r);
  }

  /** The tail of CityHash128WithSeed: each single word of a block shows in the state. */
  lemma MixTailShows(t: State, k: Four, w: Word)
    ensures MixTail(t, k.(a := w)) == MixTail(t, k) <==> w == k.a
    ensures MixTail(t, k.(b := w)) == MixTail(t, k) <==> w == k.b
    ensures MixTail(t, k.(c := w)) == MixTail(t, k) <==> w == k.c
    ensures MixTail(t, k.(d := w)) == MixTail(t, k) <==> w == k.d
  {
    SumShows(t.w.1, w, k.a);
    SumShows(t.z, Add(t.w.1, w), Add(t.w.1, k.a));
    SumShows(t.w.0, w, k.c);
    WeakShows(k, Add(t.v.0, MixTail(t, k).z), t.v.1, w);
  }

  /** The step between its loops loses nothing. */
  lemma BridgeInjective(t: State, t': State)
    requires Bridge(t) == Bridge(t')
    ensures t == t'
  {
    SumShows(Mul(Rotate(t.w.0, 37), K0), t.z, t'.z);
    SumShows(Mul(Rotate(Add(t.v.0, t.z), 49), K0), t.x, t'.x);
  }

  // ----- how the long hashes begin -----

  lemma Loads(s: seq<Byte>, t: seq<Byte>, p: nat)
    requires p + 8 <= |s| == |t|
    ensures Load64(s, p) == Load64(t, p) <==> s[p..p + 8] == t[p..p + 8]
  {
    if Load64(s, p) == Load64(t, p) { LoadInjective(s, t, p, p + 8); }
    if s[p..p + 8] == t[p..p + 8] { LoadSame(s, t, p, p + 8); }
  }

  lemma LastWords(s: seq<Byte>, t: seq<Byte>, n: nat, k: nat)
    requires 64 < |s| == |t| == n && s[n - 64..] == t[n - 64..] && 8 <= k <= 64
    ensures Load64(s, n - k) == Load64(t, n - k)
  {
    var p := n - k;
    assert s[p..p + 8] == s[n - 64..][64 - k..64 - k + 8] && t[p..p + 8] == t[n - 64..][64 - k..64 - k + 8];
    Loads(s, t, p);
  }

  lemma LastFours(s: seq<Byte>, t: seq<Byte>, n: nat)
    requires 64 < |s| == |t| == n && s[n - 64..] == t[n - 64..]
    ensures FourAt(s, n - 64) == FourAt(t, n - 64) && FourAt(s, n - 32) == FourAt(t, n - 32)
  {
    LastWords(s, t, n, 64);
    LastWords(s, t, n, 56);
    LastWords(s, t, n, 48);
    LastWords(s, t, n, 40);
    LastWords(s, t, n, 32);
    LastWords(s, t, n, 24);
    LastWords(s, t, n, 16);
    LastWords(s, t, n, 8);
  }

  /** Over 64 bytes: with the same last 64, the first state is the same exactly if the first 8
      bytes are. */
  lemma Start64Shows(s: seq<Byte>, t: seq<Byte>)
    requires 64 < |s| == |t| < LENGTH_LIMIT && s[|s| - 64..] == t[|t| - 64..]
    ensures Start64(s, 0, |s|) == Start64(t, 0, |t|) <==> s[..8] == t[..8]
  {
    var n := |s|;
    LastFours(s, t, n);
    SumShows(Mul(Load64(s, n - 40), K1), Load64(s, 0), Load64(t, 0));
    Loads(s, t, 0);
    assert s[..8] == s[0..0 + 8] && t[..8] == t[0..0 + 8];
  }

  /** CityHash128WithSeed: the first state has both seeds in it and the words at 0, 8 and 88,
      and nothing else. */
  lemma Start128Shows(s: seq<Byte>, t: seq<Byte>, seed: (Word, Word), seed': (Word, Word))
    requires 128 <= |s| == |t| < LENGTH_LIMIT
    ensures Start128(s, 0, |s|, seed) == Start128(t, 0, |t|, seed') <==>
              seed == seed' && s[0..8] == t[0..8] && s[8..16] == t[8..16] && s[88..96] == t[88..96]
  {
    if Start128(s, 0, |s|, seed) == Start128(t, 0, |t|, seed') { StartSeeds(s, t, seed, seed'); }
    if seed == seed' {
      StartWords(s, t, seed);
      ThreeLoads(s, t, 0, 8, 88);
    }
  }

  lemma StartSeeds(s: seq<Byte>, t: seq<Byte>, seed: (Word, Word), seed': (Word, Word))
    requires 128 <= |s| == |t| < LENGTH_LIMIT && Start128(s, 0, |s|, seed) == Start128(t, 0, |t|, seed')
    ensures seed == seed'
  {
    assert Start128(s, 0, |s|, seed).x == seed.0 && Start128(s, 0, |s|, seed).y == seed.1;
  }

  lemma ThreeLoads(s: seq<Byte>, t: seq<Byte>, p: nat, q: nat, r: nat)
    requires p + 8 <= |s| && q + 8 <= |s| && r + 8 <= |s| == |t|
    ensures Load64(s, p) == Load64(t, p) && Load64(s, q) == Load64(t, q) && Load64(s, r) == Load64(t, r) <==>
              s[p..p + 8] == t[p..p + 8] && s[q..q + 8] == t[q..q + 8] && s[r..r + 8] == t[r..r + 8]
  {
    Loads(s, t, p);
    Loads(s, t, q);
    Loads(s, t, r);
  }

  lemma StartWords(s: seq<Byte>, t: seq<Byte>, seed: (Word, Word))
    requires 128 <= |s| == |t| < LENGTH_LIMIT
    ensures Start128(s, 0, |s|, seed) == Start128(t, 0, |t|, seed) <==>
              Load64(s, 0) == Load64(t, 0) && Load64(s, 8) == Load64(t, 8) && Load64(s, 88) == Load64(t, 88)
  {
    var (p, q) := (Start128(s, 0, |s|, seed), Start128(t, 0, |t|, seed));
    SumShows(Mul(Rotate(XorWord(seed.1, K1), 49), K1), Load64(s, 0), Load64(t, 0));
    SumShows(Mul(Rotate(p.v.0, 42), K1), Load64(s, 8), Load64(t, 8));
    TurnedSum(seed.0, Load64(s, 88), Load64(t, 88));
  }

  lemma TurnedSum(x: Word, a: Word, b: Word)
    ensures Mul(Rotate(Add(x, a), 53), K1) == Mul(Rotate(Add(x, b), 53), K1) <==> a == b
  {
    TimesK1(Rotate(Add(x, a), 53), Rotate(Add(x, b), 53));
    Turned(Add(x, a), Add(x, b), 53);
    SumShows(x, a, b);
  }

  // ----- how the long hashes end -----

  lemma MixInjective(y: Word, y': Word)
    requires ShiftMix(y) == ShiftMix(y')
    ensures y == y'
  {
    ShiftMixTwice(y);
    ShiftMixTwice(y');
  }

  /** 33 to 64 bytes: beside one second word of the front half, hashes agree exactly if the
      sums that go into the first mixing agree. */
  lemma Join64Shows(v: (Word, Word), w: (Word, Word), v': (Word, Word), w': (Word, Word))
    requires v.1 == v'.1
    ensures Join64(v, w) == Join64(v', w') <==> Sum64(v, w) == Sum64(v', w')
  {
    if Join64(v, w) == Join64(v', w') { JoinedSums(Sum64(v, w), Sum64(v', w'), v.1); }
  }

  lemma JoinedSums(r: Word, r': Word, z: Word)
    requires Mul(ShiftMix(Add(Mul(ShiftMix(r), K0), z)), K2) == Mul(ShiftMix(Add(Mul(ShiftMix(r'), K0), z)), K2)
    ensures r == r'
  {
    var m, m' := Add(Mul(ShiftMix(r), K0), z), Add(Mul(ShiftMix(r'), K0), z);
    Inverses();
    MulInjective(ShiftMix(m), ShiftMix(m'), K2, K2_INV);
    MixInjective(m, m');
    AddInjective(Mul(ShiftMix(r), K0), Mul(ShiftMix(r'), K0), z);
    MulInjective(ShiftMix(r), ShiftMix(r'), K0, K0_INV);
    MixInjective(r, r');
  }

  /** Each single word of the halves shows in that sum, so in the hash. */
  lemma HalvesShow(v: (Word, Word), w: (Word, Word), v0: Word, w0: Word, w1: Word)
    ensures Join64((v0, v.1), w) == Join64(v, w) <==> v0 == v.0
    ensures Join64(v, (w0, w.1)) == Join64(v, w) <==> w0 == w.0
    ensures Join64(v, (w.0, w1)) == Join64(v, w) <==> w1 == w.1
  {
    Join64Shows((v0, v.1), w, v, w);
    Join64Shows(v, (w0, w.1), v, w);
    Join64Shows(v, (w.0, w1), v, w);
    SumsDiffer(v0, v.0, w.1, Mul(Add(w.0, v.1), K0));
    SumsDiffer(w1, w.1, v.0, Mul(Add(w.0, v.1), K0));
    SumsDifferBelow(w0, w.0, v.1, Mul(Add(v.0, w.1), K2));
  }

  lemma SumsDiffer(a: Word, a': Word, b: Word, c: Word)
    ensures Add(Mul(Add(a, b), K2), c) == Add(Mul(Add(a', b), K2), c) <==> a == a'
    ensures Add(Mul(Add(b, a), K2), c) == Add(Mul(Add(b, a'), K2), c) <==> a == a'
  {
    Inverses();
    if Add(Mul(Add(a, b), K2), c) == Add(Mul(Add(a', b), K2), c) {
      AddInjective(Mul(Add(a, b), K2), Mul(Add(a', b), K2), c);
      MulInjective(Add(a, b), Add(a', b), K2, K2_INV);
    }
    assert Add(b, a) == Add(a, b) && Add(b, a') == Add(a', b);
  }

  lemma SumsDifferBelow(a: Word, a': Word, b: Word, c: Word)
    ensures Add(c, Mul(Add(a, b), K0)) == Add(c, Mul(Add(a', b), K0)) <==> a == a'
  {
    Inverses();
    if Add(c, Mul(Add(a, b), K0)) == Add(c, Mul(Add(a', b), K0)) {
      AddInjective(Mul(Add(a, b), K0), Mul(Add(a', b), K0), c);
      MulInjective(Add(a, b), Add(a', b), K0, K0_INV);
    }
  }

  /** Over 64 bytes: each of y, z and v.0 shows in the hash. */
  lemma Final64Shows(t: State, y: Word, z: Word, v0: Word)
    ensures Final64(t.(y := y)) == Final64(t) <==> y == t.y
    ensures Final64(t.(z := z)) == Final64(t) <==> z == t.z
    ensures Final64(t.(v := (v0, t.v.1))) == Final64(t) <==> v0 == t.v.0
  {
    var p, m, x := HashLen16(t.v.0, t.w.0), Mul(ShiftMix(t.y), K1), Add(HashLen16(t.v.1, t.w.1), t.x);
    LastWord(Add(Add(p, Mul(ShiftMix(y), K1)), t.z), Add(Add(p, m), t.z), x);
    LastWord(Add(Add(p, m), z), Add(Add(p, m), t.z), x);
    LastWord(Add(Add(HashLen16(v0, t.w.0), m), t.z), Add(Add(p, m), t.z), x);
    AddInjective(Add(p, Mul(ShiftMix(y), K1)), Add(p, m), t.z);
    AddInjective(Mul(ShiftMix(y), K1), m, p);
    AddInjective(z, t.z, Add(p, m));
    AddInjective(Add(HashLen16(v0, t.w.0), m), Add(p, m), t.z);
    AddInjective(HashLen16(v0, t.w.0), p, m);
    MixedWord(y, t.y);
    LastWord(v0, t.v.0, t.w.0);
  }

  lemma LastWord(u: Word, u': Word, v: Word)
    ensures HashLen16(u, v) == HashLen16(u', v) <==> u == u'
  {
    if HashLen16(u, v) == HashLen16(u', v) { HashLen16Injective(u, u', v); }
  }

  lemma MixedWord(y: Word, y': Word)
    ensures Mul(ShiftMix(y), K1) == Mul(ShiftMix(y'), K1) <==> y == y'
  {
    Inverses();
    if Mul(ShiftMix(y), K1) == Mul(ShiftMix(y'), K1) {
      MulInjective(ShiftMix(y), ShiftMix(y'), K1, K1_INV);
      MixInjective(y, y');
    }
  }

  /** CityHash128WithSeed: each of x, y and z shows in the first word. */
  lemma Final128Shows(t: State, x: Word, y: Word, z: Word)
    ensures Final128(t.(x := x)).0 == Final128(t).0 <==> x == t.x
    ensures Final128(t.(y := y)).0 == Final128(t).0 <==> y == t.y
    ensures Final128(t.(z := z)).0 == Final128(t).0 <==> z == t.z
  {
    var p, q := HashLen16(t.x, t.v.0), HashLen16(Add(t.y, t.z), t.w.0);
    var h := HashLen16(Add(p, t.v.1), t.w.1);
    LastWord(x, t.x, t.v.0);
    AddInjective(HashLen16(x, t.v.0), p, t.v.1);
    LastWord(Add(HashLen16(x, t.v.0), t.v.1), Add(p, t.v.1), t.w.1);
    AddInjective(HashLen16(Add(HashLen16(x, t.v.0), t.v.1), t.w.1), h, q);
    LastWord(Add(y, t.z), Add(t.y, t.z), t.w.0);
    AddInjective(y, t.y, t.z);
    AddInjective(HashLen16(Add(y, t.z), t.w.0), q, h);
    LastWord(Add(t.y, z), Add(t.y, t.z), t.w.0);
    AddInjective(z, t.z, t.y);
    AddInjective(HashLen16(Add(t.y, z), t.w.0), q, h);
  }

  /** CityMurmur: each of a and d shows in the first word. */
  lemma MurmurEndShows(t: Murmur, a: Word, d: Word)
    ensures MurmurEnd(t.(a := a)).0 == MurmurEnd(t).0 <==> a == t.a
    ensures MurmurEnd(t.(d := d)).0 == MurmurEnd(t).0 <==> d == t.d
  {
    var p, q := HashLen16(t.a, t.c), HashLen16(t.d, t.b);
    LastWord(a, t.a, t.c);
    LastWord(d, t.d, t.b);
    XorWordUndo(p, q);
    XorWordUndo(HashLen16(a, t.c), q);
    XorWordUndo(HashLen16(d, t.b), p);
    XorWordUndo(q, p);
  }

  // ----- CityMurmur -----

  function Unchurn(h: Word, chunk: Word): Word {
    XorWord(Mul(h, K1_INV), Mul(ShiftMix(Mul(chunk, K1)), K1))
  }

  function MurmurBack(t: Murmur, chunk: (Word, Word)): Murmur {
    Murmur(Unchurn(t.a, chunk.0), XorWord(t.b, t.a), Unchurn(t.c, chunk.1), XorWord(t.d, t.c))
  }

  lemma ChurnBijective(h: Word, chunk: Word)
    ensures Unchurn(Churn(h, chunk), chunk) == h && Churn(Unchurn(h, chunk), chunk) == h
  {
    var x := Mul(ShiftMix(Mul(chunk, K1)), K1);
    K1Undo(XorWord(h, x));
    XorWordUndo(h, x);
    XorWordUndo(Mul(h, K1_INV), x);
    K1Undo(h);
  }

  lemma ChurnInjective(h: Word, chunk: Word, chunk': Word)
    requires Churn(h, chunk) == Churn(h, chunk')
    ensures chunk == chunk'
  {
    var m, m' := ShiftMix(Mul(chunk, K1)), ShiftMix(Mul(chunk', K1));
    K1Undo(XorWord(h, Mul(m, K1)));
    K1Undo(XorWord(h, Mul(m', K1)));
    XorWordUndo(Mul(m, K1), h);
    XorWordUndo(Mul(m', K1), h);
    K1Undo(m);
    K1Undo(m');
    ShiftMixTwice(Mul(chunk, K1));
    ShiftMixTwice(Mul(chunk', K1));
    K1Undo(chunk);
    K1Undo(chunk');
  }

  /** For a fixed chunk one round is a bijection of the state. */
  lemma MurmurStepBijective(t: Murmur, chunk: (Word, Word))
    ensures MurmurBack(MurmurStep(t, chunk), chunk) == t
    ensures MurmurStep(MurmurBack(t, chunk), chunk) == t
  {
    ChurnBijective(t.a, chunk.0);
    ChurnBijective(t.c, chunk.1);
    XorWordUndo(t.b, Churn(t.a, chunk.0));
    XorWordUndo(t.d, Churn(t.c, chunk.1));
    XorWordUndo(t.b, t.a);
    XorWordUndo(t.d, t.c);
  }

  /** For a fixed state one round is injective in the chunk. */
  lemma MurmurStepSeesChunk(t: Murmur, chunk: (Word, Word), chunk': (Word, Word))
    requires MurmurStep(t, chunk) == MurmurStep(t, chunk')
    ensures chunk == chunk'
  {
    ChurnInjective(t.a, chunk.0, chunk'.0);
    ChurnInjective(t.c, chunk.1, chunk'.1);
  }

  /** Each half of the chunk shows in both words of the state that it goes into. */
  lemma MurmurStepSpreads(t: Murmur, chunk: (Word, Word), w: Word)
    ensures MurmurStep(t, (w, chunk.1)).a == MurmurStep(t, chunk).a <==> w == chunk.0
    ensures MurmurStep(t, (w, chunk.1)).b == MurmurStep(t, chunk).b <==> w == chunk.0
    ensures MurmurStep(t, (chunk.0, w)).c == MurmurStep(t, chunk).c <==> w == chunk.1
    ensures MurmurStep(t, (chunk.0, w)).d == MurmurStep(t, chunk).d <==> w == chunk.1
  {
    ChurnShows(t.a, t.b, chunk.0, w);
    ChurnShows(t.c, t.d, chunk.1, w);
  }

  lemma ChurnShows(h: Word, g: Word, x: Word, w: Word)
    ensures Churn(h, w) == Churn(h, x) <==> w == x
    ensures XorWord(g, Churn(h, w)) == XorWord(g, Churn(h, x)) <==> w == x
  {
    if Churn(h, w) == Churn(h, x) { ChurnInjective(h, w, x); }
    XorWordUndo(Churn(h, w), g);
    XorWordUndo(Churn(h, x), g);
  }

  lemma MurmurStepKeepsDifference(t: Murmur, t': Murmur, chunk: (Word, Word))
    requires t != t'
    ensures MurmurStep(t, chunk) != MurmurStep(t', chunk)
  {
    MurmurStepBijective(t, chunk);
    MurmurStepBijective(t', chunk);
  }

  lemma ChunkBytes(s: seq<Byte>, t: seq<Byte>, p: nat)
    requires p + 16 <= |s| == |t|
    ensures Chunk(s, p) == Chunk(t, p) <==> s[p..p + 16] == t[p..p + 16]
  {
    assert s[p..p + 16] == s[p..p + 8] + s[p + 8..p + 8 + 8] && t[p..p + 16] == t[p..p + 8] + t[p + 8..p + 8 + 8];
    if Chunk(s, p) == Chunk(t, p) {
      LoadInjective(s, t, p, p + 8);
      LoadInjective(s, t, p + 8, p + 8 + 8);
    }
    if s[p..p + 16] == t[p..p + 16] {
      assert s[p..p + 8] == s[p..p + 16][..8] && t[p..p + 8] == t[p..p + 16][..8];
      assert s[p + 8..p + 8 + 8] == s[p..p + 16][8..] && t[p + 8..p + 8 + 8] == t[p..p + 16][8..];
      LoadSame(s, t, p, p + 8);
      LoadSame(s, t, p + 8, p + 8 + 8);
    }
  }

  /** Lists that differ in one place lead to different states, if each round is injective in
      the state and in the chunk. */
  lemma {:induction false} FoldDiffers<S(!new), K(!new)>(f: (S, K) -> S, start: S, cs: seq<K>, ds: seq<K>, i: nat)
    requires forall t, t', k :: f(t, k) == f(t', k) ==> t == t'
    requires forall t, k, k' :: f(t, k) == f(t, k') ==> k == k'
    requires |cs| == |ds| && i < |cs| && forall j :: 0 <= j < |cs| ==> (cs[j] == ds[j] <==> j != i)
    ensures Fold(f, start, cs) != Fold(f, start, ds)
  {
    var n := |cs| - 1;
    if i == n {
      assert cs[..n] == ds[..n];
    } else {
      FoldDiffers(f, start, cs[..n], ds[..n], i);
    }
  }

  lemma OneChunkDiffers(state: Murmur, cs: seq<(Word, Word)>, ds: seq<(Word, Word)>, i: nat)
    requires |cs| == |ds| && i < |cs| && forall j :: 0 <= j < |cs| ==> (cs[j] == ds[j] <==> j != i)
    ensures Fold(MurmurStep, state, cs) != Fold(MurmurStep, state, ds)
  {
    forall t, t', k | MurmurStep(t, k) == MurmurStep(t', k)
      ensures t == t'
    {
      if t != t' { MurmurStepKeepsDifference(t, t', k); }
    }
    forall t, k, k' | MurmurStep(t, k) == MurmurStep(t, k')
      ensures k == k'
    {
      if k != k' { ChunkShows(t, k, k'); }
    }
    FoldDiffers(MurmurStep, state, cs, ds, i);
  }

  lemma ChunkShows(t: Murmur, chunk: (Word, Word), chunk': (Word, Word))
    requires chunk != chunk'
    ensures MurmurStep(t, chunk) != MurmurStep(t, chunk')
  {
    if MurmurStep(t, chunk) == MurmurStep(t, chunk') { MurmurStepSeesChunk(t, chunk, chunk'); }
  }

  /** Over 16 bytes the first state has both seeds and the last 8 bytes in it. */
  lemma StartShows(s: seq<Byte>, t: seq<Byte>, seed: (Word, Word), seed': (Word, Word))
    requires 16 < |s| == |t| < LENGTH_LIMIT && MurmurStart(s, 0, |s|, seed) == MurmurStart(t, 0, |t|, seed')
    ensures seed == seed' && s[|s| - 8..] == t[|t| - 8..]
  {
    var n := |s|;
    var m := MurmurStart(s, 0, n, seed);
    AddInjective(seed.0, seed'.0, m.d);
    HashLen16Injective(Add(Load64(s, n - 8), K1), Add(Load64(t, n - 8), K1), seed.0);
    AddInjective(Load64(s, n - 8), Load64(t, n - 8), K1);
    LoadInjective(s, t, n - 8, n - 8 + 8);
    assert s[n - 8..] == s[n - 8..n - 8 + 8] && t[n - 8..] == t[n - 8..n - 8 + 8];
  }

  /** Up to 16 bytes the state has both seeds and the short hash in it, and from 8 bytes on the
      first 8; and nothing else. */
  lemma ShortShows(s: seq<Byte>, t: seq<Byte>, seed: (Word, Word), seed': (Word, Word))
    requires |s| == |t| <= 16
    ensures MurmurShort(s, 0, |s|, seed) == MurmurShort(t, 0, |t|, seed') <==>
              seed == seed' && Len0to16(s, 0, |s|) == Len0to16(t, 0, |t|) && (|s| >= 8 ==> s[..8] == t[..8])
  {
    var m, m' := MurmurShort(s, 0, |s|, seed), MurmurShort(t, 0, |t|, seed');
    TimesK1(ShiftMix(Mul(seed.0, K1)), ShiftMix(Mul(seed'.0, K1)));
    TimesK1(seed.0, seed'.0);
    if m == m' {
      MixInjective(Mul(seed.0, K1), Mul(seed'.0, K1));
      SumShows(Mul(seed.1, K1), Len0to16(s, 0, |s|), Len0to16(t, 0, |t|));
    }
    if |s| >= 8 { FirstWord(s, t, m.a); }
  }

  lemma FirstWord(s: seq<Byte>, t: seq<Byte>, a: Word)
    requires 8 <= |s| == |t|
    ensures ShiftMix(Add(a, Load64(s, 0))) == ShiftMix(Add(a, Load64(t, 0))) <==> s[..8] == t[..8]
  {
    assert s[..8] == s[0..0 + 8] && t[..8] == t[0..0 + 8];
    if ShiftMix(Add(a, Load64(s, 0))) == ShiftMix(Add(a, Load64(t, 0))) {
      MixInjective(Add(a, Load64(s, 0)), Add(a, Load64(t, 0)));
      SumShows(a, Load64(s, 0), Load64(t, 0));
      LoadInjective(s, t, 0, 0 + 8);
    }
    if s[..8] == t[..8] { LoadSame(s, t, 0, 0 + 8); }
  }

  /** Two keys of one length over 16 bytes, with the same seed and the same last 16
      bytes, that differ in exactly one chunk of the loop leave it in different states. */
  lemma OneChunkShows(s: seq<Byte>, t: seq<Byte>, seed: (Word, Word), i: nat)
    requires 16 < |s| == |t| < LENGTH_LIMIT && s[|s| - 16..] == t[|s| - 16..]
    requires i < MurmurRounds(|s|)
    requires forall j :: 0 <= j < MurmurRounds(|s|) ==> (s[16 * j..16 * j + 16] == t[16 * j..16 * j + 16] <==> j != i)
    ensures MurmurStart(s, 0, |s|, seed) == MurmurStart(t, 0, |t|, seed)
    ensures Fold(MurmurStep, MurmurStart(s, 0, |s|, seed), Chunks(s, 0, MurmurRounds(|s|)))
         != Fold(MurmurStep, MurmurStart(t, 0, |t|, seed), Chunks(t, 0, MurmurRounds(|t|)))
  {
    SameStart(s, t, seed);
    var cs, ds := Chunks(s, 0, MurmurRounds(|s|)), Chunks(t, 0, MurmurRounds(|t|));
    forall j | 0 <= j < |cs|
      ensures cs[j] == ds[j] <==> j != i
    {
      ChunkBytes(s, t, 16 * j);
    }
    OneChunkDiffers(MurmurStart(s, 0, |s|, seed), cs, ds, i);
  }

  lemma SameStart(s: seq<Byte>, t: seq<Byte>, seed: (Word, Word))
    requires 16 < |s| == |t| < LENGTH_LIMIT && s[|s| - 16..] == t[|s| - 16..]
    ensures MurmurStart(s, 0, |s|, seed) == MurmurStart(t, 0, |t|, seed)
  {
    var p := |s| - 16;
    assert s[p..p + 16] == s[p..] && t[p..p + 16] == t[p..];
    ChunkBytes(s, t, p);
    assert p + 8 == |s| - 8;
  }
}

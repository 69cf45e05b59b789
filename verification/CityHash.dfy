/** CityHash over the bytes of a key: what every function computes. */
module CityHash {
  import opened Word64

  type Byte = x: int | 0 <= x < 0x100

  /** Lengths fit a signed long. */
  const LENGTH_LIMIT := 0x8000_0000_0000_0000

  /** A loop: `f` applied to one key after the other. */
  function Fold<S, K>(f: (S, K) -> S, start: S, keys: seq<K>): S {
    if keys == [] then start else f(Fold(f, start, keys[..|keys| - 1]), keys[|keys| - 1])
  }

  /** One loop, something in between, another loop. */
  function TwoFolds<S, K, L>(f: (S, K) -> S, start: S, keys: seq<K>, between: S -> S, g: (S, L) -> S, more: seq<L>): S {
    Fold(g, between(Fold(f, start, keys)), more)
  }

  // ----- what is computed -----

  /** The bytes from `p` to `q`, the first one least significant. */
  function Load(s: seq<Byte>, p: nat, q: nat): nat
    requires p <= q <= |s|
    decreases q - p
  {
    if p == q then 0 else s[p] + 0x100 * Load(s, p + 1, q)
  }

  lemma {:induction false} LoadBound(s: seq<Byte>, p: nat, q: nat, n: nat)
    requires p <= q <= |s| && n == 8 * (q - p)
    ensures Load(s, p, q) < Pow2(n)
    decreases q - p
  {
    if p < q {
      LoadBound(s, p + 1, q, n - 8);
      Pow2Next8(n - 8);
    }
  }

  function Load64(s: seq<Byte>, p: nat): Word
    requires p + 8 <= |s|
  {
    WordIsPow();
    LoadBound(s, p, p + 8, 64);
    Load(s, p, p + 8)
  }

  function Load32(s: seq<Byte>, p: nat): (w: Word)
    requires p + 4 <= |s|
    ensures w < 0x1_0000_0000
  {
    WordIsPow();
    LoadBound(s, p, p + 4, 32);
    Load(s, p, p + 4)
  }

  function Hash128to64(u: Word, v: Word): Word {
    var a := ShiftMix(Mul(XorWord(u, v), KMUL));
    var b := ShiftMix(Mul(XorWord(v, a), KMUL));
    Mul(b, KMUL)
  }

  function HashLen16(u: Word, v: Word): Word { Hash128to64(u, v) }

  function Len9to16(s: seq<Byte>, p: nat, len: nat): Word
    requires 8 < len <= 16 && p + len <= |s|
  {
    var b := Load64(s, p + len - 8);
    XorWord(HashLen16(Load64(s, p), RotateByAtLeast1(Add(b, len), len)), b)
  }

  function Len4to8(s: seq<Byte>, p: nat, len: nat): Word
    requires 4 <= len <= 8 && p + len <= |s|
  {
    HashLen16(len + 8 * Load32(s, p), Load32(s, p + len - 4))
  }

  function Len1to3(s: seq<Byte>, p: nat, len: nat): Word
    requires 1 <= len < 4 && p + len <= |s|
  {
    var a: int, b: int, c: int := s[p], s[p + len / 2], s[p + len - 1];
    var y, z := a + 0x100 * b, len + 4 * c;
    Mul(ShiftMix(XorWord(Mul(y, K2), Mul(z, K3))), K2)
  }

  function Len0to16(s: seq<Byte>, p: nat, len: nat): Word
    requires len <= 16 && p + len <= |s|
  {
    if len > 8 then Len9to16(s, p, len)
    else if len >= 4 then Len4to8(s, p, len)
    else if len > 0 then Len1to3(s, p, len)
    else K2
  }

  function Len17to32(s: seq<Byte>, p: nat, len: nat): Word
    requires 16 < len <= 32 && p + len <= |s|
  {
    var a, b := Mul(Load64(s, p), K1), Load64(s, p + 8);
    var c, d := Mul(Load64(s, p + len - 8), K2), Mul(Load64(s, p + len - 16), K0);
    HashLen16(Add(Add(Rotate(Sub(a, b), 43), Rotate(c, 30)), d),
              Add(Sub(Add(a, Rotate(XorWord(b, K3), 20)), c), len))
  }

  function WeakHashLen32WithSeeds(w: Word, x: Word, y: Word, z: Word, a: Word, b: Word): (Word, Word) {
    var a1 := Add(a, w);
    var b1 := Rotate(Add(Add(b, a1), z), 21);
    var a2 := Add(Add(a1, x), y);
    (Add(a2, z), Add(Add(b1, Rotate(a2, 44)), a1))
  }

  /** Four words in a row: 32 bytes. */
  datatype Four = Four(a: Word, b: Word, c: Word, d: Word)

  function FourAt(s: seq<Byte>, p: nat): Four
    requires p + 32 <= |s|
  {
    Four(Load64(s, p), Load64(s, p + 8), Load64(s, p + 16), Load64(s, p + 24))
  }

  function Weak(k: Four, a: Word, b: Word): (Word, Word) { WeakHashLen32WithSeeds(k.a, k.b, k.c, k.d, a, b) }

  /** One half of HashLen33to64: of a, z and the three words that are added on the way. */
  function Half64(a: Word, z: Word, m: Word, n: Word): (Word, Word) {
    var a1 := Add(a, m);
    var a2 := Add(a1, n);
    (Add(a2, z), Add(Add(Rotate(Add(a, z), 52), Rotate(a2, 31)), Add(Rotate(a, 37), Rotate(a1, 7))))
  }

  function Front64(s: seq<Byte>, p: nat, len: nat): (Word, Word)
    requires 32 < len <= 64 && p + len <= |s|
  {
    var a := Add(Load64(s, p), Mul(Add(len, Load64(s, p + len - 16)), K0));
    Half64(a, Load64(s, p + 24), Load64(s, p + 8), Load64(s, p + 16))
  }

  function Back64(s: seq<Byte>, p: nat, len: nat): (Word, Word)
    requires 32 < len <= 64 && p + len <= |s|
  {
    var a := Add(Load64(s, p + 16), Load64(s, p + len - 32));
    Half64(a, Load64(s, p + len - 8), Load64(s, p + len - 24), Load64(s, p + len - 16))
  }

  function Sum64(v: (Word, Word), w: (Word, Word)): Word { Add(Mul(Add(v.0, w.1), K2), Mul(Add(w.0, v.1), K0)) }

  function Join64(v: (Word, Word), w: (Word, Word)): Word {
    Mul(ShiftMix(Add(Mul(ShiftMix(Sum64(v, w)), K0), v.1)), K2)
  }

  function Len33to64(s: seq<Byte>, p: nat, len: nat): Word
    requires 32 < len <= 64 && p + len <= |s|
  {
    Join64(Front64(s, p, len), Back64(s, p, len))
  }

  /** The 56 bytes of state of the 64-byte loop. */
  datatype State = State(x: Word, y: Word, z: Word, v: (Word, Word), w: (Word, Word))

  /** A chunk of 64 bytes. */
  datatype Block = Block(lower: Four, upper: Four)

  function BlockAt(s: seq<Byte>, p: nat): Block
    requires p + 64 <= |s|
  {
    Block(FourAt(s, p), FourAt(s, p + 32))
  }

  /** The first `n` chunks from `p`. */
  function Blocks(s: seq<Byte>, p: nat, n: nat): (r: seq<Block>)
    requires p + 64 * n <= |s|
    ensures |r| == n && forall i :: 0 <= i < n ==> r[i] == BlockAt(s, p + 64 * i)
  {
    seq(n, i requires 0 <= i < n => BlockAt(s, p + 64 * i))
  }

  function Mix(t: State, k: Block): State {
    var x := XorWord(Mul(Rotate(Add(Add(Add(t.x, t.y), t.v.0), k.lower.b), 37), K1), t.w.1);
    var y := Add(Mul(Rotate(Add(Add(t.y, t.v.1), k.upper.c), 42), K1), Add(t.v.0, k.upper.b));
    var z := Mul(Rotate(Add(t.z, t.w.0), 33), K1);
    var v := Weak(k.lower, Mul(t.v.1, K1), Add(x, t.w.0));
    var w := Weak(k.upper, Add(z, t.w.1), Add(y, k.lower.c));
    State(z, y, x, v, w)
  }

  function Start64(s: seq<Byte>, p: nat, len: nat): State
    requires 64 < len < LENGTH_LIMIT && p + len <= |s|
  {
    var x := Load64(s, p + len - 40);
    var y := Add(Load64(s, p + len - 16), Load64(s, p + len - 56));
    var z := HashLen16(Add(Load64(s, p + len - 48), len), Load64(s, p + len - 24));
    var v := Weak(FourAt(s, p + len - 64), len, z);
    var w := Weak(FourAt(s, p + len - 32), Add(y, K1), x);
    State(Add(Mul(x, K1), Load64(s, p)), y, z, v, w)
  }

  function Final64(t: State): Word {
    HashLen16(Add(Add(HashLen16(t.v.0, t.w.0), Mul(ShiftMix(t.y), K1)), t.z), Add(HashLen16(t.v.1, t.w.1), t.x))
  }

  function Hash64(s: seq<Byte>, p: nat, len: nat): Word
    requires p + len <= |s| && len < LENGTH_LIMIT
  {
    if len <= 16 then Len0to16(s, p, len)
    else if len <= 32 then Len17to32(s, p, len)
    else if len <= 64 then Len33to64(s, p, len)
    else Final64(Fold(Mix, Start64(s, p, len), Blocks(s, p, (len - 1) / 64)))
  }

  function Hash64WithSeeds(s: seq<Byte>, p: nat, len: nat, seed0: Word, seed1: Word): Word
    requires p + len <= |s| && len < LENGTH_LIMIT
  {
    HashLen16(Sub(Hash64(s, p, len), seed0), seed1)
  }

  /** The state of CityMurmur. */
  datatype Murmur = Murmur(a: Word, b: Word, c: Word, d: Word)

  function Churn(h: Word, chunk: Word): Word {
    Mul(XorWord(h, Mul(ShiftMix(Mul(chunk, K1)), K1)), K1)
  }

  /** One round of the loop on the two words of a chunk. */
  function MurmurStep(t: Murmur, chunk: (Word, Word)): Murmur {
    var a := Churn(t.a, chunk.0);
    var c := Churn(t.c, chunk.1);
    Murmur(a, XorWord(t.b, a), c, XorWord(t.d, c))
  }

  /** The two words of the 16 bytes at `p`. */
  function Chunk(s: seq<Byte>, p: nat): (Word, Word)
    requires p + 16 <= |s|
  {
    (Load64(s, p), Load64(s, p + 8))
  }

  /** The first `n` chunks from `p`. */
  function Chunks(s: seq<Byte>, p: nat, n: nat): (r: seq<(Word, Word)>)
    requires p + 16 * n <= |s|
    ensures |r| == n && forall i :: 0 <= i < n ==> r[i] == Chunk(s, p + 16 * i)
  {
    seq(n, i requires 0 <= i < n => Chunk(s, p + 16 * i))
  }

  function MurmurStart(s: seq<Byte>, p: nat, len: nat, seed: (Word, Word)): Murmur
    requires 16 < len < LENGTH_LIMIT && p + len <= |s|
  {
    var c := HashLen16(Add(Load64(s, p + len - 8), K1), seed.0);
    var d := HashLen16(Add(seed.1, len), Add(c, Load64(s, p + len - 16)));
    Murmur(Add(seed.0, d), seed.1, c, d)
  }

  /** How often the loop runs for a key of this length. */
  function MurmurRounds(len: nat): nat
    requires 16 < len
  {
    (len - 1) / 16
  }

  function MurmurShort(s: seq<Byte>, p: nat, len: nat, seed: (Word, Word)): Murmur
    requires len <= 16 && p + len <= |s|
  {
    var a := Mul(ShiftMix(Mul(seed.0, K1)), K1);
    var c := Add(Mul(seed.1, K1), Len0to16(s, p, len));
    Murmur(a, seed.1, c, ShiftMix(Add(a, if len >= 8 then Load64(s, p) else c)))
  }

  function MurmurEnd(t: Murmur): (Word, Word) {
    var a, b := HashLen16(t.a, t.c), HashLen16(t.d, t.b);
    (XorWord(a, b), HashLen16(b, a))
  }

  function HashMurmur(s: seq<Byte>, p: nat, len: nat, seed: (Word, Word)): (Word, Word)
    requires p + len <= |s| && len < LENGTH_LIMIT
  {
    MurmurEnd(if len <= 16 then MurmurShort(s, p, len, seed)
              else Fold(MurmurStep, MurmurStart(s, p, len, seed), Chunks(s, p, MurmurRounds(len))))
  }

  function Start128(s: seq<Byte>, p: nat, len: nat, seed: (Word, Word)): State
    requires 128 <= len < LENGTH_LIMIT && p + len <= |s|
  {
    var (x, y) := seed;
    var z := Mul(len, K1);
    var v0 := Add(Mul(Rotate(XorWord(y, K1), 49), K1), Load64(s, p));
    var v1 := Add(Mul(Rotate(v0, 42), K1), Load64(s, p + 8));
    var w0 := Add(Mul(Rotate(Add(y, z), 35), K1), x);
    var w1 := Mul(Rotate(Add(x, Load64(s, p + 88)), 53), K1);
    State(x, y, z, (v0, v1), (w0, w1))
  }

  /** Between the loops. */
  function Bridge(t: State): State {
    t.(x := Add(t.x, Mul(Rotate(Add(t.v.0, t.z), 49), K0)), z := Add(t.z, Mul(Rotate(t.w.0, 37), K0)))
  }

  /** One block of 32 bytes of the tail. */
  function MixTail(t: State, k: Four): State {
    var y := Add(Mul(Rotate(Add(t.x, t.y), 42), K0), t.v.1);
    var w0 := Add(t.w.0, k.c);
    var x := Add(Mul(t.x, K0), w0);
    var z := Add(t.z, Add(t.w.1, k.a));
    State(x, y, z, Weak(k, Add(t.v.0, z), t.v.1), (w0, Add(t.w.1, t.v.0)))
  }

  /** `n` blocks of 32 bytes, backwards from `end`. */
  function TailBlocks(s: seq<Byte>, end: nat, n: nat): (r: seq<Four>)
    requires 32 * n <= end <= |s|
    ensures |r| == n && forall i :: 0 <= i < n ==> r[i] == FourAt(s, end - 32 * (i + 1))
  {
    seq(n, i requires 0 <= i < n => FourAt(s, end - 32 * (i + 1)))
  }

  function Final128(t: State): (Word, Word) {
    var x, y := HashLen16(t.x, t.v.0), HashLen16(Add(t.y, t.z), t.w.0);
    (Add(HashLen16(Add(x, t.v.1), t.w.1), y), HashLen16(Add(x, t.w.1), Add(y, t.v.1)))
  }

  /** From the first state on: chunks in pairs, then the tail. */
  function After128(s: seq<Byte>, p: nat, len: nat, start: State): State
    requires p + len <= |s| && 128 <= len
  {
    TwoFolds(Mix, start, Blocks(s, p, len / 128 * 2), Bridge, MixTail, TailBlocks(s, p + len, (len % 128 + 31) / 32))
  }

  function Hash128Long(s: seq<Byte>, p: nat, len: nat, seed: (Word, Word)): (Word, Word)
    requires p + len <= |s| && 128 <= len < LENGTH_LIMIT
  {
    Final128(After128(s, p, len, Start128(s, p, len, seed)))
  }

  function Hash128WithSeed(s: seq<Byte>, p: nat, len: nat, seed: (Word, Word)): (Word, Word)
    requires p + len <= |s| && len < LENGTH_LIMIT
  {
    if len < 128 then HashMurmur(s, p, len, seed) else Hash128Long(s, p, len, seed)
  }

  function SeedOver16(s: seq<Byte>): (Word, Word)
    requires |s| >= 16
  {
    (XorWord(Load64(s, 0), K3), Load64(s, 8))
  }

  function Seed8to15(s: seq<Byte>): (Word, Word)
    requires 8 <= |s| < 16
  {
    (XorWord(Load64(s, 0), Mul(|s|, K0)), XorWord(Load64(s, |s| - 8), K1))
  }

  function Hash128(s: seq<Byte>): (Word, Word)
    requires |s| < LENGTH_LIMIT
  {
    if |s| >= 16 then Hash128WithSeed(s, 16, |s| - 16, SeedOver16(s))
    else if |s| >= 8 then Hash128WithSeed([], 0, 0, Seed8to15(s))
    else Hash128WithSeed(s, 0, |s|, (K0, K1))
  }
}

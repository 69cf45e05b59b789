/** 64-bit unsigned arithmetic, and which of its mixing steps can be undone. */
module Word64 {
  const WORD := 0x1_0000_0000_0000_0000

  type Word = x: int | 0 <= x < WORD

  function Add(a: Word, b: Word): Word { if a + b < WORD then a + b else a + b - WORD }

  function Sub(a: Word, b: Word): Word { if a >= b then a - b else a - b + WORD }

  function Mul(a: Word, b: Word): Word { a * b % WORD }

  function Xor(a: nat, b: nat): nat {
    if a == 0 && b == 0 then 0 else (a + b) % 2 + 2 * Xor(a / 2, b / 2)
  }

  function Pow2(k: nat): nat
    ensures Pow2(k) > 0
  {
    if k == 0 then 1 else 2 * Pow2(k - 1)
  }

  // ----- exclusive or -----

  lemma {:induction false} XorUndo(a: nat, b: nat)
    ensures Xor(Xor(a, b), b) == a
    decreases a + b
  {
    if a != 0 || b != 0 {
      var h := Xor(a / 2, b / 2);
      XorUndo(a / 2, b / 2);
      XorBit(a, b, h);
      XorStep(a, b);
      XorStep((a + b) % 2 + 2 * h, b);
    }
  }

  lemma XorBit(a: nat, b: nat, h: nat)
    ensures var x := (a + b) % 2 + 2 * h; x / 2 == h && (x + b) % 2 == a % 2
  {
  }

  lemma XorStep(a: nat, b: nat)
    ensures Xor(a, b) == (a + b) % 2 + 2 * Xor(a / 2, b / 2)
  {
  }

  lemma {:induction false} XorSym(a: nat, b: nat)
    ensures Xor(a, b) == Xor(b, a)
    decreases a + b
  {
    if a != 0 || b != 0 { XorSym(a / 2, b / 2); }
  }

  lemma {:induction false} XorBound(a: nat, b: nat, k: nat)
    requires a < Pow2(k) && b < Pow2(k)
    ensures Xor(a, b) < Pow2(k)
  {
    if k > 0 && (a != 0 || b != 0) { XorBound(a / 2, b / 2, k - 1); }
  }

  lemma Pow2Next8(k: nat)
    ensures Pow2(k + 8) == 0x100 * Pow2(k)
  {
    assert Pow2(k + 2) == 2 * Pow2(k + 1) == 4 * Pow2(k);
    assert Pow2(k + 4) == 2 * Pow2(k + 3) == 4 * Pow2(k + 2);
    assert Pow2(k + 6) == 2 * Pow2(k + 5) == 4 * Pow2(k + 4);
    assert Pow2(k + 8) == 2 * Pow2(k + 7) == 4 * Pow2(k + 6);
  }

  lemma WordIsPow()
    ensures Pow2(64) == WORD && Pow2(47) == 0x8000_0000_0000 && Pow2(32) == 0x1_0000_0000
  {
    Pow2Next8(0);
    Pow2Next8(8);
    Pow2Next8(16);
    Pow2Next8(24);
    Pow2Next8(32);
    Pow2Next8(40);
    Pow2Next8(48);
    Pow2Next8(56);
    assert Pow2(48) == 2 * Pow2(47);
  }

  function XorWord(a: Word, b: Word): Word {
    WordIsPow();
    XorBound(a, b, 64);
    Xor(a, b)
  }

  /** The number without its lowest `k` bits. */
  function Upper(a: nat, k: nat): nat { if k == 0 then a else Upper(a / 2, k - 1) }

  lemma {:induction false} XorUpper(a: nat, b: nat, k: nat)
    ensures Upper(Xor(a, b), k) == Xor(Upper(a, k), Upper(b, k))
  {
    if k > 0 {
      XorStep(a, b);
      XorUpper(a / 2, b / 2, k - 1);
    }
  }

  lemma {:induction false} UpperIsQuotient(a: nat, k: nat)
    ensures Upper(a, k) == a / Pow2(k)
  {
    if k > 0 {
      UpperIsQuotient(a / 2, k - 1);
      DivDiv(a, Pow2(k - 1));
    }
  }

  lemma DivDiv(a: nat, p: nat)
    requires p > 0
    ensures a / (2 * p) == a / 2 / p
  {
    var q, r := a / 2 / p, a / 2 % p;
    assert a / 2 == q * p + r;
    assert a == 2 * (q * p + r) + a % 2 == q * (2 * p) + (2 * r + a % 2);
    QuotientIs(a, 2 * p, q, 2 * r + a % 2);
  }

  lemma MulMono(d: nat, a: int, b: int)
    ensures a >= b ==> d * a >= d * b
  {
    if a >= b { assert d * (a - b) >= 0; }
  }

  lemma QuotientIs(a: int, d: int, q: int, r: int)
    requires a == q * d + r && 0 <= r < d
    ensures a / d == q && a % d == r
  {
    var e := a / d;
    assert a == d * e + a % d;
    MulMono(d, e, q + 1);
    MulMono(d, q, e + 1);
    assert d * (q + 1) == q * d + d && d * (e + 1) == d * e + d;
  }

  // ----- shifts and rotations -----

  function ShiftMix(v: Word): Word { XorWord(v, v / 0x8000_0000_0000) }

  /** val ^ (val >> 47) undoes itself. */
  lemma ShiftMixTwice(v: Word)
    ensures ShiftMix(ShiftMix(v)) == v
  {
    var u := v / 0x8000_0000_0000;
    WordIsPow();
    XorUpper(v, u, 47);
    UpperIsQuotient(Xor(v, u), 47);
    UpperIsQuotient(v, 47);
    UpperIsQuotient(u, 47);
    XorZero(u);
    XorUndo(v, u);
  }

  lemma {:induction false} XorZero(a: nat)
    ensures Xor(a, 0) == a
  {
    if a != 0 { XorZero(a / 2); }
  }

  /** (val >> shift) | (val << (64 - shift)), for shifts from 1 to 63; the two parts have
      no bit in common. */
  function RotateByAtLeast1(v: Word, shift: nat): (r: Word)
    requires 1 <= shift <= 63
  {
    RotateBound(v, shift);
    v / Pow2(shift) + v % Pow2(shift) * Pow2(64 - shift)
  }

  function Rotate(v: Word, shift: nat): Word
    requires shift <= 63
  {
    if shift == 0 then v else RotateByAtLeast1(v, shift)
  }

  lemma {:induction false} PowSum(a: nat, b: nat)
    ensures Pow2(a) * Pow2(b) == Pow2(a + b)
  {
    if a > 0 {
      PowSum(a - 1, b);
      assert Pow2(a) * Pow2(b) == 2 * (Pow2(a - 1) * Pow2(b));
    }
  }

  lemma RotateBound(v: Word, shift: nat)
    requires 1 <= shift <= 63
    ensures v / Pow2(shift) < Pow2(64 - shift)
    ensures 0 <= v / Pow2(shift) + v % Pow2(shift) * Pow2(64 - shift) < WORD
  {
    WordIsPow();
    PowSum(shift, 64 - shift);
    SplitBound(v, Pow2(shift), Pow2(64 - shift), WORD);
  }

  lemma SplitBound(v: nat, p: nat, q: nat, w: nat)
    requires p > 0 && q > 0 && w == p * q && v < w
    ensures v / p < q && 0 <= v / p + v % p * q < w
  {
    assert v == p * (v / p) + v % p;
    HighPart(v / p, v % p, p, q);
    LowPart(v % p, p, q);
  }

  lemma HighPart(h: nat, l: nat, p: nat, q: nat)
    requires p * h + l < p * q
    ensures h < q
  {
    MulMono(p, h, q);
  }

  lemma LowPart(l: nat, p: nat, q: nat)
    requires l < p
    ensures 0 <= l * q <= p * q - q
  {
    MulMono(q, p - 1, l);
    assert q * (p - 1) == p * q - q && q * l == l * q;
  }

  /** A rotation is undone by the rotation that completes it to 64. */
  lemma RotateBack(v: Word, shift: nat)
    requires 1 <= shift <= 63
    ensures RotateByAtLeast1(RotateByAtLeast1(v, shift), 64 - shift) == v
  {
    var p, q, r := Pow2(shift), Pow2(64 - shift), RotateByAtLeast1(v, shift);
    RotateBound(v, shift);
    RotateBound(r, 64 - shift);
    SplitBack(v, p, q, r);
    assert 64 - (64 - shift) == shift;
  }

  lemma SplitBack(v: nat, p: nat, q: nat, r: nat)
    requires p > 0 && r == v / p + v % p * q && v / p < q
    ensures r / q + r % q * p == v
  {
    QuotientIs(r, q, v % p, v / p);
    assert v == p * (v / p) + v % p;
  }

  // ----- multiplication by odd constants -----

  const K0: Word := 0xc3a5c85c97cb3127
  const K1: Word := 0xb492b66fbe98f273
  const K2: Word := 0x9ae16a3b2f90404f
  const K3: Word := 0xc949d7c7509e6557
  const KMUL: Word := 0x9ddfea08eb382d69

  /** The inverses of K0, K1, K2, K3 and KMUL modulo 2^64. */
  const K0_INV: Word := 0x81bc9c5aa9c72e97
  const K1_INV: Word := 0x1ec3fe17279602bb
  const K2_INV: Word := 0xb5a360ae14bed6af
  const K3_INV: Word := 0xf35e575ec9565667
  const KMUL_INV: Word := 0xdc56e6f5090b32d9

  lemma Inverses()
    ensures K0 * K0_INV % WORD == 1
    ensures K1 * K1_INV % WORD == 1 && K2 * K2_INV % WORD == 1 && K3 * K3_INV % WORD == 1 && KMUL * KMUL_INV % WORD == 1
  {
    assert K0 * K0_INV == 0x6326af341c9e64c9 * WORD + 1;
    assert K1 * K1_INV == 0x15b3705bf59187bf * WORD + 1;
    assert K2 * K2_INV == 0x6de4382055e9bddd * WORD + 1;
    assert K3 * K3_INV == 0xbf5b45a20c76c91a * WORD + 1;
    assert KMUL * KMUL_INV == 0x87e204c6924610f8 * WORD + 1;
  }

  /** Multiplying by a number with an inverse can be undone. */
  lemma MulUndo(a: Word, k: Word, inverse: Word)
    requires k * inverse % WORD == 1
    ensures Mul(Mul(a, k), inverse) == a
  {
    var t, q := k * inverse / WORD, a * k / WORD;
    assert k * inverse == t * WORD + 1;
    assert Mul(a, k) == a * k - q * WORD;
    assert Mul(a, k) * inverse == a * (k * inverse) - q * WORD * inverse
        == a * t * WORD + a - q * inverse * WORD == (a * t - q * inverse) * WORD + a;
    QuotientIs(Mul(a, k) * inverse, WORD, a * t - q * inverse, a);
  }

  lemma AddUndo(a: Word, b: Word)
    ensures Sub(Add(a, b), b) == a && Add(Sub(a, b), b) == a
  {
  }
}

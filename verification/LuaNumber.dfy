/** Numbers as the Lua scripts return them: tonumber reads a double, and Redis replies with
    its integer part. */
module LuaNumber {
  import opened Options
  import opened Decimal
  import opened Text

  const TWO52 := 0x10_0000_0000_0000
  const TWO53 := 0x20_0000_0000_0000

  // ----- doubles -----

  /** The distance of the doubles around `m`. */
  function Ulp(m: nat): (u: nat)
    ensures u > 0
  {
    if m < TWO53 then 1 else 2 * Ulp(m / 2)
  }

  /** A whole number of at most 53 bits, times a power of two. */
  predicate IsDouble(m: nat) { m < TWO53 || (m % 2 == 0 && IsDouble(m / 2)) }

  /** The nearest multiple of `u`, and the even one if there are two. */
  function Rounded(m: nat, u: nat): nat
    requires u > 0
  {
    var q, r := m / u, m % u;
    if 2 * r < u || (2 * r == u && q % 2 == 0) then q * u else (q + 1) * u
  }

  /** Rounding to the nearest double. */
  function Nearest(m: nat): nat { Rounded(m, Ulp(m)) }

  function NearestDouble(n: int): int { if n < 0 then 0 - Nearest(-n) else Nearest(n) }

  /** The number is a double itself. */
  predicate Representable(n: int) {
    var m: nat := if n < 0 then -n else n;
    m % Ulp(m) == 0
  }

  lemma {:induction false} UlpBounds(m: nat)
    ensures m < TWO53 * Ulp(m)
    ensures m >= TWO53 ==> TWO52 * Ulp(m) <= m
  {
    if m >= TWO53 { UlpBounds(m / 2); }
  }

  lemma {:induction false} MultipleIsDouble(k: nat, m: nat)
    requires k <= TWO53
    ensures IsDouble(k * Ulp(m))
  {
    if m < TWO53 {
      assert k * Ulp(m) == k;
      if k == TWO53 { assert IsDouble(TWO52); }
    } else {
      MultipleIsDouble(k, m / 2);
      var half := k * Ulp(m / 2);
      assert k * Ulp(m) == 2 * half;
      assert 2 * half / 2 == half;
    }
  }

  /** From the least 53-bit multiple on, doubles are multiples. */
  lemma {:induction false} DoubleIsMultiple(d: nat, m: nat)
    requires IsDouble(d) && TWO52 * Ulp(m) <= d
    ensures d % Ulp(m) == 0
  {
    if m >= TWO53 {
      DoubleIsMultiple(d / 2, m / 2);
      TwiceMultiple(d / 2, Ulp(m / 2));
    }
  }

  lemma TwiceMultiple(a: nat, u: nat)
    requires u > 0 && a % u == 0
    ensures 2 * a % (2 * u) == 0
  {
    var q := a / u;
    assert a == q * u;
    assert 2 * a == q * (2 * u);
    Quotient(q, 2 * u, 0);
  }

  lemma MulLeft(a: int, b: int, u: nat)
    requires a <= b
    ensures a * u <= b * u
  {
  }

  lemma Quotient(q: nat, u: nat, r: nat)
    requires r < u
    ensures (q * u + r) / u == q && (q * u + r) % u == r
  {
    var x := q * u + r;
    var k := x / u;
    assert x == k * u + x % u;
    if k < q {
      MulLeft(k + 1, q, u);
      assert false;
    }
    if k > q {
      MulLeft(q + 1, k, u);
      assert false;
    }
  }

  lemma Multiples(d: nat, m: nat, u: nat)
    requires u > 0 && d % u == 0
    ensures d <= m ==> d <= m / u * u
    ensures d > m ==> d >= (m / u + 1) * u
  {
    var k, q := d / u, m / u;
    assert d == k * u && q * u <= m < (q + 1) * u;
    if k <= q { MulLeft(k, q, u); } else { MulLeft(q + 1, k, u); }
  }

  function Distance(a: int, b: int): nat { if a < b then b - a else a - b }

  lemma RoundedSteps(m: nat, u: nat)
    requires u > 0 && m < TWO53 * u
    ensures var q, r := m / u, m % u;
            && m == q * u + r && q < TWO53 && (q + 1) * u == m + (u - r)
            && (Rounded(m, u) == q * u || Rounded(m, u) == (q + 1) * u)
            && Distance(m, Rounded(m, u)) == if 2 * r <= u then r else u - r
  {
    var q, r := m / u, m % u;
    assert m == q * u + r && (q + 1) * u == q * u + u;
    if q >= TWO53 {
      MulLeft(TWO53, q, u);
      assert false;
    }
  }

  /** Nearest gives a double, and none is nearer. */
  lemma NearestIsNearest(m: nat, d: nat)
    requires IsDouble(d)
    ensures IsDouble(Nearest(m)) && Distance(m, Nearest(m)) <= Distance(m, d)
  {
    var u := Ulp(m);
    UlpBounds(m);
    RoundedSteps(m, u);
    MultipleIsDouble(m / u, m);
    MultipleIsDouble(m / u + 1, m);
    if m >= TWO53 { NoneBetween(m, d, u); }
  }

  /** A double is no nearer than the multiples around the number. */
  lemma NoneBetween(m: nat, d: nat, u: nat)
    requires IsDouble(d) && u == Ulp(m) && TWO52 * u <= m
    ensures d <= m / u * u || d >= (m / u + 1) * u
  {
    if d < TWO52 * u {
      MultipleBelow(m / u, u, m);
    } else {
      DoubleIsMultiple(d, m);
      Multiples(d, m, u);
    }
  }

  lemma MultipleBelow(q: nat, u: nat, m: nat)
    requires u > 0 && TWO52 * u <= m && q == m / u
    ensures TWO52 * u <= q * u
  {
    Quotient(TWO52, u, 0);
    Multiples(TWO52 * u, m, u);
  }

  /** It gives the number itself exactly when that is a double. */
  lemma NearestOfDouble(n: int)
    ensures NearestDouble(n) == n <==> Representable(n)
    ensures Representable(n) <==> IsDouble(if n < 0 then -n else n)
  {
    var m: nat := if n < 0 then -n else n;
    UlpBounds(m);
    RoundedSteps(m, Ulp(m));
    if IsDouble(m) && m >= TWO53 { DoubleIsMultiple(m, m); }
    if m % Ulp(m) == 0 { MultipleIsDouble(m / Ulp(m), m); }
  }

  lemma SmallIsRepresentable(n: int)
    requires -TWO53 <= n <= TWO53
    ensures Representable(n)
  {
    assert Ulp(TWO53) == 2 * Ulp(TWO52);
  }

  // ----- tonumber, and the integer of a reply -----

  /** tonumber on a decimal integer with an optional sign. */
  function ToNumber(s: string): Option<int> {
    var digits := if s != "" && (s[0] == '-' || s[0] == '+') then s[1..] else s;
    if digits == "" || !AllDigits(digits) then None
    else Some(NearestDouble(if s[0] == '-' then 0 - ValueOf(digits) else ValueOf(digits)))
  }

  predicate IsInt64(n: int) { -LONG_LIMIT <= n < LONG_LIMIT }

  /** The cast of a double to long long; x86-64 gives the least one for what does not fit. */
  function ToInteger(x: int): int { if IsInt64(x) then x else -LONG_LIMIT }

  /** What a reply has for tonumber of this text. */
  function LuaInt(s: string): Option<int> {
    match ToNumber(s)
    case None => None
    case Some(x) => Some(ToInteger(x))
  }

  /** The text of a 64-bit number that is a double. */
  ghost predicate Reportable(uid: string) {
    exists n :: IsInt64(n) && Representable(n) && uid == OfInt(n)
  }

  lemma ToNumberOfInt(n: int)
    ensures ToNumber(OfInt(n)) == Some(NearestDouble(n))
  {
    var digits := OfNat(if n < 0 then -n else n);
    ValueOfNat(if n < 0 then -n else n);
    DigitAt(digits, 0);
    if n < 0 { assert OfInt(n)[1..] == digits; }
  }

  lemma LeastIsRepresentable()
    ensures Representable(-LONG_LIMIT)
  {
    assert Ulp(0x20_0000_0000_0000) == 2 && Ulp(0x40_0000_0000_0000) == 4;
    assert Ulp(0x80_0000_0000_0000) == 8 && Ulp(0x100_0000_0000_0000) == 16;
    assert Ulp(0x200_0000_0000_0000) == 32 && Ulp(0x400_0000_0000_0000) == 64;
    assert Ulp(0x800_0000_0000_0000) == 128 && Ulp(0x1000_0000_0000_0000) == 256;
    assert Ulp(0x2000_0000_0000_0000) == 512 && Ulp(0x4000_0000_0000_0000) == 1024;
    assert Ulp(LONG_LIMIT) == 2048;
  }

  /** A 64-bit number comes back from the reply exactly when it is a double. */
  lemma ComesBack(n: int)
    requires IsInt64(n)
    ensures LuaInt(OfInt(n)) == Some(n) <==> Representable(n)
  {
    ToNumberOfInt(n);
    NearestOfDouble(n);
    if !IsInt64(NearestDouble(n)) && n == -LONG_LIMIT { LeastIsRepresentable(); }
  }

  /** The reply has the number of a text exactly when the text is that of a 64-bit number that
      is a double. */
  lemma NamedExactly(uid: string)
    ensures LuaInt(uid).Some? && OfInt(LuaInt(uid).value) == uid <==> Reportable(uid)
  {
    if LuaInt(uid).Some? && OfInt(LuaInt(uid).value) == uid {
      ComesBack(LuaInt(uid).value);
    }
    if Reportable(uid) {
      var n :| IsInt64(n) && Representable(n) && uid == OfInt(n);
      ComesBack(n);
    }
  }

  /** What a reply has is always a double. */
  lemma OnlyDoubles(s: string)
    ensures LuaInt(s).Some? ==> Representable(LuaInt(s).value)
  {
    LeastIsRepresentable();
    if ToNumber(s).Some? {
      var digits := if s != "" && (s[0] == '-' || s[0] == '+') then s[1..] else s;
      var v := ValueOf(digits);
      NearestIsNearest(v, 0);
      NearestOfDouble(Nearest(v));
      NearestOfDouble(0 - Nearest(v));
    }
  }

  /** 2^53 + 1 is no double: the reply has the number of another user. */
  lemma NamesAnother()
    ensures LuaInt(OfInt(9007199254740993)) == Some(9007199254740992) == LuaInt(OfInt(9007199254740992))
  {
    assert Ulp(TWO53 + 1) == 2 * Ulp(TWO52) == 2 && Ulp(TWO53) == 2 * Ulp(TWO52) == 2;
    ToNumberOfInt(9007199254740993);
    ToNumberOfInt(9007199254740992);
  }

  /** So is 2^53 + 3, of which the other neighbour is the even one, and a negative number is
      rounded as its opposite is. */
  lemma NamesUpper()
    ensures LuaInt(OfInt(9007199254740995)) == Some(9007199254740996)
    ensures LuaInt(OfInt(-9007199254740995)) == Some(-9007199254740996)
  {
    assert Ulp(TWO53 + 3) == 2 * Ulp(TWO52 + 1) == 2;
    ToNumberOfInt(9007199254740995);
    ToNumberOfInt(-9007199254740995);
  }
}

/** Strings as the controller compares and parses them. */
module Text {
  import opened Options
  import opened Decimal
  import opened Sequences

  // ----- std::string::operator< -----

  predicate Less(a: string, b: string) {
    if b == "" then false
    else if a == "" then true
    else if a[0] != b[0] then a[0] < b[0]
    else Less(a[1..], b[1..])
  }

  lemma {:induction false} LessTotal(a: string, b: string)
    ensures a == b || Less(a, b) || Less(b, a)
    ensures !(Less(a, b) && Less(b, a))
    ensures !Less(a, a)
  {
    if a != "" && b != "" && a[0] == b[0] {
      LessTotal(a[1..], b[1..]);
      assert a == [a[0]] + a[1..] && b == [b[0]] + b[1..];
    }
    if a != "" { LessTotal(a[1..], a[1..]); }
  }

  lemma {:induction false} LessTrans(a: string, b: string, c: string)
    requires Less(a, b) && Less(b, c)
    ensures Less(a, c)
  {
    if a != "" && a[0] == b[0] == c[0] { LessTrans(a[1..], b[1..], c[1..]); }
  }

  /** The lists agree up to `i`, and there they differ, or `a` ends. */
  predicate FirstDifference<T(==)>(a: seq<T>, b: seq<T>, i: nat) {
    i <= |a| && i < |b| && a[..i] == b[..i] && (i < |a| ==> a[i] != b[i])
  }

  lemma SameHead<T>(a: seq<T>, b: seq<T>, j: nat)
    requires a != [] && b != [] && a[0] == b[0] && 0 < j <= |a| && j <= |b|
    ensures a[..j] == b[..j] <==> a[1..][..j - 1] == b[1..][..j - 1]
  {
    assert a[..j] == [a[0]] + a[1..][..j - 1] && b[..j] == [b[0]] + b[1..][..j - 1];
    assert a[..j][1..] == a[1..][..j - 1] && b[..j][1..] == b[1..][..j - 1];
  }

  lemma DifferenceBehindHead<T>(a: seq<T>, b: seq<T>, i: nat, j: nat)
    requires a != [] && b != [] && a[0] == b[0] && j == i + 1
    ensures FirstDifference(a[1..], b[1..], i) <==> FirstDifference(a, b, j)
  {
    if j <= |a| && j <= |b| { SameHead(a, b, j); }
  }

  /** A string is less than another if it has the lesser character where they first differ, or
      ends there. */
  lemma {:induction false} LessExactly(a: string, b: string)
    ensures Less(a, b) <==> exists i: nat :: FirstDifference(a, b, i) && (i == |a| || a[i] < b[i])
  {
    if b != "" && a != "" && a[0] == b[0] {
      LessExactly(a[1..], b[1..]);
      if i: nat :| FirstDifference(a[1..], b[1..], i) && (i == |a[1..]| || a[1..][i] < b[1..][i]) {
        DifferenceBehindHead(a, b, i, i + 1);
      }
      if j: nat :| FirstDifference(a, b, j) && (j == |a| || a[j] < b[j]) {
        DifferenceBehindHead(a, b, j - 1, j);
      }
    } else if b != "" {
      assert a == "" || a[0] < b[0] ==> FirstDifference(a, b, 0);
    }
  }

  // ----- sorted lists of distinct strings -----

  predicate Sorted(s: seq<string>) {
    s == [] || ((forall x :: x in s[1..] ==> Less(s[0], x)) && Sorted(s[1..]))
  }

  /** The elements of a set in increasing order, as std::set iterates. */
  ghost predicate Lists(s: seq<string>, xs: set<string>) {
    Sorted(s) && Elems(s) == xs
  }

  lemma NoElems(s: seq<string>)
    ensures Elems(s) == {} <==> s == []
  {
    if s != [] { assert s[0] in Elems(s); }
  }

  lemma {:induction false} ListsUnique(s: seq<string>, t: seq<string>)
    requires Sorted(s) && Sorted(t) && Elems(s) == Elems(t)
    ensures s == t
  {
    NoElems(s);
    NoElems(t);
    if s != [] {
      assert s[0] in Elems(t) && t[0] in Elems(s);
      LessTotal(s[0], t[0]);
      assert s[0] == t[0];
      LessTotal(s[0], s[0]);
      forall x
        ensures x in s[1..] <==> x in t[1..]
      {
        assert x in Elems(s) <==> x in Elems(t);
      }
      ListsUnique(s[1..], t[1..]);
    }
  }

  lemma {:induction false} SortedPrefix(s: seq<string>)
    requires Sorted(s) && s != []
    ensures Sorted(s[..|s| - 1])
    ensures forall i :: 0 <= i < |s| - 1 ==> Less(s[i], s[|s| - 1])
    ensures Elems(s) == Elems(s[..|s| - 1]) + {s[|s| - 1]}
  {
    var n := |s| - 1;
    if n > 0 {
      SortedPrefix(s[1..]);
      assert s[..n][1..] == s[1..][..n - 1];
      assert s[n] in s[1..];
    }
    assert s == s[..n] + [s[n]];
  }

  lemma {:induction false} SortedAppend(s: seq<string>, t: seq<string>)
    requires Sorted(s) && Sorted(t)
    requires forall x, y :: x in s && y in t ==> Less(x, y)
    ensures Sorted(s + t)
  {
    if s == [] {
      assert s + t == t;
    } else {
      SortedAppend(s[1..], t);
      assert (s + t)[1..] == s[1..] + t;
    }
  }

  method Sort(xs: set<string>) returns (s: seq<string>)
    ensures Lists(s, xs)
  {
    s := [];
    var todo := xs;
    while todo != {}
      invariant todo <= xs && Sorted(s) && Elems(s) == xs - todo
      invariant forall x, y :: x in s && y in todo ==> Less(x, y)
    {
      var m := Least(todo);
      SortedAppend(s, [m]);
      forall x | x in todo - {m}
        ensures Less(m, x)
      {
        LessTotal(m, x);
      }
      assert Elems(s + [m]) == Elems(s) + {m};
      s, todo := s + [m], todo - {m};
    }
  }

  method Least(xs: set<string>) returns (m: string)
    requires xs != {}
    ensures m in xs && forall y :: y in xs ==> !Less(y, m)
  {
    m :| m in xs;
    var rest := xs - {m};
    LessTotal(m, m);
    while rest != {}
      invariant rest <= xs && m in xs
      invariant forall y :: y in xs - rest ==> !Less(y, m)
    {
      var y :| y in rest;
      if Less(y, m) {
        LessTotal(y, y);
        forall z | z in xs - rest
          ensures !Less(z, y)
        {
          if Less(z, y) { LessTrans(z, y, m); }
        }
        m := y;
      }
      rest := rest - {y};
    }
  }

  // ----- parsing -----

  /** std::string::find from position `from`; -1 stands for npos. */
  function Find(s: string, p: string, from: nat): (pos: int)
    ensures pos == -1 || (from <= pos && pos + |p| <= |s| && s[pos..pos + |p|] == p)
    decreases |s| - from
  {
    if from + |p| > |s| then -1
    else if s[from..from + |p|] == p then from
    else Find(s, p, from + 1)
  }

  /** std::string::rfind of one character. */
  function FindLast(s: string, c: char): (pos: int)
    ensures pos == -1 || (0 <= pos < |s| && s[pos] == c && forall i :: pos < i < |s| ==> s[i] != c)
    ensures pos == -1 ==> forall i :: 0 <= i < |s| ==> s[i] != c
  {
    if s == "" then -1 else if s[|s| - 1] == c then |s| - 1 else FindLast(s[..|s| - 1], c)
  }

  lemma {:induction false} LastIs(s: string, c: char, t: string)
    requires forall i :: 0 <= i < |t| ==> t[i] != c
    ensures FindLast(s + [c] + t, c) == |s|
  {
    var all := s + [c] + t;
    if t == "" {
      assert all == s + [c];
    } else {
      var n := |t| - 1;
      LastIs(s, c, t[..n]);
      assert all[..|all| - 1] == s + [c] + t[..n];
    }
  }

  lemma {:induction false} FindSkips(s: string, c: char, from: nat, to: nat)
    requires from <= to <= |s|
    requires forall i :: from <= i < to ==> s[i] != c
    ensures Find(s, [c], from) == Find(s, [c], to)
    decreases |s| - from
  {
    if from < to {
      assert s[from..from + 1] == [s[from]];
      FindSkips(s, c, from + 1, to);
    }
  }

  const LONG_LIMIT := 0x8000_0000_0000_0000

  /** boost::lexical_cast<long>: an optional sign and digits, nothing else. */
  function ToLong(s: string): Option<int> {
    var digits := if s != "" && (s[0] == '-' || s[0] == '+') then s[1..] else s;
    if digits == "" || !AllDigits(digits) then None
    else
      var v: int := if s[0] == '-' then 0 - ValueOf(digits) else ValueOf(digits);
      if -LONG_LIMIT <= v < LONG_LIMIT then Some(v) else None
  }

  /** RedisCtrl::cut_idx. */
  function CutIdx(prefix: string, s: string): int {
    var pos := Find(s, prefix, 0);
    if pos < 0 then -1
    else
      match ToLong(s[pos + |prefix|..])
      case None => -1
      case Some(v) => v
  }

  lemma ToLongOfInt(n: int)
    ensures ToLong(OfInt(n)) == if -LONG_LIMIT <= n < LONG_LIMIT then Some(n) else None
  {
    var digits := OfNat(if n < 0 then -n else n);
    ValueOfNat(if n < 0 then -n else n);
    DigitAt(digits, 0);
    if n < 0 { assert OfInt(n)[1..] == digits; }
  }

  /** The number after the prefix, -1 if there is none that fits a long. */
  lemma CutIdxOf(prefix: string, n: int)
    ensures CutIdx(prefix, prefix + OfInt(n)) == if -LONG_LIMIT <= n < LONG_LIMIT then n else -1
  {
    var s := prefix + OfInt(n);
    assert s[0..0 + |prefix|] == prefix && s[0 + |prefix|..] == OfInt(n);
    ToLongOfInt(n);
  }

  // ----- names of sequence nodes -----

  const REDIS_PREFIX := "r"
  const CLUSTER_PREFIX := "cluster"
  const SEQ_LIMIT := 10_000_000_000

  /** "r" and ten digits, as ZooKeeper names a sequence node. */
  predicate Padded(name: string) {
    |name| == 11 && name[0] == 'r' && AllDigits(name[1..])
  }

  function Idx(name: string): int { CutIdx(REDIS_PREFIX, name) }

  function Pad(k: nat, w: nat): (s: string)
    ensures |s| == w && AllDigits(s)
  {
    if w == 0 then "" else Pad(k / 10, w - 1) + [Digit(k % 10)]
  }

  function SeqName(k: nat): string { REDIS_PREFIX + Pad(k, 10) }

  function Pow10(w: nat): nat { if w == 0 then 1 else 10 * Pow10(w - 1) }

  lemma {:induction false} ValueOfPad(k: nat, w: nat)
    requires k < Pow10(w)
    ensures ValueOf(Pad(k, w)) == k
  {
    if w > 0 {
      ValueOfPad(k / 10, w - 1);
      assert Pad(k, w)[..w - 1] == Pad(k / 10, w - 1);
    }
  }

  lemma {:induction false} ValueBound(s: string)
    requires AllDigits(s)
    ensures ValueOf(s) < Pow10(|s|)
  {
    if s != "" { ValueBound(s[..|s| - 1]); }
  }

  lemma TenDigits()
    ensures Pow10(10) == SEQ_LIMIT
  {
    assert Pow10(5) == 100_000;
    assert Pow10(10) == 10 * (10 * (10 * (10 * (10 * Pow10(5)))));
  }

  lemma PaddedIdx(name: string)
    requires Padded(name)
    ensures Idx(name) == ValueOf(name[1..]) && 0 <= Idx(name) < SEQ_LIMIT
  {
    ValueBound(name[1..]);
    TenDigits();
    assert name[0..1] == REDIS_PREFIX;
    DigitAt(name[1..], 0);
  }

  lemma SeqNamePadded(k: nat)
    requires k < SEQ_LIMIT
    ensures Padded(SeqName(k)) && Idx(SeqName(k)) == k
  {
    assert SeqName(k)[1..] == Pad(k, 10);
    TenDigits();
    ValueOfPad(k, 10);
    PaddedIdx(SeqName(k));
  }

  /** Among equally long digit strings, the order of strings is that of numbers. */
  lemma {:induction false} DigitOrder(s: string, t: string)
    requires |s| == |t| && AllDigits(s) && AllDigits(t)
    ensures Less(s, t) <==> ValueOf(s) < ValueOf(t)
    ensures ValueOf(s) == ValueOf(t) ==> s == t
  {
    if s != "" {
      var n := |s| - 1;
      var s0, t0 := s[..n], t[..n];
      assert s == s0 + [s[n]] && t == t0 + [t[n]];
      DigitOrder(s0, t0);
      LessTotal(s0, t0);
      LessLast(s0, t0, s[n], t[n]);
    }
  }

  lemma {:induction false} LessLast(s: string, t: string, x: char, y: char)
    requires |s| == |t|
    ensures Less(s + [x], t + [y]) <==> Less(s, t) || (s == t && x < y)
  {
    if s != "" {
      assert (s + [x])[1..] == s[1..] + [x] && (t + [y])[1..] == t[1..] + [y];
      LessLast(s[1..], t[1..], x, y);
      assert s == [s[0]] + s[1..] && t == [t[0]] + t[1..];
    }
  }

  /** Zero padding makes the order of names the order of sequence numbers. */
  lemma PaddedOrder(n: string, m: string)
    requires Padded(n) && Padded(m)
    ensures Less(n, m) <==> Idx(n) < Idx(m)
    ensures Idx(n) == Idx(m) ==> n == m
  {
    PaddedIdx(n);
    PaddedIdx(m);
    DigitOrder(n[1..], m[1..]);
    assert n == [n[0]] + n[1..] && m == [m[0]] + m[1..];
  }
}

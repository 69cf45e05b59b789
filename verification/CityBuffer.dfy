/** CityHash as it runs over memory: every fetch stays inside the buffer, every byte of
    the key is read, nothing else is, and the result is what CityHash defines. */
module CityBuffer {
  import opened Word64
  import opened CityHash

  /** The positions in `after` are those in `before` and those from `p` to `q`. */
  ghost predicate Reads(before: set<nat>, after: set<nat>, p: nat, q: nat) {
    forall i: nat :: i in after <==> i in before || p <= i < q
  }

  ghost predicate ReadsBoth(before: set<nat>, after: set<nat>, p: nat, n: nat, q: nat, m: nat) {
    forall i: nat :: i in after <==> i in before || p <= i < p + n || q <= i < q + m
  }

  /** The loop with round `f` over these keys leads from `start` to `t`. The states in
      between are named, but not what a round computes. */
  ghost predicate Leads<S(!new), K(!new)>(f: (S, K) -> S, start: S, keys: seq<K>, t: S) {
    exists trace :: Traces(f, trace, start, keys, t)
  }

  ghost predicate Traces<S(!new), K(!new)>(f: (S, K) -> S, trace: seq<S>, start: S, keys: seq<K>, t: S) {
    && |trace| == |keys| + 1 && trace[0] == start && trace[|keys|] == t
    && forall i {:trigger f(trace[i], keys[i])} :: 0 <= i < |keys| ==> trace[i + 1] == f(trace[i], keys[i])
  }

  lemma ReadsOn(before: set<nat>, now: set<nat>, after: set<nat>, p: nat, q: nat, r: nat)
    requires p <= q <= r && Reads(before, now, p, q) && Reads(now, after, q, r)
    ensures Reads(before, after, p, r)
  {
  }

  class Buffer {
    const bytes: seq<Byte>
    /** The positions that have been read. */
    ghost var seen: set<nat>

    constructor (bytes: seq<Byte>)
      ensures this.bytes == bytes && seen == {}
    {
      this.bytes, seen := bytes, {};
    }

    method Fetch64(p: nat) returns (w: Word)
      requires p + 8 <= |bytes|
      modifies this
      ensures w == Load64(bytes, p) && Reads(old(seen), seen, p, p + 8)
    {
      seen := seen + {p, p + 1, p + 2, p + 3, p + 4, p + 5, p + 6, p + 7};
      w := Load64(bytes, p);
    }

    method Fetch32(p: nat) returns (w: Word)
      requires p + 4 <= |bytes|
      modifies this
      ensures w == Load32(bytes, p) && Reads(old(seen), seen, p, p + 4)
    {
      seen := seen + {p, p + 1, p + 2, p + 3};
      w := Load32(bytes, p);
    }

    method Fetch8(p: nat) returns (b: int)
      requires p < |bytes|
      modifies this
      ensures b == bytes[p] && Reads(old(seen), seen, p, p + 1)
    {
      seen := seen + {p};
      b := bytes[p];
    }

    method HashLen0to16(s: nat, len: nat) returns (h: Word)
      requires len <= 16 && s + len <= |bytes|
      modifies this
      ensures h == Len0to16(bytes, s, len) && Reads(old(seen), seen, s, s + len)
    {
      if len > 8 {
        h := HashLen9to16(s, len);
      } else if len >= 4 {
        var a := Fetch32(s);
        var b := Fetch32(s + len - 4);
        h := HashLen16(len + 8 * a, b);
      } else if len > 0 {
        h := HashLen1to3(s, len);
      } else {
        h := K2;
      }
    }

    method HashLen9to16(s: nat, len: nat) returns (h: Word)
      requires 8 < len <= 16 && s + len <= |bytes|
      modifies this
      ensures h == Len9to16(bytes, s, len) && Reads(old(seen), seen, s, s + len)
    {
      var a := Fetch64(s);
      var b := Fetch64(s + len - 8);
      h := XorWord(HashLen16(a, RotateByAtLeast1(Add(b, len), len)), b);
    }

    method HashLen1to3(s: nat, len: nat) returns (h: Word)
      requires 1 <= len < 4 && s + len <= |bytes|
      modifies this
      ensures h == Len1to3(bytes, s, len) && Reads(old(seen), seen, s, s + len)
    {
      var a, b, c := FetchThree(s, len);
      var y, z := a + 0x100 * b, len + 4 * c;
      h := Mul(ShiftMix(XorWord(Mul(y, K2), Mul(z, K3))), K2);
    }

    method FetchThree(s: nat, len: nat) returns (a: int, b: int, c: int)
      requires 1 <= len < 4 && s + len <= |bytes|
      modifies this
      ensures a == bytes[s] && b == bytes[s + len / 2] && c == bytes[s + len - 1]
      ensures Reads(old(seen), seen, s, s + len)
    {
      a := Fetch8(s);
      b := Fetch8(s + len / 2);
      c := Fetch8(s + len - 1);
    }

    method HashLen17to32(s: nat, len: nat) returns (h: Word)
      requires 16 < len <= 32 && s + len <= |bytes|
      modifies this
      ensures h == Len17to32(bytes, s, len) && Reads(old(seen), seen, s, s + len)
    {
      var a, b, c, d := FetchEnds(s, len);
      a := Mul(a, K1);
      c := Mul(c, K2);
      d := Mul(d, K0);
      h := HashLen16(Add(Add(Rotate(Sub(a, b), 43), Rotate(c, 30)), d),
                     Add(Sub(Add(a, Rotate(XorWord(b, K3), 20)), c), len));
    }

    method FetchEnds(s: nat, len: nat) returns (a: Word, b: Word, c: Word, d: Word)
      requires 16 < len <= 32 && s + len <= |bytes|
      modifies this
      ensures a == Load64(bytes, s) && b == Load64(bytes, s + 8)
      ensures c == Load64(bytes, s + len - 8) && d == Load64(bytes, s + len - 16)
      ensures Reads(old(seen), seen, s, s + len)
    {
      a := Fetch64(s);
      b := Fetch64(s + 8);
      c := Fetch64(s + len - 8);
      d := Fetch64(s + len - 16);
    }

    method FetchFour(s: nat) returns (k: Four)
      requires s + 32 <= |bytes|
      modifies this
      ensures k == FourAt(bytes, s) && Reads(old(seen), seen, s, s + 32)
    {
      var w := Fetch64(s);
      var x := Fetch64(s + 8);
      var y := Fetch64(s + 16);
      var z := Fetch64(s + 24);
      k := Four(w, x, y, z);
    }

    method HashLen33to64(s: nat, len: nat) returns (h: Word)
      requires 32 < len <= 64 && s + len <= |bytes|
      modifies this
      ensures h == Len33to64(bytes, s, len) && Reads(old(seen), seen, s, s + len)
    {
      var v, e, n := FrontHalf(s, len);
      var w := BackHalf(s, len, e, n);
      h := Join64(v, w);
    }

    method FrontHalf(s: nat, len: nat) returns (v: (Word, Word), e: Word, n: Word)
      requires 32 < len <= 64 && s + len <= |bytes|
      modifies this
      ensures v == Front64(bytes, s, len) && e == Load64(bytes, s + len - 16) && n == Load64(bytes, s + 16)
      ensures ReadsBoth(old(seen), seen, s, 32, s + len - 16, 8)
    {
      var z := Fetch64(s + 24);
      var a := Fetch64(s);
      e := Fetch64(s + len - 16);
      a := Add(a, Mul(Add(len, e), K0));
      var m := Fetch64(s + 8);
      n := Fetch64(s + 16);
      v := Half64(a, z, m, n);
    }

    method BackHalf(s: nat, len: nat, e: Word, n: Word) returns (w: (Word, Word))
      requires 32 < len <= 64 && s + len <= |bytes|
      requires e == Load64(bytes, s + len - 16) && n == Load64(bytes, s + 16)
      modifies this
      ensures w == Back64(bytes, s, len)
      ensures ReadsBoth(old(seen), seen, s + len - 32, 16, s + len - 8, 8)
    {
      var a := Fetch64(s + len - 32);
      a := Add(n, a);
      var z := Fetch64(s + len - 8);
      var m := Fetch64(s + len - 24);
      w := Half64(a, z, m, e);
    }

    /** One round of the 64-byte loop. */
    method MixRound(s: nat, t: State) returns (t': State)
      requires s + 64 <= |bytes|
      modifies this
      ensures t' == Mix(t, BlockAt(bytes, s)) && Reads(old(seen), seen, s, s + 64)
    {
      var x, y, z, v, w := t.x, t.y, t.z, t.v, t.w;
      var e := Fetch64(s + 8);
      x := Mul(Rotate(Add(Add(Add(x, y), v.0), e), 37), K1);
      e := Fetch64(s + 48);
      y := Mul(Rotate(Add(Add(y, v.1), e), 42), K1);
      x := XorWord(x, w.1);
      e := Fetch64(s + 40);
      y := Add(y, Add(v.0, e));
      z := Mul(Rotate(Add(z, w.0), 33), K1);
      var lower := FetchFour(s);
      v := Weak(lower, Mul(v.1, K1), Add(x, w.0));
      e := Fetch64(s + 16);
      var upper := FetchFour(s + 32);
      w := Weak(upper, Add(z, w.1), Add(y, e));
      z, x := x, z;
      t' := State(x, y, z, v, w);
    }

    method CityHash64(s: nat, len: nat) returns (h: Word)
      requires s + len <= |bytes| && len < LENGTH_LIMIT
      modifies this
      ensures h == Hash64(bytes, s, len) && Reads(old(seen), seen, s, s + len)
    {
      if len <= 16 {
        h := HashLen0to16(s, len);
      } else if len <= 32 {
        h := HashLen17to32(s, len);
      } else if len <= 64 {
        h := HashLen33to64(s, len);
      } else {
        h := HashOver64(s, len);
      }
    }

    method Begin64(s: nat, len: nat) returns (t: State)
      requires 64 < len < LENGTH_LIMIT && s + len <= |bytes|
      modifies this
      ensures t == Start64(bytes, s, len)
      ensures ReadsBoth(old(seen), seen, s, 8, s + len - 64, 64)
    {
      var x := Fetch64(s + len - 40);
      var y := Fetch64(s + len - 16);
      var e := Fetch64(s + len - 56);
      y := Add(y, e);
      var z := Fetch64(s + len - 48);
      e := Fetch64(s + len - 24);
      z := HashLen16(Add(z, len), e);
      var k := FetchFour(s + len - 64);
      var v := Weak(k, len, z);
      k := FetchFour(s + len - 32);
      var w := Weak(k, Add(y, K1), x);
      e := Fetch64(s);
      t := State(Add(Mul(x, K1), e), y, z, v, w);
    }

    /** The part of CityHash64 for keys over 64 bytes: first the end, then chunks of 64. */
    method HashOver64(s: nat, len: nat) returns (h: Word)
      requires 64 < len < LENGTH_LIMIT && s + len <= |bytes|
      modifies this
      ensures h == Final64(Fold(Mix, Start64(bytes, s, len), Blocks(bytes, s, (len - 1) / 64)))
      ensures Reads(old(seen), seen, s, s + len)
    {
      var t := Begin64(s, len);
      ghost var start := t;
      t := MixChunks(s, (len - 1) / 64, t);
      LeadsToFold(Mix, start, Blocks(bytes, s, (len - 1) / 64), t);
      h := Final64(t);
    }

    /** The 64-byte loop over `n` chunks. */
    method MixChunks(s: nat, n: nat, start: State) returns (t: State)
      requires s + 64 * n <= |bytes|
      modifies this
      ensures Leads(Mix, start, Blocks(bytes, s, n), t) && Reads(old(seen), seen, s, s + 64 * n)
    {
      t := start;
      var left, p := 64 * n, s;
      ghost var i, before := 0, seen;
      LeadsStart(Mix, start, Blocks(bytes, s, 0));
      while left != 0
        invariant 0 <= i <= n && p == s + 64 * i && left == 64 * (n - i)
        invariant Leads(Mix, start, Blocks(bytes, s, i), t)
        invariant Reads(before, seen, s, p)
        decreases left
      {
        t := MixOneMore(p, t, s, i, start, before);
        p, left, i := p + 64, left - 64, i + 1;
      }
    }

    /** The round of that loop after the first `i`; it began at `base`. */
    method MixOneMore(p: nat, t: State, ghost base: nat, ghost i: nat, ghost start: State, ghost before: set<nat>)
        returns (t': State)
      requires p == base + 64 * i && p + 64 <= |bytes|
      requires Leads(Mix, start, Blocks(bytes, base, i), t) && Reads(before, seen, base, p)
      modifies this
      ensures Leads(Mix, start, Blocks(bytes, base, i + 1), t') && Reads(before, seen, base, p + 64)
    {
      BlocksNext(bytes, base, i, p);
      LeadsOn(Mix, start, Blocks(bytes, base, i), t, BlockAt(bytes, p));
      ghost var now := seen;
      t' := MixRound(p, t);
      ReadsOn(before, now, seen, base, p, p + 64);
    }

    method CityMurmur(s: nat, len: nat, seed: (Word, Word)) returns (r: (Word, Word))
      requires s + len <= |bytes| && len < LENGTH_LIMIT
      modifies this
      ensures r == HashMurmur(bytes, s, len, seed) && Reads(old(seen), seen, s, s + len)
    {
      var t: Murmur;
      var l := len - 16;
      if l <= 0 {
        t := MurmurBrief(s, len, seed);
      } else {
        t := MurmurBegin(s, len, seed);
        ghost var start := t;
        t := MurmurRun(s, len, t);
        LeadsToFold(MurmurStep, start, Chunks(bytes, s, MurmurRounds(len)), t);
      }
      r := MurmurEnd(t);
    }

    /** CityMurmur up to 16 bytes, before the end. */
    method MurmurBrief(s: nat, len: nat, seed: (Word, Word)) returns (t: Murmur)
      requires len <= 16 && s + len <= |bytes|
      modifies this
      ensures t == MurmurShort(bytes, s, len, seed) && Reads(old(seen), seen, s, s + len)
    {
      var a := Mul(ShiftMix(Mul(seed.0, K1)), K1);
      var c := HashLen0to16(s, len);
      c := Add(Mul(seed.1, K1), c);
      var e := c;
      if len >= 8 { e := Fetch64(s); }
      t := Murmur(a, seed.1, c, ShiftMix(Add(a, e)));
    }

    method MurmurBegin(s: nat, len: nat, seed: (Word, Word)) returns (t: Murmur)
      requires 16 < len < LENGTH_LIMIT && s + len <= |bytes|
      modifies this
      ensures t == MurmurStart(bytes, s, len, seed) && Reads(old(seen), seen, s + len - 16, s + len - 16 + 16)
    {
      var e := Fetch64(s + len - 8);
      var c := HashLen16(Add(e, K1), seed.0);
      e := Fetch64(s + len - 16);
      var d := HashLen16(Add(seed.1, len), Add(c, e));
      t := Murmur(Add(seed.0, d), seed.1, c, d);
    }

    /** The loop of CityMurmur. */
    method MurmurRun(s: nat, len: nat, start: Murmur) returns (t: Murmur)
      requires 16 < len < LENGTH_LIMIT && s + len <= |bytes|
      modifies this
      ensures Leads(MurmurStep, start, Chunks(bytes, s, MurmurRounds(len)), t)
      ensures Reads(old(seen), seen, s, s + 16 * MurmurRounds(len))
    {
      t := start;
      var l, p := len - 16, s;
      ghost var i, before := 0, seen;
      LeadsStart(MurmurStep, start, Chunks(bytes, s, 0));
      while l > 0
        invariant p == s + 16 * i && l == len - 16 - 16 * i && l > -16
        invariant Leads(MurmurStep, start, Chunks(bytes, s, i), t)
        invariant Reads(before, seen, s, p)
        decreases l
      {
        t := MurmurOneMore(p, t, s, i, start, before);
        p, l, i := p + 16, l - 16, i + 1;
      }
    }

    /** The round of that loop after the first `i`; it began at `base`. */
    method MurmurOneMore(p: nat, t: Murmur, ghost base: nat, ghost i: nat, ghost start: Murmur, ghost before: set<nat>)
        returns (t': Murmur)
      requires p == base + 16 * i && p + 16 <= |bytes|
      requires Leads(MurmurStep, start, Chunks(bytes, base, i), t) && Reads(before, seen, base, p)
      modifies this
      ensures Leads(MurmurStep, start, Chunks(bytes, base, i + 1), t') && Reads(before, seen, base, p + 16)
    {
      ChunksNext(bytes, base, i, p);
      LeadsOn(MurmurStep, start, Chunks(bytes, base, i), t, Chunk(bytes, p));
      ghost var now := seen;
      t' := MurmurRound(p, t);
      ReadsOn(before, now, seen, base, p, p + 16);
    }

    /** The body of that loop. */
    method MurmurRound(s: nat, t: Murmur) returns (t': Murmur)
      requires s + 16 <= |bytes|
      modifies this
      ensures t' == MurmurStep(t, Chunk(bytes, s)) && Reads(old(seen), seen, s, s + 16)
    {
      var a, b, c, d := t.a, t.b, t.c, t.d;
      var e := Fetch64(s);
      a := XorWord(a, Mul(ShiftMix(Mul(e, K1)), K1));
      a := Mul(a, K1);
      b := XorWord(b, a);
      e := Fetch64(s + 8);
      c := XorWord(c, Mul(ShiftMix(Mul(e, K1)), K1));
      c := Mul(c, K1);
      d := XorWord(d, c);
      t' := Murmur(a, b, c, d);
    }

    /** A key of 128 bytes or more: pairs of chunks, then the tail in blocks of 32 bytes
        from the end, the last of which may step back before the tail. */
    method CityHash128WithSeed(s: nat, len: nat, seed: (Word, Word)) returns (r: (Word, Word))
      requires s + len <= |bytes| && len < LENGTH_LIMIT
      modifies this
      ensures r == Hash128WithSeed(bytes, s, len, seed) && Reads(old(seen), seen, s, s + len)
    {
      if len < 128 {
        r := CityMurmur(s, len, seed);
      } else {
        r := HashOver128(s, len, seed);
      }
    }

    method HashOver128(s: nat, len: nat, seed: (Word, Word)) returns (r: (Word, Word))
      requires s + len <= |bytes| && 128 <= len < LENGTH_LIMIT
      modifies this
      ensures r == Hash128Long(bytes, s, len, seed) && Reads(old(seen), seen, s, s + len)
    {
      var t := Begin128(s, len, seed);
      t := Loops128(s, len, t, old(seen));
      r := Final128(t);
    }

    /** Both loops; what was read before them is part of the key. */
    method Loops128(s: nat, len: nat, start: State, ghost before: set<nat>) returns (t: State)
      requires s + len <= |bytes| && 128 <= len && ReadsBoth(before, seen, s, 16, s + 88, 8)
      modifies this
      ensures t == After128(bytes, s, len, start) && Reads(before, seen, s, s + len)
    {
      ghost var begun := seen;
      t := MixPairs(s, len, start);
      ghost var done, mixed := t, seen;
      t := Bridge(t);
      ghost var mid := t;
      t := MixTails(s + len, len % 128, t);
      AllRead(before, begun, mixed, seen, s, len);
      LoopsDone(start, Blocks(bytes, s, len / 128 * 2), done, mid,
                 TailBlocks(bytes, s + len, (len % 128 + 31) / 32), t);
    }

    method Begin128(s: nat, len: nat, seed: (Word, Word)) returns (t: State)
      requires 128 <= len < LENGTH_LIMIT && s + len <= |bytes|
      modifies this
      ensures t == Start128(bytes, s, len, seed) && ReadsBoth(old(seen), seen, s, 16, s + 88, 8)
    {
      var x, y := seed.0, seed.1;
      var z := Mul(len, K1);
      var e := Fetch64(s);
      var v0 := Add(Mul(Rotate(XorWord(y, K1), 49), K1), e);
      e := Fetch64(s + 8);
      var v1 := Add(Mul(Rotate(v0, 42), K1), e);
      var w0 := Add(Mul(Rotate(Add(y, z), 35), K1), x);
      e := Fetch64(s + 88);
      var w1 := Mul(Rotate(Add(x, e), 53), K1);
      t := State(x, y, z, (v0, v1), (w0, w1));
    }

    /** The unrolled loop: two chunks a round while 128 bytes are left. */
    method MixPairs(s: nat, len: nat, start: State) returns (t: State)
      requires s + len <= |bytes|
      modifies this
      ensures Leads(Mix, start, Blocks(bytes, s, len / 128 * 2), t) && Reads(old(seen), seen, s, s + len / 128 * 128)
    {
      t := start;
      var left, p := len, s;
      ghost var i, before := 0, seen;
      LeadsStart(Mix, start, Blocks(bytes, s, 0));
      while left >= 128
        invariant 0 <= left && p == s + 64 * i && left == len - 64 * i && i % 2 == 0
        invariant Leads(Mix, start, Blocks(bytes, s, i), t)
        invariant Reads(before, seen, s, p)
        decreases left
      {
        t := MixOneMore(p, t, s, i, start, before);
        p, i := p + 64, i + 1;
        t := MixOneMore(p, t, s, i, start, before);
        p, i := p + 64, i + 1;
        left := left - 128;
      }
      RoundsDone(len, left, i);
    }

    /** The tail loop over the last `len` bytes before `end`. */
    method MixTails(end: nat, len: nat, start: State) returns (t: State)
      requires len < 128 <= end <= |bytes|
      modifies this
      ensures Leads(MixTail, start, TailBlocks(bytes, end, (len + 31) / 32), t)
      ensures Reads(old(seen), seen, end - (len + 31) / 32 * 32, end)
    {
      t := start;
      var tail_done := 0;
      ghost var i, before := 0, seen;
      LeadsStart(MixTail, start, TailBlocks(bytes, end, 0));
      while tail_done < len
        invariant tail_done == 32 * i && i <= (len + 31) / 32
        invariant Leads(MixTail, start, TailBlocks(bytes, end, i), t)
        invariant Reads(before, seen, end - tail_done, end)
      {
        tail_done := tail_done + 32;
        t := TailOneMore(end - tail_done, t, end, i, start, before);
        i := i + 1;
      }
    }

    /** The round of that loop after the first `i`. */
    method TailOneMore(p: nat, t: State, ghost end: nat, ghost i: nat, ghost start: State, ghost before: set<nat>)
        returns (t': State)
      requires p + 32 * i + 32 == end <= |bytes|
      requires Leads(MixTail, start, TailBlocks(bytes, end, i), t) && Reads(before, seen, p + 32, end)
      modifies this
      ensures Leads(MixTail, start, TailBlocks(bytes, end, i + 1), t') && Reads(before, seen, p, end)
    {
      TailBlocksNext(bytes, end, i, p);
      LeadsOn(MixTail, start, TailBlocks(bytes, end, i), t, FourAt(bytes, p));
      ghost var now := seen;
      t' := TailRound(p, t);
      ReadsBefore(before, now, seen, p, p + 32, end);
    }

    method TailRound(s: nat, t: State) returns (t': State)
      requires s + 32 <= |bytes|
      modifies this
      ensures t' == MixTail(t, FourAt(bytes, s)) && Reads(old(seen), seen, s, s + 32)
    {
      var x, y, z, v, w := t.x, t.y, t.z, t.v, t.w;
      y := Add(Mul(Rotate(Add(x, y), 42), K0), v.1);
      var e := Fetch64(s + 16);
      w := (Add(w.0, e), w.1);
      x := Add(Mul(x, K0), w.0);
      e := Fetch64(s);
      z := Add(z, Add(w.1, e));
      w := (w.0, Add(w.1, v.0));
      var k := FetchFour(s);
      v := Weak(k, Add(v.0, z), v.1);
      t' := State(x, y, z, v, w);
    }

    method CityHash128() returns (r: (Word, Word))
      requires |bytes| < LENGTH_LIMIT
      modifies this
      ensures r == Hash128(bytes) && Reads(old(seen), seen, 0, |bytes|)
    {
      if |bytes| >= 16 {
        r := HashOver16(|bytes| - 16);
      } else if |bytes| >= 8 {
        r := Hash8to15();
      } else {
        r := HashUnder8();
      }
    }

    method HashUnder8() returns (r: (Word, Word))
      requires |bytes| < 8
      modifies this
      ensures r == Hash128(bytes) && Reads(old(seen), seen, 0, |bytes|)
    {
      Hash128Under8(bytes);
      r := CityHash128WithSeed(0, |bytes|, (K0, K1));
    }

    /** The first 16 bytes are the seed. */
    method HashOver16(len: nat) returns (r: (Word, Word))
      requires 16 + len == |bytes| < LENGTH_LIMIT
      modifies this
      ensures r == Hash128(bytes) && Reads(old(seen), seen, 0, |bytes|)
    {
      Hash128Over16(bytes, len);
      ghost var before := seen;
      var seed := FirstSeed();
      ghost var seeded := seen;
      r := CityHash128WithSeed(16, len, seed);
      ReadsAfter(before, seeded, seen, 16, |bytes|);
    }

    /** The middle case: the whole key is in the seed, and the call gets no buffer. */
    method Hash8to15() returns (r: (Word, Word))
      requires 8 <= |bytes| < 16
      modifies this
      ensures r == Hash128(bytes) && Reads(old(seen), seen, 0, |bytes|)
    {
      Hash128From8(bytes);
      var seed := MiddleSeed();
      var nothing := new Buffer([]);
      r := nothing.CityHash128WithSeed(0, 0, seed);
    }

    method FirstSeed() returns (seed: (Word, Word))
      requires |bytes| >= 16
      modifies this
      ensures seed == SeedOver16(bytes) && Reads(old(seen), seen, 0, 16)
    {
      var a := Fetch64(0);
      var b := Fetch64(8);
      seed := (XorWord(a, K3), b);
    }

    method MiddleSeed() returns (seed: (Word, Word))
      requires 8 <= |bytes| < 16
      modifies this
      ensures seed == Seed8to15(bytes) && Reads(old(seen), seen, 0, |bytes|)
    {
      var len := |bytes|;
      var a := Fetch64(0);
      var b := Fetch64(len - 8);
      seed := (XorWord(a, Mul(len, K0)), XorWord(b, K1));
    }
  }

  lemma Hash128Over16(s: seq<Byte>, len: nat)
    requires |s| == 16 + len < LENGTH_LIMIT
    ensures Hash128(s) == Hash128WithSeed(s, 16, len, SeedOver16(s))
  {
  }

  lemma Hash128From8(s: seq<Byte>)
    requires 8 <= |s| < 16
    ensures Hash128(s) == Hash128WithSeed([], 0, 0, Seed8to15(s))
  {
  }

  lemma Hash128Under8(s: seq<Byte>)
    requires |s| < 8
    ensures Hash128(s) == Hash128WithSeed(s, 0, |s|, (K0, K1))
  {
  }

  lemma ReadsAfter(before: set<nat>, now: set<nat>, after: set<nat>, q: nat, r: nat)
    requires q <= r && Reads(before, now, 0, q) && Reads(now, after, q, r)
    ensures Reads(before, after, 0, r)
  {
  }

  lemma ReadsBefore(before: set<nat>, now: set<nat>, after: set<nat>, p: nat, q: nat, r: nat)
    requires p <= q <= r && Reads(before, now, q, r) && Reads(now, after, p, q)
    ensures Reads(before, after, p, r)
  {
  }

  lemma AllRead(before: set<nat>, begun: set<nat>, mixed: set<nat>, after: set<nat>, s: nat, len: nat)
    requires len >= 128 && ReadsBoth(before, begun, s, 16, s + 88, 8)
    requires Reads(begun, mixed, s, s + len / 128 * 128)
    requires Reads(mixed, after, s + len - (len % 128 + 31) / 32 * 32, s + len)
    ensures Reads(before, after, s, s + len)
  {
  }

  lemma LoopsDone(t0: State, blocks: seq<Block>, t1: State, mid: State, tail: seq<Four>, t2: State)
    requires Leads(Mix, t0, blocks, t1) && mid == Bridge(t1) && Leads(MixTail, mid, tail, t2)
    ensures t2 == TwoFolds(Mix, t0, blocks, Bridge, MixTail, tail)
  {
    TwoLoops(Mix, t0, blocks, t1, Bridge, mid, MixTail, tail, t2);
  }

  lemma TwoLoops<S(!new), K(!new), L(!new)>(f: (S, K) -> S, t0: S, keys: seq<K>, t1: S,
                                            between: S -> S, mid: S, g: (S, L) -> S, more: seq<L>, t2: S)
    requires Leads(f, t0, keys, t1) && mid == between(t1) && Leads(g, mid, more, t2)
    ensures t2 == TwoFolds(f, t0, keys, between, g, more)
  {
    LeadsToFold(f, t0, keys, t1);
    LeadsToFold(g, mid, more, t2);
  }

  lemma RoundsDone(len: nat, left: nat, i: nat)
    requires left < 128 && left == len - 64 * i && i % 2 == 0
    ensures i == len / 128 * 2 && 64 * i == len / 128 * 128
  {
  }

  lemma TailBlocksNext(s: seq<Byte>, end: nat, n: nat, p: nat)
    requires p + 32 * n + 32 == end <= |s|
    ensures TailBlocks(s, end, n + 1) == TailBlocks(s, end, n) + [FourAt(s, p)]
  {
  }

  lemma BlocksNext(s: seq<Byte>, base: nat, n: nat, p: nat)
    requires p == base + 64 * n && p + 64 <= |s|
    ensures Blocks(s, base, n + 1) == Blocks(s, base, n) + [BlockAt(s, p)]
  {
  }

  lemma LeadsStart<S(!new), K(!new)>(f: (S, K) -> S, start: S, keys: seq<K>)
    requires keys == []
    ensures Leads(f, start, keys, start)
  {
    assert Traces(f, [start], start, keys, start);
  }

  lemma LeadsOn<S(!new), K(!new)>(f: (S, K) -> S, start: S, keys: seq<K>, t: S, k: K)
    requires Leads(f, start, keys, t)
    ensures Leads(f, start, keys + [k], f(t, k))
  {
    var trace :| Traces(f, trace, start, keys, t);
    var more, all := trace + [f(t, k)], keys + [k];
    forall i | 0 <= i < |all|
      ensures more[i + 1] == f(more[i], all[i])
    {
      if i < |keys| { assert trace[i + 1] == f(trace[i], keys[i]); }
    }
    assert Traces(f, more, start, all, f(t, k));
  }

  /** There is only one state that a loop leads to. */
  lemma {:induction false} LeadsToFold<S(!new), K(!new)>(f: (S, K) -> S, start: S, keys: seq<K>, t: S)
    requires Leads(f, start, keys, t)
    ensures t == Fold(f, start, keys)
  {
    var trace :| Traces(f, trace, start, keys, t);
    if keys != [] {
      var n := |keys| - 1;
      assert trace[n + 1] == f(trace[n], keys[n]);
      forall i | 0 <= i < n
        ensures trace[..n + 1][i + 1] == f(trace[..n + 1][i], keys[..n][i])
      {
        assert trace[i + 1] == f(trace[i], keys[i]);
      }
      assert Traces(f, trace[..n + 1], start, keys[..n], trace[n]);
      LeadsToFold(f, start, keys[..n], trace[n]);
    }
  }

  lemma ChunksNext(s: seq<Byte>, base: nat, n: nat, p: nat)
    requires p == base + 16 * n && p + 16 <= |s|
    ensures Chunks(s, base, n + 1) == Chunks(s, base, n) + [Chunk(s, p)]
  {
  }
}

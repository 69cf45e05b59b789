/** Util.cpp: addresses as text and as 64-bit numbers. */
module Ipv4 {
  import opened Options
  import opened Decimal
  import opened Text
  import opened Address

  // ----- fields -----

  /** boost::algorithm::split at one character. */
  function Fields(s: string, c: char): (f: seq<string>)
    ensures f != []
  {
    var last := FindLast(s, c);
    if last < 0 then [s] else Fields(s[..last], c) + [s[last + 1..]]
  }

  lemma FieldsAppend(s: string, c: char, t: string)
    requires forall i :: 0 <= i < |t| ==> t[i] != c
    ensures Fields(s + [c] + t, c) == Fields(s, c) + [t]
  {
    LastIs(s, c, t);
    var all := s + [c] + t;
    assert all[..|s|] == s && all[|s| + 1..] == t;
  }

  lemma OneField(s: string, c: char)
    requires forall i :: 0 <= i < |s| ==> s[i] != c
    ensures Fields(s, c) == [s]
  {
  }

  // ----- inet_addr and inet_ntop -----

  /** The four numbers of a dotted address. */
  datatype Quad = Quad(a: nat, b: nat, c: nat, d: nat)

  predicate Octets(q: Quad) { q.a < 256 && q.b < 256 && q.c < 256 && q.d < 256 }

  function Dotted(q: Quad): string {
    OfNat(q.a) + ['.'] + OfNat(q.b) + ['.'] + OfNat(q.c) + ['.'] + OfNat(q.d)
  }

  predicate IsOctet(s: string) { AllDigits(s) && ValueOf(s) < 256 && s == OfNat(ValueOf(s)) }

  const INADDR_NONE := 0xFFFF_FFFF

  /** inet_addr on four decimal numbers: network byte order, so that on a little-endian
      machine the first number is the least significant byte. */
  function InetAddr(ip: string): nat {
    var f := Fields(ip, '.');
    if |f| == 4 && IsOctet(f[0]) && IsOctet(f[1]) && IsOctet(f[2]) && IsOctet(f[3])
    then Bytes(Quad(ValueOf(f[0]), ValueOf(f[1]), ValueOf(f[2]), ValueOf(f[3])))
    else INADDR_NONE
  }

  function Bytes(q: Quad): nat { q.a + 0x100 * q.b + 0x1_0000 * q.c + 0x100_0000 * q.d }

  function QuadOf(u: nat): Quad {
    var (v, w) := (u / 0x100, u / 0x100 / 0x100);
    Quad(u % 0x100, v % 0x100, w % 0x100, w / 0x100 % 0x100)
  }

  function InetNtop(u: nat): string { Dotted(QuadOf(u)) }

  // ----- ipv4_int64 and int64_ipv4 -----

  const WORD32 := 0x1_0000_0000

  function Int32(u: nat): int
    requires u < WORD32
  {
    if u < INT_LIMIT then u else u - WORD32
  }

  /** The address in the upper half, the bits of the port in the lower. */
  function Pack(u: nat, port: int): nat { u * WORD32 + port % WORD32 }

  function Unpack(v: nat): (nat, int) { (v / WORD32 % WORD32, Int32(v % WORD32)) }

  function Ipv4Int64(ip: string, port: int): nat { Pack(InetAddr(ip), port) }

  function Int64Ipv4(v: nat): (string, int) { (InetNtop(Unpack(v).0), Unpack(v).1) }

  function StrIpv4Int64(addr: string): Option<nat> {
    match StrIpv4(addr)
    case None => None
    case Some((ip, port)) => Some(Ipv4Int64(ip, port))
  }

  function Int64StrIpv4(v: nat): string {
    var (ip, port) := Int64Ipv4(v);
    ip + ":" + OfInt(port)
  }

  lemma BytesOf(u: nat)
    requires u < WORD32
    ensures Octets(QuadOf(u)) && Bytes(QuadOf(u)) == u
  {
    var (v, w) := (u / 0x100, u / 0x100 / 0x100);
    assert u == 0x100 * v + u % 0x100 && v == 0x100 * w + v % 0x100 && w == 0x100 * (w / 0x100) + w % 0x100;
    assert w / 0x100 < 0x100;
  }

  lemma OfBytes(q: Quad)
    requires Octets(q)
    ensures Bytes(q) < WORD32 && QuadOf(Bytes(q)) == q
  {
    var w := q.c + 0x100 * q.d;
    var v := q.b + 0x100 * w;
    assert Bytes(q) == q.a + 0x100 * v;
    assert Bytes(q) / 0x100 == v && v / 0x100 == w && w / 0x100 == q.d;
  }

  lemma NatField(n: nat, c: char)
    requires !IsDigit(c)
    ensures forall i :: 0 <= i < |OfNat(n)| ==> OfNat(n)[i] != c
  {
    forall i | 0 <= i < |OfNat(n)|
      ensures OfNat(n)[i] != c
    {
      DigitAt(OfNat(n), i);
    }
  }

  lemma DottedFields(q: Quad)
    ensures Fields(Dotted(q), '.') == [OfNat(q.a), OfNat(q.b), OfNat(q.c), OfNat(q.d)]
  {
    NatField(q.a, '.');
    NatField(q.b, '.');
    NatField(q.c, '.');
    NatField(q.d, '.');
    OneField(OfNat(q.a), '.');
    FieldsAppend(OfNat(q.a), '.', OfNat(q.b));
    FieldsAppend(OfNat(q.a) + ['.'] + OfNat(q.b), '.', OfNat(q.c));
    FieldsAppend(OfNat(q.a) + ['.'] + OfNat(q.b) + ['.'] + OfNat(q.c), '.', OfNat(q.d));
  }

  /** inet_addr reads what inet_ntop prints. */
  lemma ReadsDotted(q: Quad)
    requires Octets(q)
    ensures InetAddr(Dotted(q)) == Bytes(q)
  {
    DottedFields(q);
    ValueOfNat(q.a);
    ValueOfNat(q.b);
    ValueOfNat(q.c);
    ValueOfNat(q.d);
  }

  lemma Halves(high: nat, low: nat)
    requires low < WORD32
    ensures (high * WORD32 + low) / WORD32 == high && (high * WORD32 + low) % WORD32 == low
  {
  }

  lemma Int32Bits(port: int)
    requires -INT_LIMIT <= port < INT_LIMIT
    ensures Int32(port % WORD32) == port
  {
  }

  lemma BitsOfInt32(u: nat)
    requires u < WORD32
    ensures Int32(u) % WORD32 == u && -INT_LIMIT <= Int32(u) < INT_LIMIT && (Int32(u) == 0 <==> u == 0)
  {
  }

  lemma PackUnpack(v: nat)
    requires v < WORD32 * WORD32
    ensures Unpack(v).0 < WORD32 && Pack(Unpack(v).0, Unpack(v).1) == v
  {
    var high, low := v / WORD32, v % WORD32;
    assert v == high * WORD32 + low && high < WORD32;
    BitsOfInt32(low);
  }

  lemma UnpackPack(u: nat, port: int)
    requires u < WORD32 && -INT_LIMIT <= port < INT_LIMIT
    ensures Unpack(Pack(u, port)) == (u, port)
  {
    Halves(u, port % WORD32);
    Int32Bits(port);
  }

  lemma NtopIsRead(u: nat)
    requires u < WORD32
    ensures InetAddr(InetNtop(u)) == u
  {
    BytesOf(u);
    ReadsDotted(QuadOf(u));
  }

  /** Every 64-bit number is the number of the address it prints as. */
  lemma NumberRoundTrip(v: nat)
    requires v < WORD32 * WORD32
    ensures Ipv4Int64(Int64Ipv4(v).0, Int64Ipv4(v).1) == v
  {
    PackUnpack(v);
    NtopIsRead(Unpack(v).0);
  }

  /** Host and port survive the way to a number and back. */
  lemma HostPortRoundTrip(q: Quad, port: int)
    requires Octets(q) && -INT_LIMIT <= port < INT_LIMIT
    ensures Int64Ipv4(Ipv4Int64(Dotted(q), port)) == (Dotted(q), port)
  {
    OfBytes(q);
    ReadsDotted(q);
    UnpackPack(Bytes(q), port);
  }

  /** The number by its bytes: the port in the lower half, and above it the four numbers of the
      host, the first one lowest. */
  lemma NumberBytes(q: Quad, port: int)
    requires Octets(q) && -INT_LIMIT <= port < INT_LIMIT
    ensures Ipv4Int64(Dotted(q), port) ==
              (if port < 0 then port + 0x1_0000_0000 else port) + 0x1_0000_0000 * q.a + 0x100_0000_0000 * q.b
              + 0x1_0000_0000_0000 * q.c + 0x100_0000_0000_0000 * q.d
  {
    ReadsDotted(q);
    PackIs(Bytes(q), port);
    assert Ipv4Int64(Dotted(q), port) == Pack(Bytes(q), port);
  }

  lemma PackIs(u: nat, port: int)
    requires -INT_LIMIT <= port < INT_LIMIT
    ensures Pack(u, port) == (if port < 0 then port + 0x1_0000_0000 else port) + 0x1_0000_0000 * u
  {
  }

  lemma LoopbackNumber()
    ensures Dotted(Quad(127, 0, 0, 1)) == "127.0.0.1"
    ensures Ipv4Int64("127.0.0.1", 6379) == 0x0100_007f_0000_18eb
  {
    assert OfNat(127) == OfNat(12) + ['7'] && OfNat(12) == OfNat(1) + ['2'];
    assert OfNat(1) == ['1'] && OfNat(0) == ['0'];
    assert OfNat(127) == "127";
    assert Dotted(Quad(127, 0, 0, 1)) == "127.0.0.1";
    NumberBytes(Quad(127, 0, 0, 1), 6379);
  }

  /** What is no dotted address in the form it is printed in becomes the number of
      255.255.255.255. */
  lemma NotDotted(ip: string)
    requires forall q :: Octets(q) ==> ip != Dotted(q)
    ensures InetAddr(ip) == 0xFFFF_FFFF
  {
    var f := Fields(ip, '.');
    if |f| == 4 && IsOctet(f[0]) && IsOctet(f[1]) && IsOctet(f[2]) && IsOctet(f[3]) {
      FourFields(ip);
      var q := Quad(ValueOf(f[0]), ValueOf(f[1]), ValueOf(f[2]), ValueOf(f[3]));
      assert ip == Dotted(q) && Octets(q);
      assert false;
    }
  }

  lemma FourFields(s: string)
    requires |Fields(s, '.')| == 4
    ensures var f := Fields(s, '.'); s == f[0] + ['.'] + f[1] + ['.'] + f[2] + ['.'] + f[3]
  {
    LastField(s);
    var s3 := s[..FindLast(s, '.')];
    LastField(s3);
    var s2 := s3[..FindLast(s3, '.')];
    LastField(s2);
    var s1 := s2[..FindLast(s2, '.')];
    assert Fields(s1, '.') == [Fields(s, '.')[0]];
    if FindLast(s1, '.') >= 0 { LastField(s1); }
  }

  lemma LastField(s: string)
    ensures var (f, p) := (Fields(s, '.'), FindLast(s, '.'));
            && (p < 0 ==> f == [s])
            && (p >= 0 ==> s == s[..p] + ['.'] + s[p + 1..] && f == Fields(s[..p], '.') + [s[p + 1..]])
    ensures |Fields(s, '.')| > 1 ==> FindLast(s, '.') >= 0
    ensures |Fields(s, '.')| == 1 ==> FindLast(s, '.') < 0
  {
  }

  // ----- addresses as text -----

  lemma {:induction false} AllLeading(s: string)
    requires AllDigits(s)
    ensures LeadingDigits(s) == s
  {
    if s != "" {
      DigitAt(s, 0);
      DigitsTail(s);
      AllLeading(s[1..]);
      assert s == [s[0]] + s[1..];
    }
  }

  lemma {:induction false} DigitsTail(s: string)
    requires AllDigits(s) && s != ""
    ensures AllDigits(s[1..])
  {
    if |s| > 1 {
      var n := |s| - 1;
      DigitsTail(s[..n]);
      assert s[1..][..n - 1] == s[..n][1..];
    }
  }

  lemma AtoiOfInt(n: int)
    ensures Atoi(OfInt(n)) == n
  {
    var digits := OfNat(if n < 0 then -n else n);
    DigitAt(digits, 0);
    AllLeading(digits);
    ValueOfNat(if n < 0 then -n else n);
    if n < 0 {
      AtoiMinus(digits);
    } else {
      AtoiDigits(digits);
    }
  }

  lemma AtoiMinus(digits: string)
    requires AllDigits(digits) && LeadingDigits(digits) == digits
    ensures Atoi("-" + digits) == 0 - ValueOf(digits)
  {
    assert ("-" + digits)[1..] == digits;
  }

  lemma AtoiDigits(digits: string)
    requires AllDigits(digits) && LeadingDigits(digits) == digits && digits != "" && IsDigit(digits[0])
    ensures Atoi(digits) == ValueOf(digits)
  {
  }

  lemma HostAndPort(ip: string, port: string)
    requires forall i :: 0 <= i < |ip| ==> ip[i] != ':'
    ensures StrIpv4(ip + ":" + port) == if ip == "" || Atoi(port) == 0 then None else Some((ip, Atoi(port)))
  {
    var addr := ip + ":" + port;
    FindSkips(addr, ':', 0, |ip|);
    assert addr[|ip|..|ip| + 1] == ":";
    assert addr[..|ip|] == ip && addr[|ip| + 1..] == port;
  }

  lemma DottedPlain(q: Quad)
    ensures Dotted(q) != "" && forall i :: 0 <= i < |Dotted(q)| ==> Dotted(q)[i] != ':'
  {
    NatField(q.a, ':');
    NatField(q.b, ':');
    NatField(q.c, ':');
    NatField(q.d, ':');
  }

  /** What int64_str_ipv4 prints, str_ipv4_int64 reads, unless the port is 0. */
  lemma TextRoundTrip(v: nat)
    requires v < WORD32 * WORD32
    ensures StrIpv4Int64(Int64StrIpv4(v)) == if v % WORD32 == 0 then None else Some(v)
  {
    var (ip, port) := Int64Ipv4(v);
    BitsOfInt32(v % WORD32);
    DottedPlain(QuadOf(Unpack(v).0));
    AtoiOfInt(port);
    HostAndPort(ip, OfInt(port));
    if v % WORD32 != 0 { NumberRoundTrip(v); }
  }

  /** A dotted quad and a port, written the way they are printed. */
  ghost predicate IsPrinted(addr: string) {
    exists q: Quad, port: int ::
      Octets(q) && port != 0 && -INT_LIMIT <= port < INT_LIMIT && addr == Dotted(q) + ":" + OfInt(port)
  }

  lemma InetBound(ip: string)
    ensures InetAddr(ip) < WORD32
  {
    var f := Fields(ip, '.');
    if |f| == 4 && IsOctet(f[0]) && IsOctet(f[1]) && IsOctet(f[2]) && IsOctet(f[3]) {
      OfBytes(Quad(ValueOf(f[0]), ValueOf(f[1]), ValueOf(f[2]), ValueOf(f[3])));
    }
  }

  lemma PackBound(u: nat, port: int)
    requires u < WORD32
    ensures Pack(u, port) < WORD32 * WORD32
  {
  }

  /** What int64_str_ipv4 prints, unless the port is 0, is an address that it prints as
      itself. */
  lemma PrintedIsAddress(v: nat)
    requires v < WORD32 * WORD32 && v % WORD32 != 0
    ensures IsPrinted(Int64StrIpv4(v))
  {
    var (u, port) := Unpack(v);
    BitsOfInt32(v % WORD32);
    BytesOf(u);
    assert Int64StrIpv4(v) == Dotted(QuadOf(u)) + ":" + OfInt(port);
  }

  lemma PrintedIsRead(q: Quad, port: int)
    requires Octets(q) && port != 0 && -INT_LIMIT <= port < INT_LIMIT
    ensures var addr := Dotted(q) + ":" + OfInt(port);
            StrIpv4Int64(addr).Some? && Int64StrIpv4(StrIpv4Int64(addr).value) == addr
  {
    DottedPlain(q);
    AtoiOfInt(port);
    HostAndPort(Dotted(q), OfInt(port));
    HostPortRoundTrip(q, port);
  }

  lemma EndpointBound(addr: string)
    requires StrIpv4Int64(addr).Some?
    ensures StrIpv4Int64(addr).value < WORD32 * WORD32
  {
    var (ip, port) := StrIpv4(addr).value;
    InetBound(ip);
    PackBound(InetAddr(ip), port);
  }

  /** The address survives the way to a 64-bit number and back. */
  predicate Survives(addr: string) {
    StrIpv4Int64(addr).Some? && Int64StrIpv4(StrIpv4Int64(addr).value) == addr
  }

  /** An address survives the way to a 64-bit number and back exactly when it is a dotted
      quad and a 32-bit port other than 0, both written the way they are printed. */
  lemma AddressRoundTrip(addr: string)
    ensures Survives(addr) <==> IsPrinted(addr)
  {
    if Survives(addr) {
      EndpointBound(addr);
      var v := StrIpv4Int64(addr).value;
      TextRoundTrip(v);
      PrintedIsAddress(v);
    }
    if IsPrinted(addr) {
      var q: Quad, bits: int :| Octets(q) && bits != 0 && -INT_LIMIT <= bits < INT_LIMIT
                                && addr == Dotted(q) + ":" + OfInt(bits);
      PrintedIsRead(q, bits);
    }
  }

  /** The number of an address, also of one with port 0, which str_ipv4 refuses. */
  function NumberOf(s: string): nat {
    var pos := Find(s, ":", 0);
    if pos < 0 then 0 else Ipv4Int64(s[..pos], Atoi(s[pos + 1..]))
  }

  lemma NumberOfPrinted(v: nat)
    requires v < WORD32 * WORD32
    ensures NumberOf(Int64StrIpv4(v)) == v
  {
    PrintedParts(v);
    NumberRoundTrip(v);
  }

  lemma PrintedParts(v: nat)
    requires v < WORD32 * WORD32
    ensures var (s, (ip, port)) := (Int64StrIpv4(v), Int64Ipv4(v));
            && |ip| == Find(s, ":", 0) && ip == s[..|ip|] && port == Atoi(s[|ip| + 1..])
  {
    var (ip, port) := Int64Ipv4(v);
    var s := Int64StrIpv4(v);
    DottedPlain(QuadOf(Unpack(v).0));
    FindSkips(s, ':', 0, |ip|);
    assert s[|ip|..|ip| + 1] == ":" && s[|ip| + 1..] == OfInt(port);
    AtoiOfInt(port);
  }
}

/** Which names in the configuration count as clusters and which as addresses, by their text. */
module Naming {
  import opened Options
  import opened Decimal
  import opened Text
  import opened Address
  import opened Ipv4
  import opened ZkTree
  import opened CtrlSteps

  // ----- where a text occurs -----

  predicate Occurs(s: string, p: string, i: nat) { i + |p| <= |s| && s[i..i + |p|] == p }

  predicate FirstOccurs(s: string, p: string, i: nat) {
    Occurs(s, p, i) && forall j :: 0 <= j < i ==> !Occurs(s, p, j)
  }

  lemma {:induction false} FindOccurs(s: string, p: string, from: nat)
    ensures var pos := Find(s, p, from);
            forall j: nat :: from <= j && (pos < 0 || j < pos) ==> !Occurs(s, p, j)
    decreases |s| - from
  {
    if from + |p| <= |s| && s[from..from + |p|] != p { FindOccurs(s, p, from + 1); }
  }

  /** find gives the first place where the text occurs, and npos if there is none. */
  lemma FindExactly(s: string, p: string, i: nat)
    ensures Find(s, p, 0) == i <==> FirstOccurs(s, p, i)
    ensures Find(s, p, 0) < 0 <==> forall j: nat :: !Occurs(s, p, j)
  {
    FindOccurs(s, p, 0);
    var pos := Find(s, p, 0);
    if pos >= 0 { assert Occurs(s, p, pos); }
  }

  // ----- numbers -----

  predicate Numeral(s: string) { s != "" && forall i :: 0 <= i < |s| ==> '0' <= s[i] <= '9' }

  /** The numeral with or without a sign, and its number. */
  predicate Signed(s: string, d: string, n: int)
    requires Numeral(d)
  {
    (s == d && n == Value(d)) || (s == "+" + d && n == Value(d)) || (s == "-" + d && n == 0 - Value(d))
  }

  /** The text of a long. */
  ghost predicate SpellsLong(s: string, n: int) {
    -0x8000_0000_0000_0000 <= n < 0x8000_0000_0000_0000 && exists d :: Numeral(d) && Signed(s, d, n)
  }

  /** The number that digits stand for. */
  function Value(d: string): nat
    requires Numeral(d)
  {
    NumeralDigits(d);
    ValueOf(d)
  }

  lemma {:induction false} NumeralDigits(s: string)
    ensures (forall i :: 0 <= i < |s| ==> IsDigit(s[i])) <==> AllDigits(s)
  {
    if s != "" {
      var n := |s| - 1;
      NumeralDigits(s[..n]);
      assert forall i :: 0 <= i < n ==> s[..n][i] == s[i];
    }
  }

  lemma Unsigned(s: string, d: string, n: int)
    requires Numeral(d) && Signed(s, d, n)
    ensures s != "" && d == if s[0] == '-' || s[0] == '+' then s[1..] else s
    ensures n == if s[0] == '-' then 0 - Value(d) else Value(d)
  {
    if s == "+" + d || s == "-" + d { assert s[1..] == d; }
  }

  lemma SpelledIsRead(s: string, d: string, n: int)
    requires Numeral(d) && Signed(s, d, n) && -LONG_LIMIT <= n < LONG_LIMIT
    ensures ToLong(s) == Some(n)
  {
    Unsigned(s, d, n);
    NumeralDigits(d);
  }

  lemma ReadIsSpelled(s: string, n: int)
    requires ToLong(s) == Some(n)
    ensures SpellsLong(s, n)
  {
    var digits := if s != "" && (s[0] == '-' || s[0] == '+') then s[1..] else s;
    NumeralDigits(digits);
    assert Numeral(digits);
    assert s == digits || s == "+" + digits || s == "-" + digits;
    assert Signed(s, digits, n);
  }

  lemma ToLongExactly(s: string, n: int)
    ensures ToLong(s) == Some(n) <==> SpellsLong(s, n)
  {
    if ToLong(s) == Some(n) { ReadIsSpelled(s, n); }
    if SpellsLong(s, n) {
      var d :| Numeral(d) && Signed(s, d, n);
      SpelledIsRead(s, d, n);
    }
  }

  // ----- clusters -----

  /** Behind position `i` and the seven letters of "cluster" comes the text of this long. */
  ghost predicate Numbered(c: string, i: nat, n: int) { i + 7 <= |c| && SpellsLong(c[i + 7..], n) }

  /** The text after the first "cluster" is that of a long other than -1. */
  ghost predicate NamesCluster(c: string) {
    exists i: nat, n :: FirstOccurs(c, "cluster", i) && Numbered(c, i, n) && n != -1
  }

  lemma IndexIs(c: string, i: nat, n: int)
    requires FirstOccurs(c, "cluster", i)
    ensures Numbered(c, i, n) ==> CutIdx("cluster", c) == n
    ensures CutIdx("cluster", c) == n && n != -1 ==> Numbered(c, i, n)
  {
    FindExactly(c, "cluster", i);
    ToLongExactly(c[i + 7..], n);
  }

  lemma ClusterExactly(c: string)
    ensures IsCluster(c) <==> NamesCluster(c)
  {
    var pos := Find(c, "cluster", 0);
    if pos >= 0 {
      FindExactly(c, "cluster", pos);
      IndexIs(c, pos, CutIdx("cluster", c));
    }
    if NamesCluster(c) {
      var i: nat, n :| FirstOccurs(c, "cluster", i) && Numbered(c, i, n) && n != -1;
      IndexIs(c, i, n);
    }
  }

  // ----- addresses -----

  predicate AllZeros(s: string) { forall i :: 0 <= i < |s| ==> s[i] == '0' }

  lemma {:induction false} ZeroExactly(s: string)
    requires AllDigits(s)
    ensures ValueOf(s) == 0 <==> AllZeros(s)
  {
    if s != "" {
      var n := |s| - 1;
      ZeroExactly(s[..n]);
      assert forall i :: 0 <= i < n ==> s[..n][i] == s[i];
    }
  }

  /** White space up to `i`, perhaps a sign, digits from `j` to `k`, and the last not 0. */
  predicate NonZeroAt(s: string, i: nat, j: nat, k: nat) {
    && i <= j <= k < |s| && j <= i + 1
    && (forall x :: 0 <= x < i ==> s[x] == ' ' || 9 <= s[x] as int <= 13)
    && (j == i || s[i] == '+' || s[i] == '-')
    && (forall x :: j <= x <= k ==> '0' <= s[x] <= '9')
    && s[k] != '0'
  }

  /** The number at the beginning of the text is not 0. */
  ghost predicate NonZero(s: string) { exists i: nat, j: nat, k: nat :: NonZeroAt(s, i, j, k) }

  /** Digits up to `k`, the last not 0. */
  predicate LeadsAt(s: string, k: nat) {
    k < |s| && s[k] != '0' && forall x :: 0 <= x <= k ==> '0' <= s[x] <= '9'
  }

  /** The digits at the beginning of `s` are not all 0. */
  ghost predicate LeadsNonZero(s: string) { exists k: nat :: LeadsAt(s, k) }

  lemma LeadingNonZero(s: string)
    ensures ValueOf(LeadingDigits(s)) != 0 <==> LeadsNonZero(s)
  {
    var d := LeadingDigits(s);
    ZeroExactly(d);
    NumeralDigits(d);
    if k: nat :| LeadsAt(s, k) {
      assert k < |d| && d[k] == s[k];
    }
    if k: nat :| k < |d| && d[k] != '0' {
      assert LeadsAt(s, k);
    }
  }

  /** The port that atoi reads is not 0 exactly if there is a digit other than 0 behind white
      space, a sign and digits. */
  lemma {:induction false} AtoiExactly(s: string)
    ensures Atoi(s) != 0 <==> NonZero(s)
  {
    if s != "" {
      if IsSpace(s[0]) {
        AtoiExactly(s[1..]);
        BehindSpace(s);
      } else {
        var j := if s[0] == '-' || s[0] == '+' then 1 else 0;
        LeadingNonZero(s[j..]);
        BehindSign(s, j);
      }
    }
  }

  lemma BehindSpace(s: string)
    requires s != "" && IsSpace(s[0])
    ensures NonZero(s) <==> NonZero(s[1..])
  {
    var t := s[1..];
    if i: nat, j: nat, k: nat :| NonZeroAt(t, i, j, k) {
      var i', j', k' := i + 1, j + 1, k + 1;
      assert NonZeroAt(s, i', j', k');
    }
    if i: nat, j: nat, k: nat :| NonZeroAt(s, i, j, k) {
      var i', j', k' := i - 1, j - 1, k - 1;
      assert NonZeroAt(t, i', j', k');
    }
  }

  lemma BehindSign(s: string, j: nat)
    requires s != "" && !IsSpace(s[0]) && j == if s[0] == '-' || s[0] == '+' then 1 else 0
    ensures NonZero(s) <==> LeadsNonZero(s[j..])
  {
    var t := s[j..];
    assert forall x :: 0 <= x < |t| ==> t[x] == s[x + j];
    if k: nat :| LeadsAt(t, k) { LeadsBehind(s, t, j, k, k + j); }
    if a: nat, b: nat, k: nat :| NonZeroAt(s, a, b, k) {
      assert a == 0 && b == j;
      LeadsBehind(s, t, j, k - j, k);
    }
  }

  lemma LeadsBehind(s: string, t: string, j: nat, k: nat, k': nat)
    requires j <= 1 && j <= |s| && t == s[j..] && k' == k + j && (j == 0 || s[0] == '+' || s[0] == '-')
    ensures LeadsAt(t, k) <==> NonZeroAt(s, 0, j, k')
  {
    assert forall x :: 0 <= x < |t| ==> t[x] == s[x + j];
    assert forall x :: j <= x < |s| ==> s[x] == t[x - j];
  }

  ghost predicate PortBehind(a: string, i: nat) { i < |a| && NonZero(a[i + 1..]) }

  /** A host before the first colon, and a port that is not 0 behind it. */
  ghost predicate NamesAddress(a: string) {
    exists i: nat :: FirstOccurs(a, ":", i) && i > 0 && PortBehind(a, i)
  }

  lemma AddressAt(a: string, i: nat)
    requires FirstOccurs(a, ":", i)
    ensures AddrOk(a) <==> i > 0 && PortBehind(a, i)
  {
    FindExactly(a, ":", i);
    AtoiExactly(a[i + 1..]);
  }

  lemma HasColon(a: string) returns (i: nat)
    requires AddrOk(a)
    ensures FirstOccurs(a, ":", i)
  {
    i := Find(a, ":", 0);
    FindExactly(a, ":", i);
  }

  lemma AddressExactly(a: string)
    ensures AddrOk(a) <==> NamesAddress(a)
  {
    if AddrOk(a) {
      var pos := HasColon(a);
      AddressAt(a, pos);
    }
    if NamesAddress(a) {
      var i: nat :| FirstOccurs(a, ":", i) && i > 0 && PortBehind(a, i);
      AddressAt(a, i);
    }
  }

  // ----- the configuration -----

  /** A cluster counts if its name is that of a cluster; an address of it counts if it is one of
      its children and has a host and a port. */
  lemma ConfiguredExactly(config: Clusters, c: string, a: string)
    ensures c in Configured(config) <==> c in config && NamesCluster(c)
    ensures c in Configured(config) ==> (a in Configured(config)[c] <==> a in config[c] && NamesAddress(a))
  {
    ClusterExactly(c);
    AddressExactly(a);
  }

  /** So "cluster" and the text of a long other than -1 counts, of no other number; and a host
      without a colon with a port other than 0. */
  lemma NumberedClusters(config: Clusters, n: int, host: string, port: int)
    requires forall i :: 0 <= i < |host| ==> host[i] != ':'
    ensures var c := "cluster" + OfInt(n);
            && (c in Configured(config) <==>
                  c in config && n != -1 && -0x8000_0000_0000_0000 <= n < 0x8000_0000_0000_0000)
            && (c in Configured(config) ==>
                  (host + ":" + OfInt(port) in Configured(config)[c] <==>
                     host + ":" + OfInt(port) in config[c] && host != "" && port != 0))
  {
    CutIdxOf("cluster", n);
    AtoiOfInt(port);
    HostAndPort(host, OfInt(port));
  }

  /** A name without "cluster" in it does not count, nor one with no number behind the first. */
  lemma OtherNames(config: Clusters, c: string, i: nat)
    ensures (forall j: nat :: !Occurs(c, "cluster", j)) ==> c !in Configured(config)
    ensures FirstOccurs(c, "cluster", i) && (forall n :: !Numbered(c, i, n)) ==> c !in Configured(config)
  {
    FindExactly(c, "cluster", 0);
    if FirstOccurs(c, "cluster", i) { IndexIs(c, i, CutIdx("cluster", c)); }
  }
}

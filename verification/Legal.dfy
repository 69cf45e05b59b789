/** The election: the order of a cluster's addresses, the node that publishes it, and the
    SLAVEOF commands it asks for. */
module Legal {
  import opened Decimal
  import opened Sequences
  import opened Text
  import opened ZkTree

  // ----- order -----

  lemma {:induction false} HasLeast(xs: set<string>)
    requires xs != {}
    ensures exists m :: m in xs && forall y :: y in xs && y != m ==> Less(m, y)
  {
    var x :| x in xs;
    var rest := xs - {x};
    if rest == {} {
      assert xs == {x};
    } else {
      HasLeast(rest);
      var m :| m in rest && forall y :: y in rest && y != m ==> Less(m, y);
      LessTotal(m, x);
      if Less(x, m) {
        forall y | y in xs && y != x
          ensures Less(x, y)
        {
          if y != m { LessTrans(x, m, y); }
        }
      }
      var l := if Less(x, m) then x else m;
      assert l in xs && forall y :: y in xs && y != l ==> Less(l, y);
    }
  }

  /** The strings of a set in increasing order. */
  ghost function Ordered(xs: set<string>): (s: seq<string>)
    ensures Lists(s, xs) && |s| == |xs|
  {
    if xs == {} then []
    else
      HasLeast(xs);
      var m :| m in xs && forall y :: y in xs && y != m ==> Less(m, y);
      var s := Ordered(xs - {m});
      OrderedHead(xs, m, s);
      [m] + s
  }

  lemma OrderedHead(xs: set<string>, m: string, s: seq<string>)
    requires m in xs && (forall y :: y in xs && y != m ==> Less(m, y)) && Lists(s, xs - {m})
    ensures Lists([m] + s, xs)
  {
    forall y | y in s
      ensures Less(m, y)
    {
      assert y in Elems(s);
    }
    assert ([m] + s)[1..] == s;
    assert Elems([m] + s) == {m} + Elems(s);
  }

  function Follow(names: seq<string>, nodes: map<string, string>): seq<string>
    requires forall n :: n in names ==> n in nodes
  {
    seq(|names|, i requires 0 <= i < |names| => nodes[names[i]])
  }

  /** The addresses of a cluster in the order of their sequence numbers. */
  ghost function Order(d: Dir): (s: seq<string>)
    ensures |s| == |d.nodes|
  {
    var names := Ordered(d.nodes.Keys);
    assert forall n :: n in names ==> n in Elems(names);
    Follow(names, d.nodes)
  }

  lemma ListsMembers(s: seq<string>, xs: set<string>)
    requires Lists(s, xs)
    ensures forall x :: x in s <==> x in xs
  {
    assert forall x :: x in s <==> x in Elems(s);
  }

  lemma FollowIsOrder(names: seq<string>, d: Dir)
    requires Lists(names, d.nodes.Keys) && forall n :: n in names ==> n in d.nodes
    ensures Follow(names, d.nodes) == Order(d)
  {
    ListsUnique(names, Ordered(d.nodes.Keys));
  }

  lemma OrderIsData(d: Dir)
    ensures Elems(Order(d)) == Data(d)
  {
    var names := Ordered(d.nodes.Keys);
    forall a
      ensures a in Elems(Order(d)) <==> a in Data(d)
    {
      if a in Data(d) {
        var n :| n in d.nodes && d.nodes[n] == a;
        assert n in Elems(names);
        var i :| 0 <= i < |names| && names[i] == n;
        assert Order(d)[i] == a;
      }
      if a in Elems(Order(d)) {
        var i :| 0 <= i < |Order(d)| && Order(d)[i] == a;
        assert names[i] in Elems(names);
        assert d.nodes[names[i]] == a;
      }
    }
  }

  // ----- what legal_nodes publishes -----

  /** The master first; a cluster without a live node publishes one of its error nodes. */
  ghost function LegalAddrs(k: Cluster): seq<string> {
    if DirOf(k).nodes != map[] then Order(DirOf(k))
    else if ErrOf(k) != {} then [Ordered(ErrOf(k))[0]]
    else []
  }

  function Joined(addrs: seq<string>): string {
    if addrs == [] then "" else Joined(addrs[..|addrs| - 1]) + ";" + addrs[|addrs| - 1]
  }

  /** Without a live node exactly one address is published, the least one of the error tree. */
  lemma ErrorPublished(k: Cluster)
    requires DirOf(k).nodes == map[] && ErrOf(k) != {}
    ensures |LegalAddrs(k)| == 1 && LegalAddrs(k)[0] in ErrOf(k)
    ensures forall a :: a in ErrOf(k) && a != LegalAddrs(k)[0] ==> Less(LegalAddrs(k)[0], a)
  {
    var s := Ordered(ErrOf(k));
    ListsMembers(s, ErrOf(k));
    assert s == [s[0]] + s[1..];
  }

  function LegalName(c: string, addrs: seq<string>): string {
    OfInt(CutIdx(CLUSTER_PREFIX, c)) + Joined(addrs)
  }

  function LegalNames(want: map<string, seq<string>>): set<string> {
    set c | c in want :: LegalName(c, want[c])
  }

  /** legal_nodes while legal_cmp is at work: what is wanted and there already stays, unwanted
      names go first, and then wanted ones come. */
  predicate Between(before: set<string>, wanted: set<string>, now: set<string>) {
    before * wanted <= now && (now <= before || now <= wanted)
  }

  /** The text before the first ';'. */
  function Head(name: string): string {
    var pos := Find(name, ";", 0);
    if pos < 0 then name else name[..pos]
  }

  /** No cluster index is published twice. */
  ghost predicate UniqueIndexes(legal: set<string>) {
    forall x, y :: x in legal && y in legal && Head(x) == Head(y) ==> x == y
  }

  ghost predicate DistinctIndexes(cs: set<string>) {
    forall c, c' :: c in cs && c' in cs && CutIdx(CLUSTER_PREFIX, c) == CutIdx(CLUSTER_PREFIX, c') ==> c == c'
  }

  lemma {:induction false} JoinedStart(addrs: seq<string>)
    ensures Joined(addrs) == "" || Joined(addrs)[0] == ';'
  {
    if |addrs| > 0 { JoinedStart(addrs[..|addrs| - 1]); }
  }

  lemma OfIntPlain(n: int)
    ensures OfInt(n) != "" && forall i :: 0 <= i < |OfInt(n)| ==> OfInt(n)[i] != ';'
  {
    forall i | 0 <= i < |OfInt(n)|
      ensures OfInt(n)[i] != ';'
    {
      OfIntChars(n, i);
    }
  }

  lemma HeadOfLegal(c: string, addrs: seq<string>)
    ensures Head(LegalName(c, addrs)) == OfInt(CutIdx(CLUSTER_PREFIX, c))
  {
    var head := OfInt(CutIdx(CLUSTER_PREFIX, c));
    var name := LegalName(c, addrs);
    OfIntPlain(CutIdx(CLUSTER_PREFIX, c));
    JoinedStart(addrs);
    FindSkips(name, ';', 0, |head|);
    if Joined(addrs) != "" {
      assert name[|head|..|head| + 1] == ";";
    }
  }

  /** The text of a name: the index, and each address after a semicolon. */
  lemma LegalNameText(n: int, addrs: seq<string>, a: string)
    requires -LONG_LIMIT <= n < LONG_LIMIT
    ensures LegalName("cluster" + OfInt(n), []) == OfInt(n)
    ensures LegalName("cluster" + OfInt(n), addrs + [a]) == LegalName("cluster" + OfInt(n), addrs) + ";" + a
  {
    CutIdxOf("cluster", n);
    assert (addrs + [a])[..|addrs|] == addrs;
  }

  /** Clusters with distinct indexes publish each index once. */
  lemma LegalNamesUnique(want: map<string, seq<string>>)
    requires DistinctIndexes(want.Keys)
    ensures UniqueIndexes(LegalNames(want))
  {
    forall x, y | x in LegalNames(want) && y in LegalNames(want) && Head(x) == Head(y)
      ensures x == y
    {
      var c :| c in want && x == LegalName(c, want[c]);
      var c' :| c' in want && y == LegalName(c', want[c']);
      HeadOfLegal(c, want[c]);
      HeadOfLegal(c', want[c']);
      OfIntInjective(CutIdx(CLUSTER_PREFIX, c), CutIdx(CLUSTER_PREFIX, c'));
    }
  }
}

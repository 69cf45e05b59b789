/** The client side: it parses legal_nodes, sorts the clusters by their address lists and
    routes keys. */
module RedisHash {
  import opened Options
  import opened Choice
  import opened Decimal
  import opened Sequences
  import opened Text
  import opened Address
  import opened Ipv4
  import opened Legal
  import CityHash
  import CityBuffer
  import CityValues
  import Word64

  // ----- path_split -----

  datatype Parsed = Ok(cls: int, ends: seq<(string, int)>) | Err(code: int)

  /** boost::lexical_cast<int>. */
  function ToInt(s: string): Option<int> {
    match ToLong(s)
    case None => None
    case Some(v) => if -INT_LIMIT <= v < INT_LIMIT then Some(v) else None
  }

  predicate AllAddrsOk(addrs: seq<string>) {
    forall i :: 0 <= i < |addrs| ==> AddrOk(addrs[i])
  }

  function EndsOf(addrs: seq<string>): seq<(string, int)>
    requires AllAddrsOk(addrs)
  {
    seq(|addrs|, i requires 0 <= i < |addrs| => StrIpv4(addrs[i]).value)
  }

  /** What a child of legal_nodes means. */
  function Parse(path: string): Parsed {
    var f := Fields(path, ';');
    if |f| < 2 then Err(1)
    else if ToInt(f[0]).None? then Err(2)
    else if !AllAddrsOk(f[1..]) then Err(3)
    else Ok(ToInt(f[0]).value, EndsOf(f[1..]))
  }

  method PathSplit(path: string) returns (rc: int, cls: int, sp: seq<(string, int)>)
    ensures rc == match Parse(path) case Ok(_, _) => 0 case Err(code) => code
    ensures rc == 0 ==> Parse(path) == Ok(cls, sp)
  {
    cls, sp := 0, [];
    var tmp := Fields(path, ';');
    if |tmp| < 2 { return 1, cls, sp; }
    match ToInt(tmp[0])
    case None => return 2, cls, sp;
    case Some(v) => cls := v;
    var i := 1;
    while i < |tmp|
      invariant 1 <= i <= |tmp| && AllAddrsOk(tmp[1..i]) && sp == EndsOf(tmp[1..i])
    {
      match StrIpv4(tmp[i])
      case None =>
        assert tmp[1..][i - 1] == tmp[i];
        return 3, cls, sp;
      case Some(end) =>
        assert tmp[1..i + 1] == tmp[1..i] + [tmp[i]];
        sp := sp + [end];
      i := i + 1;
    }
    assert tmp[1..i] == tmp[1..];
    rc := 0;
  }

  /** No address contains the separator. */
  predicate Plain(addrs: seq<string>) {
    forall i :: 0 <= i < |addrs| ==> NoSemicolon(addrs[i])
  }

  predicate NoSemicolon(s: string) {
    forall i :: 0 <= i < |s| ==> s[i] != ';'
  }

  lemma JoinedEnd(head: string, front: seq<string>, last: string)
    ensures head + Joined(front + [last]) == head + Joined(front) + [';'] + last
  {
    assert (front + [last])[..|front|] == front;
  }

  lemma OneMoreField(head: string, front: seq<string>, last: string)
    requires Fields(head + Joined(front), ';') == [head] + front && NoSemicolon(last)
    ensures Fields(head + Joined(front + [last]), ';') == [head] + (front + [last])
  {
    JoinedEnd(head, front, last);
    FieldsStep(head + Joined(front), head + Joined(front + [last]), [head] + front, last);
    assert [head] + front + [last] == [head] + (front + [last]);
  }

  lemma FieldsStep(s: string, t: string, f: seq<string>, last: string)
    requires t == s + [';'] + last && Fields(s, ';') == f && NoSemicolon(last)
    ensures Fields(t, ';') == f + [last]
  {
    FieldsAppend(s, ';', last);
  }

  lemma {:induction false} FieldsOfJoined(head: string, addrs: seq<string>)
    requires NoSemicolon(head) && Plain(addrs)
    ensures Fields(head + Joined(addrs), ';') == [head] + addrs
  {
    if addrs == [] {
      assert head + Joined(addrs) == head;
      OneField(head, ';');
    } else {
      var n := |addrs| - 1;
      var front, last := addrs[..n], addrs[n];
      assert addrs == front + [last];
      assert Plain(front) && NoSemicolon(last);
      FieldsOfJoined(head, front);
      OneMoreField(head, front, last);
    }
  }

  lemma ToIntOfInt(n: int)
    ensures ToInt(OfInt(n)) == if -INT_LIMIT <= n < INT_LIMIT then Some(n) else None
  {
    ToLongOfInt(n);
  }

  /** path_split inverts the name that the controller publishes, exactly when the list is
      not empty and the index of the cluster fits an int. */
  lemma ParseInvertsLegalName(c: string, addrs: seq<string>)
    requires Plain(addrs) && AllAddrsOk(addrs)
    ensures var idx := CutIdx(CLUSTER_PREFIX, c);
            Parse(LegalName(c, addrs)) ==
              if addrs == [] then Err(1)
              else if -INT_LIMIT <= idx < INT_LIMIT then Ok(idx, EndsOf(addrs))
              else Err(2)
  {
    var idx := CutIdx(CLUSTER_PREFIX, c);
    OfIntPlain(idx);
    FieldsOfJoined(OfInt(idx), addrs);
    ToIntOfInt(idx);
    assert ([OfInt(idx)] + addrs)[1..] == addrs;
  }

  /** What the text before the first separator and the addresses between the others come to. */
  lemma ParsesText(head: string, addrs: seq<string>)
    requires NoSemicolon(head) && Plain(addrs)
    ensures Means(Parse(head + Joined(addrs)), head, addrs)
  {
    FieldsOfJoined(head, addrs);
    var path := head + Joined(addrs);
    assert Fields(path, ';')[0] == head && Fields(path, ';')[1..] == addrs;
    ParsesFields(path, head, addrs);
  }

  /** No address, no number that fits an int, an address without host or port, or else the number
      and the hosts and ports. */
  ghost predicate Means(r: Parsed, head: string, addrs: seq<string>) {
    var n := ToLong(head);
    if addrs == [] then r == Err(1)
    else if n.None? || !(-0x8000_0000 <= n.value < 0x8000_0000) then r == Err(2)
    else if exists i :: 0 <= i < |addrs| && StrIpv4(addrs[i]).None? then r == Err(3)
    else
      && r.Ok? && r.cls == n.value && |r.ends| == |addrs|
      && forall i :: 0 <= i < |addrs| ==> StrIpv4(addrs[i]) == Some(r.ends[i])
  }

  lemma ParsesFields(path: string, head: string, addrs: seq<string>)
    requires var f := Fields(path, ';'); f[0] == head && f[1..] == addrs
    ensures Means(Parse(path), head, addrs)
  {
    if exists i :: 0 <= i < |addrs| && StrIpv4(addrs[i]).None? {
      assert !AllAddrsOk(addrs);
    }
  }

  /** Every path is such a text. */
  lemma {:induction false} Splits(path: string) returns (head: string, addrs: seq<string>)
    ensures path == head + Joined(addrs) && NoSemicolon(head) && Plain(addrs)
    decreases |path|
  {
    var p := FindLast(path, ';');
    if p < 0 {
      head, addrs := path, [];
      assert path == head + Joined(addrs);
    } else {
      var front;
      head, front := Splits(path[..p]);
      var last := path[p + 1..];
      addrs := front + [last];
      JoinedEnd(head, front, last);
      assert path == path[..p] + [';'] + last;
    }
  }

  // ----- the callback that reads the children -----

  type EndMap = map<int, seq<(string, int)>>

  predicate AllParse(children: seq<string>) {
    forall i :: 0 <= i < |children| ==> Parse(children[i]).Ok?
  }

  /** The clusters by index; a later child replaces an earlier one. */
  function EndsRead(children: seq<string>): EndMap
    requires AllParse(children)
  {
    if children == [] then map[]
    else
      var last := Parse(children[|children| - 1]);
      EndsRead(children[..|children| - 1])[last.cls := last.ends]
  }

  lemma ReadNext(front: seq<string>, n: string)
    requires AllParse(front) && Parse(n).Ok?
    ensures AllParse(front + [n]) && EndsRead(front + [n]) == EndsRead(front)[Parse(n).cls := Parse(n).ends]
  {
    assert (front + [n])[..|front|] == front;
  }

  /** redis_node_cb: one child that cannot be parsed, and nothing is updated. */
  method ReadChildren(children: seq<string>) returns (ok: bool, ends: EndMap)
    ensures ok <==> AllParse(children)
    ensures ok ==> ends == EndsRead(children)
  {
    ends := map[];
    var i := 0;
    while i < |children|
      invariant 0 <= i <= |children| && AllParse(children[..i]) && ends == EndsRead(children[..i])
    {
      assert children[..i + 1] == children[..i] + [children[i]];
      ok, ends := ReadOne(children[..i], children[i], ends);
      if !ok { return; }
      i := i + 1;
    }
    assert children[..i] == children;
    ok := true;
  }

  /** One round of that loop. */
  method ReadOne(ghost front: seq<string>, child: string, ends: EndMap) returns (ok: bool, ends': EndMap)
    requires AllParse(front) && ends == EndsRead(front)
    ensures ok <==> Parse(child).Ok?
    ensures ok ==> AllParse(front + [child]) && ends' == EndsRead(front + [child])
  {
    ends' := ends;
    var rc, cls, sp := PathSplit(child);
    ok := rc == 0;
    if ok {
      ReadNext(front, child);
      ends' := ends[cls := sp];
    }
  }

  /** Of the children of one index the last one counts. */
  lemma {:induction false} LastChildCounts(children: seq<string>, i: nat)
    requires AllParse(children) && i < |children|
    requires forall j :: i < j < |children| ==> Parse(children[j]).cls != Parse(children[i]).cls
    ensures Parse(children[i]).cls in EndsRead(children)
    ensures EndsRead(children)[Parse(children[i]).cls] == Parse(children[i]).ends
  {
    var n := |children| - 1;
    if i < n {
      assert Parse(children[n]).cls != Parse(children[i]).cls;
      LastChildCounts(children[..n], i);
    }
  }

  // ----- lists of addresses in order -----

  /** std::vector::operator<. */
  predicate LexLess(a: seq<nat>, b: seq<nat>) {
    if b == [] then false
    else if a == [] then true
    else if a[0] != b[0] then a[0] < b[0]
    else LexLess(a[1..], b[1..])
  }

  lemma {:induction false} LexTotal(a: seq<nat>, b: seq<nat>)
    ensures a == b || LexLess(a, b) || LexLess(b, a)
    ensures !(LexLess(a, b) && LexLess(b, a))
    ensures !LexLess(a, a)
    decreases |a|
  {
    if a != [] { LexTotal(a[1..], a[1..]); }
    if a != [] && b != [] && a[0] == b[0] {
      LexTotal(a[1..], b[1..]);
      assert a == [a[0]] + a[1..] && b == [b[0]] + b[1..];
    }
  }

  lemma {:induction false} LexTrans(a: seq<nat>, b: seq<nat>, c: seq<nat>)
    requires !LexLess(b, a) && !LexLess(c, b)
    ensures !LexLess(c, a)
  {
    if a != [] && b != [] && c != [] && a[0] == b[0] == c[0] { LexTrans(a[1..], b[1..], c[1..]); }
  }

  type Addrs = map<int, seq<nat>>
  type Row = (int, seq<nat>)

  function ListsOf(rows: seq<Row>): seq<seq<nat>> {
    seq(|rows|, i requires 0 <= i < |rows| => rows[i].1)
  }

  predicate InOrder(lists: seq<seq<nat>>) {
    forall i, j :: 0 <= i < j < |lists| ==> !LexLess(lists[j], lists[i])
  }

  /** The rows are the entries of the map, sorted by their lists; equal lists may stand in
      any order. */
  predicate Arranges(rows: seq<Row>, addrs: Addrs) {
    && (forall i :: 0 <= i < |rows| ==> rows[i].0 in addrs && addrs[rows[i].0] == rows[i].1)
    && (forall i, j :: 0 <= i < j < |rows| ==> rows[i].0 != rows[j].0)
    && (forall c :: c in addrs ==> exists i :: 0 <= i < |rows| && rows[i].0 == c)
    && InOrder(ListsOf(rows))
  }

  /** Where a list goes among sorted rows. */
  method Place(rows: seq<Row>, list: seq<nat>) returns (k: nat)
    requires InOrder(ListsOf(rows))
    ensures k <= |rows|
    ensures forall i :: 0 <= i < k ==> !LexLess(list, rows[i].1)
    ensures forall i :: k <= i < |rows| ==> !LexLess(rows[i].1, list)
  {
    k := |rows|;
    while k > 0 && LexLess(list, rows[k - 1].1)
      invariant k <= |rows| && forall i :: k <= i < |rows| ==> !LexLess(rows[i].1, list)
    {
      LexTotal(list, rows[k - 1].1);
      k := k - 1;
    }
    if k > 0 {
      forall i | 0 <= i < k
        ensures !LexLess(list, rows[i].1)
      {
        if i < k - 1 {
          assert !LexLess(ListsOf(rows)[k - 1], ListsOf(rows)[i]);
          LexTrans(rows[i].1, rows[k - 1].1, list);
        }
      }
    }
  }

  function Packed(ends: seq<(string, int)>): seq<nat> {
    seq(|ends|, i requires 0 <= i < |ends| => Ipv4Int64(ends[i].0, ends[i].1))
  }

  function PackedMap(ends: EndMap): Addrs {
    map c | c in ends :: Packed(ends[c])
  }

  // ----- routing -----

  /** redis_addr_master: 0 when there is nothing to choose from. */
  function MasterOf(lists: seq<seq<nat>>, hash: nat): nat {
    if lists == [] then 0
    else
      var rds := lists[hash % |lists|];
      if rds == [] then 0 else rds[0]
  }

  /** redis_addr_slave_first, with the value that rand() returns. */
  function SlaveOf(lists: seq<seq<nat>>, hash: nat, rand: nat): nat {
    if lists == [] then 0
    else
      var rds := lists[hash % |lists|];
      if rds == [] then 0 else if |rds| == 1 then rds[0] else rds[rand % (|rds| - 1) + 1]
  }

  class RedisHash {
    var addrs: Addrs
    var rows: seq<Row>

    constructor ()
      ensures addrs == map[] && rows == [] && Valid()
    {
      addrs, rows := map[], [];
    }

    predicate Valid()
      reads this
    {
      Arranges(rows, addrs)
    }

    /** update_ends. */
    method UpdateEnds(ends: EndMap)
      modifies this
      ensures addrs == PackedMap(ends) && Valid()
    {
      var maddrs: Addrs := map[];
      var todo := ends.Keys;
      while todo != {}
        invariant todo <= ends.Keys && maddrs == map c | c in ends && c !in todo :: Packed(ends[c])
      {
        var c := Pick(todo);
        var list := PackAll(ends[c]);
        maddrs, todo := maddrs[c := list], todo - {c};
      }
      addrs := maddrs;
      rows := SortRows(addrs);
    }

    static method PackAll(ends: seq<(string, int)>) returns (list: seq<nat>)
      ensures list == Packed(ends)
    {
      list := [];
      var i := 0;
      while i < |ends|
        invariant 0 <= i <= |ends| && list == Packed(ends[..i])
      {
        list := list + [Ipv4Int64(ends[i].0, ends[i].1)];
        i := i + 1;
      }
      assert ends[..i] == ends;
    }

    /** std::sort by the lists. */
    static method SortRows(addrs: Addrs) returns (rows: seq<Row>)
      ensures Arranges(rows, addrs)
    {
      rows := [];
      var todo := addrs.Keys;
      while todo != {}
        invariant todo <= addrs.Keys && Arranges(rows, addrs - todo)
      {
        var c := Pick(todo);
        var k := Place(rows, addrs[c]);
        ArrangesMore(rows, addrs - todo, k, c, addrs[c]);
        assert (addrs - todo)[c := addrs[c]] == addrs - (todo - {c});
        rows, todo := Inserted(rows, k, (c, addrs[c])), todo - {c};
      }
      assert addrs - todo == addrs;
    }

    method Master(key: seq<CityHash.Byte>) returns (addr: nat)
      requires |key| < CityHash.LENGTH_LIMIT
      ensures addr == MasterOf(ListsOf(rows), CityHash.Hash64(key, 0, |key|))
    {
      if rows == [] { return 0; }
      var buf := new CityBuffer.Buffer(key);
      var hash := buf.CityHash64(0, |key|);
      var rds := rows[hash % |rows|].1;
      if rds == [] { return 0; }
      addr := rds[0];
    }

    method SlaveFirst(key: seq<CityHash.Byte>, rand: nat) returns (addr: nat)
      requires |key| < CityHash.LENGTH_LIMIT
      ensures addr == SlaveOf(ListsOf(rows), CityHash.Hash64(key, 0, |key|), rand)
    {
      if rows == [] { return 0; }
      var buf := new CityBuffer.Buffer(key);
      var hash := buf.CityHash64(0, |key|);
      var rds := rows[hash % |rows|].1;
      if rds == [] { return 0; }
      var slaves, idx := |rds| - 1, 0;
      if slaves > 0 { idx := rand % slaves + 1; }
      addr := rds[idx];
    }
  }

  function Inserted(rows: seq<Row>, k: nat, row: Row): seq<Row>
    requires k <= |rows|
  {
    rows[..k] + [row] + rows[k..]
  }

  lemma ArrangesMore(rows: seq<Row>, addrs: Addrs, k: nat, c: int, list: seq<nat>)
    requires Arranges(rows, addrs) && c !in addrs && k <= |rows|
    requires forall i :: 0 <= i < k ==> !LexLess(list, rows[i].1)
    requires forall i :: k <= i < |rows| ==> !LexLess(rows[i].1, list)
    ensures Arranges(Inserted(rows, k, (c, list)), addrs[c := list])
  {
    var more, all := Inserted(rows, k, (c, list)), addrs[c := list];
    forall x | x in all
      ensures exists i :: 0 <= i < |more| && more[i].0 == x
    {
      if x == c {
        assert more[k].0 == c;
      } else {
        var i :| 0 <= i < |rows| && rows[i].0 == x;
        StillThere(rows, k, (c, list), i);
      }
    }
    StillInOrder(rows, k, (c, list));
  }

  lemma StillThere(rows: seq<Row>, k: nat, row: Row, i: nat)
    requires k <= |rows| && i < |rows|
    ensures exists j :: 0 <= j < |Inserted(rows, k, row)| && Inserted(rows, k, row)[j].0 == rows[i].0
  {
    var more := Inserted(rows, k, row);
    if i < k {
      assert more[i] == rows[i];
    } else {
      var j := i + 1;
      assert more[j] == rows[i];
    }
  }

  lemma StillInOrder(rows: seq<Row>, k: nat, row: Row)
    requires InOrder(ListsOf(rows)) && k <= |rows|
    requires forall i :: 0 <= i < k ==> !LexLess(row.1, rows[i].1)
    requires forall i :: k <= i < |rows| ==> !LexLess(rows[i].1, row.1)
    ensures InOrder(ListsOf(Inserted(rows, k, row)))
  {
    var lists, more := ListsOf(rows), ListsOf(Inserted(rows, k, row));
    assert more == lists[..k] + [row.1] + lists[k..];
    forall i, j | 0 <= i < j < |more|
      ensures !LexLess(more[j], more[i])
    {
      if i != k && j != k { assert !LexLess(lists[if j < k then j else j - 1], lists[if i < k then i else i - 1]); }
    }
  }

  // ----- routing does not depend on how the clusters are numbered or read -----

  predicate DistinctLists(addrs: Addrs) {
    forall c, d :: c in addrs && d in addrs && addrs[c] == addrs[d] ==> c == d
  }

  predicate Increasing(lists: seq<seq<nat>>) {
    forall i, j :: 0 <= i < j < |lists| ==> LexLess(lists[i], lists[j])
  }

  lemma ArrangedLists(rows: seq<Row>, addrs: Addrs)
    requires Arranges(rows, addrs) && DistinctLists(addrs)
    ensures Increasing(ListsOf(rows))
    ensures forall l :: l in ListsOf(rows) <==> l in addrs.Values
  {
    var lists := ListsOf(rows);
    forall i, j | 0 <= i < j < |lists|
      ensures LexLess(lists[i], lists[j])
    {
      LexTotal(lists[i], lists[j]);
      assert addrs[rows[i].0] == lists[i] && addrs[rows[j].0] == lists[j];
    }
    forall l
      ensures l in lists <==> l in addrs.Values
    {
      if l in addrs.Values {
        var c := KeyOf(addrs, l);
        var i :| 0 <= i < |rows| && rows[i].0 == c;
        assert lists[i] == l;
      }
      if l in lists {
        var i :| 0 <= i < |lists| && lists[i] == l;
        assert rows[i].0 in addrs;
      }
    }
  }

  lemma {:induction false} IncreasingUnique(s: seq<seq<nat>>, t: seq<seq<nat>>)
    requires Increasing(s) && Increasing(t) && forall l :: l in s <==> l in t
    ensures s == t
  {
    assert s != [] ==> s[0] in t;
    assert t != [] ==> t[0] in s;
    if s != [] {
      assert s[0] in t && t[0] in s;
      var i, j :| 0 <= i < |t| && t[i] == s[0] && 0 <= j < |s| && s[j] == t[0];
      LexTotal(s[0], t[0]);
      assert s[0] == t[0];
      LexTotal(s[0], s[0]);
      forall l
        ensures l in s[1..] <==> l in t[1..]
      {
        assert l in s <==> l == s[0] || l in s[1..];
        assert l in t <==> l == t[0] || l in t[1..];
      }
      IncreasingUnique(s[1..], t[1..]);
      assert s == [s[0]] + s[1..] && t == [t[0]] + t[1..];
    }
  }

  /** Two clients that know the same lists, each only once, route every key alike: to the
      same master, and for the same random number to the same slave. */
  lemma RoutingAgrees(rows: seq<Row>, addrs: Addrs, rows': seq<Row>, addrs': Addrs, hash: nat, rand: nat)
    requires Arranges(rows, addrs) && Arranges(rows', addrs')
    requires DistinctLists(addrs) && DistinctLists(addrs') && addrs.Values == addrs'.Values
    ensures MasterOf(ListsOf(rows), hash) == MasterOf(ListsOf(rows'), hash)
    ensures SlaveOf(ListsOf(rows), hash, rand) == SlaveOf(ListsOf(rows'), hash, rand)
  {
    ArrangedLists(rows, addrs);
    ArrangedLists(rows', addrs');
    IncreasingUnique(ListsOf(rows), ListsOf(rows'));
  }

  /** The slave for a key is in the cluster of its master, and another address when the
      list has more than one. */
  lemma SlaveBesideMaster(rows: seq<Row>, addrs: Addrs, hash: nat, rand: nat)
    requires Arranges(rows, addrs) && addrs != map[] && [] !in addrs.Values
    ensures exists c :: c in addrs &&
              MasterOf(ListsOf(rows), hash) == addrs[c][0] && SlaveOf(ListsOf(rows), hash, rand) in addrs[c] &&
              (|addrs[c]| > 1 && Distinct(addrs[c]) ==>
                 SlaveOf(ListsOf(rows), hash, rand) != MasterOf(ListsOf(rows), hash))
  {
    var x := AnyKey(addrs);
    var k :| 0 <= k < |rows| && rows[k].0 == x;
    var i := hash % |rows|;
    var c := rows[i].0;
    assert addrs[c] in addrs.Values && addrs[c] == rows[i].1 == ListsOf(rows)[i];
  }

  // ----- which cluster and which address a key gets -----

  lemma Residue(i: nat, k: nat, n: nat)
    requires i < n
    ensures (i + k * n) % n == i
  {
    Word64.QuotientIs(i + k * n, n, k, i);
  }

  /** The hash `i` selects the `i`-th list, and so does every hash that differs from it by a
      multiple of the number of lists; an empty list has no address. */
  lemma HashSelects(lists: seq<seq<nat>>, i: nat, k: nat, rand: nat)
    requires i < |lists|
    ensures MasterOf(lists, i + k * |lists|) == if lists[i] == [] then 0 else lists[i][0]
    ensures SlaveOf(lists, i + k * |lists|, rand) == SlaveOf([lists[i]], 0, rand)
  {
    Residue(i, k, |lists|);
  }

  /** Of a list with slaves, random number `j` selects the `j`-th slave, and so does every number
      that differs from it by a multiple of the number of slaves; a list without has its master. */
  lemma RandSelects(rds: seq<nat>, j: nat, k: nat)
    ensures rds == [] ==> SlaveOf([rds], 0, j) == 0
    ensures |rds| == 1 ==> SlaveOf([rds], 0, j) == rds[0]
    ensures j < |rds| - 1 ==> SlaveOf([rds], 0, j + k * (|rds| - 1)) == rds[j + 1]
  {
    if j < |rds| - 1 { Residue(j, k, |rds| - 1); }
  }

  /** Every cluster is the one of some key hash, one in each round of as many hashes as there are
      clusters, and every slave of it is chosen for some random number. */
  lemma EveryOneIsReached(rows: seq<Row>, addrs: Addrs, c: int, j: nat, k: nat) returns (i: nat)
    requires Arranges(rows, addrs) && c in addrs && addrs[c] != []
    ensures i < |rows| && rows[i].0 == c
    ensures MasterOf(ListsOf(rows), i + k * |rows|) == addrs[c][0]
    ensures j < |addrs[c]| - 1 ==> SlaveOf(ListsOf(rows), i + k * |rows|, j) == addrs[c][j + 1]
  {
    i :| 0 <= i < |rows| && rows[i].0 == c;
    assert ListsOf(rows)[i] == addrs[c];
    HashSelects(ListsOf(rows), i, k, j);
    RandSelects(addrs[c], j, 0);
  }

  /** User 1001 goes to the second of two clusters. */
  lemma RouteOf1001(lists: seq<seq<nat>>, key: seq<CityHash.Byte>)
    requires |lists| == 2 && lists[1] != [] && key == [49, 48, 48, 49]
    ensures MasterOf(lists, CityHash.Hash64(key, 0, |key|)) == lists[1][0]
  {
    CityValues.HashOf4Digits(key);
    HashSelects(lists, 1, 0xb34b9927932e5, 0);
  }

  /** The order of std::vector: by the first place where two lists differ, or the shorter one
      first. */
  lemma {:induction false} LexExactly(a: seq<nat>, b: seq<nat>)
    ensures LexLess(a, b) <==> exists i: nat :: FirstDifference(a, b, i) && (i == |a| || a[i] < b[i])
  {
    if b != [] && a != [] && a[0] == b[0] {
      LexExactly(a[1..], b[1..]);
      if i: nat :| FirstDifference(a[1..], b[1..], i) && (i == |a[1..]| || a[1..][i] < b[1..][i]) {
        DifferenceBehindHead(a, b, i, i + 1);
      }
      if j: nat :| FirstDifference(a, b, j) && (j == |a| || a[j] < b[j]) {
        DifferenceBehindHead(a, b, j - 1, j);
      }
    } else if b != [] {
      assert a == [] || a[0] < b[0] ==> FirstDifference(a, b, 0);
    }
  }

  // ----- from the controller to the client -----

  ghost predicate Publishable(want: map<string, seq<string>>) {
    && DistinctIndexes(want.Keys)
    && forall c :: c in want ==>
        && want[c] != [] && Plain(want[c]) && AllAddrsOk(want[c])
        && -INT_LIMIT <= CutIdx(CLUSTER_PREFIX, c) < INT_LIMIT
  }

  /** Children of one index are the same. */
  predicate Consistent(children: seq<string>)
    requires AllParse(children)
  {
    forall i, j :: 0 <= i < |children| && 0 <= j < |children| && Parse(children[i]).cls == Parse(children[j]).cls ==>
      Parse(children[i]) == Parse(children[j])
  }

  lemma {:induction false} ReadAll(children: seq<string>)
    requires AllParse(children) && Consistent(children)
    ensures forall k :: 0 <= k < |children| ==>
              var p := Parse(children[k]); p.cls in EndsRead(children) && EndsRead(children)[p.cls] == p.ends
    ensures forall i :: i in EndsRead(children) ==> exists k :: 0 <= k < |children| && Parse(children[k]).cls == i
  {
    if children != [] {
      var m := |children| - 1;
      var front := children[..m];
      ReadAll(front);
      forall i | i in EndsRead(children)
        ensures exists k :: 0 <= k < |children| && Parse(children[k]).cls == i
      {
        if i in EndsRead(front) {
          var k :| 0 <= k < |front| && Parse(front[k]).cls == i;
          assert Parse(children[k]).cls == i;
        }
      }
      forall k | 0 <= k < |children|
        ensures var p := Parse(children[k]); p.cls in EndsRead(children) && EndsRead(children)[p.cls] == p.ends
      {
        if k < m { assert front[k] == children[k]; }
      }
    }
  }

  /** The cluster that a child belongs to. */
  ghost predicate IsChildOf(want: map<string, seq<string>>, n: string, c: string) {
    c in want && Parse(n) == Ok(CutIdx(CLUSTER_PREFIX, c), EndsIf(want[c]))
  }

  function EndsIf(addrs: seq<string>): seq<(string, int)> {
    if AllAddrsOk(addrs) then EndsOf(addrs) else []
  }

  lemma ChildOf(want: map<string, seq<string>>, n: string) returns (c: string)
    requires Publishable(want) && n in LegalNames(want)
    ensures IsChildOf(want, n, c) && n == LegalName(c, want[c])
  {
    c :| c in want && n == LegalName(c, want[c]);
    ParseInvertsLegalName(c, want[c]);
  }

  lemma ChildrenConsistent(want: map<string, seq<string>>, children: seq<string>)
    requires Publishable(want) && forall i :: 0 <= i < |children| ==> children[i] in LegalNames(want)
    ensures AllParse(children) && Consistent(children)
  {
    forall i | 0 <= i < |children|
      ensures Parse(children[i]).Ok?
    {
      var c := ChildOf(want, children[i]);
    }
    forall i, j | 0 <= i < |children| && 0 <= j < |children| && Parse(children[i]).cls == Parse(children[j]).cls
      ensures Parse(children[i]) == Parse(children[j])
    {
      var c := ChildOf(want, children[i]);
      var d := ChildOf(want, children[j]);
    }
  }

  /** From what legal_cmp publishes, read in any order, the client recovers the list of
      every cluster in order; its first address is the controller's first. */
  lemma ClientRecovers(want: map<string, seq<string>>, children: seq<string>)
    requires Publishable(want) && Elems(children) == LegalNames(want)
    ensures AllParse(children)
    ensures forall c :: c in want ==> Recovered(PackedMap(EndsRead(children)), CutIdx(CLUSTER_PREFIX, c), want[c])
    ensures forall i :: i in PackedMap(EndsRead(children)) ==> exists c :: c in want && CutIdx(CLUSTER_PREFIX, c) == i
  {
    assert forall i :: 0 <= i < |children| ==> children[i] in Elems(children);
    ChildrenConsistent(want, children);
    forall c | c in want
      ensures Recovered(PackedMap(EndsRead(children)), CutIdx(CLUSTER_PREFIX, c), want[c])
    {
      OneRecovered(want, children, c);
    }
    forall i | i in PackedMap(EndsRead(children))
      ensures exists c :: c in want && CutIdx(CLUSTER_PREFIX, c) == i
    {
      NoStranger(want, children, i);
    }
  }

  lemma NoStranger(want: map<string, seq<string>>, children: seq<string>, i: int)
    requires Publishable(want) && forall k :: 0 <= k < |children| ==> children[k] in LegalNames(want)
    requires AllParse(children) && Consistent(children) && i in EndsRead(children)
    ensures exists c :: c in want && CutIdx(CLUSTER_PREFIX, c) == i
  {
    ReadAll(children);
    var k :| 0 <= k < |children| && Parse(children[k]).cls == i;
    var c := ChildOf(want, children[k]);
  }

  lemma OneRecovered(want: map<string, seq<string>>, children: seq<string>, c: string)
    requires Publishable(want) && Elems(children) == LegalNames(want) && c in want
    requires AllParse(children) && Consistent(children)
    ensures Recovered(PackedMap(EndsRead(children)), CutIdx(CLUSTER_PREFIX, c), want[c])
  {
    var n := LegalName(c, want[c]);
    assert n in LegalNames(want) && n in Elems(children);
    var k :| 0 <= k < |children| && children[k] == n;
    ParseInvertsLegalName(c, want[c]);
    ReadAll(children);
    assert Parse(children[k]) == Ok(CutIdx(CLUSTER_PREFIX, c), EndsOf(want[c]));
    PackedIs(EndsRead(children), CutIdx(CLUSTER_PREFIX, c), want[c]);
  }

  /** The entry of one cluster is its list, as numbers. */
  predicate Recovered(addrs: Addrs, idx: int, list: seq<string>) {
    && idx in addrs && |addrs[idx]| == |list|
    && forall i :: 0 <= i < |list| ==> Some(addrs[idx][i]) == StrIpv4Int64(list[i])
  }

  lemma PackedIs(ends: EndMap, idx: int, list: seq<string>)
    requires AllAddrsOk(list) && idx in ends && ends[idx] == EndsOf(list)
    ensures Recovered(PackedMap(ends), idx, list)
  {
    var packed := PackedMap(ends)[idx];
    forall i | 0 <= i < |list|
      ensures Some(packed[i]) == StrIpv4Int64(list[i])
    {
      assert StrIpv4(list[i]) == Some(EndsOf(list)[i]);
    }
  }
}

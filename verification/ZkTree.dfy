/** The ZooKeeper subtrees that the controller reconciles, and how one pass may change
    the sequence nodes of a cluster. */
module ZkTree {
  import opened Options
  import opened Sequences
  import opened Text

  type Clusters = map<string, set<string>>

  /** check/<cluster>: the next sequence number, and each node's name and data. */
  datatype Dir = Dir(next: nat, nodes: map<string, string>)

  /** error/<cluster> and check/<cluster>, where they exist. */
  datatype Cluster = Cluster(err: Option<set<string>>, dir: Option<Dir>)

  /** config by cluster; error and check by cluster; the children of legal_nodes. */
  datatype Tree = Tree(config: Clusters, clusters: map<string, Cluster>, legal: set<string>)

  const EMPTY_DIR := Dir(0, map[])

  function At(z: Tree, c: string): Cluster {
    if c in z.clusters then z.clusters[c] else Cluster(None, None)
  }

  function Put(z: Tree, c: string, k: Cluster): Tree {
    z.(clusters := z.clusters[c := k])
  }

  function DirOf(k: Cluster): Dir { if k.dir.Some? then k.dir.value else EMPTY_DIR }

  function ErrOf(k: Cluster): set<string> { if k.err.Some? then k.err.value else {} }

  function WithDir(k: Cluster, d: Dir): Cluster { k.(dir := Some(d)) }

  /** Either a sequence node of ZooKeeper, or a stray child that cut_idx rejects. */
  predicate NameOk(name: string) { Padded(name) || Idx(name) == -1 }

  ghost predicate DirOk(d: Dir) {
    forall n :: n in d.nodes ==> NameOk(n) && (Padded(n) ==> Idx(n) < d.next)
  }

  ghost predicate Wf(z: Tree) {
    forall c :: DirOk(DirOf(At(z, c)))
  }

  /** The addresses that have a node. */
  function Data(d: Dir): set<string> { d.nodes.Values }

  /** The addresses that have a sequence node. */
  ghost function SeqData(d: Dir): set<string> {
    set n | n in d.nodes && Padded(n) :: d.nodes[n]
  }

  /** Only sequence nodes, one per address. */
  ghost predicate Tidy(d: Dir) {
    && (forall n :: n in d.nodes ==> Padded(n))
    && (forall n, m {:trigger d.nodes[n], d.nodes[m]} ::
          n in d.nodes && m in d.nodes && d.nodes[n] == d.nodes[m] ==> n == m)
  }

  function AddNode(d: Dir, addr: string): Dir {
    Dir(d.next + 1, d.nodes[SeqName(d.next) := addr])
  }

  function DropNode(d: Dir, name: string): Dir {
    d.(nodes := d.nodes - {name})
  }

  // ----- what get_check keeps -----

  /** One round of the inner loop of get_check: the map so far, and whether the node is
      deleted. In the branch for a lower index the code has already overwritten the map
      entry when it formats the path, so it deletes the new node. */
  function ScanOne(kept: map<string, string>, n: string, addr: string): (r: (map<string, string>, bool)) {
    if Idx(n) == -1 then (kept, true)
    else if addr in kept then (if Idx(n) < Idx(kept[addr]) then kept[addr := n] else kept, true)
    else (kept[addr := n], false)
  }

  /** The inner loop of get_check over the children of one cluster: the map it builds,
      and the nodes it deletes. */
  function Scan(names: seq<string>, nodes: map<string, string>): (r: (map<string, string>, set<string>))
    requires forall n :: n in names ==> n in nodes
  {
    if names == [] then (map[], {})
    else
      var n := names[|names| - 1];
      var (kept, gone) := Scan(names[..|names| - 1], nodes);
      var (kept', dropped) := ScanOne(kept, n, nodes[n]);
      (kept', if dropped then gone + {n} else gone)
  }

  /** `kept` has, for each address with a sequence node, the lowest one, and `gone` is
      all the rest. */
  ghost predicate KeepsLowest(names: set<string>, nodes: map<string, string>, kept: map<string, string>,
                              gone: set<string>)
    requires forall n :: n in names ==> n in nodes
  {
    && gone <= names
    && (forall a :: a in kept ==> kept[a] in names - gone && nodes[kept[a]] == a && Padded(kept[a]))
    && (forall n :: n in names - gone ==> nodes[n] in kept && kept[nodes[n]] == n)
    && (forall n :: n in names && Padded(n) ==> nodes[n] in kept && Idx(kept[nodes[n]]) <= Idx(n))
  }

  /** With well-formed names the loop keeps each address's lowest sequence node and
      deletes everything else. */
  lemma {:induction false} ScanKeepsLowest(names: seq<string>, nodes: map<string, string>)
    requires Sorted(names)
    requires forall n :: n in names ==> n in nodes && NameOk(n)
    ensures KeepsLowest(Elems(names), nodes, Scan(names, nodes).0, Scan(names, nodes).1)
  {
    if names != [] {
      var m := |names| - 1;
      var n, front := names[m], names[..m];
      SortedPrefix(names);
      ScanKeepsLowest(front, nodes);
      EarlierIsLower(names, m);
      var (kept, gone) := Scan(front, nodes);
      KeptSoFar(Elems(front), nodes, kept, gone, n);
    }
  }

  /** One more name, later than all before. */
  lemma KeptSoFar(names: set<string>, nodes: map<string, string>, kept: map<string, string>, gone: set<string>,
                  n: string)
    requires n in nodes && NameOk(n) && n !in names
    requires forall x :: x in names ==> x in nodes
    requires forall x :: x in names && Padded(x) && Padded(n) ==> Idx(x) < Idx(n)
    requires Padded(n) ==> Idx(n) != -1
    requires KeepsLowest(names, nodes, kept, gone)
    ensures if Idx(n) == -1 || nodes[n] in kept
            then KeepsLowest(names + {n}, nodes, kept, gone + {n})
            else KeepsLowest(names + {n}, nodes, kept[nodes[n] := n], gone)
    ensures Idx(n) != -1 && nodes[n] in kept ==> !(Idx(n) < Idx(kept[nodes[n]]))
  {
  }

  /** The branch for a lower index is never taken. */
  lemma LowerIndexUnreachable(names: seq<string>, nodes: map<string, string>, i: nat)
    requires Sorted(names) && i < |names|
    requires forall n :: n in names ==> n in nodes && NameOk(n)
    ensures var kept := Scan(names[..i], nodes).0;
            Idx(names[i]) != -1 && nodes[names[i]] in kept ==> !(Idx(names[i]) < Idx(kept[nodes[names[i]]]))
  {
    var (kept, gone) := Scan(names[..i], nodes);
    EarlierIsLower(names, i);
    ScanKeepsLowest(names[..i], nodes);
    KeptSoFar(Elems(names[..i]), nodes, kept, gone, names[i]);
  }

  lemma EarlierIsLower(names: seq<string>, i: nat)
    requires Sorted(names) && i < |names|
    ensures Sorted(names[..i]) && names[i] !in Elems(names[..i])
    ensures forall x :: x in names[..i] && Padded(x) && Padded(names[i]) ==> Idx(x) < Idx(names[i])
    ensures Padded(names[i]) ==> Idx(names[i]) != -1
  {
    var n := names[i];
    SortedTake(names, i);
    LessTotal(n, n);
    if Padded(n) {
      PaddedIdx(n);
      forall x | x in names[..i] && Padded(x)
        ensures Idx(x) < Idx(n)
      {
        PaddedOrder(x, n);
      }
    }
  }

  lemma {:induction false} SortedTake(s: seq<string>, i: nat)
    requires Sorted(s) && i < |s|
    ensures Sorted(s[..i]) && forall j :: 0 <= j < i ==> Less(s[j], s[i])
    decreases |s|
  {
    var n := |s| - 1;
    SortedPrefix(s);
    if i < n {
      SortedTake(s[..n], i);
      assert s[..n][..i] == s[..i];
    }
  }

  // ----- what it would do without padding -----

  /** A name that cut_idx accepts, of a node of address `a`. */
  predicate Accepted(nodes: map<string, string>, n: string, a: string) {
    n in nodes && nodes[n] == a && Idx(n) != -1
  }

  /** names[f] comes before all other accepted names of the address. */
  predicate IsFirst(names: seq<string>, nodes: map<string, string>, a: string, f: nat) {
    && f < |names| && Accepted(nodes, names[f], a)
    && forall j :: 0 <= j < f ==> !Accepted(nodes, names[j], a)
  }

  /** No accepted name of the address has a lower index. */
  ghost predicate LowestIndex(names: set<string>, nodes: map<string, string>, a: string, n: string) {
    forall x :: x in names && Accepted(nodes, x, a) ==> Idx(n) <= Idx(x)
  }

  /** Of the nodes of an address the loop leaves exactly the first one in the order of names,
      and it reports one of the lowest index. */
  ghost predicate ReportsOf(names: set<string>, nodes: map<string, string>, a: string, first: string,
                            kept: map<string, string>, gone: set<string>) {
    && (forall x :: x in names && Accepted(nodes, x, a) ==> (x in gone <==> x != first))
    && a in kept && kept[a] in names && Accepted(nodes, kept[a], a) && LowestIndex(names, nodes, a, kept[a])
    && (Idx(kept[a]) == Idx(first) ==> kept[a] == first)
  }

  lemma ReportNext(names: set<string>, nodes: map<string, string>, a: string, first: string,
                   kept: map<string, string>, gone: set<string>, n: string)
    requires ReportsOf(names, nodes, a, first, kept, gone) && gone <= names
    requires first in names && Accepted(nodes, first, a)
    requires n in nodes && n !in names
    ensures var (kept', dropped) := ScanOne(kept, n, nodes[n]);
            ReportsOf(names + {n}, nodes, a, first, kept', if dropped then gone + {n} else gone)
  {
    var (kept', dropped) := ScanOne(kept, n, nodes[n]);
    assert LowestIndex(names, nodes, a, kept[a]);
    if Accepted(nodes, n, a) {
      assert dropped && Idx(kept[a]) <= Idx(first);
    } else {
      assert kept'[a] == kept[a];
    }
  }

  lemma {:induction false} ScanBefore(names: seq<string>, nodes: map<string, string>, a: string)
    requires forall n :: n in names ==> n in nodes
    ensures Scan(names, nodes).1 <= Elems(names)
    ensures (forall j :: 0 <= j < |names| ==> !Accepted(nodes, names[j], a)) ==> a !in Scan(names, nodes).0
  {
    if names != [] {
      var m := |names| - 1;
      ScanBefore(names[..m], nodes, a);
      assert forall j :: 0 <= j < m ==> names[..m][j] == names[j];
      assert names == names[..m] + [names[m]];
    }
  }

  lemma ReportFirst(names: set<string>, nodes: map<string, string>, a: string, kept: map<string, string>,
                    gone: set<string>, n: string)
    requires (forall x :: x in names ==> !Accepted(nodes, x, a)) && a !in kept && gone <= names
    requires Accepted(nodes, n, a) && n !in names
    ensures var (kept', dropped) := ScanOne(kept, n, nodes[n]);
            !dropped && ReportsOf(names + {n}, nodes, a, n, kept', gone)
  {
  }

  lemma {:induction false} ScanLeaves(names: seq<string>, nodes: map<string, string>, a: string, f: nat)
    requires Sorted(names) && (forall n :: n in names ==> n in nodes) && IsFirst(names, nodes, a, f)
    ensures ReportsOf(Elems(names), nodes, a, names[f], Scan(names, nodes).0, Scan(names, nodes).1)
    decreases |names|
  {
    var m := |names| - 1;
    var front, n := names[..m], names[m];
    EarlierIsLower(names, m);
    ScanBefore(front, nodes, a);
    assert names == front + [n];
    assert Elems(names) == Elems(front) + {n};
    var (kept, gone) := Scan(front, nodes);
    if f < m {
      assert front[f] == names[f];
      ScanLeaves(front, nodes, a, f);
      ReportNext(Elems(front), nodes, a, names[f], kept, gone, n);
    } else {
      assert forall j :: 0 <= j < m ==> front[j] == names[j];
      ReportFirst(Elems(front), nodes, a, kept, gone, n);
    }
  }

  /** The node that get_check reports for an address is still there afterwards if and only if
      the first accepted name in the order of strings has the lowest index. Otherwise the
      branch for a lower index has deleted the very node it reports. */
  lemma ReportedNodeSurvives(names: seq<string>, nodes: map<string, string>, a: string, f: nat)
    requires Sorted(names) && (forall n :: n in names ==> n in nodes) && IsFirst(names, nodes, a, f)
    ensures var (kept, gone) := Scan(names, nodes);
            && a in kept && kept[a] in names && Accepted(nodes, kept[a], a)
            && LowestIndex(Elems(names), nodes, a, kept[a])
            && (forall x :: x in names && Accepted(nodes, x, a) ==> (x in gone <==> x != names[f]))
            && (kept[a] !in gone <==> LowestIndex(Elems(names), nodes, a, names[f]))
  {
    ScanLeaves(names, nodes, a, f);
    var (kept, gone) := Scan(names, nodes);
    assert names[f] in Elems(names) && kept[a] in Elems(names);
    if LowestIndex(Elems(names), nodes, a, names[f]) {
      assert Idx(names[f]) <= Idx(kept[a]) && Idx(kept[a]) <= Idx(names[f]);
    }
  }

  /** With the names that ZooKeeper assigns the first one has the lowest index. */
  lemma PaddedNodeSurvives(names: seq<string>, nodes: map<string, string>, a: string, f: nat)
    requires Sorted(names) && (forall n :: n in names ==> n in nodes && NameOk(n)) && IsFirst(names, nodes, a, f)
    ensures var (kept, gone) := Scan(names, nodes); a in kept && kept[a] == names[f] && names[f] !in gone
  {
    forall x | x in Elems(names) && Accepted(nodes, x, a)
      ensures Idx(names[f]) <= Idx(x)
    {
      var i :| 0 <= i < |names| && names[i] == x;
      if f < i {
        EarlierIsLower(names, i);
        assert names[..i][f] == names[f];
      }
    }
    ReportedNodeSurvives(names, nodes, a, f);
  }

  lemma ExampleIndexes()
    ensures Idx("r10") == 10 && Idx("r2") == 2 && Less("r10", "r2")
  {
    assert Less("r10"[1..], "r2"[1..]);
    assert "r10"[0..1] == "r" && "r10"[1..] == "10" && "r2"[0..1] == "r" && "r2"[1..] == "2";
    assert "10"[..1] == "1" && "1"[..0] == "" && "2"[..0] == "";
  }

  /** Without padding it need not: of the nodes r10 and r2 of one address the loop reports
      r2 and deletes it. */
  lemma UnpaddedNodeLost()
    ensures var names, nodes := ["r10", "r2"], map["r10" := "a", "r2" := "a"];
            && Sorted(names) && IsFirst(names, nodes, "a", 0)
            && "a" in Scan(names, nodes).0 && Scan(names, nodes).0["a"] == "r2" && "r2" in Scan(names, nodes).1
  {
    var names, nodes := ["r10", "r2"], map["r10" := "a", "r2" := "a"];
    assert names[1..] == ["r2"] && names[1..][1..] == [];
    ExampleIndexes();
    assert "r2" in Elems(names) && Accepted(nodes, "r2", "a") && Accepted(nodes, "r10", "a");
    ReportedNodeSurvives(names, nodes, "a", 0);
  }

  // ----- how a pass may change a cluster's sequence nodes -----

  ghost predicate IsLowest(d: Dir, n: string) {
    n in d.nodes && Padded(n) &&
    forall x :: x in d.nodes && Padded(x) && d.nodes[x] == d.nodes[n] ==> Idx(n) <= Idx(x)
  }

  /** From `d` to `d'` no lowest node of an address in `keep` goes, and every node that
      comes has a higher number than all of `d`. */
  ghost predicate Evolves(d: Dir, d': Dir, keep: set<string>) {
    && d.next <= d'.next
    && (forall n :: n in d'.nodes ==>
          (n in d.nodes && d'.nodes[n] == d.nodes[n]) || (Padded(n) && d.next <= Idx(n)))
    && (forall n :: IsLowest(d, n) && d.nodes[n] in keep ==> n in d'.nodes && d'.nodes[n] == d.nodes[n])
  }

  lemma EvolvesTrans(d: Dir, d': Dir, d'': Dir, keep: set<string>)
    requires Evolves(d, d', keep) && Evolves(d', d'', keep)
    requires DirOk(d) && DirOk(d')
    ensures Evolves(d, d'', keep)
  {
    forall n | IsLowest(d, n) && d.nodes[n] in keep
      ensures n in d''.nodes && d''.nodes[n] == d.nodes[n]
    {
      assert IsLowest(d', n);
    }
  }

  lemma AddNodeEvolves(d: Dir, addr: string, keep: set<string>)
    requires DirOk(d) && d.next < SEQ_LIMIT
    ensures var d' := AddNode(d, addr);
            && DirOk(d') && Evolves(d, d', keep)
            && SeqName(d.next) !in d.nodes
            && Data(d') == Data(d) + {addr}
  {
    SeqNamePadded(d.next);
    var d', name := AddNode(d, addr), SeqName(d.next);
    forall a
      ensures a in Data(d') <==> a in Data(d) || a == addr
    {
      if a in Data(d) {
        var n :| n in d.nodes && d.nodes[n] == a;
        assert n in d'.nodes && d'.nodes[n] == a;
      }
      assert d'.nodes[name] == addr;
    }
  }
}

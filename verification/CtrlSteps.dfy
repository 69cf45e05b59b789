/** What the controller reads, and the lemmas behind the steps of a pass. */
module CtrlSteps {
  import opened Options
  import opened Sequences
  import opened Text
  import opened Address
  import opened ZkTree
  import opened Phases
  import opened Legal
  import opened Slaveof

  /** get_cluster_node with ischeck: clusters with an index, addresses with a port. */
  function Configured(config: Clusters): Clusters {
    map c | c in config && IsCluster(c) :: ValidAddrs(config[c])
  }

  predicate IsCluster(c: string) { CutIdx(CLUSTER_PREFIX, c) != -1 }

  function ValidAddrs(names: set<string>): set<string> { set a | a in names && AddrOk(a) }

  ghost predicate Disjoint(cfgs: Clusters) {
    forall c, c' :: c in cfgs && c' in cfgs && c != c' ==> cfgs[c] !! cfgs[c']
  }

  /** The children of the error tree. */
  function ErrTree(z: Tree): Clusters {
    map c | c in z.clusters && z.clusters[c].err.Some? :: z.clusters[c].err.value
  }

  function ChkClusters(z: Tree): set<string> {
    set c | c in z.clusters && z.clusters[c].dir.Some?
  }

  ghost predicate AllTidy(z: Tree) {
    forall c :: Tidy(DirOf(At(z, c)))
  }

  /** What get_check returns on success. */
  ghost predicate Mirrors(chks: map<string, map<string, string>>, z: Tree) {
    && chks.Keys == ChkClusters(z)
    && (forall c :: c in chks ==> Tidy(DirOf(At(z, c))) && IsInverse(chks[c], DirOf(At(z, c)).nodes))
  }

  function Invert(rds: map<string, string>): map<string, string>
    requires forall a, b :: a in rds && b in rds && rds[a] == rds[b] ==> a == b
  {
    map a | a in rds :: rds[a] := a
  }

  lemma OrderMembers(d: Dir)
    ensures forall a :: a in Order(d) <==> a in Data(d)
    ensures Order(d) == [] <==> d.nodes == map[]
  {
    OrderIsData(d);
    assert forall a :: a in Order(d) <==> a in Elems(Order(d));
  }

  /** A cluster with no address left in either tree. */
  predicate Deserted(k: Cluster) {
    DirOf(k).nodes == map[] && ErrOf(k) == {}
  }

  /** `cmds` holds exactly the commands that cluster `k` asks for. */
  ghost predicate CmdsOf(k: Cluster, up: map<string, string>, cmds: map<string, string>) {
    var d := DirOf(k);
    forall a :: a in Data(d) ==>
      Order(d) != [] && a in up && Lookup(cmds, a) == CmdFor(a, Order(d)[0], up[a])
  }

  ghost predicate DataDisjoint(z: Tree) {
    forall c, c' :: c != c' ==> Data(DirOf(At(z, c))) !! Data(DirOf(At(z, c')))
  }

  /** Every address with a node has answered. */
  ghost predicate Answered(z: Tree, up: map<string, string>) {
    forall c :: Data(DirOf(At(z, c))) <= up.Keys
  }

  /** Every command is for an address of one of these clusters. */
  ghost predicate CmdsWithin(z: Tree, done: set<string>, cmds: map<string, string>) {
    forall a :: a in cmds ==> exists c :: c in done && a in Data(DirOf(At(z, c)))
  }

  /** `cmds` holds exactly the commands that the clusters ask for. */
  ghost predicate Asked(z: Tree, up: map<string, string>, cmds: map<string, string>) {
    && CmdsWithin(z, ChkClusters(z), cmds)
    && forall c :: c in ChkClusters(z) ==> CmdsOf(At(z, c), up, cmds)
  }

  /** What gen_legal_redis has found out about the clusters it has gone through. */
  ghost predicate ElectedSoFar(z: Tree, up: map<string, string>, want: map<string, seq<string>>, cmds: map<string,
                               string>) {
    CmdsWithin(z, want.Keys, cmds) && AreElected(z, up, want, cmds)
  }

  ghost predicate AreElected(z: Tree, up: map<string, string>, want: map<string, seq<string>>, cmds: map<string,
                             string>) {
    forall c :: c in want ==> Elected(At(z, c), want[c], up, cmds)
  }

  ghost predicate Elected(k: Cluster, legal: seq<string>, up: map<string, string>, cmds: map<string, string>) {
    legal == LegalAddrs(k) && !Deserted(k) && CmdsOf(k, up, cmds)
  }

  lemma CmdsKept(k: Cluster, legal: seq<string>, up: map<string, string>, cmds: map<string, string>,
                 cmds': map<string, string>, mine: set<string>)
    requires Elected(k, legal, up, cmds) && Data(DirOf(k)) !! mine
    requires forall a :: a !in mine ==> Lookup(cmds', a) == Lookup(cmds, a)
    ensures Elected(k, legal, up, cmds')
  {
  }

  lemma NotYetAsked(z: Tree, done: set<string>, c: string, cmds: map<string, string>)
    requires DataDisjoint(z) && CmdsWithin(z, done, cmds) && c !in done
    ensures Data(DirOf(At(z, c))) !! cmds.Keys
  {
  }

  lemma ElectReady(z: Tree, errs: Clusters, chks: map<string, map<string, string>>, up: map<string, string>,
                   done: set<string>, cmds: map<string, string>, c: string)
    requires DataDisjoint(z) && CmdsWithin(z, done, cmds) && c !in done && Answered(z, up)
    requires errs == ErrTree(z) && Mirrors(chks, z) && c in chks
    ensures IsInverse(chks[c], DirOf(At(z, c)).nodes) && Lookup(errs, c) == At(z, c).err
    ensures Data(DirOf(At(z, c))) !! cmds.Keys && Data(DirOf(At(z, c))) <= up.Keys
  {
    NotYetAsked(z, done, c, cmds);
    SnapshotFor(z, errs, chks, c);
  }

  lemma WithinMore(z: Tree, done: set<string>, c: string, cmds: map<string, string>, cmds': map<string, string>)
    requires CmdsWithin(z, done, cmds)
    requires forall a :: a !in Data(DirOf(At(z, c))) ==> Lookup(cmds', a) == Lookup(cmds, a)
    ensures CmdsWithin(z, done + {c}, cmds')
  {
    forall a | a in cmds'
      ensures exists x :: x in done + {c} && a in Data(DirOf(At(z, x)))
    {
      if a in Data(DirOf(At(z, c))) {
        assert c in done + {c};
      } else {
        assert Lookup(cmds', a).Some? && a in cmds;
        var x :| x in done && a in Data(DirOf(At(z, x)));
        assert x in done + {c};
      }
    }
  }

  lemma ElectStart(z: Tree, up: map<string, string>)
    ensures ElectedSoFar(z, up, map[], map[])
  {
  }

  lemma AllElected(z: Tree, up: map<string, string>, want: map<string, seq<string>>, cmds: map<string, string>)
    requires ElectedSoFar(z, up, want, cmds) && want.Keys == ChkClusters(z)
    ensures want == Legals(z) && Asked(z, up, cmds)
    ensures forall c :: c in ChkClusters(z) ==> !Deserted(At(z, c))
  {
    assert forall c :: c in want ==> Elected(At(z, c), want[c], up, cmds);
  }

  /** The commands of one more cluster leave those of the others alone. */
  lemma ElectNext(z: Tree, up: map<string, string>, want: map<string, seq<string>>, c: string, legal: seq<string>,
                  cmds: map<string, string>, cmds': map<string, string>)
    requires DataDisjoint(z) && ElectedSoFar(z, up, want, cmds) && c !in want
    requires forall a :: a !in Data(DirOf(At(z, c))) ==> Lookup(cmds', a) == Lookup(cmds, a)
    requires Elected(At(z, c), legal, up, cmds')
    ensures ElectedSoFar(z, up, want[c := legal], cmds')
  {
    WithinMore(z, want.Keys, c, cmds, cmds');
    KeysMore(want, c, legal);
    OneMoreElected(z, up, want, c, legal, cmds, cmds');
  }

  lemma KeysMore(want: map<string, seq<string>>, c: string, legal: seq<string>)
    ensures want[c := legal].Keys == want.Keys + {c}
  {
  }

  lemma OneMoreElected(z: Tree, up: map<string, string>, want: map<string, seq<string>>, c: string, legal: seq<string>,
                       cmds: map<string, string>, cmds': map<string, string>)
    requires DataDisjoint(z) && AreElected(z, up, want, cmds) && c !in want
    requires forall a :: a !in Data(DirOf(At(z, c))) ==> Lookup(cmds', a) == Lookup(cmds, a)
    requires Elected(At(z, c), legal, up, cmds')
    ensures AreElected(z, up, want[c := legal], cmds')
  {
    forall x | x in want
      ensures Elected(At(z, x), want[x], up, cmds')
    {
      CmdsKept(At(z, x), want[x], up, cmds, cmds', Data(DirOf(At(z, c))));
    }
  }

  /** What legal_cmp is asked to publish. */
  ghost function Legals(z: Tree): map<string, seq<string>> {
    map c | c in ChkClusters(z) :: LegalAddrs(At(z, c))
  }

  lemma InverseNodes(rds: map<string, string>, nodes: map<string, string>)
    requires IsInverse(rds, nodes)
    ensures forall a, b :: a in rds && b in rds && rds[a] == rds[b] ==> a == b
    ensures Invert(rds) == nodes && rds.Values == nodes.Keys
  {
    forall n
      ensures n in rds.Values <==> n in nodes
    {
      if n in nodes { assert rds[nodes[n]] == n; }
    }
    forall a, b | a in rds && b in rds && rds[a] == rds[b]
      ensures a == b
    {
      assert nodes[rds[a]] == a && nodes[rds[b]] == b;
    }
    InvertedNodes(rds, nodes);
  }

  lemma InvertedNodes(rds: map<string, string>, nodes: map<string, string>)
    requires IsInverse(rds, nodes) && forall a, b :: a in rds && b in rds && rds[a] == rds[b] ==> a == b
    ensures Invert(rds) == nodes
  {
    var inv := Invert(rds);
    forall n
      ensures n in inv <==> n in nodes
      ensures n in nodes ==> n in inv && inv[n] == nodes[n]
    {
      if n in nodes {
        var a := nodes[n];
        assert rds[a] == n && inv[rds[a]] == a;
      }
      if n in inv {
        var a :| a in rds && rds[a] == n;
      }
    }
  }

  /** No address occurs twice in the order. */
  lemma OrderDistinct(d: Dir, rds: map<string, string>)
    requires IsInverse(rds, d.nodes)
    ensures Distinct(Order(d))
  {
    var names := Ordered(d.nodes.Keys);
    assert forall n :: n in names ==> n in Elems(names);
    forall i, j | 0 <= i < j < |Order(d)|
      ensures Order(d)[i] != Order(d)[j]
    {
      SortedTake(names, j);
      LessTotal(names[j], names[j]);
      assert rds[d.nodes[names[i]]] == names[i] && rds[d.nodes[names[j]]] == names[j];
    }
  }

  ghost predicate OneRepaired(k: Cluster, k': Cluster, a: string, ok: bool) {
    && k'.err.Some? && k'.dir.Some? && ErrOf(k) - {a} <= ErrOf(k')
    && (DirOf(k') == DirOf(k) || (DirOf(k') == AddNode(DirOf(k), a) && DirOf(k).next < SEQ_LIMIT))
    && (ok ==> ErrOf(k') == ErrOf(k) - {a} && DirOf(k') == AddNode(DirOf(k), a) && DirOf(k).next < SEQ_LIMIT)
  }

  ghost predicate RepairedSoFar(k: Cluster, k': Cluster, up: set<string>, done: set<string>) {
    && RepairPart(k, k', up) && k'.err.Some? && k'.dir.Some?
    && ErrOf(k') == ErrOf(k) - done * up
    && Data(DirOf(k')) == Data(DirOf(k)) + done * up
    && InOrder(DirOf(k), DirOf(k')) && NewFor(DirOf(k), DirOf(k'), done * up)
  }

  lemma RepairStart(k: Cluster, up: set<string>)
    requires k.err.Some? && k.dir.Some? && DirOk(DirOf(k))
    ensures RepairedSoFar(k, k, up, {})
  {
  }

  lemma RepairNext(k: Cluster, k1: Cluster, k2: Cluster, up: set<string>, done: set<string>, a: string, ok: bool)
    requires DirOk(DirOf(k)) && RepairedSoFar(k, k1, up, done) && a in ErrOf(k) && a !in done
    requires forall x :: x in done ==> Less(x, a)
    requires if a in up then OneRepaired(k1, k2, a, ok) else k2 == k1
    ensures RepairPart(k, k2, up)
    ensures ok || a !in up ==> RepairedSoFar(k, k2, up, done + {a})
  {
    assert (done + {a}) * up == if a in up then done * up + {a} else done * up;
    if a in up && DirOf(k1).next < SEQ_LIMIT {
      GrownOne(DirOf(k), DirOf(k1), ErrOf(k) * up, a);
      OneInOrder(DirOf(k), DirOf(k1), ErrOf(k) * up, done * up, a);
    }
  }

  lemma RepairAllEnd(z: Tree, z': Tree, up: set<string>)
    requires FullOn(Repairing(up), z, z', ErrTree(z).Keys)
    requires forall c :: c !in ErrTree(z) ==> At(z', c) == At(z, c)
    ensures FullAll(Repairing(up), z, z')
  {
    forall c
      ensures Full(Repairing(up), c, At(z, c), At(z', c))
    {
      if c !in ErrTree(z) { assert ErrOf(At(z, c)) == {}; }
    }
  }

  // ----- demotion -----

  /** A ZooKeeper operation succeeds; takes effect but is reported as failed; or fails. */
  datatype Fate = Done | Unreported | Failed

  predicate Took(f: Fate) { f != Failed }

  /** check_check for one address: create the error node, then, if that succeeded, delete
      the sequence node. An error node that exists already cannot be created. */
  function Demoted(z: Tree, c: string, n: string, a: string, create: Fate, delete: Fate): Tree {
    if a in ErrOf(At(z, c)) || create == Failed then z
    else
      var z1 := WithErr(z, c, ErrOf(At(z, c)) + {a});
      if create == Done && Took(delete) then Dropped(z1, c, n) else z1
  }

  ghost predicate OneDemoted(k: Cluster, k': Cluster, n: string, a: string, ok: bool) {
    && k'.err.Some? && k'.dir.Some? && ErrOf(k) <= ErrOf(k')
    && (DirOf(k') == DirOf(k) || (a !in ErrOf(k) && DirOf(k') == DropNode(DirOf(k), n)))
    && (ok ==> a !in ErrOf(k) && ErrOf(k') == ErrOf(k) + {a} && DirOf(k') == DropNode(DirOf(k), n))
  }

  ghost predicate DemotedSoFar(k: Cluster, k': Cluster, up: set<string>, all: set<string>, todo: set<string>) {
    && k'.dir.Some? && DirOf(k') == Only(DirOf(k), up + todo)
    && k'.err.Some? && ErrOf(k') == ErrOf(k) + (all - todo - up)
    && (all - todo - up) !! ErrOf(k)
  }

  lemma DemoteNext(k: Cluster, k1: Cluster, k2: Cluster, up: set<string>, seen: map<string, string>, todo: set<string>,
                   a: string, ok: bool)
    requires DirOk(DirOf(k)) && k.dir.Some? && k.err.Some? && seen.Keys == Data(DirOf(k))
    requires DemotedSoFar(k, k1, up, seen.Keys, todo) && todo <= seen.Keys && a in todo
    requires a in up ==> Only(DirOf(k), up + todo) == Only(DirOf(k), up + (todo - {a}))
    requires a !in up ==> DropNode(Only(DirOf(k), up + todo), seen[a]) == Only(DirOf(k), up + (todo - {a}))
    requires if a in up then k2 == k1 && ok else OneDemoted(k1, k2, seen[a], a, ok)
    ensures DemotePart(k, k2, up)
    ensures ok ==> DemotedSoFar(k, k2, up, seen.Keys, todo - {a})
    ensures a !in up && a in ErrOf(k1) ==> Stuck(k, up)
  {
    if ok {
      assert seen.Keys - (todo - {a}) - up == (seen.Keys - todo - up) + (if a in up then {} else {a});
    }
  }

  lemma DemoteEnd(k: Cluster, k': Cluster, up: set<string>, all: set<string>)
    requires DirOk(DirOf(k)) && k.dir.Some? && k.err.Some? && all == Data(DirOf(k))
    requires DemotedSoFar(k, k', up, all, {})
    ensures DemotePart(k, k', up) && DemoteFull(k, k', up)
  {
    assert up + {} == up && all - {} - up == all - up;
  }

  lemma MirrorCovers(z: Tree, chks: map<string, map<string, string>>, c: string)
    requires Wf(z) && Mirrors(chks, z) && c in chks
    ensures At(z, c).dir.Some? && DirOk(DirOf(At(z, c))) && Covers(chks[c], DirOf(At(z, c)), Some({}))
  {
  }

  lemma DemoteAllEnd(z: Tree, z': Tree, chks: map<string, map<string, string>>, up: set<string>)
    requires Mirrors(chks, z) && FullOn(Demoting(up), z, z', chks.Keys)
    requires forall c :: c !in chks ==> At(z', c) == At(z, c)
    ensures FullAll(Demoting(up), z, z')
  {
    assert Only(EMPTY_DIR, up) == EMPTY_DIR;
    forall c
      ensures Full(Demoting(up), c, At(z, c), At(z', c))
    {
      if c !in chks { assert DirOf(At(z, c)) == EMPTY_DIR; }
    }
  }

  ghost predicate Snapshot(chks: map<string, map<string, string>>, z: Tree, cfgs: Clusters) {
    forall c ::
      && (c in chks ==> At(z, c).dir.Some? && Covers(chks[c], DirOf(At(z, c)), Lookup(cfgs, c)))
      && (c !in chks && At(z, c).dir.Some? ==> c in cfgs && Data(DirOf(At(z, c))) <= cfgs[c])
  }

  lemma UnseenIsKept(z: Tree, chks: map<string, map<string, string>>, cfgs: Clusters, c: string)
    requires Snapshot(chks, z, cfgs) && c !in chks
    ensures ChkRmFull(At(z, c), At(z, c), Lookup(cfgs, c))
  {
    var k := At(z, c);
    if k.dir.Some? {
      assert forall n :: n in DirOf(k).nodes ==> DirOf(k).nodes[n] in Data(DirOf(k));
      assert Only(k.dir.value, cfgs[c]) == k.dir.value;
    }
  }

  lemma OnlyStart(d: Dir, seen: map<string, string>, keep: set<string>)
    requires forall n :: n in d.nodes ==> d.nodes[n] in keep + seen.Keys
    ensures Only(d, keep + seen.Keys) == d
  {
  }

  lemma OnlyNext(d: Dir, seen: map<string, string>, keep: set<string>, todo: set<string>, a: string)
    requires a in todo && a in seen && seen[a] in d.nodes && d.nodes[seen[a]] == a
    requires a !in keep ==> forall n :: n in d.nodes && d.nodes[n] == a ==> n == seen[a]
    ensures a in keep ==> Only(d, keep + todo) == Only(d, keep + (todo - {a}))
    ensures a !in keep ==> seen[a] in Only(d, keep + todo).nodes
                           && DropNode(Only(d, keep + todo), seen[a]) == Only(d, keep + (todo - {a}))
    ensures a in Data(d)
  {
    if a in keep { assert keep + todo == keep + (todo - {a}); }
  }

  lemma SeenIsData(d: Dir, seen: map<string, string>)
    requires Covers(seen, d, Some({}))
    ensures seen.Keys == Data(d)
  {
    MirrorData(d, seen);
  }

  lemma PruneAllWf(z: Tree, z': Tree)
    requires Wf(z) && PruneAll(z, z')
    ensures Wf(z')
  {
    forall c
      ensures DirOk(DirOf(At(z', c)))
    {
      assert PrunePart(At(z, c), At(z', c)) && DirOk(DirOf(At(z, c)));
    }
  }

  /** Every node of `d` outside the configuration is one of `seen`. */
  ghost predicate Covers(seen: map<string, string>, d: Dir, cfg: Option<set<string>>) {
    && (forall a :: a in seen ==> seen[a] in d.nodes && d.nodes[seen[a]] == a)
    && (forall n :: n in d.nodes ==>
          (cfg.Some? && d.nodes[n] in cfg.value) || (d.nodes[n] in seen && seen[d.nodes[n]] == n))
  }

  function WithErr(z: Tree, c: string, names: set<string>): Tree {
    Put(z, c, At(z, c).(err := Some(names)))
  }

  function Added(z: Tree, c: string, addr: string): Tree {
    Put(z, c, WithDir(At(z, c), AddNode(DirOf(At(z, c)), addr)))
  }

  ghost predicate GrownCluster(k: Cluster, k': Cluster, want: set<string>) {
    k'.err == k.err && k.dir.Some? && k'.dir.Some? && Grown(DirOf(k), DirOf(k'), want) && DirOk(DirOf(k'))
  }

  /** New nodes for the addresses in `done` so far. */
  ghost predicate AddedSoFar(k: Cluster, k': Cluster, want: set<string>, done: set<string>) {
    && GrownCluster(k, k', want)
    && Data(DirOf(k')) == Data(DirOf(k)) + done
    && (Tidy(DirOf(k)) && Data(DirOf(k)) !! want ==> Tidy(DirOf(k')))
    && InOrder(DirOf(k), DirOf(k')) && NewFor(DirOf(k), DirOf(k'), done)
  }

  lemma AddStart(k: Cluster, want: set<string>)
    requires k.dir.Some? && DirOk(DirOf(k))
    ensures AddedSoFar(k, k, want, {})
  {
  }

  lemma AddNext(z: Tree, z1: Tree, c: string, want: set<string>, done: set<string>, a: string)
    requires DirOk(DirOf(At(z, c))) && DirOf(At(z1, c)).next < SEQ_LIMIT && a in want && a !in done
    requires Local(z, z1, c) && AddedSoFar(At(z, c), At(z1, c), want, done)
    requires forall x :: x in done ==> Less(x, a)
    ensures Local(z, Added(z1, c, a), c) && AddedSoFar(At(z, c), At(Added(z1, c, a), c), want, done + {a})
  {
    AddNextNode(At(z, c), At(z1, c), want, done, a);
  }

  lemma AddNextNode(k: Cluster, k1: Cluster, want: set<string>, done: set<string>, a: string)
    requires DirOk(DirOf(k)) && DirOf(k1).next < SEQ_LIMIT && a in want && a !in done
    requires AddedSoFar(k, k1, want, done) && forall x :: x in done ==> Less(x, a)
    ensures AddedSoFar(k, WithDir(k1, AddNode(DirOf(k1), a)), want, done + {a})
  {
    var d, d1 := DirOf(k), DirOf(k1);
    GrownOne(d, d1, want, a);
    OneInOrder(d, d1, want, done, a);
    NodeAdded(k, k1, WithDir(k1, AddNode(d1, a)), want, done, a);
  }

  lemma NodeAdded(k: Cluster, k1: Cluster, k2: Cluster, want: set<string>, done: set<string>, a: string)
    requires AddedSoFar(k, k1, want, done) && a in want && a !in done
    requires k2.err == k1.err && k2.dir.Some? && DirOk(DirOf(k2)) && Grown(DirOf(k), DirOf(k2), want)
    requires Data(DirOf(k2)) == Data(DirOf(k1)) + {a}
    requires Tidy(DirOf(k1)) && a !in Data(DirOf(k1)) ==> Tidy(DirOf(k2))
    requires InOrder(DirOf(k), DirOf(k2)) && NewFor(DirOf(k), DirOf(k2), done + {a})
    ensures AddedSoFar(k, k2, want, done + {a})
  {
    StaysTidy(Data(DirOf(k)), want, done, a, Data(DirOf(k1)), Tidy(DirOf(k)), Tidy(DirOf(k1)), Tidy(DirOf(k2)));
    assert Data(DirOf(k2)) == Data(DirOf(k)) + (done + {a});
  }

  lemma StaysTidy(data: set<string>, want: set<string>, done: set<string>, a: string, data1: set<string>,
                  tidy: bool, tidy1: bool, tidy2: bool)
    requires data1 == data + done && a in want && a !in done
    requires tidy && data !! want ==> tidy1
    requires tidy1 && a !in data1 ==> tidy2
    ensures tidy && data !! want ==> tidy2
  {
  }

  /** The next of some sorted names. */
  lemma NextInOrder(names: seq<string>, i: nat, j: nat)
    requires Sorted(names) && i < |names| && j == i + 1
    ensures Elems(names[..j]) == Elems(names[..i]) + {names[i]}
    ensures names[i] !in Elems(names[..i]) && forall x :: x in Elems(names[..i]) ==> Less(x, names[i])
  {
    assert names[..j] == names[..i] + [names[i]];
    SortedTake(names, i);
    LessTotal(names[i], names[i]);
  }

  lemma SnapshotFor(z: Tree, errs: Clusters, chks: map<string, map<string, string>>, c: string)
    requires errs == ErrTree(z) && Mirrors(chks, z)
    ensures Lookup(errs, c) == At(z, c).err
    ensures (if c in chks then Some(chks[c].Keys) else None) ==
                if At(z, c).dir.Some? then Some(Data(DirOf(At(z, c)))) else None
  {
    if c in chks { MirrorData(DirOf(At(z, c)), chks[c]); }
  }

  function Dropped(z: Tree, c: string, n: string): Tree {
    Put(z, c, WithDir(At(z, c), DropNode(DirOf(At(z, c)), n)))
  }

  function WithoutNodes(z: Tree, c: string, gone: set<string>): Tree {
    var d := DirOf(At(z, c));
    Put(z, c, WithDir(At(z, c), d.(nodes := d.nodes - gone)))
  }

  lemma WithoutNone(z: Tree, c: string)
    requires At(z, c).dir.Some?
    ensures WithoutNodes(z, c, {}) == z
  {
    var d := DirOf(At(z, c));
    assert d.nodes - {} == d.nodes;
    assert c in z.clusters && z.clusters[c := z.clusters[c]] == z.clusters;
  }

  lemma DropOne(z: Tree, c: string, gone: set<string>, n: string)
    requires At(z, c).dir.Some? && n in DirOf(At(z, c)).nodes && n !in gone
    ensures var z' := WithoutNodes(z, c, gone);
            && At(z', c).dir.Some? && n in DirOf(At(z', c)).nodes
            && DirOf(At(z', c)).nodes[n] == DirOf(At(z, c)).nodes[n]
            && Dropped(z', c, n) == WithoutNodes(z, c, gone + {n})
            && Dropped(z', c, n) != z'
  {
    var z', d := WithoutNodes(z, c, gone), DirOf(At(z, c));
    assert DirOf(At(z', c)).nodes - {n} == d.nodes - (gone + {n});
    assert n !in DirOf(At(Dropped(z', c, n), c)).nodes;
  }

  lemma ClusterScanned(z: Tree, c: string, names: seq<string>, gone: set<string>)
    requires At(z, c).dir.Some? && DirOk(DirOf(At(z, c))) && Lists(names, DirOf(At(z, c)).nodes.Keys)
    requires (forall n :: n in names ==> n in DirOf(At(z, c)).nodes) && gone <= Scan(names, DirOf(At(z, c)).nodes).1
    ensures var d, z', (kept, all) := DirOf(At(z, c)), WithoutNodes(z, c, gone), Scan(names, DirOf(At(z, c)).nodes);
            && Local(z, z', c)
            && PrunePart(At(z, c), At(z', c))
            && (gone == all ==> PruneFull(At(z, c), At(z', c)) && IsInverse(kept, DirOf(At(z', c)).nodes))
            && (Tidy(d) ==> all == {} && z' == z)
  {
    DirScanned(DirOf(At(z, c)), names, gone);
    WithoutNone(z, c);
  }

  ghost predicate PruneAll(z: Tree, z': Tree) {
    SameRest(z, z') && forall c :: PrunePart(At(z, c), At(z', c))
  }

  ghost predicate PrunedSoFar(z: Tree, z': Tree, chks: map<string, map<string, string>>, done: set<string>) {
    && chks.Keys == done
    && (forall c :: c in done ==> PruneFull(At(z, c), At(z', c)) && IsInverse(chks[c], DirOf(At(z', c)).nodes))
  }

  lemma PruneStart(z: Tree)
    ensures PruneAll(z, z)
  {
  }

  lemma PruneNext(z: Tree, z1: Tree, c: string)
    requires Wf(z) && c in ChkClusters(z) && At(z1, c) == At(z, c)
    ensures At(z1, c).dir.Some? && DirOk(DirOf(At(z1, c)))
  {
  }

  lemma PruneStep(z: Tree, z1: Tree, z2: Tree, chks: map<string, map<string, string>>, done: set<string>,
                  c: string, kept: map<string, string>)
    requires PruneAll(z, z1) && PrunedSoFar(z, z1, chks, done) && c !in done && At(z1, c) == At(z, c)
    requires Local(z1, z2, c) && PrunePart(At(z1, c), At(z2, c))
    ensures PruneAll(z, z2)
    ensures forall x :: x != c ==> At(z2, x) == At(z1, x)
    ensures PruneFull(At(z1, c), At(z2, c)) && IsInverse(kept, DirOf(At(z2, c)).nodes) ==>
              PrunedSoFar(z, z2, chks[c := kept], done + {c})
  {
    forall x
      ensures PrunePart(At(z, x), At(z2, x))
    {
      assert x != c ==> At(z2, x) == At(z1, x);
    }
  }

  lemma PruneEnd(z: Tree, z': Tree, chks: map<string, map<string, string>>)
    requires PruneAll(z, z') && PrunedSoFar(z, z', chks, ChkClusters(z))
    ensures Mirrors(chks, z') && forall c :: PruneFull(At(z, c), At(z', c))
  {
    forall c
      ensures c in ChkClusters(z') <==> c in ChkClusters(z)
      ensures PruneFull(At(z, c), At(z', c))
    {
      assert PrunePart(At(z, c), At(z', c));
      if c !in ChkClusters(z) {
        assert DirOf(At(z, c)) == EMPTY_DIR == DirOf(At(z', c));
      }
    }
  }

  /** One round of the scan; what it has deleted stays deleted. */
  lemma ScanNext(names: seq<string>, nodes: map<string, string>, i: nat)
    requires i < |names| && Sorted(names) && Elems(names) == nodes.Keys
    ensures forall n :: n in names ==> n in nodes
    ensures names[i] !in Elems(names[..i]) && Elems(names[..i + 1]) == Elems(names[..i]) + {names[i]}
    ensures Scan(names[..i], nodes).1 <= Scan(names[..i + 1], nodes).1 <= Scan(names, nodes).1
    ensures names[..i + 1][..i] == names[..i]
  {
    assert forall n :: n in names ==> n in Elems(names);
    assert names[..i + 1] == names[..i] + [names[i]];
    SortedTake(names, i);
    LessTotal(names[i], names[i]);
    ScanGrows(names, nodes, i);
    ScanGrows(names, nodes, i + 1);
    assert names[..i + 1][..i] == names[..i];
  }

  lemma {:induction false} ScanGrows(names: seq<string>, nodes: map<string, string>, i: nat)
    requires i <= |names| && forall n :: n in names ==> n in nodes
    ensures Scan(names[..i], nodes).1 <= Scan(names, nodes).1
    decreases |names|
  {
    if i < |names| {
      var n := |names| - 1;
      ScanGrows(names[..n], nodes, i);
      assert names[..n][..i] == names[..i];
    } else {
      assert names[..i] == names;
    }
  }
}

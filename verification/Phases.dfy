/** What each phase of a pass does to one cluster: `...Part` holds wherever the phase
    stops, `...Full` when it succeeds. */
module Phases {
  import opened Options
  import opened Text
  import opened ZkTree

  ghost predicate IsInverse(m: map<string, string>, nodes: map<string, string>) {
    && (forall a :: a in m ==> m[a] in nodes && nodes[m[a]] == a)
    && (forall n :: n in nodes ==> nodes[n] in m && m[nodes[n]] == n)
  }

  ghost predicate SubNodes(d: Dir, d': Dir) {
    forall n :: n in d.nodes ==> n in d'.nodes && d'.nodes[n] == d.nodes[n]
  }

  // ----- get_check -----

  /** Nothing goes but stray and higher-numbered nodes. */
  ghost predicate Pruned(d: Dir, d': Dir) {
    && d'.next == d.next && SubNodes(d', d)
    && (forall n :: IsLowest(d, n) ==> n in d'.nodes)
  }

  ghost predicate PrunePart(k: Cluster, k': Cluster) {
    && k'.err == k.err && (k'.dir.Some? <==> k.dir.Some?)
    && Pruned(DirOf(k), DirOf(k'))
  }

  ghost predicate PruneFull(k: Cluster, k': Cluster) {
    Tidy(DirOf(k')) && Data(DirOf(k')) == SeqData(DirOf(k))
  }

  /** What ScanDir means for a directory with well-formed names. */
  lemma DirScanned(d: Dir, names: seq<string>, gone: set<string>)
    requires DirOk(d) && Lists(names, d.nodes.Keys)
    requires (forall n :: n in names ==> n in d.nodes) && gone <= Scan(names, d.nodes).1
    ensures Pruned(d, d.(nodes := d.nodes - gone))
    ensures var d', (kept, all) := d.(nodes := d.nodes - Scan(names, d.nodes).1), Scan(names, d.nodes);
            Tidy(d') && IsInverse(kept, d'.nodes) && Data(d') == SeqData(d)
    ensures Tidy(d) ==> Scan(names, d.nodes).1 == {}
  {
    ScanKeepsLowest(names, d.nodes);
    LowestSurvive(d, Scan(names, d.nodes).0, Scan(names, d.nodes).1);
    KeptIsInverse(d, Scan(names, d.nodes).0, Scan(names, d.nodes).1);
  }

  lemma LowestSurvive(d: Dir, kept: map<string, string>, all: set<string>)
    requires KeepsLowest(d.nodes.Keys, d.nodes, kept, all)
    ensures forall n :: IsLowest(d, n) ==> n !in all
    ensures Tidy(d) ==> all == {}
  {
    forall n | IsLowest(d, n)
      ensures n !in all
    {
      var k := kept[d.nodes[n]];
      assert Idx(k) <= Idx(n) && Idx(n) <= Idx(k);
      PaddedOrder(k, n);
    }
    if Tidy(d) {
      forall n | n in d.nodes
        ensures n !in all
      {
        assert kept[d.nodes[n]] == n;
      }
    }
  }

  lemma KeptIsInverse(d: Dir, kept: map<string, string>, all: set<string>)
    requires DirOk(d) && KeepsLowest(d.nodes.Keys, d.nodes, kept, all)
    ensures var d' := d.(nodes := d.nodes - all); Tidy(d') && IsInverse(kept, d'.nodes) && Data(d') == SeqData(d)
  {
    var d' := d.(nodes := d.nodes - all);
    forall n | n in d.nodes && Padded(n)
      ensures d.nodes[n] in Data(d')
    {
      assert d'.nodes[kept[d.nodes[n]]] == d.nodes[n];
    }
    forall a | a in Data(d')
      ensures a in SeqData(d)
    {
      var n :| n in d'.nodes && d'.nodes[n] == a;
      assert kept[d.nodes[n]] == n;
    }
  }

  lemma PrunedEvolves(d: Dir, d': Dir, keep: set<string>)
    requires Pruned(d, d') && DirOk(d)
    ensures DirOk(d') && Evolves(d, d', keep)
  {
  }

  lemma MirrorData(d: Dir, m: map<string, string>)
    requires IsInverse(m, d.nodes)
    ensures m.Keys == Data(d)
  {
    forall a
      ensures a in m <==> a in Data(d)
    {
      if a in m { assert d.nodes[m[a]] == a; }
    }
  }

  // ----- logic_check_add -----

  /** `d'` is `d` with new sequence nodes, all for addresses in `want`. */
  ghost predicate Grown(d: Dir, d': Dir, want: set<string>) {
    && d.next <= d'.next && SubNodes(d, d')
    && (forall n :: n in d'.nodes && n !in d.nodes ==> Padded(n) && d.next <= Idx(n) && d'.nodes[n] in want)
  }

  lemma GrownOne(d: Dir, d1: Dir, want: set<string>, a: string)
    requires DirOk(d) && DirOk(d1) && Grown(d, d1, want) && a in want && d1.next < SEQ_LIMIT
    ensures var d2 := AddNode(d1, a);
            && DirOk(d2) && Grown(d, d2, want) && Data(d2) == Data(d1) + {a}
            && (Tidy(d1) && a !in Data(d1) ==> Tidy(d2))
  {
    AddNodeEvolves(d1, a, {});
    SeqNamePadded(d1.next);
    assert forall n :: n in d1.nodes ==> d1.nodes[n] in Data(d1);
  }

  /** The new nodes are numbered in the order of their addresses. */
  ghost predicate InOrder(d: Dir, d': Dir) {
    forall x, y {:trigger d'.nodes[x], d'.nodes[y]} ::
      x in d'.nodes && y in d'.nodes && x !in d.nodes && y !in d.nodes && Idx(x) < Idx(y) ==>
        Less(d'.nodes[x], d'.nodes[y])
  }

  /** The new nodes are for these addresses. */
  ghost predicate NewFor(d: Dir, d': Dir, addrs: set<string>) {
    forall n :: n in d'.nodes && n !in d.nodes ==> d'.nodes[n] in addrs
  }

  /** One more node, for an address after all that have a new one. */
  lemma OneInOrder(d: Dir, d1: Dir, want: set<string>, done: set<string>, a: string)
    requires DirOk(d1) && d1.next < SEQ_LIMIT && Grown(d, d1, want) && InOrder(d, d1) && NewFor(d, d1, done)
    requires forall x :: x in done ==> Less(x, a)
    ensures InOrder(d, AddNode(d1, a)) && NewFor(d, AddNode(d1, a), done + {a})
  {
    SeqNamePadded(d1.next);
  }

  lemma GrownEvolves(d: Dir, d': Dir, want: set<string>, keep: set<string>)
    requires Grown(d, d', want)
    ensures Evolves(d, d', keep)
  {
  }

  ghost predicate AddPart(k: Cluster, k': Cluster, cfg: set<string>) {
    && (k.err.Some? ==> k'.err == k.err) && ErrOf(k') == ErrOf(k)
    && (k.dir.Some? ==> k'.dir.Some?)
    && DirOk(DirOf(k')) && Grown(DirOf(k), DirOf(k'), cfg)
  }

  ghost predicate AddFull(k: Cluster, k': Cluster, cfg: set<string>) {
    && k'.err.Some? && k'.dir.Some?
    && Data(DirOf(k')) == Data(DirOf(k)) + (cfg - ErrOf(k))
    && (Tidy(DirOf(k)) ==> Tidy(DirOf(k')))
    && InOrder(DirOf(k), DirOf(k')) && NewFor(DirOf(k), DirOf(k'), cfg - ErrOf(k))
  }

  predicate AddIdle(k: Cluster, cfg: set<string>) {
    k.err.Some? && k.dir.Some? && cfg <= Data(DirOf(k)) + ErrOf(k)
  }

  // ----- logic_error_rm -----

  predicate ErrRmPart(k: Cluster, k': Cluster, cfg: Option<set<string>>) {
    k'.dir == k.dir && (cfg.Some? ==> ErrOf(k) * cfg.value <= ErrOf(k'))
  }

  predicate ErrRmFull(k: Cluster, k': Cluster, cfg: Option<set<string>>) {
    if k.err.None? || cfg.None? then k'.err.None? else k'.err.Some? && k'.err.value == k.err.value * cfg.value
  }

  predicate ErrRmIdle(k: Cluster, cfg: Option<set<string>>) {
    k.err.Some? ==> cfg.Some? && k.err.value <= cfg.value
  }

  // ----- logic_check_rm -----

  function Only(d: Dir, addrs: set<string>): Dir {
    d.(nodes := map n | n in d.nodes && d.nodes[n] in addrs :: d.nodes[n])
  }

  /** Nodes have gone, none of an address in `stay`. */
  ghost predicate Thinned(d: Dir, d': Dir, stay: set<string>) {
    && d'.next == d.next && SubNodes(d', d)
    && (forall n :: n in d.nodes && d.nodes[n] in stay ==> n in d'.nodes)
  }

  lemma ThinnedEvolves(d: Dir, d': Dir, stay: set<string>)
    requires Thinned(d, d', stay) && DirOk(d)
    ensures DirOk(d') && Evolves(d, d', stay)
  {
  }

  lemma OnlyThins(d: Dir, addrs: set<string>)
    ensures Data(Only(d, addrs)) == Data(d) * addrs
    ensures Tidy(d) ==> Tidy(Only(d, addrs))
  {
    var d' := Only(d, addrs);
    forall a
      ensures a in Data(d') <==> a in Data(d) && a in addrs
    {
      if a in Data(d) && a in addrs {
        var n :| n in d.nodes && d.nodes[n] == a;
        assert n in d'.nodes && d'.nodes[n] == a;
      }
      if a in Data(d') {
        var n :| n in d'.nodes && d'.nodes[n] == a;
        assert n in d.nodes && d.nodes[n] == a;
      }
    }
  }

  ghost predicate ChkRmPart(k: Cluster, k': Cluster, cfg: Option<set<string>>) {
    && k'.err == k.err && DirOk(DirOf(k'))
    && (k.dir.None? ==> k'.dir.None?)
    && (cfg.Some? ==> (k.dir.Some? ==> k'.dir.Some?) && Thinned(DirOf(k), DirOf(k'), cfg.value))
  }

  predicate ChkRmFull(k: Cluster, k': Cluster, cfg: Option<set<string>>) {
    k'.dir == if k.dir.None? || cfg.None? then None else Some(Only(k.dir.value, cfg.value))
  }

  predicate ChkRmIdle(k: Cluster, cfg: Option<set<string>>) {
    k.dir.Some? ==> cfg.Some? && Data(DirOf(k)) <= cfg.value
  }

  // ----- check_error -----

  ghost predicate RepairPart(k: Cluster, k': Cluster, up: set<string>) {
    && (k'.dir.Some? <==> k.dir.Some?) && (k'.err.Some? <==> k.err.Some?)
    && ErrOf(k) - up <= ErrOf(k')
    && DirOk(DirOf(k')) && Grown(DirOf(k), DirOf(k'), ErrOf(k) * up)
  }

  ghost predicate RepairFull(k: Cluster, k': Cluster, up: set<string>) {
    && ErrOf(k') == ErrOf(k) - up
    && Data(DirOf(k')) == Data(DirOf(k)) + ErrOf(k) * up
    && InOrder(DirOf(k), DirOf(k'))
  }

  // ----- check_check, after its get_check -----

  ghost predicate DemotePart(k: Cluster, k': Cluster, up: set<string>) {
    && (k'.dir.Some? <==> k.dir.Some?) && (k'.err.Some? <==> k.err.Some?)
    && ErrOf(k) <= ErrOf(k')
    && DirOk(DirOf(k')) && Thinned(DirOf(k), DirOf(k'), up + ErrOf(k))
  }

  /** An address with a node that did not answer is in the error tree already. */
  predicate Stuck(k: Cluster, up: set<string>) {
    !((Data(DirOf(k)) - up) !! ErrOf(k))
  }

  ghost predicate DemoteFull(k: Cluster, k': Cluster, up: set<string>) {
    && ErrOf(k') == ErrOf(k) + (Data(DirOf(k)) - up)
    && DirOf(k') == Only(DirOf(k), up)
    && !Stuck(k, up)
  }

  // ----- the phases that go cluster by cluster -----

  datatype Phase =
    | Adding(cfgs: Clusters)
    | TrimmingErrors(cfgs: Clusters)
    | TrimmingChecks(cfgs: Clusters)
    | Repairing(up: set<string>)
    | Demoting(up: set<string>)

  ghost predicate Part(ph: Phase, c: string, k: Cluster, k': Cluster) {
    match ph
    case Adding(cfgs) => if c in cfgs then AddPart(k, k', cfgs[c]) else k' == k
    case TrimmingErrors(cfgs) => ErrRmPart(k, k', Lookup(cfgs, c))
    case TrimmingChecks(cfgs) => ChkRmPart(k, k', Lookup(cfgs, c))
    case Repairing(up) => RepairPart(k, k', up)
    case Demoting(up) => DemotePart(k, k', up)
  }

  ghost predicate Full(ph: Phase, c: string, k: Cluster, k': Cluster) {
    match ph
    case Adding(cfgs) => c in cfgs ==> AddFull(k, k', cfgs[c])
    case TrimmingErrors(cfgs) => ErrRmFull(k, k', Lookup(cfgs, c))
    case TrimmingChecks(cfgs) => ChkRmFull(k, k', Lookup(cfgs, c))
    case Repairing(up) => RepairFull(k, k', up)
    case Demoting(up) => DemoteFull(k, k', up)
  }

  /** Nothing to do for this cluster. */
  predicate Idle(ph: Phase, c: string, k: Cluster) {
    match ph
    case Adding(cfgs) => c in cfgs ==> AddIdle(k, cfgs[c])
    case TrimmingErrors(cfgs) => ErrRmIdle(k, Lookup(cfgs, c))
    case TrimmingChecks(cfgs) => ChkRmIdle(k, Lookup(cfgs, c))
    case Repairing(up) => ErrOf(k) !! up
    case Demoting(up) => Data(DirOf(k)) <= up
  }

  ghost predicate SameRest(z: Tree, z': Tree) {
    z'.config == z.config && z'.legal == z.legal
  }

  /** Nothing but cluster `c` differs. */
  ghost predicate Local(z: Tree, z': Tree, c: string) {
    SameRest(z, z') && forall x :: x != c ==> At(z', x) == At(z, x)
  }

  ghost predicate PartAll(ph: Phase, z: Tree, z': Tree) {
    SameRest(z, z') && forall c :: Part(ph, c, At(z, c), At(z', c))
  }

  ghost predicate FullAll(ph: Phase, z: Tree, z': Tree) {
    forall c :: Full(ph, c, At(z, c), At(z', c))
  }

  ghost predicate FullOn(ph: Phase, z: Tree, z': Tree, done: set<string>) {
    forall c :: c in done ==> Full(ph, c, At(z, c), At(z', c))
  }

  ghost predicate IdleAll(ph: Phase, z: Tree) {
    forall c :: Idle(ph, c, At(z, c))
  }

  lemma PartStart(ph: Phase, z: Tree)
    requires Wf(z)
    ensures PartAll(ph, z, z) && FullOn(ph, z, z, {})
  {
    forall c
      ensures Part(ph, c, At(z, c), At(z, c))
    {
      assert DirOk(DirOf(At(z, c)));
    }
  }

  lemma PartStep(ph: Phase, z: Tree, z1: Tree, z2: Tree, done: set<string>, c: string)
    requires PartAll(ph, z, z1) && FullOn(ph, z, z1, done) && c !in done && At(z1, c) == At(z, c)
    requires Local(z1, z2, c) && Part(ph, c, At(z1, c), At(z2, c))
    ensures PartAll(ph, z, z2)
    ensures forall x :: x != c ==> At(z2, x) == At(z1, x)
    ensures Full(ph, c, At(z1, c), At(z2, c)) ==> FullOn(ph, z, z2, done + {c})
  {
    forall x
      ensures Part(ph, x, At(z, x), At(z2, x))
      ensures x in done ==> Full(ph, x, At(z, x), At(z2, x))
    {
      assert x != c ==> At(z2, x) == At(z1, x);
    }
  }

  /** One more cluster of those still to do. */
  lemma PartNext(ph: Phase, z: Tree, z1: Tree, z2: Tree, all: set<string>, todo: set<string>, c: string)
    requires PartAll(ph, z, z1) && FullOn(ph, z, z1, all - todo) && c in todo && At(z1, c) == At(z, c)
    requires Local(z1, z2, c) && Part(ph, c, At(z1, c), At(z2, c))
    ensures PartAll(ph, z, z2)
    ensures forall x :: x != c ==> At(z2, x) == At(z1, x)
    ensures Full(ph, c, At(z1, c), At(z2, c)) ==> FullOn(ph, z, z2, all - (todo - {c}))
    ensures IdleAll(ph, z) ==> Idle(ph, c, At(z, c))
  {
    PartStep(ph, z, z1, z2, all - todo, c);
  }

  lemma PartWf(ph: Phase, z: Tree, z': Tree)
    requires Wf(z) && PartAll(ph, z, z')
    ensures Wf(z')
  {
    forall c
      ensures DirOk(DirOf(At(z', c)))
    {
      assert Part(ph, c, At(z, c), At(z', c)) && DirOk(DirOf(At(z, c)));
    }
  }
}

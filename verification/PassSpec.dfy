/** What a whole pass does to a cluster, and what it takes for a pass to complete. */
module PassSpec {
  import opened Options
  import opened Text
  import opened Ipv4
  import opened ZkTree
  import opened Phases
  import opened Legal
  import opened CtrlSteps
  import opened Slaveof
  import opened Polling

  function AllAddrs(cfgs: Clusters): set<string> {
    set c, a | c in cfgs && a in cfgs[c] :: a
  }

  /** What the configured addresses that answer say they are slaves of. */
  ghost function Answers(cfgs: Clusters, tries: seq<Replies>): map<string, string> {
    map a | a in AllAddrs(cfgs) && Found(AllAddrs(cfgs), tries, a).Some? :: Found(AllAddrs(cfgs), tries, a).value
  }

  /** The configured addresses that answer. */
  ghost function Healthy(cfgs: Clusters, tries: seq<Replies>): set<string> { Answers(cfgs, tries).Keys }

  /** An endpoint answers an attempt with two strings, the first of them "slaveof". */
  ghost predicate Said(replies: Replies, v: nat) {
    v in replies && exists value :: replies[v] == Pair("slaveof", value)
  }

  /** A configured address answers if and only if it is written the way its endpoint is
      printed and the endpoint answers in some attempt. */
  lemma HealthyExactly(cfgs: Clusters, tries: seq<Replies>, a: string)
    ensures a in Healthy(cfgs, tries) <==>
              (exists c :: c in cfgs && a in cfgs[c]) && IsPrinted(a)
              && exists i :: 0 <= i < |tries| && StrIpv4Int64(a).Some? && Said(tries[i], StrIpv4Int64(a).value)
  {
    AddressRoundTrip(a);
    if Survives(a) {
      var v := StrIpv4Int64(a).value;
      FirstOrLast(tries, v);
      forall i | 0 <= i < |tries|
        ensures Said(tries[i], v) <==> AnswerOf(tries[i], v).Some?
      {
        if AnswerOf(tries[i], v).Some? { assert tries[i][v] == Pair("slaveof", tries[i][v].value); }
      }
    }
  }

  /** And what it is taken to say is the value of its first such answer, or of its last one if
      another spelling of it is configured. */
  lemma AnswerExactly(cfgs: Clusters, tries: seq<Replies>, a: string) returns (i: nat, value: string)
    requires a in Healthy(cfgs, tries)
    ensures StrIpv4Int64(a).Some? && i < |tries|
    ensures var v := StrIpv4Int64(a).value;
            && v in tries[i] && tries[i][v] == Pair("slaveof", value) && Answers(cfgs, tries)[a] == IpPort(value)
            && if exists b :: b in AllAddrs(cfgs) && b != a && StrIpv4Int64(b) == Some(v)
               then forall j :: i < j < |tries| ==> !Said(tries[j], v)
               else forall j :: 0 <= j < i ==> !Said(tries[j], v)
  {
    var v := StrIpv4Int64(a).value;
    if Aliased(AllAddrs(cfgs), a) {
      i := LastSaid(tries, v);
    } else {
      i := FirstSaid(tries, v);
    }
    value := tries[i][v].value;
  }

  lemma {:induction false} FirstSaid(tries: seq<Replies>, v: nat) returns (i: nat)
    requires FirstAnswer(tries, v).Some?
    ensures i < |tries| && FirstAnswer(tries, v) == AnswerOf(tries[i], v)
    ensures forall j :: 0 <= j < i ==> !Said(tries[j], v)
  {
    i := 0;
    if AnswerOf(tries[0], v).None? {
      var k := FirstSaid(tries[1..], v);
      i := k + 1;
      forall j | 0 <= j < i
        ensures !Said(tries[j], v)
      {
        if j > 0 { assert tries[j] == tries[1..][j - 1]; }
      }
    }
  }

  lemma {:induction false} LastSaid(tries: seq<Replies>, v: nat) returns (i: nat)
    requires LastAnswer(tries, v).Some?
    ensures i < |tries| && LastAnswer(tries, v) == AnswerOf(tries[i], v)
    ensures forall j :: i < j < |tries| ==> !Said(tries[j], v)
  {
    i := 0;
    if LastAnswer(tries[1..], v).Some? {
      var k := LastSaid(tries[1..], v);
      i := k + 1;
    }
    forall j | i < j < |tries|
      ensures !Said(tries[j], v)
    {
      assert tries[j] == tries[1..][j - 1];
      if LastAnswer(tries[1..], v).None? { NoneSaid(tries[1..], v, j - 1); }
    }
  }

  lemma {:induction false} NoneSaid(tries: seq<Replies>, v: nat, j: nat)
    requires LastAnswer(tries, v).None? && j < |tries|
    ensures !Said(tries[j], v)
  {
    if j > 0 { NoneSaid(tries[1..], v, j - 1); }
  }

  /** So every master that is ever elected is read back as it is commanded. */
  lemma HealthyIsCanonical(cfgs: Clusters, tries: seq<Replies>, a: string)
    requires a in Healthy(cfgs, tries)
    ensures Canonical(a)
  {
    assert Found(AllAddrs(cfgs), tries, a).Some?;
    SurvivorIsCanonical(a);
  }

  // ----- what every pass keeps, wherever it stops -----

  /** A configured address loses its lowest node only when it does not answer and is not
      in the error tree, and leaves the error tree only when it answers. */
  ghost predicate Kept(k: Cluster, k': Cluster, cfg: set<string>, up: set<string>) {
    && (k.dir.Some? ==> k'.dir.Some?)
    && ErrOf(k) * cfg - up <= ErrOf(k')
    && Evolves(DirOf(k), DirOf(k'), cfg * (up + ErrOf(k)))
  }

  ghost predicate Safe(z: Tree, z': Tree, cfgs: Clusters, up: set<string>) {
    && z'.config == z.config && Wf(z')
    && forall c :: c in cfgs ==> Kept(At(z, c), At(z', c), cfgs[c], up)
  }

  lemma SafeStart(z: Tree, cfgs: Clusters, up: set<string>)
    requires Wf(z)
    ensures Safe(z, z, cfgs, up)
  {
  }

  lemma KeptTrans(k: Cluster, k1: Cluster, k2: Cluster, cfg: set<string>, up: set<string>)
    requires Kept(k, k1, cfg, up) && Kept(k1, k2, cfg, up)
    requires DirOk(DirOf(k)) && DirOk(DirOf(k1))
    ensures Kept(k, k2, cfg, up)
  {
    assert cfg * (up + ErrOf(k)) <= cfg * (up + ErrOf(k1));
    EvolvesTrans(DirOf(k), DirOf(k1), DirOf(k2), cfg * (up + ErrOf(k)));
  }

  lemma SafePrune(z: Tree, z1: Tree, z2: Tree, cfgs: Clusters, up: set<string>)
    requires Wf(z) && Safe(z, z1, cfgs, up) && PruneAll(z1, z2)
    ensures Safe(z, z2, cfgs, up)
  {
    PruneAllWf(z1, z2);
    forall c | c in cfgs
      ensures Kept(At(z, c), At(z2, c), cfgs[c], up)
    {
      assert Kept(At(z, c), At(z1, c), cfgs[c], up) && PrunePart(At(z1, c), At(z2, c));
      assert DirOk(DirOf(At(z, c))) && DirOk(DirOf(At(z1, c)));
      PrunedEvolves(DirOf(At(z1, c)), DirOf(At(z2, c)), cfgs[c] * (up + ErrOf(At(z1, c))));
      KeptTrans(At(z, c), At(z1, c), At(z2, c), cfgs[c], up);
    }
  }

  predicate OfPass(ph: Phase, cfgs: Clusters, up: set<string>) {
    match ph
    case Repairing(u) => u == up
    case Demoting(u) => u == up
    case _ => ph.cfgs == cfgs
  }

  lemma PartEvolves(ph: Phase, c: string, k: Cluster, k': Cluster, cfgs: Clusters, up: set<string>)
    requires OfPass(ph, cfgs, up) && c in cfgs && DirOk(DirOf(k)) && Part(ph, c, k, k')
    ensures Kept(k, k', cfgs[c], up)
  {
    var d, d', keep := DirOf(k), DirOf(k'), cfgs[c] * (up + ErrOf(k));
    match ph
    case Adding(_) => GrownEvolves(d, d', cfgs[c], keep);
    case TrimmingErrors(_) =>
    case TrimmingChecks(_) => ThinnedEvolves(d, d', cfgs[c]);
    case Repairing(_) => GrownEvolves(d, d', ErrOf(k) * up, keep);
    case Demoting(_) => ThinnedEvolves(d, d', up + ErrOf(k));
  }

  lemma SafePhase(ph: Phase, z: Tree, z1: Tree, z2: Tree, cfgs: Clusters, up: set<string>)
    requires Wf(z) && OfPass(ph, cfgs, up) && Safe(z, z1, cfgs, up) && PartAll(ph, z1, z2)
    ensures Safe(z, z2, cfgs, up)
  {
    PartWf(ph, z1, z2);
    forall c | c in cfgs
      ensures Kept(At(z, c), At(z2, c), cfgs[c], up)
    {
      assert Kept(At(z, c), At(z1, c), cfgs[c], up) && Part(ph, c, At(z1, c), At(z2, c));
      assert DirOk(DirOf(At(z, c))) && DirOk(DirOf(At(z1, c)));
      PartEvolves(ph, c, At(z1, c), At(z2, c), cfgs, up);
      KeptTrans(At(z, c), At(z1, c), At(z2, c), cfgs[c], up);
    }
  }

  // ----- what a completed pass reaches -----

  /** The error and check trees of one cluster after a completed pass. */
  ghost predicate Divided(k: Cluster, cfg: Option<set<string>>, up: set<string>) {
    match cfg
    case None => k == Cluster(None, None)
    case Some(s) =>
      && k.err == Some(s - up)
      && k.dir.Some? && Tidy(DirOf(k)) && Data(DirOf(k)) == s * up
  }

  ghost predicate DividedAll(z: Tree, cfgs: Clusters, up: set<string>) {
    forall c :: Divided(At(z, c), Lookup(cfgs, c), up)
  }

  /** Among new nodes, those of addresses that were not in the error tree come first, and
      otherwise they come in the order of their addresses. */
  predicate Precedes(errs: set<string>, a: string, b: string) {
    if (a in errs) == (b in errs) then Less(a, b) else b in errs
  }

  ghost predicate Seated(k: Cluster, k': Cluster) {
    var d, d' := DirOf(k), DirOf(k');
    forall x, y {:trigger d'.nodes[x], d'.nodes[y]} ::
      x in d'.nodes && y in d'.nodes && x !in d.nodes && y !in d.nodes && Idx(x) < Idx(y) ==>
        Precedes(ErrOf(k), d'.nodes[x], d'.nodes[y])
  }

  ghost predicate SeatedAll(z: Tree, z': Tree, cfgs: Clusters) {
    forall c :: c in cfgs ==> Seated(At(z, c), At(z', c))
  }

  /** A pass over `z` with these healthy addresses has nothing to write. */
  ghost predicate Settled(z: Tree, cfgs: Clusters, up: set<string>) {
    DividedAll(z, cfgs, up) && z.legal == LegalNames(Legals(z))
  }

  /** An address of the cluster that does not answer is in the error tree and has a
      sequence node besides. */
  ghost predicate Wedged(k: Cluster, cfg: set<string>, up: set<string>) {
    exists a :: a in cfg && a !in up && a in ErrOf(k) && a in SeqData(DirOf(k))
  }

  /** Nothing but a failed operation can stop a pass. */
  ghost predicate Feasible(z: Tree, up: set<string>) {
    var cfgs := Configured(z.config);
    Disjoint(cfgs) && Passable(z, cfgs, up)
  }

  ghost predicate Passable(z: Tree, cfgs: Clusters, up: set<string>) {
    forall c :: c in cfgs ==> cfgs[c] != {} && !Wedged(At(z, c), cfgs[c], up)
  }

  /** A pass from `z` that has reached legal_cmp, when these are the answers: everything but
      legal_nodes is as it should be. */
  ghost predicate Decides(z: Tree, z': Tree, cfgs: Clusters, answers: map<string, string>, cmds: map<string, string>) {
    && Passable(z, cfgs, answers.Keys)
    && DividedAll(z', cfgs, answers.Keys)
    && SeatedAll(z, z', cfgs)
    && Asked(z', answers, cmds)
    && Between(z.legal, LegalNames(Legals(z')), z'.legal)
  }

  /** What a completed pass from `z` reaches. */
  ghost predicate Reaches(z: Tree, z': Tree, answers: map<string, string>, cmds: map<string, string>) {
    var cfgs := Configured(z.config);
    && Feasible(z, answers.Keys)
    && Settled(z', cfgs, answers.Keys)
    && SeatedAll(z, z', cfgs)
    && Asked(z', answers, cmds)
  }

  ghost predicate Completed(z: Tree, z': Tree, tries: seq<Replies>, cmds: map<string, string>) {
    Reaches(z, z', Answers(Configured(z.config), tries), cmds)
  }

  /** All that is promised of a pass from `z` to `z'`, wherever it stops; `elected` says that
      it has reached legal_cmp, `ok` that it has completed. */
  ghost predicate Leaves(z: Tree, z': Tree, answers: map<string, string>, elected: bool, ok: bool,
                         cmds: map<string, string>, writes: nat) {
    var cfgs := Configured(z.config);
    && Safe(z, z', cfgs, answers.Keys)
    && (if elected then Disjoint(cfgs) && Decides(z, z', cfgs, answers, cmds) else z'.legal == z.legal)
    && (ok ==> elected && z'.legal == LegalNames(Legals(z')))
    && (Settled(z, cfgs, answers.Keys) ==> writes == 0 && z' == z)
    && (UniqueIndexes(z.legal) && DistinctIndexes(cfgs.Keys) ==> UniqueIndexes(z'.legal))
  }

  ghost predicate Outcome(z: Tree, z': Tree, tries: seq<Replies>, elected: bool, ok: bool, cmds: map<string, string>,
                          writes: nat) {
    Leaves(z, z', Answers(Configured(z.config), tries), elected, ok, cmds, writes)
  }

  // ----- what check_redis finds beside the configured addresses does not matter -----

  /** The answers of the configured addresses. */
  ghost predicate Covering(cfgs: Clusters, found: map<string, string>, answers: map<string, string>) {
    && answers.Keys == AllAddrs(cfgs) * found.Keys
    && forall a :: a in answers ==> answers[a] == found[a]
  }

  lemma FoundCovers(z: Tree, cfgs: Clusters, tries: seq<Replies>)
    requires tries != [] && cfgs == Configured(z.config)
    ensures Covering(cfgs, Poll(AllAddrs(cfgs), map[], tries), Answers(cfgs, tries))
  {
    var found := Poll(AllAddrs(cfgs), map[], tries);
    forall a | a in AllAddrs(cfgs)
      ensures Lookup(found, a) == Lookup(Answers(cfgs, tries), a)
    {
      PollFinds(AllAddrs(cfgs), tries, a);
    }
    forall a
      ensures a in Answers(cfgs, tries) <==> a in AllAddrs(cfgs) && a in found
      ensures a in Answers(cfgs, tries) ==> Answers(cfgs, tries)[a] == found[a]
    {
      assert a in AllAddrs(cfgs) ==> (a in found <==> Lookup(found, a).Some?);
    }
  }

  /** The sets agree on the configured addresses. */
  ghost predicate SameOn(cfgs: Clusters, up: set<string>, up': set<string>) {
    forall c, a :: c in cfgs && a in cfgs[c] ==> (a in up <==> a in up')
  }

  lemma SafeSame(z: Tree, z': Tree, cfgs: Clusters, up: set<string>, up': set<string>)
    requires Safe(z, z', cfgs, up) && SameOn(cfgs, up, up')
    ensures Safe(z, z', cfgs, up')
  {
    forall c | c in cfgs
      ensures Kept(At(z, c), At(z', c), cfgs[c], up')
    {
      var k, cfg := At(z, c), cfgs[c];
      assert Kept(k, At(z', c), cfg, up);
      assert cfg * (up + ErrOf(k)) == cfg * (up' + ErrOf(k)) && ErrOf(k) * cfg - up == ErrOf(k) * cfg - up';
    }
  }

  lemma DividedSame(z: Tree, cfgs: Clusters, up: set<string>, up': set<string>)
    requires DividedAll(z, cfgs, up) && SameOn(cfgs, up, up')
    ensures DividedAll(z, cfgs, up')
  {
    forall c
      ensures Divided(At(z, c), Lookup(cfgs, c), up')
    {
      assert Divided(At(z, c), Lookup(cfgs, c), up);
      if c in cfgs { assert cfgs[c] - up == cfgs[c] - up' && cfgs[c] * up == cfgs[c] * up'; }
    }
  }

  lemma PassableSame(z: Tree, cfgs: Clusters, up: set<string>, up': set<string>)
    requires Passable(z, cfgs, up) && SameOn(cfgs, up, up')
    ensures Passable(z, cfgs, up')
  {
    forall c | c in cfgs
      ensures cfgs[c] != {} && !Wedged(At(z, c), cfgs[c], up')
    {
      assert !Wedged(At(z, c), cfgs[c], up);
    }
  }

  lemma AskedSame(z: Tree, cfgs: Clusters, found: map<string, string>, answers: map<string, string>,
                  cmds: map<string, string>)
    requires Covering(cfgs, found, answers) && DividedAll(z, cfgs, found.Keys) && Asked(z, found, cmds)
    ensures Asked(z, answers, cmds)
  {
    forall c | c in ChkClusters(z)
      ensures CmdsOf(At(z, c), answers, cmds)
    {
      assert Divided(At(z, c), Lookup(cfgs, c), found.Keys) && CmdsOf(At(z, c), found, cmds);
      forall a | a in Data(DirOf(At(z, c)))
        ensures a in answers && answers[a] == found[a]
      {
        assert a in cfgs[c] && a in found;
        assert a in AllAddrs(cfgs);
      }
    }
  }

  lemma CoveredRegion(cfgs: Clusters, found: map<string, string>, answers: map<string, string>)
    requires Covering(cfgs, found, answers)
    ensures SameOn(cfgs, found.Keys, answers.Keys) && SameOn(cfgs, answers.Keys, found.Keys)
  {
    forall c, a | c in cfgs && a in cfgs[c]
      ensures a in found <==> a in answers
    {
      assert a in AllAddrs(cfgs);
    }
  }

  lemma LeavesSame(z: Tree, z': Tree, found: map<string, string>, answers: map<string, string>, elected: bool, ok: bool,
                   cmds: map<string, string>, writes: nat)
    requires Covering(Configured(z.config), found, answers) && Leaves(z, z', found, elected, ok, cmds, writes)
    ensures Leaves(z, z', answers, elected, ok, cmds, writes)
    ensures Feasible(z, answers.Keys) ==> Feasible(z, found.Keys)
  {
    var cfgs := Configured(z.config);
    CoveredRegion(cfgs, found, answers);
    SafeSame(z, z', cfgs, found.Keys, answers.Keys);
    if Settled(z, cfgs, answers.Keys) { DividedSame(z, cfgs, answers.Keys, found.Keys); }
    if Passable(z, cfgs, answers.Keys) { PassableSame(z, cfgs, answers.Keys, found.Keys); }
    if elected {
      DividedSame(z', cfgs, found.Keys, answers.Keys);
      PassableSame(z, cfgs, found.Keys, answers.Keys);
      AskedSame(z', cfgs, found, answers, cmds);
    }
  }

  lemma SafeLegal(z: Tree, z1: Tree, z2: Tree, cfgs: Clusters, up: set<string>)
    requires Safe(z, z1, cfgs, up) && z2 == z1.(legal := z2.legal)
    ensures Safe(z, z2, cfgs, up)
    ensures DividedAll(z1, cfgs, up) ==> DividedAll(z2, cfgs, up)
    ensures SeatedAll(z, z1, cfgs) ==> SeatedAll(z, z2, cfgs)
  {
    assert forall c :: At(z2, c) == At(z1, c);
  }

  lemma LegalsSame(z1: Tree, z2: Tree, up: map<string, string>, cmds: map<string, string>)
    requires z2 == z1.(legal := z2.legal)
    ensures Legals(z2) == Legals(z1)
    ensures Asked(z1, up, cmds) ==> Asked(z2, up, cmds)
  {
    assert forall c :: At(z2, c) == At(z1, c);
    if Asked(z1, up, cmds) {
      forall c | c in ChkClusters(z2)
        ensures CmdsOf(At(z2, c), up, cmds)
      {
        assert CmdsOf(At(z1, c), up, cmds);
      }
      forall a | a in cmds
        ensures exists c :: c in ChkClusters(z2) && a in Data(DirOf(At(z2, c)))
      {
        var c :| c in ChkClusters(z1) && a in Data(DirOf(At(z1, c)));
        assert a in Data(DirOf(At(z2, c)));
      }
    }
  }

  /** One cluster before check_redis: `k0` is what the pass found. */
  ghost predicate Trimmed(k0: Cluster, k: Cluster, cfg: Option<set<string>>) {
    match cfg
    case None => k == Cluster(None, None)
    case Some(s) =>
      && k.err == Some(ErrOf(k0) * s)
      && k.dir.Some? && Tidy(DirOf(k)) && Data(DirOf(k)) == (SeqData(DirOf(k0)) + (s - ErrOf(k0))) * s
      && InOrder(DirOf(k0), DirOf(k)) && NewFor(DirOf(k0), DirOf(k), s - ErrOf(k0))
  }

  ghost predicate TrimmedAll(z0: Tree, z: Tree, cfgs: Clusters) {
    forall c :: Trimmed(At(z0, c), At(z, c), Lookup(cfgs, c))
  }

  /** logic_check_rm may use the nodes read before logic_check_add. */
  lemma StillCovered(z1: Tree, z2: Tree, chks: map<string, map<string, string>>, cfgs: Clusters)
    requires Mirrors(chks, z1)
    requires PartAll(Adding(cfgs), z1, z2) && FullAll(Adding(cfgs), z1, z2)
    ensures Snapshot(chks, z2, cfgs)
  {
    forall c
      ensures c in chks ==> At(z2, c).dir.Some? && Covers(chks[c], DirOf(At(z2, c)), Lookup(cfgs, c))
      ensures c !in chks && At(z2, c).dir.Some? ==> c in cfgs && Data(DirOf(At(z2, c))) <= cfgs[c]
    {
      assert Part(Adding(cfgs), c, At(z1, c), At(z2, c)) && Full(Adding(cfgs), c, At(z1, c), At(z2, c));
      assert c in chks <==> At(z1, c).dir.Some?;
    }
  }

  lemma SnapshotSame(z: Tree, z': Tree, chks: map<string, map<string, string>>, cfgs: Clusters)
    requires Snapshot(chks, z, cfgs) && PartAll(TrimmingErrors(cfgs), z, z')
    ensures Snapshot(chks, z', cfgs)
  {
    forall c
      ensures c in chks ==> At(z', c).dir.Some? && Covers(chks[c], DirOf(At(z', c)), Lookup(cfgs, c))
      ensures c !in chks && At(z', c).dir.Some? ==> c in cfgs && Data(DirOf(At(z', c))) <= cfgs[c]
    {
      assert Part(TrimmingErrors(cfgs), c, At(z, c), At(z', c));
    }
  }

  lemma ErrorsSame(z0: Tree, z1: Tree, errs: Clusters)
    requires errs == ErrTree(z0) && PruneAll(z0, z1)
    ensures errs == ErrTree(z1)
  {
    forall c
      ensures At(z1, c).err == At(z0, c).err
    {
      assert PrunePart(At(z0, c), At(z1, c));
    }
    forall c
      ensures Lookup(errs, c) == Lookup(ErrTree(z1), c)
    {
      assert At(z1, c).err == At(z0, c).err;
    }
    assert forall c :: c in errs <==> Lookup(errs, c).Some?;
    assert forall c :: c in ErrTree(z1) <==> Lookup(ErrTree(z1), c).Some?;
    assert forall c :: c in errs ==> errs[c] == Lookup(errs, c).value == ErrTree(z1)[c];
  }

  lemma ErrorsKnown(z1: Tree, z2: Tree, errs: Clusters, cfgs: Clusters)
    requires errs == ErrTree(z1)
    requires PartAll(Adding(cfgs), z1, z2) && FullAll(Adding(cfgs), z1, z2)
    ensures forall c :: At(z2, c).err == (if c in errs then Some(errs[c]) else if c in cfgs then Some({}) else None)
  {
    forall c
      ensures At(z2, c).err == (if c in errs then Some(errs[c]) else if c in cfgs then Some({}) else None)
    {
      assert Part(Adding(cfgs), c, At(z1, c), At(z2, c)) && Full(Adding(cfgs), c, At(z1, c), At(z2, c));
    }
  }

  lemma TrimDone(z0: Tree, z1: Tree, z2: Tree, z3: Tree, z4: Tree, cfgs: Clusters)
    requires PruneAll(z0, z1) && forall c :: PruneFull(At(z0, c), At(z1, c))
    requires PartAll(Adding(cfgs), z1, z2) && FullAll(Adding(cfgs), z1, z2)
    requires PartAll(TrimmingErrors(cfgs), z2, z3) && FullAll(TrimmingErrors(cfgs), z2, z3)
    requires PartAll(TrimmingChecks(cfgs), z3, z4) && FullAll(TrimmingChecks(cfgs), z3, z4)
    ensures TrimmedAll(z0, z4, cfgs)
  {
    forall c
      ensures Trimmed(At(z0, c), At(z4, c), Lookup(cfgs, c))
    {
      assert PrunePart(At(z0, c), At(z1, c)) && PruneFull(At(z0, c), At(z1, c));
      assert Part(Adding(cfgs), c, At(z1, c), At(z2, c)) && Full(Adding(cfgs), c, At(z1, c), At(z2, c));
      assert Part(TrimmingErrors(cfgs), c, At(z2, c), At(z3, c)) && Full(TrimmingErrors(cfgs), c, At(z2, c), At(z3, c));
      assert Part(TrimmingChecks(cfgs), c, At(z3, c), At(z4, c)) && Full(TrimmingChecks(cfgs), c, At(z3, c), At(z4, c));
      if c in cfgs {
        OnlyThins(DirOf(At(z3, c)), cfgs[c]);
        TrimOrder(DirOf(At(z0, c)), DirOf(At(z1, c)), DirOf(At(z2, c)), cfgs[c], cfgs[c] - ErrOf(At(z0, c)));
      }
    }
  }

  /** Old nodes went, new ones came, and some of either went. */
  lemma TrimOrder(d0: Dir, d1: Dir, d2: Dir, keep: set<string>, addrs: set<string>)
    requires SubNodes(d1, d0) && InOrder(d1, d2) && NewFor(d1, d2, addrs)
    ensures InOrder(d0, Only(d2, keep)) && NewFor(d0, Only(d2, keep), addrs)
  {
  }

  lemma TrimmedPairs(z0: Tree, z4: Tree, cfgs: Clusters)
    requires TrimmedAll(z0, z4, cfgs)
    ensures forall c :: At(z4, c).err.Some? <==> At(z4, c).dir.Some?
  {
    forall c
      ensures At(z4, c).err.Some? <==> At(z4, c).dir.Some?
    {
      assert Trimmed(At(z0, c), At(z4, c), Lookup(cfgs, c));
    }
  }

  lemma RepairedPairs(z4: Tree, z5: Tree, up: set<string>)
    requires PartAll(Repairing(up), z4, z5) && forall c :: At(z4, c).err.Some? <==> At(z4, c).dir.Some?
    ensures forall c :: At(z5, c).err.Some? <==> At(z5, c).dir.Some?
  {
    forall c
      ensures At(z5, c).err.Some? <==> At(z5, c).dir.Some?
    {
      assert Part(Repairing(up), c, At(z4, c), At(z5, c));
    }
  }

  lemma AllSequence(d: Dir)
    requires forall n :: n in d.nodes ==> Padded(n)
    ensures SeqData(d) == Data(d)
  {
    forall a | a in Data(d)
      ensures a in SeqData(d)
    {
      var n :| n in d.nodes && d.nodes[n] == a;
    }
  }

  /** What check_check demotes, in terms of what the pass found. */
  lemma Judged(k0: Cluster, k4: Cluster, k5: Cluster, k6: Cluster, s: set<string>, up: set<string>)
    requires Trimmed(k0, k4, Some(s)) && DirOk(DirOf(k4))
    requires RepairPart(k4, k5, up) && RepairFull(k4, k5, up)
    requires PrunePart(k5, k6) && PruneFull(k5, k6)
    ensures k6.err.Some? && k6.dir.Some? && Tidy(DirOf(k6)) && DirOk(DirOf(k5))
    ensures ErrOf(k6) == ErrOf(k0) * s - up
    ensures Data(DirOf(k6)) == SeqData(DirOf(k0)) * s + (s - ErrOf(k0)) + ErrOf(k0) * s * up
    ensures Stuck(k6, up) <==> Wedged(k0, s, up)
  {
    AllSequence(DirOf(k5));
    StuckIsWedged(k0, k6, s, up);
  }

  lemma StuckIsWedged(k0: Cluster, k6: Cluster, s: set<string>, up: set<string>)
    requires ErrOf(k6) == ErrOf(k0) * s - up
    requires Data(DirOf(k6)) == SeqData(DirOf(k0)) * s + (s - ErrOf(k0)) + ErrOf(k0) * s * up
    ensures Stuck(k6, up) <==> Wedged(k0, s, up)
  {
    if Stuck(k6, up) {
      var a :| a in Data(DirOf(k6)) - up && a in ErrOf(k6);
      assert a in s && a in SeqData(DirOf(k0));
    }
    if Wedged(k0, s, up) {
      var a :| a in s && a !in up && a in ErrOf(k0) && a in SeqData(DirOf(k0));
      assert a in Data(DirOf(k6)) - up && a in ErrOf(k6);
    }
  }

  lemma DemotionDivides(k0: Cluster, k6: Cluster, k7: Cluster, s: set<string>, up: set<string>)
    requires k6.err.Some? && k6.dir.Some? && Tidy(DirOf(k6))
    requires ErrOf(k6) == ErrOf(k0) * s - up
    requires Data(DirOf(k6)) == SeqData(DirOf(k0)) * s + (s - ErrOf(k0)) + ErrOf(k0) * s * up
    requires DemotePart(k6, k7, up) && DemoteFull(k6, k7, up)
    ensures Divided(k7, Some(s), up)
  {
    OnlyThins(DirOf(k6), up);
    DividedSets(SeqData(DirOf(k0)), ErrOf(k0), s, up, Data(DirOf(k6)), ErrOf(k6));
  }

  lemma DividedSets(data0: set<string>, err0: set<string>, s: set<string>, up: set<string>, data: set<string>,
                    err: set<string>)
    requires err == err0 * s - up && data == data0 * s + (s - err0) + err0 * s * up
    ensures data * up == s * up && err + (data - up) == s - up
  {
  }

  /** New nodes come from logic_check_add or, later, from check_error. */
  lemma PassSeats(k0: Cluster, k4: Cluster, k5: Cluster, k7: Cluster, s: set<string>, up: set<string>)
    requires Trimmed(k0, k4, Some(s)) && DirOk(DirOf(k4))
    requires RepairPart(k4, k5, up) && RepairFull(k4, k5, up) && SubNodes(DirOf(k7), DirOf(k5))
    ensures Seated(k0, k7)
  {
    var d0, d4, d7 := DirOf(k0), DirOf(k4), DirOf(k7);
    forall x, y | x in d7.nodes && y in d7.nodes && x !in d0.nodes && y !in d0.nodes && Idx(x) < Idx(y)
      ensures Precedes(ErrOf(k0), d7.nodes[x], d7.nodes[y])
    {
      assert x in d4.nodes ==> d4.nodes[x] == d7.nodes[x] && d7.nodes[x] !in ErrOf(k0);
      assert y in d4.nodes ==> d4.nodes[y] == d7.nodes[y] && d7.nodes[y] !in ErrOf(k0) && Idx(y) < d4.next;
    }
  }

  lemma JudgedAll(z0: Tree, z4: Tree, z5: Tree, z6: Tree, cfgs: Clusters, up: set<string>, c: string)
    requires TrimmedAll(z0, z4, cfgs) && Wf(z4)
    requires PartAll(Repairing(up), z4, z5) && FullAll(Repairing(up), z4, z5)
    requires PruneAll(z5, z6) && forall c :: PruneFull(At(z5, c), At(z6, c))
    ensures c in cfgs ==> (Stuck(At(z6, c), up) <==> Wedged(At(z0, c), cfgs[c], up))
    ensures c !in cfgs ==> At(z6, c) == Cluster(None, None)
  {
    assert Trimmed(At(z0, c), At(z4, c), Lookup(cfgs, c)) && DirOk(DirOf(At(z4, c)));
    assert Part(Repairing(up), c, At(z4, c), At(z5, c)) && Full(Repairing(up), c, At(z4, c), At(z5, c));
    assert PrunePart(At(z5, c), At(z6, c)) && PruneFull(At(z5, c), At(z6, c));
    if c in cfgs { Judged(At(z0, c), At(z4, c), At(z5, c), At(z6, c), cfgs[c], up); }
  }

  lemma PassDivides(z0: Tree, z4: Tree, z5: Tree, z6: Tree, z7: Tree, cfgs: Clusters, up: set<string>)
    requires TrimmedAll(z0, z4, cfgs) && Wf(z4)
    requires PartAll(Repairing(up), z4, z5) && FullAll(Repairing(up), z4, z5)
    requires PruneAll(z5, z6) && forall c :: PruneFull(At(z5, c), At(z6, c))
    requires PartAll(Demoting(up), z6, z7) && FullAll(Demoting(up), z6, z7)
    ensures DividedAll(z7, cfgs, up) && SeatedAll(z0, z7, cfgs)
    ensures forall c :: c in cfgs ==> !Wedged(At(z0, c), cfgs[c], up)
  {
    forall c
      ensures Divided(At(z7, c), Lookup(cfgs, c), up)
      ensures c in cfgs ==> !Wedged(At(z0, c), cfgs[c], up) && Seated(At(z0, c), At(z7, c))
    {
      assert Trimmed(At(z0, c), At(z4, c), Lookup(cfgs, c)) && DirOk(DirOf(At(z4, c)));
      assert Part(Repairing(up), c, At(z4, c), At(z5, c)) && Full(Repairing(up), c, At(z4, c), At(z5, c));
      assert PrunePart(At(z5, c), At(z6, c)) && PruneFull(At(z5, c), At(z6, c));
      assert Part(Demoting(up), c, At(z6, c), At(z7, c)) && Full(Demoting(up), c, At(z6, c), At(z7, c));
      if c in cfgs {
        Judged(At(z0, c), At(z4, c), At(z5, c), At(z6, c), cfgs[c], up);
        DemotionDivides(At(z0, c), At(z6, c), At(z7, c), cfgs[c], up);
        PassSeats(At(z0, c), At(z4, c), At(z5, c), At(z7, c), cfgs[c], up);
      }
    }
  }

  lemma DividedIsIdle(z: Tree, cfgs: Clusters, up: set<string>)
    requires DividedAll(z, cfgs, up)
    ensures AllTidy(z)
    ensures IdleAll(Adding(cfgs), z) && IdleAll(TrimmingErrors(cfgs), z) && IdleAll(TrimmingChecks(cfgs), z)
    ensures IdleAll(Repairing(up), z) && IdleAll(Demoting(up), z)
  {
    forall c
      ensures Tidy(DirOf(At(z, c)))
      ensures Idle(Adding(cfgs), c, At(z, c))
                  && Idle(TrimmingErrors(cfgs), c, At(z, c)) && Idle(TrimmingChecks(cfgs), c, At(z, c))
      ensures Idle(Repairing(up), c, At(z, c)) && Idle(Demoting(up), c, At(z, c))
    {
      assert Divided(At(z, c), Lookup(cfgs, c), up);
    }
  }

  /** After a completed pass no address has nodes in two clusters. */
  lemma DividedDisjoint(z: Tree, cfgs: Clusters, up: set<string>)
    requires Disjoint(cfgs) && DividedAll(z, cfgs, up)
    ensures DataDisjoint(z)
    ensures ChkClusters(z) == cfgs.Keys
    ensures forall c :: Data(DirOf(At(z, c))) <= up
    ensures forall c :: c in cfgs ==> (Deserted(At(z, c)) <==> cfgs[c] == {})
  {
    forall c
      ensures Divided(At(z, c), Lookup(cfgs, c), up)
      ensures c in ChkClusters(z) <==> c in cfgs
      ensures Data(DirOf(At(z, c))) <= up
      ensures c !in cfgs ==> Data(DirOf(At(z, c))) == {}
      ensures c in cfgs ==> (Deserted(At(z, c)) <==> cfgs[c] == {})
    {
      var k := At(z, c);
      assert Divided(k, Lookup(cfgs, c), up);
      if c in cfgs {
        assert cfgs[c] == ErrOf(k) + Data(DirOf(k));
        assert Data(DirOf(k)) == {} <==> DirOf(k).nodes == map[] by { NoNodes(DirOf(k)); }
      }
    }
  }

  lemma NoNodes(d: Dir)
    ensures Data(d) == {} <==> d.nodes == map[]
  {
    if d.nodes != map[] {
      var n :| n in d.nodes;
      assert d.nodes[n] in Data(d);
    }
  }
}

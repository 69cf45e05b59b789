/** From the configuration in ZooKeeper to the address that a client uses. */
module EndToEnd {
  import opened Options
  import opened Sequences
  import opened Text
  import opened Address
  import opened Ipv4
  import opened ZkTree
  import opened Legal
  import opened CtrlSteps
  import opened Polling
  import opened PassSpec
  import opened CtrlTrace
  import opened CtrlRuns
  import opened RedisHash

  /** What the names in the configuration must be like for clients to read them back:
      indexes differ and fit an int, and no address contains a semicolon. */
  ghost predicate Readable(cfgs: Clusters) {
    && DistinctIndexes(cfgs.Keys)
    && forall c :: c in cfgs ==>
        && -INT_LIMIT <= CutIdx(CLUSTER_PREFIX, c) < INT_LIMIT
        && forall a :: a in cfgs[c] ==> NoSemicolon(a)
  }

  ghost predicate AllValid(cfgs: Clusters) { forall c, a :: c in cfgs && a in cfgs[c] ==> AddrOk(a) }

  /** The published list of a cluster is made of configured addresses, and not empty. */
  lemma LegalFromConfig(k: Cluster, cfg: set<string>, up: set<string>)
    requires Divided(k, Some(cfg), up) && cfg != {}
    ensures LegalAddrs(k) != [] && forall i :: 0 <= i < |LegalAddrs(k)| ==> LegalAddrs(k)[i] in cfg
  {
    OrderMembers(DirOf(k));
    NoNodes(DirOf(k));
    if DirOf(k).nodes != map[] {
      forall i | 0 <= i < |LegalAddrs(k)|
        ensures LegalAddrs(k)[i] in cfg
      {
        assert Order(DirOf(k))[i] in Order(DirOf(k));
      }
    } else {
      assert cfg == (cfg - up) + cfg * up;
      assert ErrOf(k) == cfg;
      ListsMembers(Ordered(cfg), cfg);
    }
  }

  /** The list of one cluster can be read. */
  lemma ListIsPublishable(k: Cluster, cfg: set<string>, up: set<string>)
    requires Divided(k, Some(cfg), up) && cfg != {} && forall a :: a in cfg ==> AddrOk(a) && NoSemicolon(a)
    ensures LegalAddrs(k) != [] && Plain(LegalAddrs(k)) && AllAddrsOk(LegalAddrs(k))
  {
    LegalFromConfig(k, cfg, up);
  }

  /** What an election wants to publish, clients can read. */
  lemma DividedIsPublishable(z: Tree, cfgs: Clusters, up: set<string>)
    requires DividedAll(z, cfgs, up) && Disjoint(cfgs) && Readable(cfgs) && AllValid(cfgs)
    requires forall c :: c in cfgs ==> cfgs[c] != {}
    ensures Publishable(Legals(z)) && Legals(z).Keys == cfgs.Keys
  {
    DividedDisjoint(z, cfgs, up);
    forall c | c in Legals(z)
      ensures Legals(z)[c] != [] && Plain(Legals(z)[c]) && AllAddrsOk(Legals(z)[c])
      ensures -INT_LIMIT <= CutIdx(CLUSTER_PREFIX, c) < INT_LIMIT
    {
      assert Divided(At(z, c), Lookup(cfgs, c), up);
      ListIsPublishable(At(z, c), cfgs[c], up);
    }
  }

  lemma PassIsPublishable(z: Tree, z': Tree, tries: seq<Replies>, cmds: map<string, string>)
    requires Completed(z, z', tries, cmds) && Readable(Configured(z.config))
    ensures Publishable(Legals(z')) && Legals(z').Keys == Configured(z.config).Keys
  {
    DividedIsPublishable(z', Configured(z.config), Healthy(Configured(z.config), tries));
  }

  /** After a completed pass every client that reads legal_nodes, in any order, has for
      each configured cluster the list that the controller published, and the first entry
      is the master whenever an address of the cluster answers. */
  lemma ClientFollowsController(z: Tree, z': Tree, tries: seq<Replies>, cmds: map<string, string>,
                                children: seq<string>, c: string)
    requires Completed(z, z', tries, cmds) && Readable(Configured(z.config))
    requires Elems(children) == z'.legal && c in Configured(z.config)
    ensures AllParse(children)
    ensures Recovered(PackedMap(EndsRead(children)), CutIdx(CLUSTER_PREFIX, c), LegalAddrs(At(z', c)))
    ensures Order(DirAt(z', c)) != [] ==>
              Some(PackedMap(EndsRead(children))[CutIdx(CLUSTER_PREFIX, c)][0]) == StrIpv4Int64(Order(DirAt(z', c))[0])
  {
    PassIsPublishable(z, z', tries, cmds);
    ClientRecovers(Legals(z'), children);
    assert c in Legals(z') && Legals(z')[c] == LegalAddrs(At(z', c));
    OrderMembers(DirAt(z', c));
    LegalFromConfigured(z, z', tries, cmds, c);
  }

  lemma LegalFromConfigured(z: Tree, z': Tree, tries: seq<Replies>, cmds: map<string, string>, c: string)
    requires Completed(z, z', tries, cmds) && c in Configured(z.config)
    ensures LegalAddrs(At(z', c)) != []
  {
    var cfgs := Configured(z.config);
    assert Divided(At(z', c), Lookup(cfgs, c), Healthy(cfgs, tries));
    LegalFromConfig(At(z', c), cfgs[c], Healthy(cfgs, tries));
  }

  // ----- at every state of a run -----

  /** The name of a list that clients can read; for the cluster of this index it starts with
      the address. */
  ghost predicate IsReadableName(x: string, idx: int, m: string, d: string, list: seq<string>) {
    && x == LegalName(d, list) && list != [] && Plain(list) && AllAddrsOk(list)
    && -INT_LIMIT <= CutIdx(CLUSTER_PREFIX, d) < INT_LIMIT
    && (CutIdx(CLUSTER_PREFIX, d) == idx ==> list[0] == m)
  }

  ghost predicate ReadableNames(legal: set<string>, idx: int, m: string) {
    forall x :: x in legal ==> exists d, list :: IsReadableName(x, idx, m, d, list)
  }

  lemma WantedIsReadable(want: map<string, seq<string>>, c: string, m: string)
    requires Publishable(want) && c in want && want[c][0] == m
    ensures ReadableNames(LegalNames(want), CutIdx(CLUSTER_PREFIX, c), m)
  {
    forall x | x in LegalNames(want)
      ensures exists d, list :: IsReadableName(x, CutIdx(CLUSTER_PREFIX, c), m, d, list)
    {
      var d :| d in want && x == LegalName(d, want[d]);
      assert IsReadableName(x, CutIdx(CLUSTER_PREFIX, c), m, d, want[d]);
    }
  }

  /** In every pass from event `i` up to event `j` the configuration can be read back. */
  ghost predicate AlwaysReadable(r: Trace, i: nat, j: nat)
    requires |r.zs| == |r.es| + 1 && i <= j <= |r.es|
  {
    forall k :: i <= k < j && r.es[k].Pass? ==> Readable(Configured(r.zs[k].config))
  }

  lemma StepReadable(z: Tree, e: Event, z': Tree, c: string, n: string, m: string)
    requires Step(z, e, z') && ReadableNames(z.legal, CutIdx(CLUSTER_PREFIX, c), m)
    requires Leads(DirAt(z', c), n) && DirAt(z', c).nodes[n] == m
    requires e.Pass? ==> c in Configured(z.config) && Readable(Configured(z.config))
    ensures ReadableNames(z'.legal, CutIdx(CLUSTER_PREFIX, c), m)
  {
    if e.Pass? && e.elected && !(z'.legal <= z.legal) {
      LeaderElected(z, z', e, c, n);
      var cfgs := Configured(z.config);
      DividedIsPublishable(z', cfgs, Healthy(cfgs, e.tries));
      WantedIsReadable(Legals(z'), c, m);
    }
  }

  lemma LastReadable(r: Trace, c: string, n: string, m: string, k: nat, j: nat)
    requires IsRun(r) && j == k + 1 <= |r.es| && LoyalIn(r.zs[k], r.es[k], c, {m})
    requires r.es[k].Pass? ==> Readable(Configured(r.zs[k].config))
    requires Leads(DirAt(r.zs[j], c), n) && DirAt(r.zs[j], c).nodes[n] == m
    requires ReadableNames(r.zs[k].legal, CutIdx(CLUSTER_PREFIX, c), m)
    ensures ReadableNames(r.zs[j].legal, CutIdx(CLUSTER_PREFIX, c), m)
  {
    assert StepAt(r, k);
    StepReadable(r.zs[k], r.es[k], r.zs[j], c, n, m);
  }

  lemma {:induction false} LeaderReadable(r: Trace, c: string, n: string, m: string, i: nat, j: nat)
    requires IsRun(r) && i <= j <= |r.es| && AlwaysReadable(r, i, j)
    requires Leads(DirAt(r.zs[i], c), n) && DirAt(r.zs[i], c).nodes[n] == m && Loyal(r, c, {m}, i, j)
    requires ReadableNames(r.zs[i].legal, CutIdx(CLUSTER_PREFIX, c), m)
    ensures ReadableNames(r.zs[j].legal, CutIdx(CLUSTER_PREFIX, c), m)
    decreases j - i
  {
    if i < j {
      var k := j - 1;
      LeaderReadable(r, c, n, m, i, k);
      LeaderLasts(r, c, n, m, i, j);
      LastReadable(r, c, n, m, k, j);
    }
  }

  lemma {:induction false} ReadFrom(children: seq<string>, idx: int) returns (k: nat)
    requires AllParse(children) && idx in EndsRead(children)
    ensures k < |children| && Parse(children[k]) == Ok(idx, EndsRead(children)[idx])
  {
    var n := |children| - 1;
    if Parse(children[n]).cls == idx {
      k := n;
    } else {
      k := ReadFrom(children[..n], idx);
      assert children[..n][k] == children[k];
    }
  }

  /** A client that reads such names has no other first address for the cluster. */
  lemma ClientReads(legal: set<string>, idx: int, m: string, children: seq<string>)
    requires ReadableNames(legal, idx, m) && Elems(children) == legal
    ensures AllParse(children)
    ensures idx in EndsRead(children) ==>
              PackedMap(EndsRead(children))[idx] != [] && Some(PackedMap(EndsRead(children))[idx][0]) == StrIpv4Int64(m)
  {
    forall k | 0 <= k < |children|
      ensures Parse(children[k]).Ok?
    {
      assert children[k] in Elems(children);
      var d, list :| IsReadableName(children[k], idx, m, d, list);
      ParseInvertsLegalName(d, list);
    }
    if idx in EndsRead(children) {
      var k := ReadFrom(children, idx);
      assert children[k] in Elems(children);
      var d, list :| IsReadableName(children[k], idx, m, d, list);
      ParseInvertsLegalName(d, list);
      PackedIs(EndsRead(children), idx, list);
    }
  }

  /** After a completed pass that elects a master, at every later state, between passes and
      after aborted ones, every client that reads legal_nodes has that master as the first
      address of the cluster, or does not have the cluster; as long as the master is
      configured and answers. */
  lemma ClientKeepsMaster(r: Trace, c: string, m: string, i: nat, j: nat, children: seq<string>)
    requires IsRun(r) && 0 < i <= j <= |r.es| && AlwaysReadable(r, i - 1, j)
    requires r.es[i - 1].Pass? && r.es[i - 1].ok
    requires c in Configured(r.zs[i - 1].config) && Elects(r.zs[i - 1], r.zs[i], r.es[i - 1], c, m)
    requires Loyal(r, c, {m}, i, j) && Elems(children) == r.zs[j].legal
    ensures AllParse(children)
    ensures var idx := CutIdx(CLUSTER_PREFIX, c);
            idx in EndsRead(children) ==>
              PackedMap(EndsRead(children))[idx] != [] && Some(PackedMap(EndsRead(children))[idx][0]) == StrIpv4Int64(m)
  {
    var h := i - 1;
    assert StepAt(r, h) && r.es[h].elected;
    var cfgs := Configured(r.zs[h].config);
    DividedIsPublishable(r.zs[i], cfgs, Healthy(cfgs, r.es[h].tries));
    WantedIsReadable(Legals(r.zs[i]), c, m);
    var n := ElectedLeads(r, i, c, m);
    LeaderReadable(r, c, n, m, i, j);
    ClientReads(r.zs[j].legal, CutIdx(CLUSTER_PREFIX, c), m, children);
  }
}

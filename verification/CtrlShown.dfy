/** What is published at every state of a run, also while passes stop halfway. */
module CtrlShown {
  import opened Decimal
  import opened Text
  import opened ZkTree
  import opened Legal
  import opened CtrlSteps
  import opened PassSpec
  import opened CtrlTrace
  import opened CtrlRuns

  /** The name lists this address first. */
  ghost predicate ListsFirst(name: string, m: string) {
    exists rest: seq<string> :: name == Head(name) + Joined([m] + rest)
  }

  /** Every published name with the index of the cluster lists this address first. */
  ghost predicate Shows(legal: set<string>, c: string, m: string) {
    forall x :: x in legal && Head(x) == OfInt(CutIdx(CLUSTER_PREFIX, c)) ==> ListsFirst(x, m)
  }

  /** In every pass from event `i` up to event `j` the configured indexes differ. */
  ghost predicate IndexesDiffer(r: Trace, i: nat, j: nat)
    requires |r.zs| == |r.es| + 1 && i <= j <= |r.es|
  {
    forall k :: i <= k < j && r.es[k].Pass? ==> DistinctIndexes(Configured(r.zs[k].config).Keys)
  }

  /** A name of a wanted list that has the index of the cluster is its own. */
  lemma OwnName(want: map<string, seq<string>>, c: string, x: string)
    requires DistinctIndexes(want.Keys) && c in want
    requires x in LegalNames(want) && Head(x) == OfInt(CutIdx(CLUSTER_PREFIX, c))
    ensures x == LegalName(c, want[c])
  {
    var d :| d in want && x == LegalName(d, want[d]);
    HeadOfLegal(d, want[d]);
    OfIntInjective(CutIdx(CLUSTER_PREFIX, c), CutIdx(CLUSTER_PREFIX, d));
  }

  lemma OwnNameListsFirst(want: map<string, seq<string>>, c: string, x: string)
    requires DistinctIndexes(want.Keys) && c in want && want[c] != []
    requires x in LegalNames(want) && Head(x) == OfInt(CutIdx(CLUSTER_PREFIX, c))
    ensures ListsFirst(x, want[c][0])
  {
    OwnName(want, c, x);
    HeadThenList(x, want[c]);
  }

  lemma HeadThenList(x: string, list: seq<string>)
    requires list != [] && x == Head(x) + Joined(list)
    ensures ListsFirst(x, list[0])
  {
    var rest := list[1..];
    assert [list[0]] + rest == list;
    assert x == Head(x) + Joined([list[0]] + rest);
  }

  /** A pass publishes nothing else for the cluster of a leader, wherever it stops. */
  lemma StepShows(z: Tree, e: Event, z': Tree, c: string, n: string, m: string)
    requires Step(z, e, z') && Shows(z.legal, c, m) && Leads(DirAt(z', c), n) && DirAt(z', c).nodes[n] == m
    requires e.Pass? ==> c in Configured(z.config) && DistinctIndexes(Configured(z.config).Keys)
    ensures Shows(z'.legal, c, m)
  {
    if e.Pass? && e.elected && !(z'.legal <= z.legal) {
      var cfgs := Configured(z.config);
      DividedDisjoint(z', cfgs, Healthy(cfgs, e.tries));
      LeaderElected(z, z', e, c, n);
      forall x | x in z'.legal && Head(x) == OfInt(CutIdx(CLUSTER_PREFIX, c))
        ensures ListsFirst(x, m)
      {
        OwnNameListsFirst(Legals(z'), c, x);
      }
    }
  }

  /** Once a loyal leader is the first address of every published name with the index of
      its cluster, it stays so at every later state, wherever passes stop. */
  lemma {:induction false} LeaderShown(r: Trace, c: string, n: string, m: string, i: nat, j: nat)
    requires IsRun(r) && i <= j <= |r.es| && IndexesDiffer(r, i, j)
    requires Leads(DirAt(r.zs[i], c), n) && DirAt(r.zs[i], c).nodes[n] == m && Loyal(r, c, {m}, i, j)
    requires Shows(r.zs[i].legal, c, m)
    ensures Shows(r.zs[j].legal, c, m)
    decreases j - i
  {
    if i < j {
      var k := j - 1;
      LeaderShown(r, c, n, m, i, k);
      LeaderLasts(r, c, n, m, i, j);
      LastShows(r, c, n, m, k, j);
    }
  }

  lemma LastShows(r: Trace, c: string, n: string, m: string, k: nat, j: nat)
    requires IsRun(r) && j == k + 1 <= |r.es| && LoyalIn(r.zs[k], r.es[k], c, {m})
    requires r.es[k].Pass? ==> DistinctIndexes(Configured(r.zs[k].config).Keys)
    requires Leads(DirAt(r.zs[j], c), n) && DirAt(r.zs[j], c).nodes[n] == m && Shows(r.zs[k].legal, c, m)
    ensures Shows(r.zs[j].legal, c, m)
  {
    assert StepAt(r, k);
    StepShows(r.zs[k], r.es[k], r.zs[j], c, n, m);
  }

  /** What a completed pass publishes for a cluster is the list it has elected. */
  lemma CompletedShows(z: Tree, z': Tree, e: Event, c: string, m: string)
    requires e.Pass? && e.ok && Step(z, e, z') && c in Configured(z.config)
    requires DistinctIndexes(Configured(z.config).Keys) && Elects(z, z', e, c, m)
    ensures Shows(z'.legal, c, m)
  {
    var cfgs := Configured(z.config);
    DividedDisjoint(z', cfgs, Healthy(cfgs, e.tries));
    forall x | x in z'.legal && Head(x) == OfInt(CutIdx(CLUSTER_PREFIX, c))
      ensures ListsFirst(x, m)
    {
      OwnNameListsFirst(Legals(z'), c, x);
    }
  }

  /** A master that a completed pass has elected is the first address of every name published
      for its cluster at every later state, between passes and after aborted ones, as long
      as it is configured and answers. */
  lemma MasterShown(r: Trace, c: string, m: string, i: nat, j: nat)
    requires IsRun(r) && 0 < i <= j <= |r.es| && IndexesDiffer(r, i - 1, j)
    requires r.es[i - 1].Pass? && r.es[i - 1].ok
    requires c in Configured(r.zs[i - 1].config) && Elects(r.zs[i - 1], r.zs[i], r.es[i - 1], c, m)
    requires Loyal(r, c, {m}, i, j)
    ensures Shows(r.zs[j].legal, c, m)
  {
    var h := i - 1;
    assert StepAt(r, h);
    assert r.es[h].elected;
    CompletedShows(r.zs[h], r.zs[i], r.es[h], c, m);
    var n := ElectedLeads(r, i, c, m);
    LeaderShown(r, c, n, m, i, j);
  }

  // ----- a name that stays wanted -----

  /** Every pass from event `i` up to event `j` that reaches the election elects this list. */
  ghost predicate AlwaysElected(r: Trace, c: string, list: seq<string>, i: nat, j: nat)
    requires |r.zs| == |r.es| + 1 && i <= j <= |r.es|
  {
    forall k :: i <= k < j && r.es[k].Pass? && r.es[k].elected ==> ElectsList(r, c, list, k)
  }

  ghost predicate ElectsList(r: Trace, c: string, list: seq<string>, k: nat)
    requires |r.zs| == |r.es| + 1 && k < |r.es|
  {
    c in ChkClusters(r.zs[k + 1]) && LegalAddrs(At(r.zs[k + 1], c)) == list
  }

  /** A name that stays wanted is never withdrawn, not even for a moment. */
  lemma {:induction false} NeverWithdrawn(r: Trace, c: string, list: seq<string>, i: nat, j: nat)
    requires IsRun(r) && i <= j <= |r.es| && AlwaysElected(r, c, list, i, j)
    requires LegalName(c, list) in r.zs[i].legal
    ensures LegalName(c, list) in r.zs[j].legal
    decreases j - i
  {
    if i < j {
      var k := j - 1;
      NeverWithdrawn(r, c, list, i, k);
      assert StepAt(r, k);
      if r.es[k].Pass? && r.es[k].elected {
        assert ElectsList(r, c, list, k);
        StillWanted(r.zs[k], r.es[k], r.zs[j], c, list);
      }
    }
  }

  lemma StillWanted(z: Tree, e: Event, z': Tree, c: string, list: seq<string>)
    requires e.Pass? && e.elected && Step(z, e, z') && LegalName(c, list) in z.legal
    requires c in ChkClusters(z') && LegalAddrs(At(z', c)) == list
    ensures LegalName(c, list) in z'.legal
  {
    assert Legals(z')[c] == list;
    assert LegalName(c, list) in LegalNames(Legals(z'));
  }
}

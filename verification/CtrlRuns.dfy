/** What holds over every run of the controller. */
module CtrlRuns {
  import opened Options
  import opened Text
  import opened ZkTree
  import opened Legal
  import opened CtrlSteps
  import opened PassSpec
  import opened CtrlTrace

  lemma {:induction false} RunWf(r: Trace, i: nat)
    requires IsRun(r) && i <= |r.es|
    ensures Wf(r.zs[i])
  {
    if i > 0 {
      var j := i - 1;
      RunWf(r, j);
      assert StepAt(r, j);
      StepWf(r.zs[j], r.es[j], r.zs[i]);
    }
  }

  lemma StepWf(z: Tree, e: Event, z': Tree)
    requires Step(z, e, z') && Wf(z)
    ensures Wf(z')
  {
    if e.Configure? {
      forall c
        ensures DirOk(DirOf(At(z', c)))
      {
        assert At(z', c) == At(z, c);
      }
    }
  }

  lemma EvolvesLess(d: Dir, d': Dir, keep: set<string>, less: set<string>)
    requires Evolves(d, d', keep) && less <= keep
    ensures Evolves(d, d', less)
  {
  }

  lemma DirsOk(r: Trace, c: string, i: nat)
    requires IsRun(r) && i <= |r.es|
    ensures DirOk(DirAt(r.zs[i], c))
  {
    RunWf(r, i);
  }

  lemma LastEvolves(r: Trace, c: string, keep: set<string>, k: nat, j: nat)
    requires IsRun(r) && j == k + 1 <= |r.es| && LoyalIn(r.zs[k], r.es[k], c, keep)
    ensures DirOk(DirAt(r.zs[k], c)) && Evolves(DirAt(r.zs[k], c), DirAt(r.zs[j], c), keep)
  {
    DirsOk(r, c, k);
    assert StepAt(r, k);
    StepEvolves(r.zs[k], r.es[k], r.zs[j], c, keep);
  }

  /** Over any part of a run a loyal address keeps its lowest node, and newer nodes have
      higher numbers. */
  lemma {:induction false} RunEvolves(r: Trace, c: string, keep: set<string>, i: nat, j: nat)
    requires IsRun(r) && i <= j <= |r.es| && Loyal(r, c, keep, i, j)
    ensures Evolves(DirAt(r.zs[i], c), DirAt(r.zs[j], c), keep)
    decreases j - i
  {
    if i < j {
      var k := j - 1;
      RunEvolves(r, c, keep, i, k);
      DirsOk(r, c, i);
      LastEvolves(r, c, keep, k, j);
      EvolvesTrans(DirAt(r.zs[i], c), DirAt(r.zs[k], c), DirAt(r.zs[j], c), keep);
    }
  }

  lemma StepEvolves(z: Tree, e: Event, z': Tree, c: string, keep: set<string>)
    requires Step(z, e, z')
    requires LoyalIn(z, e, c, keep)
    ensures Evolves(DirAt(z, c), DirAt(z', c), keep)
  {
    if e.Pass? {
      var cfgs := Configured(z.config);
      var up := Healthy(cfgs, e.tries);
      assert Kept(At(z, c), At(z', c), cfgs[c], up);
      EvolvesLess(DirAt(z, c), DirAt(z', c), cfgs[c] * (up + ErrOf(At(z, c))), keep);
    }
  }

  // ----- the master -----

  lemma LeaderStays(d: Dir, d': Dir, keep: set<string>, n: string)
    requires DirOk(d) && Evolves(d, d', keep) && Leads(d, n) && d.nodes[n] in keep
    ensures Leads(d', n) && d'.nodes[n] == d.nodes[n]
  {
    assert IsLowest(d, n);
  }

  lemma LeaderIsFirst(d: Dir, n: string)
    requires Tidy(d) && Leads(d, n)
    ensures Order(d) != [] && Order(d)[0] == d.nodes[n]
  {
    var names := Ordered(d.nodes.Keys);
    ListsMembers(names, d.nodes.Keys);
    PaddedOrder(names[0], n);
    LessTotal(names[0], n);
  }

  lemma FirstLeads(d: Dir) returns (n: string)
    requires Tidy(d) && Order(d) != []
    ensures Leads(d, n) && d.nodes[n] == Order(d)[0]
  {
    var names := Ordered(d.nodes.Keys);
    ListsMembers(names, d.nodes.Keys);
    n := names[0];
    forall x | x in d.nodes
      ensures Idx(n) <= Idx(x)
    {
      if x != n {
        assert x in names[1..];
        PaddedOrder(n, x);
      }
    }
  }

  lemma LeaderElected(z: Tree, z': Tree, e: Event, c: string, n: string)
    requires e.Pass? && e.elected && Step(z, e, z') && c in Configured(z.config)
    requires Leads(DirAt(z', c), n)
    ensures Elects(z, z', e, c, DirAt(z', c).nodes[n])
    ensures e.ok ==> IsPublished(z', c)
  {
    var cfgs := Configured(z.config);
    var up := Healthy(cfgs, e.tries);
    assert Divided(At(z', c), Lookup(cfgs, c), up);
    LeaderIsFirst(DirAt(z', c), n);
    assert c in ChkClusters(z');
    assert Legals(z')[c] == LegalAddrs(At(z', c));
    assert CmdsOf(At(z', c), Answers(cfgs, e.tries), e.cmds);
  }

  lemma LeaderLasts(r: Trace, c: string, n: string, m: string, i: nat, j: nat)
    requires IsRun(r) && i <= j <= |r.es|
    requires Leads(DirAt(r.zs[i], c), n) && DirAt(r.zs[i], c).nodes[n] == m && Loyal(r, c, {m}, i, j)
    ensures Leads(DirAt(r.zs[j], c), n) && DirAt(r.zs[j], c).nodes[n] == m
  {
    RunEvolves(r, c, {m}, i, j);
    RunWf(r, i);
    assert DirOk(DirAt(r.zs[i], c));
    LeaderStays(DirAt(r.zs[i], c), DirAt(r.zs[j], c), {m}, n);
  }

  /** A leader that stays configured and answers every health check is elected by every
      pass that reaches the election, completed or not, whatever passes stop in between and
      wherever they stop. */
  lemma LeaderReigns(r: Trace, c: string, n: string, m: string, i: nat, j: nat)
    requires IsRun(r) && i <= j < |r.es|
    requires Leads(DirAt(r.zs[i], c), n) && DirAt(r.zs[i], c).nodes[n] == m && Loyal(r, c, {m}, i, j + 1)
    requires r.es[j].Pass? && r.es[j].elected
    ensures Elects(r.zs[j], r.zs[j + 1], r.es[j], c, m)
    ensures r.es[j].ok ==> IsPublished(r.zs[j + 1], c)
  {
    var k := j + 1;
    LeaderLasts(r, c, n, m, i, k);
    assert StepAt(r, j);
    LeaderElected(r.zs[j], r.zs[j + 1], r.es[j], c, n);
  }

  lemma ElectedLeads(r: Trace, i: nat, c: string, m: string) returns (n: string)
    requires IsRun(r) && 0 < i <= |r.es| && r.es[i - 1].Pass? && r.es[i - 1].elected
    requires c in Configured(r.zs[i - 1].config) && Elects(r.zs[i - 1], r.zs[i], r.es[i - 1], c, m)
    ensures Leads(DirAt(r.zs[i], c), n) && DirAt(r.zs[i], c).nodes[n] == m
  {
    assert StepAt(r, i - 1);
    var cfgs := Configured(r.zs[i - 1].config);
    assert Divided(At(r.zs[i], c), Lookup(cfgs, c), Healthy(cfgs, r.es[i - 1].tries));
    OrderMembers(DirAt(r.zs[i], c));
    n := FirstLeads(DirAt(r.zs[i], c));
  }

  /** A master, once elected by the pass before state `i`, is elected by every later pass
      that reaches the election, as long as it is configured and answers. */
  lemma MasterStays(r: Trace, c: string, m: string, i: nat, j: nat)
    requires IsRun(r) && 0 < i <= j < |r.es|
    requires r.es[i - 1].Pass? && r.es[i - 1].elected
    requires c in Configured(r.zs[i - 1].config) && Elects(r.zs[i - 1], r.zs[i], r.es[i - 1], c, m)
    requires Loyal(r, c, {m}, i, j + 1)
    requires r.es[j].Pass? && r.es[j].elected
    ensures Elects(r.zs[j], r.zs[j + 1], r.es[j], c, m)
    ensures r.es[j].ok ==> IsPublished(r.zs[j + 1], c)
  {
    var n := ElectedLeads(r, i, c, m);
    LeaderReigns(r, c, n, m, i, j);
  }
}

/** Runs of the controller: passes that complete or stop anywhere, and changes of the
    configuration between them. */
module CtrlTrace {
  import opened Options
  import opened Text
  import opened ZkTree
  import opened Legal
  import opened CtrlSteps
  import opened Slaveof
  import opened Polling
  import opened PassSpec

  datatype Event =
    | Pass(tries: seq<Replies>, elected: bool, ok: bool, cmds: map<string, string>, writes: nat)
    | Configure(config: Clusters)

  ghost predicate Step(z: Tree, e: Event, z': Tree) {
    match e
    case Pass(tries, elected, ok, cmds, writes) => Outcome(z, z', tries, elected, ok, cmds, writes)
    case Configure(config) => z' == z.(config := config)
  }

  /** The trees before and after each event. */
  datatype Trace = Trace(zs: seq<Tree>, es: seq<Event>)

  ghost predicate IsRun(r: Trace) {
    && |r.zs| == |r.es| + 1 && Wf(r.zs[0])
    && forall i :: 0 <= i < |r.es| ==> StepAt(r, i)
  }

  ghost predicate StepAt(r: Trace, i: nat)
    requires i < |r.es| && |r.zs| == |r.es| + 1
  {
    Step(r.zs[i], r.es[i], r.zs[i + 1])
  }

  /** In every pass from event `i` up to event `j` these addresses are configured for the
      cluster and answer. */
  ghost predicate Loyal(r: Trace, c: string, keep: set<string>, i: nat, j: nat)
    requires |r.zs| == |r.es| + 1 && i <= j <= |r.es|
    decreases j - i
  {
    i == j || (LoyalIn(r.zs[j - 1], r.es[j - 1], c, keep) && Loyal(r, c, keep, i, j - 1))
  }

  ghost predicate LoyalIn(z: Tree, e: Event, c: string, keep: set<string>) {
    e.Pass? ==> var cfgs := Configured(z.config); c in cfgs && keep <= cfgs[c] * Healthy(cfgs, e.tries)
  }

  function DirAt(z: Tree, c: string): Dir { DirOf(At(z, c)) }

  /** The node with the lowest number of its cluster. */
  ghost predicate Leads(d: Dir, n: string) {
    n in d.nodes && Padded(n) && forall x :: x in d.nodes && Padded(x) ==> Idx(n) <= Idx(x)
  }

  /** The cluster's master, as it is to be published first, and what every address is to be
      told. */
  ghost predicate Elects(z: Tree, z': Tree, e: Event, c: string, m: string)
    requires e.Pass?
  {
    && LegalAddrs(At(z', c)) != [] && LegalAddrs(At(z', c))[0] == m
    && m in Data(DirAt(z', c))
    && forall a :: a in Data(DirAt(z', c)) ==>
        var up := Answers(Configured(z.config), e.tries);
        a in up && Lookup(e.cmds, a) == CmdFor(a, m, up[a])
  }

  /** The elected list of the cluster is published. */
  ghost predicate IsPublished(z: Tree, c: string) { LegalName(c, LegalAddrs(At(z, c))) in z.legal }
}

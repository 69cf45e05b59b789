/** What completed passes are for, and what keeps them from completing. */
module CtrlGoals {
  import opened Options
  import opened Text
  import opened Address
  import opened ZkTree
  import opened Legal
  import opened CtrlSteps
  import opened Slaveof
  import opened Ipv4
  import opened Polling
  import opened Dispatch
  import opened PassSpec
  import opened CtrlTrace
  import opened CtrlRuns

  // ----- every configured address is in exactly one place -----

  /** A sequence node of this address; there is no other. */
  ghost predicate OnlyNode(d: Dir, n: string, a: string) {
    n in d.nodes && Padded(n) && d.nodes[n] == a && forall x :: x in d.nodes && d.nodes[x] == a ==> x == n
  }

  /** After a completed pass the error and check trees have exactly the configured
      clusters; in each, the addresses that answered have exactly one sequence node, and
      the error tree has the others. */
  lemma Partition(z: Tree, z': Tree, tries: seq<Replies>, cmds: map<string, string>, c: string, a: string)
    requires Completed(z, z', tries, cmds)
    ensures var cfgs := Configured(z.config);
            && ErrTree(z').Keys == ChkClusters(z') == cfgs.Keys
            && (c in cfgs ==> (a in ErrTree(z')[c] <==> a in cfgs[c] && a !in Healthy(cfgs, tries)))
            && (c in cfgs ==> ((exists n :: n in DirAt(z', c).nodes && DirAt(z', c).nodes[n] == a)
                               <==> a in cfgs[c] && a in Healthy(cfgs, tries)))
            && (c in cfgs && a in cfgs[c] && a in Healthy(cfgs, tries) ==> exists n :: OnlyNode(DirAt(z', c), n, a))
            && (a in SeqData(DirAt(z', c)) ==> c in cfgs)
  {
    var cfgs := Configured(z.config);
    var up := Healthy(cfgs, tries);
    forall x
      ensures x in ErrTree(z') <==> x in cfgs
      ensures x in ChkClusters(z') <==> x in cfgs
    {
      assert Divided(At(z', x), Lookup(cfgs, x), up);
    }
    assert Divided(At(z', c), Lookup(cfgs, c), up);
    if c in cfgs {
      assert a in Data(DirAt(z', c)) <==> a in cfgs[c] * up;
      if a in cfgs[c] * up {
        var n :| n in DirAt(z', c).nodes && DirAt(z', c).nodes[n] == a;
        assert OnlyNode(DirAt(z', c), n, a);
      }
    }
  }

  // ----- the fixed point -----

  /** What a Redis says once it has been told this, after it said `was`. */
  function SaysAfter(told: Option<(string, string)>, was: string): string {
    if told.None? then was else IpPort(ConfigAfter(told.value))
  }

  /** An endpoint answers in `later`, and always like this. */
  ghost predicate Says(later: seq<Replies>, v: nat, x: string) {
    && FirstAnswer(later, v).Some?
    && forall i :: 0 <= i < |later| && AnswerOf(later[i], v).Some? ==> AnswerOf(later[i], v).value == x
  }

  /** The same endpoints answer again. Those that acknowledged a command say what they were
      told, and those that were sent none what they said before. */
  ghost predicate Obeyed(cfgs: Clusters, tries: seq<Replies>, log: seq<Batch>, left: map<string, string>,
                         later: seq<Replies>) {
    forall a :: a in AllAddrs(cfgs) && Survives(a) && a !in left ==>
      if a in Healthy(cfgs, tries) then
        Says(later, StrIpv4Int64(a).value, SaysAfter(Told(log, StrIpv4Int64(a).value), Answers(cfgs, tries)[a]))
      else FirstAnswer(later, StrIpv4Int64(a).value) == None
  }

  /** What each address of a cluster should say it is a slave of. */
  ghost predicate InRole(d: Dir, up: map<string, string>) {
    forall a :: a in Data(d) ==>
      Order(d) != [] && a in up && up[a] == if a == Order(d)[0] then "" else Order(d)[0]
  }

  /** What addresses say they are slaves of once the commands have taken effect. */
  predicate TookEffect(up: map<string, string>, cmds: map<string, string>, later: map<string, string>) {
    later.Keys == up.Keys && forall a :: a in up ==> later[a] == AfterCmd(Lookup(cmds, a), up[a])
  }

  lemma CommandSettles(a: string, master: string, slaveof: string)
    requires Canonical(master)
    ensures var after := AfterCmd(CmdFor(a, master, slaveof), slaveof);
            && after == (if a == master then "" else master)
            && CmdFor(a, master, after) == None
  {
    TakesHold(master, slaveof);
    NoOneReadsEmpty(slaveof);
  }

  lemma {:induction false} SaysIsFound(later: seq<Replies>, v: nat, x: string)
    requires Says(later, v, x)
    ensures FirstAnswer(later, v) == Some(x) == LastAnswer(later, v)
  {
    FirstOrLast(later, v);
    FirstIsOne(later, v, x);
  }

  lemma {:induction false} FirstIsOne(later: seq<Replies>, v: nat, x: string)
    requires forall i :: 0 <= i < |later| && AnswerOf(later[i], v).Some? ==> AnswerOf(later[i], v).value == x
    ensures FirstAnswer(later, v) in {None, Some(x)} && LastAnswer(later, v) in {None, Some(x)}
  {
    if later != [] {
      assert forall i :: 0 <= i < |later[1..]| ==> later[1..][i] == later[i + 1];
      FirstIsOne(later[1..], v, x);
    }
  }

  /** The addresses that a completed pass commands, and what it commands them, can be sent. */
  lemma CmdsAreSendable(z: Tree, z': Tree, tries: seq<Replies>, cmds: map<string, string>)
    requires Completed(z, z', tries, cmds)
    ensures Sendable(cmds) && cmds.Keys <= Healthy(Configured(z.config), tries)
  {
    var cfgs, answers := Configured(z.config), Answers(Configured(z.config), tries);
    forall a | a in cmds
      ensures a in answers && Survives(a) && SlaveofArgs(cmds[a]).Some?
    {
      var c :| c in ChkClusters(z') && a in Data(DirAt(z', c));
      assert CmdsOf(At(z', c), answers, cmds);
      CmdIsSendable(z', cfgs, tries, cmds, c, a);
    }
  }

  lemma CmdIsSendable(z: Tree, cfgs: Clusters, tries: seq<Replies>, cmds: map<string, string>, c: string, a: string)
    requires DividedAll(z, cfgs, Healthy(cfgs, tries)) && CmdsOf(At(z, c), Answers(cfgs, tries), cmds)
    requires a in Data(DirAt(z, c)) && a in cmds
    ensures a in Healthy(cfgs, tries) && Survives(a) && SlaveofArgs(cmds[a]).Some?
  {
    MasterIsHealthy(z, cfgs, tries, c);
    var m := Order(DirAt(z, c))[0];
    assert Lookup(cmds, a) == CmdFor(a, m, Answers(cfgs, tries)[a]);
    HealthySurvives(cfgs, tries, a);
    HealthySurvives(cfgs, tries, m);
    CmdCanBeSent(a, m, Answers(cfgs, tries)[a]);
  }

  lemma HealthySurvives(cfgs: Clusters, tries: seq<Replies>, a: string)
    requires a in Healthy(cfgs, tries)
    ensures Survives(a)
  {
    assert Found(AllAddrs(cfgs), tries, a).Some?;
  }

  lemma CmdCanBeSent(a: string, m: string, slaveof: string)
    requires AddrOk(m)
    ensures var cmd := CmdFor(a, m, slaveof); cmd.Some? ==> SlaveofArgs(cmd.value).Some?
  {
  }

  lemma MasterIsHealthy(z: Tree, cfgs: Clusters, tries: seq<Replies>, c: string)
    requires DividedAll(z, cfgs, Healthy(cfgs, tries))
    ensures forall a :: a in Data(DirAt(z, c)) ==> a in Healthy(cfgs, tries)
    ensures Order(DirAt(z, c)) != [] ==> Order(DirAt(z, c))[0] in Healthy(cfgs, tries)
  {
    assert Divided(At(z, c), Lookup(cfgs, c), Healthy(cfgs, tries));
    OrderMembers(DirAt(z, c));
  }

  /** Each address is told its command, if it has one. */
  lemma ToldItsCommand(cmds: map<string, string>, oks: seq<set<nat>>, a: string, v: nat, was: string)
    requires oks != [] && Sendable(cmds) && Survives(a) && StrIpv4Int64(a) == Some(v)
    ensures SaysAfter(Told(Sent(cmds, oks).0, v), was) == AfterCmd(Lookup(cmds, a), was)
  {
    SendableAlone(cmds, a, v);
    SentIsDelivered(cmds, oks, a, v);
  }

  lemma SameHealth(cfgs: Clusters, tries: seq<Replies>, cmds: map<string, string>, oks: seq<set<nat>>,
                   later: seq<Replies>)
    requires oks != [] && Sendable(cmds) && Sent(cmds, oks).1 == map[]
    requires Obeyed(cfgs, tries, Sent(cmds, oks).0, map[], later)
    ensures Healthy(cfgs, later) == Healthy(cfgs, tries)
    ensures TookEffect(Answers(cfgs, tries), cmds, Answers(cfgs, later))
  {
    forall a | a in AllAddrs(cfgs)
      ensures Lookup(Answers(cfgs, later), a) ==
              if a in Answers(cfgs, tries) then Some(AfterCmd(Lookup(cmds, a), Answers(cfgs, tries)[a])) else None
    {
      OneSame(cfgs, tries, cmds, oks, later, a);
    }
    forall a
      ensures a in Answers(cfgs, later) <==> a in Answers(cfgs, tries)
      ensures a in Answers(cfgs, tries) ==>
                Answers(cfgs, later)[a] == AfterCmd(Lookup(cmds, a), Answers(cfgs, tries)[a])
    {
      assert a in AllAddrs(cfgs) ==> (a in Answers(cfgs, later) <==> Lookup(Answers(cfgs, later), a).Some?);
    }
  }

  lemma OneSame(cfgs: Clusters, tries: seq<Replies>, cmds: map<string, string>, oks: seq<set<nat>>,
                later: seq<Replies>, a: string)
    requires oks != [] && Sendable(cmds) && a in AllAddrs(cfgs)
    requires Obeyed(cfgs, tries, Sent(cmds, oks).0, map[], later)
    ensures Lookup(Answers(cfgs, later), a) ==
            if a in Answers(cfgs, tries) then Some(AfterCmd(Lookup(cmds, a), Answers(cfgs, tries)[a])) else None
  {
    if Survives(a) {
      var v := StrIpv4Int64(a).value;
      FirstOrLast(later, v);
      if a in Answers(cfgs, tries) {
        var was := Answers(cfgs, tries)[a];
        SaysIsFound(later, v, SaysAfter(Told(Sent(cmds, oks).0, v), was));
        ToldItsCommand(cmds, oks, a, v, was);
      }
    }
  }

  lemma RolesTaken(k: Cluster, up: map<string, string>, cmds: map<string, string>, later: map<string, string>)
    requires CmdsOf(k, up, cmds) && TookEffect(up, cmds, later)
    requires Order(DirOf(k)) != [] ==> Canonical(Order(DirOf(k))[0])
    ensures InRole(DirOf(k), later)
  {
    forall a | a in Data(DirOf(k))
      ensures a in later && Order(DirOf(k)) != [] &&
                later[a] == if a == Order(DirOf(k))[0] then "" else Order(DirOf(k))[0]
    {
      CommandSettles(a, Order(DirOf(k))[0], up[a]);
    }
  }

  lemma NothingToAsk(k: Cluster, up: map<string, string>, cmds: map<string, string>)
    requires InRole(DirOf(k), up) && CmdsOf(k, up, cmds)
    ensures Data(DirOf(k)) !! cmds.Keys
  {
    forall a | a in Data(DirOf(k))
      ensures a !in cmds
    {
      assert Lookup(cmds, a) == None;
    }
  }

  lemma StaysFeasible(z: Tree, z': Tree, tries: seq<Replies>, cmds: map<string, string>)
    requires Completed(z, z', tries, cmds) && z'.config == z.config
    ensures Feasible(z', Healthy(Configured(z.config), tries))
  {
    var cfgs := Configured(z.config);
    var up := Healthy(cfgs, tries);
    forall c | c in cfgs
      ensures cfgs[c] != {} && !Wedged(At(z', c), cfgs[c], up)
    {
      assert Divided(At(z', c), Lookup(cfgs, c), up);
      var d := DirAt(z', c);
      assert SeqData(d) <= Data(d);
    }
  }

  /** A completed pass whose commands are all acknowledged, and obeyed, reaches a fixed
      point. With the same configuration and health the next pass writes nothing, whether or
      not it completes; only a failed operation can stop it; when it completes it sends no
      command; and the master of each cluster has no master, every other address names it. */
  lemma FixedPoint(z: Tree, z': Tree, z'': Tree, first: Event, oks: seq<set<nat>>, second: Event)
    requires first.Pass? && second.Pass? && first.ok && Step(z, first, z') && Step(z', second, z'')
    requires oks != [] && Sent(first.cmds, oks).1 == map[]
    requires Obeyed(Configured(z.config), first.tries, Sent(first.cmds, oks).0, Sent(first.cmds, oks).1, second.tries)
    ensures second.writes == 0 && z'' == z'
    ensures Feasible(z', Healthy(Configured(z'.config), second.tries))
    ensures second.ok ==> second.cmds == map[]
    ensures forall c :: c in Configured(z.config) ==> InRole(DirAt(z', c), Answers(Configured(z.config), second.tries))
  {
    var cfgs := Configured(z.config);
    CmdsAreSendable(z, z', first.tries, first.cmds);
    SameHealth(cfgs, first.tries, first.cmds, oks, second.tries);
    StaysFeasible(z, z', first.tries, first.cmds);
    AllInRole(z', cfgs, first.tries, first.cmds, Answers(cfgs, second.tries));
    if second.ok { NoCommands(z', cfgs, Healthy(cfgs, first.tries), Answers(cfgs, second.tries), second.cmds); }
  }

  lemma AllInRole(z: Tree, cfgs: Clusters, tries: seq<Replies>, cmds: map<string, string>, later: map<string, string>)
    requires DividedAll(z, cfgs, Healthy(cfgs, tries)) && Asked(z, Answers(cfgs, tries), cmds)
    requires TookEffect(Answers(cfgs, tries), cmds, later)
    ensures forall c :: c in cfgs ==> InRole(DirAt(z, c), later)
  {
    forall c | c in cfgs
      ensures InRole(DirAt(z, c), later)
    {
      Commanded(z, cfgs, Healthy(cfgs, tries), Answers(cfgs, tries), cmds, c);
      MasterIsHealthy(z, cfgs, tries, c);
      if Order(DirAt(z, c)) != [] { HealthyIsCanonical(cfgs, tries, Order(DirAt(z, c))[0]); }
      RolesTaken(At(z, c), Answers(cfgs, tries), cmds, later);
    }
  }

  lemma Commanded(z: Tree, cfgs: Clusters, up: set<string>, answers: map<string, string>, cmds: map<string, string>,
                  c: string)
    requires DividedAll(z, cfgs, up) && Asked(z, answers, cmds) && c in cfgs
    ensures CmdsOf(At(z, c), answers, cmds)
  {
    assert Divided(At(z, c), Lookup(cfgs, c), up);
    assert c in ChkClusters(z);
  }

  lemma NoCommands(z: Tree, cfgs: Clusters, up: set<string>, answers: map<string, string>, cmds: map<string, string>)
    requires DividedAll(z, cfgs, up) && Asked(z, answers, cmds)
    requires forall c :: c in cfgs ==> InRole(DirAt(z, c), answers)
    ensures cmds == map[]
  {
    forall c | c in ChkClusters(z)
      ensures Data(DirOf(At(z, c))) !! cmds.Keys
    {
      assert Divided(At(z, c), Lookup(cfgs, c), up);
      NothingToAsk(At(z, c), answers, cmds);
    }
    assert cmds.Keys == {};
  }

  // ----- the wedge -----

  /** The address is in the error tree and has a sequence node. */
  ghost predicate InBoth(z: Tree, c: string, a: string) {
    a in ErrOf(At(z, c)) && a in SeqData(DirAt(z, c))
  }

  /** The demotion of an address leaves it in both trees if and only if the error node came
      to be and the sequence node did not go; it puts no other address there. */
  lemma WedgeArises(z: Tree, c: string, n: string, a: string, create: Fate, delete: Fate, x: string, b: string)
    requires At(z, c).err.Some? && At(z, c).dir.Some? && a !in ErrOf(At(z, c))
    requires OnlyNode(DirAt(z, c), n, a)
    ensures var z' := Demoted(z, c, n, a, create, delete);
            InBoth(z', x, b) <==>
              if x == c && b == a then Took(create) && !(create == Done && Took(delete)) else InBoth(z, x, b)
  {
    var z', d := Demoted(z, c, n, a, create, delete), DirAt(z, c);
    if x == c {
      assert a in SeqData(d) by { assert d.nodes[n] == a; }
      if create == Done && Took(delete) {
        assert DirAt(z', c) == DropNode(d, n);
        OthersKeepNodes(d, n, a);
      } else {
        assert DirAt(z', c) == d;
      }
    }
  }

  lemma OthersKeepNodes(d: Dir, n: string, a: string)
    requires OnlyNode(d, n, a)
    ensures SeqData(DropNode(d, n)) == SeqData(d) - {a}
  {
    var d' := DropNode(d, n);
    forall b | b in SeqData(d) - {a}
      ensures b in SeqData(d')
    {
      var m :| m in d.nodes && Padded(m) && d.nodes[m] == b;
      assert m in d'.nodes && d'.nodes[m] == b;
    }
    forall b | b in SeqData(d')
      ensures b in SeqData(d) - {a}
    {
      var m :| m in d'.nodes && Padded(m) && d'.nodes[m] == b;
      assert m in d.nodes && d.nodes[m] == b;
    }
  }

  /** So a pass that stops between the two writes stops all later ones, until the address
      answers or leaves the configuration. */
  lemma InterruptedDemotion(r: Trace, z: Tree, c: string, n: string, a: string, create: Fate, delete: Fate, j: nat)
    requires IsRun(r) && 0 < j <= |r.es| && r.zs[0] == Demoted(z, c, n, a, create, delete)
    requires At(z, c).err.Some? && At(z, c).dir.Some? && a !in ErrOf(At(z, c)) && OnlyNode(DirAt(z, c), n, a)
    requires Took(create) && !(create == Done && Took(delete)) && Silent(r, c, a, 0, j)
    ensures r.es[j - 1].Pass? ==> !r.es[j - 1].ok
  {
    WedgeArises(z, c, n, a, create, delete, c, a);
    WedgeLasts(r, c, a, 0, j);
  }

  /** From event `i` up to event `j` the address is configured and never answers. */
  ghost predicate Silent(r: Trace, c: string, a: string, i: nat, j: nat)
    requires |r.zs| == |r.es| + 1 && i <= j <= |r.es|
    decreases j - i
  {
    i == j || (SilentIn(r.zs[j - 1], r.es[j - 1], c, a) && Silent(r, c, a, i, j - 1))
  }

  ghost predicate SilentIn(z: Tree, e: Event, c: string, a: string) {
    e.Pass? ==> var cfgs := Configured(z.config); c in cfgs && a in cfgs[c] && a !in Healthy(cfgs, e.tries)
  }

  lemma {:induction false} HasLowest(d: Dir, a: string, names: set<string>) returns (n: string)
    requires names != {} && forall x :: x in names ==> x in d.nodes && Padded(x) && d.nodes[x] == a
    ensures n in names && forall x :: x in names ==> Idx(n) <= Idx(x)
  {
    n :| n in names;
    if names != {n} {
      var m := HasLowest(d, a, names - {n});
      n := if Idx(m) < Idx(n) then m else n;
    }
  }

  lemma LowestOf(d: Dir, a: string) returns (n: string)
    requires a in SeqData(d)
    ensures IsLowest(d, n) && d.nodes[n] == a
  {
    var names := set x | x in d.nodes && Padded(x) && d.nodes[x] == a;
    var x :| x in d.nodes && Padded(x) && d.nodes[x] == a;
    assert x in names;
    n := HasLowest(d, a, names);
  }

  lemma WedgeHolds(z: Tree, e: Event, z': Tree, c: string, a: string)
    requires Step(z, e, z') && InBoth(z, c, a) && SilentIn(z, e, c, a) && DirOk(DirAt(z, c))
    ensures InBoth(z', c, a)
    ensures e.Pass? ==> !e.ok
  {
    if e.Pass? {
      var cfgs := Configured(z.config);
      var up := Healthy(cfgs, e.tries);
      assert Kept(At(z, c), At(z', c), cfgs[c], up);
      var n := LowestOf(DirAt(z, c), a);
      assert n in DirAt(z', c).nodes && Padded(n) && DirAt(z', c).nodes[n] == a;
      assert Wedged(At(z, c), cfgs[c], up);
    } else {
      assert At(z', c) == At(z, c);
    }
  }

  /** An address that is in the error tree and has a sequence node, as a pass leaves it
      that fails between the two writes of check_check, stops every later pass until it
      answers or is taken out of the configuration. */
  lemma {:induction false} WedgeLasts(r: Trace, c: string, a: string, i: nat, j: nat)
    requires IsRun(r) && i <= j <= |r.es| && InBoth(r.zs[i], c, a) && Silent(r, c, a, i, j)
    ensures InBoth(r.zs[j], c, a)
    ensures i < j && r.es[j - 1].Pass? ==> !r.es[j - 1].ok
    decreases j - i
  {
    if i < j {
      WedgeLasts(r, c, a, i, j - 1);
      RunWf(r, j - 1);
      assert DirOk(DirAt(r.zs[j - 1], c)) && StepAt(r, j - 1);
      WedgeHolds(r.zs[j - 1], r.es[j - 1], r.zs[j], c, a);
    }
  }

  // ----- what clients see -----

  /** However passes end, no cluster index is ever published twice. */
  lemma {:induction false} PublishedOnce(r: Trace, i: nat)
    requires IsRun(r) && i <= |r.es| && UniqueIndexes(r.zs[0].legal)
    requires forall j :: 0 <= j < i ==> DistinctIndexes(Configured(r.zs[j].config).Keys)
    ensures UniqueIndexes(r.zs[i].legal)
  {
    if i > 0 {
      PublishedOnce(r, i - 1);
      assert StepAt(r, i - 1);
    }
  }
}

/** One pass of the cluster controller over ZooKeeper. Every ZooKeeper operation may
    fail, with or without having taken effect, and then the pass stops. */
module RedisCtrl {
  import opened Options
  import opened Sequences
  import opened Text
  import opened Address
  import opened ZkTree
  import opened Phases
  import opened Legal
  import opened Decimal
  import opened CtrlSteps
  import opened Slaveof
  import opened Ipv4
  import opened Polling
  import opened Dispatch
  import opened PassSpec
  import opened Choice

  class RedisCtrl {
    var zk: Tree
    /** Write operations sent to ZooKeeper, and whether any operation has failed. */
    var writes: nat
    var fault: bool

    constructor (zk: Tree)
      ensures this.zk == zk && writes == 0 && !fault
    {
      this.zk, writes, fault := zk, 0, false;
    }

    /** A read: zoo_get_children or zoo_get. */
    method Read() returns (rv: int)
      modifies this`fault
      ensures old(fault) ==> fault
      ensures rv != 0 ==> fault
    {
      var up: bool := *;
      rv := 0;
      if !up {
        rv, fault := 1, true;
      }
    }

    /** zoo_create or zoo_delete that would turn the tree into `t`. An illegal one
        (the node exists, is missing or has children) fails and does nothing; a legal
        one meets the given fate. */
    method WriteWith(t: Tree, legal: bool, fate: Fate) returns (rv: int)
      modifies this
      ensures writes == old(writes) + 1
      ensures zk == if legal && Took(fate) then t else old(zk)
      ensures rv == 0 <==> legal && fate == Done
      ensures fault == (old(fault) || (legal && fate != Done))
    {
      writes := writes + 1;
      rv := 1;
      if legal {
        if Took(fate) { zk := t; }
        if fate == Done { rv := 0; } else { fault := true; }
      }
    }

    /** The same with any fate. */
    method Write(t: Tree, legal: bool) returns (rv: int)
      modifies this
      ensures writes == old(writes) + 1 && (old(fault) ==> fault)
      ensures rv == 0 ==> legal && zk == t
      ensures rv != 0 ==> zk == old(zk) || (legal && zk == t)
      ensures rv != 0 ==> fault || !legal
    {
      var fate: Fate := *;
      rv := WriteWith(t, legal, fate);
    }

    // ----- reading -----

    /** get_cluster_node. */
    method GetClusterNode(src: Clusters, ischeck: bool) returns (rv: int, cfgs: Clusters)
      modifies this`fault
      ensures old(fault) ==> fault
      ensures rv == 0 ==> cfgs == if ischeck then Configured(src) else src
      ensures rv != 0 ==> fault
    {
      cfgs := map[];
      rv := Read();
      if rv != 0 { return; }
      ghost var want := if ischeck then Configured(src) else src;
      var todo := src.Keys;
      while todo != {}
        invariant todo <= src.Keys && (old(fault) ==> fault)
        invariant forall c :: c in cfgs <==> c in want && c !in todo
        invariant forall c :: c in cfgs ==> cfgs[c] == want[c]
      {
        var c := Pick(todo);
        todo := todo - {c};
        if ischeck && !IsCluster(c) { continue; }
        rv := Read();
        if rv != 0 { return; }
        cfgs := cfgs[c := if ischeck then ValidAddrs(src[c]) else src[c]];
      }
      assert cfgs.Keys == want.Keys;
    }

    /** get_config: fails on an address configured twice. */
    method GetConfig() returns (rv: int, cfgs: Clusters)
      modifies this`fault
      ensures old(fault) ==> fault
      ensures rv == 0 ==> cfgs == Configured(zk.config) && Disjoint(cfgs)
      ensures rv != 0 ==> fault || !Disjoint(Configured(zk.config))
    {
      rv, cfgs := GetClusterNode(zk.config, true);
      if rv != 0 { return; }
      var dup := HasDuplicate(cfgs);
      if dup { rv := 2; }
    }

    /** The duplicate check of get_config. */
    static method HasDuplicate(cfgs: Clusters) returns (dup: bool)
      ensures dup <==> !Disjoint(cfgs)
    {
      var single: set<string>, todo := {}, cfgs.Keys;
      ghost var owner: map<string, string> := map[];
      while todo != {}
        invariant todo <= cfgs.Keys && single == owner.Keys
        invariant forall a :: a in owner ==> owner[a] in cfgs && owner[a] !in todo && a in cfgs[owner[a]]
        invariant forall c, a :: c in cfgs && c !in todo && a in cfgs[c] ==> a in owner && owner[a] == c
      {
        var c := Pick(todo);
        if !(single !! cfgs[c]) {
          ghost var a :| a in single && a in cfgs[c];
          assert !(cfgs[c] !! cfgs[owner[a]]);
          return true;
        }
        owner := owner + map a | a in cfgs[c] :: c;
        single, todo := single + cfgs[c], todo - {c};
      }
      forall c, c' | c in cfgs && c' in cfgs && c != c'
        ensures cfgs[c] !! cfgs[c']
      {
        forall a | a in cfgs[c]
          ensures a !in cfgs[c']
        {
          assert owner[a] == c;
        }
      }
      dup := false;
    }

    /** get_error. */
    method GetError() returns (rv: int, errs: Clusters)
      modifies this`fault
      ensures old(fault) ==> fault
      ensures rv == 0 ==> errs == ErrTree(zk)
      ensures rv != 0 ==> fault
    {
      rv, errs := GetClusterNode(ErrTree(zk), false);
    }

    // ----- get_check -----

    /** delete_node on check/<c>/<n>. */
    method Delete(c: string, n: string) returns (rv: int)
      requires At(zk, c).dir.Some? && n in DirOf(At(zk, c)).nodes
      modifies this
      ensures writes == old(writes) + 1 && (old(fault) ==> fault)
      ensures rv != 0 ==> fault
      ensures zk == old(zk) || zk == Dropped(old(zk), c, n)
      ensures rv == 0 ==> zk == Dropped(old(zk), c, n)
    {
      rv := Write(Dropped(zk, c, n), true);
    }

    /** One round of the inner loop of get_check. */
    method ScanNode(c: string, n: string, kept: map<string, string>)
        returns (rv: int, kept': map<string, string>, dropped: bool)
      requires At(zk, c).dir.Some? && n in DirOf(At(zk, c)).nodes
      modifies this
      ensures old(fault) ==> fault
      ensures rv != 0 ==> fault
      ensures var one := ScanOne(kept, n, DirOf(At(old(zk), c)).nodes[n]);
              && (rv == 0 ==> (kept', dropped) == one)
              && (zk == old(zk) || (one.1 && zk == Dropped(old(zk), c, n)))
              && (rv == 0 && one.1 ==> zk == Dropped(old(zk), c, n))
              && (!one.1 ==> writes == old(writes))
    {
      kept', dropped := kept, false;
      rv := Read();
      if rv != 0 { return; }
      var addr := DirOf(At(zk, c)).nodes[n];
      var idx := Idx(n);
      if idx == -1 {
        dropped := true;
        rv := Delete(c, n);
      } else if addr in kept {
        if idx < Idx(kept[addr]) {
          kept' := kept[addr := n];
        }
        dropped := true;
        rv := Delete(c, n);
      } else {
        kept' := kept[addr := n];
      }
    }

    /** The inner loop of get_check, for one cluster and any names. */
    method ScanDir(c: string)
        returns (rv: int, kept: map<string, string>, ghost names: seq<string>, ghost gone: set<string>)
      requires At(zk, c).dir.Some?
      modifies this
      ensures old(fault) ==> fault
      ensures rv != 0 ==> fault
      ensures Lists(names, DirOf(At(old(zk), c)).nodes.Keys)
      ensures forall n :: n in names ==> n in DirOf(At(old(zk), c)).nodes
      ensures zk == WithoutNodes(old(zk), c, gone)
      ensures gone <= Scan(names, DirOf(At(old(zk), c)).nodes).1
      ensures rv == 0 ==> (kept, gone) == Scan(names, DirOf(At(old(zk), c)).nodes)
      ensures Scan(names, DirOf(At(old(zk), c)).nodes).1 == {} ==> writes == old(writes)
    {
      ghost var nodes := DirOf(At(zk, c)).nodes;
      var order := Sort(DirOf(At(zk, c)).nodes.Keys);
      names := order;
      kept, gone, rv := map[], {}, 0;
      var i := 0;
      WithoutNone(zk, c);
      assert forall n :: n in order ==> n in Elems(order);
      while i < |order|
        invariant 0 <= i <= |order| && (old(fault) ==> fault)
        invariant (kept, gone) == Scan(order[..i], nodes)
        invariant gone <= Scan(order, nodes).1 * Elems(order[..i])
        invariant zk == WithoutNodes(old(zk), c, gone)
        invariant Scan(order, nodes).1 == {} ==> writes == old(writes)
      {
        ScanNext(order, nodes, i);
        ghost var before := zk;
        DropOne(old(zk), c, gone, order[i]);
        var dropped: bool;
        rv, kept, dropped := ScanNode(c, order[i], kept);
        if zk != before { gone := gone + {order[i]}; }
        if rv != 0 { return; }
        i := i + 1;
      }
      assert order[..i] == order;
    }

    /** The body of get_check for one cluster with well-formed names. */
    method CheckCluster(c: string) returns (rv: int, kept: map<string, string>)
      requires At(zk, c).dir.Some? && DirOk(DirOf(At(zk, c)))
      modifies this
      ensures old(fault) ==> fault
      ensures rv != 0 ==> fault
      ensures Local(old(zk), zk, c) && PrunePart(At(old(zk), c), At(zk, c))
      ensures rv == 0 ==> PruneFull(At(old(zk), c), At(zk, c)) && IsInverse(kept, DirOf(At(zk, c)).nodes)
      ensures Tidy(DirOf(At(old(zk), c))) ==> writes == old(writes) && zk == old(zk)
    {
      ghost var z := zk;
      ghost var names, gone;
      rv, kept, names, gone := ScanDir(c);
      ClusterScanned(z, c, names, gone);
    }

    /** get_check: every address with its lowest sequence node; the rest is deleted. */
    method GetCheck() returns (rv: int, chks: map<string, map<string, string>>)
      requires Wf(zk)
      modifies this
      ensures old(fault) ==> fault
      ensures rv != 0 ==> fault
      ensures PruneAll(old(zk), zk)
      ensures rv == 0 ==> Mirrors(chks, zk) && forall c :: PruneFull(At(old(zk), c), At(zk, c))
      ensures AllTidy(old(zk)) ==> writes == old(writes) && zk == old(zk)
    {
      chks := map[];
      PruneStart(zk);
      rv := Read();
      if rv != 0 { return; }
      ghost var z := zk;
      var todo := ChkClusters(zk);
      while todo != {}
        invariant todo <= ChkClusters(z) && (old(fault) ==> fault)
        invariant PruneAll(z, zk)
        invariant forall c :: c in todo ==> At(zk, c) == At(z, c)
        invariant PrunedSoFar(z, zk, chks, ChkClusters(z) - todo)
        invariant (forall c :: Tidy(DirOf(At(z, c)))) ==> writes == old(writes) && zk == z
      {
        var c := Pick(todo);
        ghost var before := zk;
        var kept: map<string, string>;
        PruneNext(z, zk, c);
        rv, kept := CheckCluster(c);
        PruneStep(z, before, zk, chks, ChkClusters(z) - todo, c, kept);
        if rv != 0 { return; }
        chks, todo := chks[c := kept], todo - {c};
        assert ChkClusters(z) - todo == chks.Keys;
      }
      PruneEnd(z, zk, chks);
    }

    // ----- logic_check_add -----

    /** create_node with ZOO_SEQUENCE under check/<c>. The sequence numbers of ZooKeeper
        are 32-bit; one that would overflow counts as a failure. */
    method CreateSeqNode(c: string, addr: string) returns (rv: int)
      requires At(zk, c).dir.Some?
      modifies this
      ensures (old(fault) ==> fault)
      ensures rv != 0 ==> fault
      ensures zk == old(zk) || (zk == Added(old(zk), c, addr) && DirOf(At(old(zk), c)).next < SEQ_LIMIT)
      ensures rv == 0 ==> zk == Added(old(zk), c, addr) && DirOf(At(old(zk), c)).next < SEQ_LIMIT
    {
      if DirOf(At(zk, c)).next >= INT_LIMIT {
        rv, fault := 1, true;
        return;
      }
      rv := Write(Added(zk, c, addr), true);
    }

    /** New nodes for these addresses, in their order. */
    method AddNodes(c: string, want: set<string>) returns (rv: int)
      requires At(zk, c).dir.Some? && DirOk(DirOf(At(zk, c)))
      modifies this
      ensures old(fault) ==> fault
      ensures rv != 0 ==> fault
      ensures Local(old(zk), zk, c) && GrownCluster(At(old(zk), c), At(zk, c), want)
      ensures rv == 0 ==> AddedSoFar(At(old(zk), c), At(zk, c), want, want)
      ensures want == {} ==> writes == old(writes) && zk == old(zk)
    {
      ghost var z := zk;
      var order := Sort(want);
      var i := 0;
      rv := 0;
      AddStart(At(z, c), want);
      ListsMembers(order, want);
      assert Elems(order[..0]) == {};
      while i < |order|
        invariant 0 <= i <= |order| && (old(fault) ==> fault) && rv == 0
        invariant Local(z, zk, c) && AddedSoFar(At(z, c), At(zk, c), want, Elems(order[..i]))
        invariant want == {} ==> writes == old(writes) && zk == z
      {
        assert order[i] in want;
        rv := AddOne(c, order, i, z, want);
        if rv != 0 { return; }
        i := i + 1;
      }
      assert order[..i] == order;
    }

    /** One round of that loop. */
    method AddOne(c: string, order: seq<string>, i: nat, ghost z: Tree, ghost want: set<string>) returns (rv: int)
      requires Lists(order, want) && i < |order| && DirOk(DirOf(At(z, c))) && At(z, c).dir.Some?
      requires Local(z, zk, c) && AddedSoFar(At(z, c), At(zk, c), want, Elems(order[..i]))
      modifies this
      ensures old(fault) ==> fault
      ensures rv != 0 ==> fault
      ensures Local(z, zk, c) && GrownCluster(At(z, c), At(zk, c), want)
      ensures rv == 0 ==> AddedSoFar(At(z, c), At(zk, c), want, Elems(order[..i + 1]))
    {
      ghost var before, j := zk, i + 1;
      NextInOrder(order, i, j);
      assert order[i] in Elems(order);
      rv := CreateSeqNode(c, order[i]);
      if DirOf(At(before, c)).next < SEQ_LIMIT {
        AddNext(z, before, c, want, Elems(order[..i]), order[i]);
      }
    }

    /** logic_check_add for one cluster; `inErr` and `inChk` are what the maps read
        before hold for it. */
    method AddCluster(c: string, cfg: set<string>, inErr: Option<set<string>>, inChk: Option<set<string>>)
        returns (rv: int)
      requires DirOk(DirOf(At(zk, c)))
      requires inErr == At(zk, c).err
      requires inChk == if At(zk, c).dir.Some? then Some(Data(DirOf(At(zk, c)))) else None
      modifies this
      ensures old(fault) ==> fault
      ensures rv != 0 ==> fault
      ensures Local(old(zk), zk, c) && AddPart(At(old(zk), c), At(zk, c), cfg)
      ensures rv == 0 ==> AddFull(At(old(zk), c), At(zk, c), cfg)
      ensures AddIdle(At(old(zk), c), cfg) ==> writes == old(writes) && zk == old(zk)
    {
      ghost var k := At(zk, c);
      rv := 0;
      if inErr.None? {
        rv := Write(Put(zk, c, At(zk, c).(err := Some({}))), At(zk, c).err.None?);
        if rv != 0 { return; }
      }
      if inChk.None? {
        rv := Write(Put(zk, c, WithDir(At(zk, c), EMPTY_DIR)), At(zk, c).dir.None?);
        if rv != 0 { return; }
      }
      assert DirOf(At(zk, c)) == DirOf(k) && ErrOf(At(zk, c)) == ErrOf(k);
      var want := cfg - (if inChk.Some? then inChk.value else {}) - (if inErr.Some? then inErr.value else {});
      rv := AddNodes(c, want);
    }

    /** logic_check_add. */
    method LogicCheckAdd(cfgs: Clusters, errs: Clusters, chks: map<string, map<string, string>>) returns (rv: int)
      requires Wf(zk) && errs == ErrTree(zk) && Mirrors(chks, zk)
      modifies this
      ensures old(fault) ==> fault
      ensures rv != 0 ==> fault
      ensures PartAll(Adding(cfgs), old(zk), zk)
      ensures rv == 0 ==> FullAll(Adding(cfgs), old(zk), zk)
      ensures IdleAll(Adding(cfgs), old(zk)) ==> writes == old(writes) && zk == old(zk)
    {
      ghost var z, ph := zk, Adding(cfgs);
      PartStart(ph, z);
      var todo := cfgs.Keys;
      rv := 0;
      while todo != {}
        invariant todo <= cfgs.Keys && (old(fault) ==> fault) && rv == 0
        invariant PartAll(ph, z, zk) && FullOn(ph, z, zk, cfgs.Keys - todo)
        invariant forall c :: c in todo ==> At(zk, c) == At(z, c)
        invariant IdleAll(ph, z) ==> writes == old(writes) && zk == z
      {
        var c := Pick(todo);
        ghost var before := zk;
        SnapshotFor(z, errs, chks, c);
        rv := AddCluster(c, cfgs[c], Lookup(errs, c), if c in chks then Some(chks[c].Keys) else None);
        PartNext(ph, z, before, zk, cfgs.Keys, todo, c);
        if rv != 0 { return; }
        todo := todo - {c};
      }
      assert cfgs.Keys - todo == cfgs.Keys;
    }

    // ----- logic_error_rm -----

    method DeleteError(c: string, name: string) returns (rv: int)
      requires name in ErrOf(At(zk, c))
      modifies this
      ensures writes == old(writes) + 1 && (old(fault) ==> fault)
      ensures rv != 0 ==> fault
      ensures zk == old(zk) || zk == WithErr(old(zk), c, ErrOf(At(old(zk), c)) - {name})
      ensures rv == 0 ==> zk == WithErr(old(zk), c, ErrOf(At(old(zk), c)) - {name})
    {
      rv := Write(WithErr(zk, c, ErrOf(At(zk, c)) - {name}), true);
    }

    /** logic_error_rm for one cluster of the error tree. */
    method TrimErrors(c: string, names: set<string>, cfg: Option<set<string>>) returns (rv: int)
      requires At(zk, c).err == Some(names)
      modifies this
      ensures old(fault) ==> fault
      ensures rv != 0 ==> fault
      ensures Local(old(zk), zk, c) && ErrRmPart(At(old(zk), c), At(zk, c), cfg)
      ensures rv == 0 ==> ErrRmFull(At(old(zk), c), At(zk, c), cfg)
      ensures ErrRmIdle(At(old(zk), c), cfg) ==> writes == old(writes) && zk == old(zk)
    {
      ghost var z := zk;
      var keep := if cfg.Some? then cfg.value else {};
      var todo := names;
      rv := 0;
      while todo != {}
        invariant todo <= names && (old(fault) ==> fault) && rv == 0
        invariant Local(z, zk, c) && At(zk, c).dir == At(z, c).dir
        invariant At(zk, c).err.Some? && ErrOf(At(zk, c)) == names * keep + todo
        invariant names <= keep ==> writes == old(writes) && zk == z
      {
        var a := Pick(todo);
        if a !in keep {
          rv := DeleteError(c, a);
          if rv != 0 { return; }
        }
        assert names * keep + (todo - {a}) == if a in keep then names * keep + todo else names * keep + todo - {a};
        todo := todo - {a};
      }
      if cfg.None? {
        assert names * keep + todo == {};
        rv := Write(Put(zk, c, At(zk, c).(err := None)), ErrOf(At(zk, c)) == {});
      }
    }

    /** logic_error_rm; `errs` was read before logic_check_add. */
    method LogicErrorRm(cfgs: Clusters, errs: Clusters) returns (rv: int)
      requires Wf(zk)
      requires forall c :: At(zk, c).err == (if c in errs then Some(errs[c]) else if c in cfgs then Some({}) else None)
      modifies this
      ensures old(fault) ==> fault
      ensures rv != 0 ==> fault
      ensures PartAll(TrimmingErrors(cfgs), old(zk), zk)
      ensures rv == 0 ==> FullAll(TrimmingErrors(cfgs), old(zk), zk)
      ensures IdleAll(TrimmingErrors(cfgs), old(zk)) ==> writes == old(writes) && zk == old(zk)
    {
      ghost var z, ph := zk, TrimmingErrors(cfgs);
      PartStart(ph, z);
      var todo := errs.Keys;
      rv := 0;
      while todo != {}
        invariant todo <= errs.Keys && (old(fault) ==> fault) && rv == 0
        invariant PartAll(ph, z, zk) && FullOn(ph, z, zk, errs.Keys - todo)
        invariant forall c :: c !in errs.Keys - todo ==> At(zk, c) == At(z, c)
        invariant IdleAll(ph, z) ==> writes == old(writes) && zk == z
      {
        var c := Pick(todo);
        ghost var before := zk;
        rv := TrimErrors(c, errs[c], Lookup(cfgs, c));
        PartNext(ph, z, before, zk, errs.Keys, todo, c);
        if rv != 0 { return; }
        todo := todo - {c};
      }
      assert errs.Keys - todo == errs.Keys;
      forall c
        ensures Full(ph, c, At(z, c), At(zk, c))
      {
      }
    }

    // ----- logic_check_rm -----

    /** The inner loop of logic_check_rm; `rest` are the addresses it has not come to. */
    method TrimNodes(c: string, seen: map<string, string>, keep: set<string>) returns (rv: int, ghost rest: set<string>)
      requires At(zk, c).dir.Some? && Covers(seen, DirOf(At(zk, c)), Some(keep))
      modifies this
      ensures old(fault) ==> fault
      ensures rv != 0 ==> fault
      ensures Local(old(zk), zk, c) && At(zk, c) == WithDir(At(old(zk), c), Only(DirOf(At(old(zk), c)), keep + rest))
      ensures rv == 0 ==> rest == {}
      ensures Data(DirOf(At(old(zk), c))) <= keep ==> writes == old(writes) && zk == old(zk)
    {
      ghost var z, k := zk, At(zk, c);
      var todo := seen.Keys;
      rv, rest := 0, seen.Keys;
      OnlyStart(DirOf(k), seen, keep);
      while todo != {}
        invariant todo <= seen.Keys && (old(fault) ==> fault) && rv == 0 && rest == todo
        invariant Local(z, zk, c) && At(zk, c) == WithDir(k, Only(DirOf(k), keep + todo))
        invariant Data(DirOf(k)) <= keep ==> writes == old(writes) && zk == z
      {
        var a := Pick(todo);
        ghost var before := zk;
        OnlyNext(DirOf(k), seen, keep, todo, a);
        if a !in keep {
          rv := Delete(c, seen[a]);
          if rv != 0 {
            if zk != before { rest := todo - {a}; }
            return;
          }
        }
        todo := todo - {a};
        rest := todo;
      }
    }

    /** logic_check_rm for one cluster of the check tree, with the nodes read before. */
    method TrimChecks(c: string, seen: map<string, string>, cfg: Option<set<string>>) returns (rv: int)
      requires At(zk, c).dir.Some? && DirOk(DirOf(At(zk, c))) && Covers(seen, DirOf(At(zk, c)), cfg)
      modifies this
      ensures old(fault) ==> fault
      ensures rv != 0 ==> fault
      ensures Local(old(zk), zk, c) && ChkRmPart(At(old(zk), c), At(zk, c), cfg)
      ensures rv == 0 ==> ChkRmFull(At(old(zk), c), At(zk, c), cfg)
      ensures ChkRmIdle(At(old(zk), c), cfg) ==> writes == old(writes) && zk == old(zk)
    {
      var keep := if cfg.Some? then cfg.value else {};
      ghost var rest;
      rv, rest := TrimNodes(c, seen, keep);
      if rv == 0 {
        assert keep + rest == keep;
        if cfg.None? {
          rv := Write(Put(zk, c, At(zk, c).(dir := None)), DirOf(At(zk, c)).nodes == map[]);
        }
      }
    }

    /** logic_check_rm; `chks` was read before logic_check_add. */
    method LogicCheckRm(cfgs: Clusters, chks: map<string, map<string, string>>) returns (rv: int)
      requires Wf(zk) && Snapshot(chks, zk, cfgs)
      modifies this
      ensures old(fault) ==> fault
      ensures rv != 0 ==> fault
      ensures PartAll(TrimmingChecks(cfgs), old(zk), zk)
      ensures rv == 0 ==> FullAll(TrimmingChecks(cfgs), old(zk), zk)
      ensures IdleAll(TrimmingChecks(cfgs), old(zk)) ==> writes == old(writes) && zk == old(zk)
    {
      ghost var z, ph := zk, TrimmingChecks(cfgs);
      PartStart(ph, z);
      var todo := chks.Keys;
      rv := 0;
      while todo != {}
        invariant todo <= chks.Keys && (old(fault) ==> fault) && rv == 0
        invariant PartAll(ph, z, zk) && FullOn(ph, z, zk, chks.Keys - todo)
        invariant forall c :: c !in chks.Keys - todo ==> At(zk, c) == At(z, c)
        invariant IdleAll(ph, z) ==> writes == old(writes) && zk == z
      {
        var c := Pick(todo);
        ghost var before := zk;
        assert DirOk(DirOf(At(z, c)));
        rv := TrimChecks(c, chks[c], Lookup(cfgs, c));
        PartNext(ph, z, before, zk, chks.Keys, todo, c);
        if rv != 0 { return; }
        todo := todo - {c};
      }
      assert chks.Keys - todo == chks.Keys;
      forall c
        ensures Full(ph, c, At(z, c), At(zk, c))
      {
        if c !in chks { UnseenIsKept(z, chks, cfgs, c); }
      }
    }

    // ----- check_error -----

    /** check_error for one repaired address. */
    method RepairOne(c: string, a: string) returns (rv: int)
      requires At(zk, c).err.Some? && At(zk, c).dir.Some? && a in ErrOf(At(zk, c))
      modifies this
      ensures old(fault) ==> fault
      ensures rv != 0 ==> fault
      ensures Local(old(zk), zk, c) && OneRepaired(At(old(zk), c), At(zk, c), a, rv == 0)
    {
      rv := DeleteError(c, a);
      if rv != 0 { return; }
      rv := CreateSeqNode(c, a);
    }

    /** check_error for one cluster: repaired addresses go back to the check tree. */
    method Repair(c: string, names: set<string>, up: set<string>) returns (rv: int)
      requires At(zk, c).err == Some(names) && At(zk, c).dir.Some? && DirOk(DirOf(At(zk, c)))
      modifies this
      ensures old(fault) ==> fault
      ensures rv != 0 ==> fault
      ensures Local(old(zk), zk, c) && RepairPart(At(old(zk), c), At(zk, c), up)
      ensures rv == 0 ==> RepairFull(At(old(zk), c), At(zk, c), up)
      ensures names !! up ==> writes == old(writes) && zk == old(zk)
    {
      ghost var z, k := zk, At(zk, c);
      var order := Sort(names);
      var i := 0;
      rv := 0;
      RepairStart(k, up);
      ListsMembers(order, names);
      assert Elems(order[..0]) == {};
      while i < |order|
        invariant 0 <= i <= |order| && (old(fault) ==> fault) && rv == 0
        invariant Local(z, zk, c) && RepairedSoFar(k, At(zk, c), up, Elems(order[..i]))
        invariant names !! up ==> writes == old(writes) && zk == z
      {
        rv := RepairNth(c, order, i, names, up, z);
        if rv != 0 { return; }
        i := i + 1;
      }
      assert order[..i] == order;
    }

    /** One round of that loop. */
    method RepairNth(c: string, order: seq<string>, i: nat, ghost names: set<string>, up: set<string>, ghost z: Tree)
        returns (rv: int)
      requires Lists(order, names) && i < |order| && At(z, c).err == Some(names) && DirOk(DirOf(At(z, c)))
      requires Local(z, zk, c) && RepairedSoFar(At(z, c), At(zk, c), up, Elems(order[..i]))
      modifies this
      ensures old(fault) ==> fault
      ensures rv != 0 ==> fault
      ensures Local(z, zk, c) && RepairPart(At(z, c), At(zk, c), up)
      ensures rv == 0 ==> RepairedSoFar(At(z, c), At(zk, c), up, Elems(order[..i + 1]))
      ensures order[i] !in up ==> writes == old(writes) && zk == old(zk)
    {
      ghost var before, j := At(zk, c), i + 1;
      NextInOrder(order, i, j);
      assert order[i] in Elems(order);
      rv := 0;
      if order[i] in up {
        rv := RepairOne(c, order[i]);
      }
      RepairNext(At(z, c), before, At(zk, c), up, Elems(order[..i]), order[i], rv == 0);
    }

    /** check_error. */
    method CheckError(up: set<string>) returns (rv: int)
      requires Wf(zk) && forall c :: At(zk, c).err.Some? ==> At(zk, c).dir.Some?
      modifies this
      ensures old(fault) ==> fault
      ensures rv != 0 ==> fault
      ensures PartAll(Repairing(up), old(zk), zk)
      ensures rv == 0 ==> FullAll(Repairing(up), old(zk), zk)
      ensures IdleAll(Repairing(up), old(zk)) ==> writes == old(writes) && zk == old(zk)
    {
      ghost var z, ph := zk, Repairing(up);
      PartStart(ph, z);
      var errs: Clusters;
      rv, errs := GetError();
      if rv != 0 { return; }
      var todo := errs.Keys;
      while todo != {}
        invariant todo <= errs.Keys && (old(fault) ==> fault) && rv == 0
        invariant PartAll(ph, z, zk) && FullOn(ph, z, zk, errs.Keys - todo)
        invariant forall c :: c !in errs.Keys - todo ==> At(zk, c) == At(z, c)
        invariant IdleAll(ph, z) ==> writes == old(writes) && zk == z
      {
        var c := Pick(todo);
        ghost var before := zk;
        assert DirOk(DirOf(At(z, c)));
        rv := Repair(c, errs[c], up);
        PartNext(ph, z, before, zk, errs.Keys, todo, c);
        if rv != 0 { return; }
        todo := todo - {c};
      }
      assert errs.Keys - todo == errs.Keys;
      RepairAllEnd(z, zk, up);
    }

    // ----- check_check -----

    /** check_check for one address that did not answer, when its two operations meet these
        fates. */
    method DemoteWith(c: string, n: string, a: string, create: Fate, delete: Fate) returns (rv: int)
      requires At(zk, c).dir.Some? && At(zk, c).err.Some? && n in DirOf(At(zk, c)).nodes
      modifies this
      ensures zk == Demoted(old(zk), c, n, a, create, delete)
      ensures rv == 0 <==> a !in ErrOf(At(old(zk), c)) && create == Done && delete == Done
      ensures fault == (old(fault) || (a !in ErrOf(At(old(zk), c)) && !(create == Done && delete == Done)))
    {
      rv := WriteWith(WithErr(zk, c, ErrOf(At(zk, c)) + {a}), a !in ErrOf(At(zk, c)), create);
      if rv != 0 { return; }
      rv := WriteWith(Dropped(zk, c, n), true, delete);
    }

    /** The same with any fates. */
    method DemoteOne(c: string, n: string, a: string) returns (rv: int)
      requires At(zk, c).dir.Some? && At(zk, c).err.Some? && n in DirOf(At(zk, c)).nodes
      modifies this
      ensures old(fault) ==> fault
      ensures Local(old(zk), zk, c) && OneDemoted(At(old(zk), c), At(zk, c), n, a, rv == 0)
      ensures rv != 0 ==> fault || a in ErrOf(At(old(zk), c))
    {
      var create: Fate, delete: Fate := *, *;
      rv := DemoteWith(c, n, a, create, delete);
    }

    /** check_check for one cluster: addresses that did not answer go to the error tree. */
    method Demote(c: string, seen: map<string, string>, up: set<string>) returns (rv: int)
      requires At(zk, c).dir.Some? && At(zk, c).err.Some? && DirOk(DirOf(At(zk, c)))
      requires Covers(seen, DirOf(At(zk, c)), Some({}))
      modifies this
      ensures old(fault) ==> fault
      ensures Local(old(zk), zk, c) && DemotePart(At(old(zk), c), At(zk, c), up)
      ensures rv == 0 ==> DemoteFull(At(old(zk), c), At(zk, c), up)
      ensures rv != 0 ==> fault || Stuck(At(old(zk), c), up)
      ensures Data(DirOf(At(old(zk), c))) <= up ==> writes == old(writes) && zk == old(zk)
    {
      ghost var z, k := zk, At(zk, c);
      SeenIsData(DirOf(k), seen);
      var todo := seen.Keys;
      rv := 0;
      OnlyStart(DirOf(k), seen, up);
      while todo != {}
        invariant todo <= seen.Keys && (old(fault) ==> fault) && rv == 0
        invariant Local(z, zk, c) && DemotedSoFar(k, At(zk, c), up, seen.Keys, todo)
        invariant seen.Keys <= up ==> writes == old(writes) && zk == z
      {
        var a := Pick(todo);
        ghost var before := At(zk, c);
        OnlyNext(DirOf(k), seen, up, todo, a);
        if a !in up {
          rv := DemoteOne(c, seen[a], a);
        }
        DemoteNext(k, before, At(zk, c), up, seen, todo, a, rv == 0);
        if rv != 0 { return; }
        todo := todo - {a};
      }
      DemoteEnd(k, At(zk, c), up, seen.Keys);
    }

    /** The loop of check_check. */
    method DemoteAll(chks: map<string, map<string, string>>, up: set<string>) returns (rv: int, ghost bad: string)
      requires Wf(zk) && Mirrors(chks, zk) && forall c :: At(zk, c).dir.Some? ==> At(zk, c).err.Some?
      modifies this
      ensures old(fault) ==> fault
      ensures rv != 0 && !fault ==> Stuck(At(old(zk), bad), up)
      ensures PartAll(Demoting(up), old(zk), zk)
      ensures rv == 0 ==> FullAll(Demoting(up), old(zk), zk)
      ensures IdleAll(Demoting(up), old(zk)) ==> writes == old(writes) && zk == old(zk)
    {
      ghost var z, ph := zk, Demoting(up);
      PartStart(ph, z);
      var todo := chks.Keys;
      rv, bad := 0, "";
      while todo != {}
        invariant todo <= chks.Keys && (old(fault) ==> fault) && rv == 0
        invariant PartAll(ph, z, zk) && FullOn(ph, z, zk, chks.Keys - todo)
        invariant forall c :: c in todo ==> At(zk, c) == At(z, c)
        invariant forall c :: c !in chks ==> At(zk, c) == At(z, c)
        invariant IdleAll(ph, z) ==> writes == old(writes) && zk == z
      {
        var c := Pick(todo);
        ghost var before := zk;
        MirrorCovers(z, chks, c);
        rv := Demote(c, chks[c], up);
        bad := c;
        PartNext(ph, z, before, zk, chks.Keys, todo, c);
        if rv != 0 { return; }
        todo := todo - {c};
      }
      assert chks.Keys - todo == chks.Keys;
      DemoteAllEnd(z, zk, chks, up);
    }

    /** check_check. It stops on an address that did not answer and is in the error tree
        already, besides having a sequence node. `mid` is the tree after its get_check. */
    method CheckCheck(up: set<string>) returns (rv: int, ghost mid: Tree, ghost bad: string)
      requires Wf(zk) && forall c :: At(zk, c).dir.Some? ==> At(zk, c).err.Some?
      modifies this
      ensures old(fault) ==> fault
      ensures PruneAll(old(zk), mid) && PartAll(Demoting(up), mid, zk)
      ensures rv == 0 ==> (forall c :: PruneFull(At(old(zk), c), At(mid, c))) && FullAll(Demoting(up), mid, zk)
      ensures rv != 0 && !fault ==> (forall c :: PruneFull(At(old(zk), c), At(mid, c))) && Stuck(At(mid, bad), up)
      ensures AllTidy(old(zk)) && IdleAll(Demoting(up), old(zk)) ==> writes == old(writes) && zk == old(zk)
    {
      ghost var z := zk;
      var chks: map<string, map<string, string>>;
      rv, chks := GetCheck();
      mid, bad := zk, "";
      PruneAllWf(z, mid);
      PartStart(Demoting(up), mid);
      if rv != 0 { return; }
      assert forall c :: PrunePart(At(z, c), At(mid, c));
      rv, bad := DemoteAll(chks, up);
    }

    // ----- gen_legal_redis -----

    /** sort_redis: the addresses of a cluster, by the names of their nodes. */
    static method SortRedis(rds: map<string, string>, ghost d: Dir) returns (seqs: seq<string>)
      requires IsInverse(rds, d.nodes)
      ensures seqs == Order(d)
    {
      var names := Sort(rds.Values);
      InverseNodes(rds, d.nodes);
      ListsMembers(names, rds.Values);
      var addrOf := Invert(rds);
      seqs := [];
      var i := 0;
      while i < |names|
        invariant 0 <= i <= |names| && seqs == Follow(names[..i], addrOf)
      {
        assert names[..i + 1] == names[..i] + [names[i]];
        seqs := seqs + [addrOf[names[i]]];
        i := i + 1;
      }
      assert names[..i] == names;
      FollowIsOrder(names, d);
    }

    /** The SLAVEOF commands of one cluster, added to `cmds`. The code's returns for an
        address without a slaveof entry and for a second command to one address are
        where the assertions stand: neither can happen once check_check has succeeded. */
    static method Commands(order: seq<string>, up: map<string, string>, cmds: map<string, string>)
        returns (cmds': map<string, string>)
      requires order != [] && Distinct(order)
      requires forall a :: a in order ==> a in up && a !in cmds
      ensures forall a :: a in order ==> Lookup(cmds', a) == CmdFor(a, order[0], up[a])
      ensures forall a :: a !in order ==> Lookup(cmds', a) == Lookup(cmds, a)
    {
      cmds' := cmds;
      var master := order[0];
      var i := 0;
      while i < |order|
        invariant 0 <= i <= |order|
        invariant forall j :: 0 <= j < i ==> Lookup(cmds', order[j]) == CmdFor(order[j], master, up[order[j]])
        invariant forall j :: i <= j < |order| ==> order[j] !in cmds'
        invariant forall a :: a !in order ==> Lookup(cmds', a) == Lookup(cmds, a)
      {
        var rds := order[i];
        if rds !in up { assert false; }
        if i == 0 {
          if up[rds] != "" {
            if rds in cmds' { assert false; }
            cmds' := cmds'[rds := NO_ONE];
          }
        } else {
          if up[rds] != master {
            if rds in cmds' { assert false; }
            cmds' := cmds'[rds := master];
          }
        }
        i := i + 1;
      }
    }

    /** The body of gen_legal_redis for one cluster: the list to publish, and `cmds` with
        the commands of the cluster. */
    static method Elect(rds: map<string, string>, errs: Option<set<string>>, up: map<string, string>,
                        cmds: map<string, string>, ghost k: Cluster)
        returns (rv: int, legal: seq<string>, cmds': map<string, string>)
      requires IsInverse(rds, DirOf(k).nodes) && errs == k.err
      requires Data(DirOf(k)) <= up.Keys && Data(DirOf(k)) !! cmds.Keys
      ensures rv == 0 ==> Elected(k, legal, up, cmds')
      ensures forall a :: a !in Data(DirOf(k)) ==> Lookup(cmds', a) == Lookup(cmds, a)
      ensures rv != 0 ==> Deserted(k)
    {
      rv, cmds' := 0, cmds;
      legal := SortRedis(rds, DirOf(k));
      OrderIsData(DirOf(k));
      if legal == [] {
        if errs.None? || errs.value == {} {
          rv := 2;
        } else {
          var first := Sort(errs.value);
          ListsUnique(first, Ordered(errs.value));
          legal := [first[0]];
        }
        return;
      }
      OrderDistinct(DirOf(k), rds);
      OrderMembers(DirOf(k));
      cmds' := Commands(legal, up, cmds);
    }

    // ----- legal_cmp -----

    /** The name that legal_cmp builds for one cluster. */
    static method LegalText(idx: int, addrs: seq<string>) returns (cls: string)
      ensures cls == OfInt(idx) + Joined(addrs)
    {
      cls := OfInt(idx);
      var i := 0;
      while i < |addrs|
        invariant 0 <= i <= |addrs| && cls == OfInt(idx) + Joined(addrs[..i])
      {
        assert addrs[..i + 1][..i] == addrs[..i];
        cls := cls + ";" + addrs[i];
        i := i + 1;
      }
      assert addrs[..i] == addrs;
    }

    /** The names legal_cmp wants to see published; a cluster without an index is refused. */
    static method LegalWanted(want: map<string, seq<string>>) returns (ok: bool, names: set<string>)
      ensures ok <==> forall c :: c in want ==> IsCluster(c)
      ensures ok ==> names == LegalNames(want)
    {
      names := {};
      var todo := want.Keys;
      while todo != {}
        invariant todo <= want.Keys && forall c :: c in want && c !in todo ==> IsCluster(c)
        invariant names == set c | c in want && c !in todo :: LegalName(c, want[c])
      {
        var c := Pick(todo);
        var idx := CutIdx(CLUSTER_PREFIX, c);
        if idx == -1 {
          assert !IsCluster(c);
          return false, names;
        }
        var cls := LegalText(idx, want[c]);
        names, todo := names + {cls}, todo - {c};
      }
      ok := true;
    }

    /** legal_cmp: names that are no longer wanted go before new ones come, so whatever the
        operation that fails, no cluster index is published twice. */
    method LegalCmp(want: map<string, seq<string>>) returns (rv: int)
      modifies this
      ensures old(fault) ==> fault
      ensures zk == old(zk).(legal := zk.legal)
      ensures rv == 0 ==> zk.legal == LegalNames(want)
      ensures rv != 0 ==> fault || exists c :: c in want && !IsCluster(c)
      ensures Between(old(zk).legal, LegalNames(want), zk.legal)
      ensures UniqueIndexes(old(zk).legal) && DistinctIndexes(want.Keys) ==> UniqueIndexes(zk.legal)
      ensures old(zk).legal == LegalNames(want) ==> writes == old(writes) && zk == old(zk)
    {
      ghost var z := zk;
      rv := Read();
      if rv != 0 { return; }
      var bef := zk.legal;
      var ok, wanted := LegalWanted(want);
      if !ok { return 1; }
      if DistinctIndexes(want.Keys) { LegalNamesUnique(want); }
      rv := Unpublish(bef - wanted, bef * wanted);
      if rv != 0 { return; }
      rv := Publish(wanted - bef);
      assert bef * wanted + (wanted - bef) == wanted;
    }

    /** The first loop of legal_cmp. */
    method Unpublish(rms: set<string>, ghost rest: set<string>) returns (rv: int)
      requires zk.legal == rest + rms && rest !! rms
      modifies this
      ensures old(fault) ==> fault
      ensures zk == old(zk).(legal := zk.legal) && rest <= zk.legal <= old(zk).legal
      ensures rv == 0 ==> zk.legal == rest
      ensures rv != 0 ==> fault
      ensures rms == {} ==> writes == old(writes) && zk == old(zk)
    {
      ghost var z := zk;
      var todo := rms;
      rv := 0;
      while todo != {}
        invariant rv == 0 && (old(fault) ==> fault) && todo <= rms
        invariant zk == z.(legal := rest + todo)
        invariant rms == {} ==> writes == old(writes)
      {
        var n := Pick(todo);
        assert rest + todo - {n} == rest + (todo - {n});
        rv := Write(zk.(legal := zk.legal - {n}), n in zk.legal);
        if rv != 0 { return; }
        todo := todo - {n};
      }
      assert rest + todo == rest;
    }

    /** The second loop of legal_cmp. */
    method Publish(adds: set<string>) returns (rv: int)
      requires zk.legal !! adds
      modifies this
      ensures old(fault) ==> fault
      ensures zk == old(zk).(legal := zk.legal) && old(zk).legal <= zk.legal <= old(zk).legal + adds
      ensures rv == 0 ==> zk.legal == old(zk).legal + adds
      ensures rv != 0 ==> fault
      ensures adds == {} ==> writes == old(writes) && zk == old(zk)
    {
      ghost var z := zk;
      var todo := adds;
      rv := 0;
      while todo != {}
        invariant rv == 0 && (old(fault) ==> fault) && todo <= adds
        invariant zk == z.(legal := z.legal + (adds - todo))
        invariant adds == {} ==> writes == old(writes)
      {
        var n := Pick(todo);
        assert z.legal + (adds - todo) + {n} == z.legal + (adds - (todo - {n}));
        rv := Write(zk.(legal := zk.legal + {n}), n !in zk.legal);
        if rv != 0 { return; }
        todo := todo - {n};
      }
    }

    // ----- gen_legal_redis, as a whole -----

    /** One round of the loop of gen_legal_redis. */
    static method ElectOne(chks: map<string, map<string, string>>, errs: Clusters, up: map<string, string>, c: string,
                           want: map<string, seq<string>>, cmds: map<string, string>, ghost z: Tree)
        returns (rv: int, want': map<string, seq<string>>, cmds': map<string, string>)
      requires DataDisjoint(z) && Mirrors(chks, z) && errs == ErrTree(z) && Answered(z, up)
      requires c in chks && c !in want && ElectedSoFar(z, up, want, cmds)
      ensures rv == 0 ==> want'.Keys == want.Keys + {c} && ElectedSoFar(z, up, want', cmds')
      ensures rv != 0 ==> Deserted(At(z, c))
    {
      ElectReady(z, errs, chks, up, want.Keys, cmds, c);
      var legal: seq<string>;
      rv, legal, cmds' := Elect(chks[c], Lookup(errs, c), up, cmds, At(z, c));
      want' := want[c := legal];
      if rv == 0 { ElectNext(z, up, want, c, legal, cmds, cmds'); }
    }

    /** The loop of gen_legal_redis. */
    static method ElectAll(chks: map<string, map<string, string>>, errs: Clusters, up: map<string, string>,
                           ghost z: Tree)
        returns (rv: int, want: map<string, seq<string>>, cmds: map<string, string>, ghost bad: string)
      requires DataDisjoint(z) && Mirrors(chks, z) && errs == ErrTree(z) && Answered(z, up)
      ensures rv == 0 ==> want.Keys == chks.Keys && ElectedSoFar(z, up, want, cmds)
      ensures rv != 0 ==> bad in chks && Deserted(At(z, bad))
    {
      rv, want, cmds, bad := 0, map[], map[], "";
      var todo := chks.Keys;
      ElectStart(z, up);
      while todo != {}
        invariant rv == 0
        invariant want.Keys !! todo && want.Keys + todo == chks.Keys
        invariant ElectedSoFar(z, up, want, cmds)
      {
        var c := Pick(todo);
        OneMoved(want.Keys, todo, c);
        rv, want, cmds := ElectOne(chks, errs, up, c, want, cmds, z);
        if rv != 0 {
          bad := c;
          return;
        }
        todo := todo - {c};
      }
    }

    /** gen_legal_redis, up to the commands it hands to do_slaveof_cmd; `elected` when it has
        reached legal_cmp. */
    method GenLegal(up: map<string, string>)
        returns (rv: int, cmds: map<string, string>, ghost elected: bool, ghost bad: string)
      requires Wf(zk) && DataDisjoint(zk) && AllTidy(zk) && Answered(zk, up)
      modifies this
      ensures old(fault) ==> fault
      ensures zk == old(zk).(legal := zk.legal)
      ensures elected ==>
                Asked(old(zk), up, cmds) && forall c :: c in ChkClusters(old(zk)) ==> !Deserted(At(old(zk), c))
      ensures elected ==> Between(old(zk).legal, LegalNames(Legals(old(zk))), zk.legal)
      ensures !elected ==> zk.legal == old(zk).legal
      ensures rv == 0 ==> elected && zk.legal == LegalNames(Legals(old(zk)))
      ensures rv != 0 ==> fault || (bad in ChkClusters(old(zk)) && (Deserted(At(old(zk), bad)) || !IsCluster(bad)))
      ensures UniqueIndexes(old(zk).legal) && DistinctIndexes(ChkClusters(old(zk))) ==> UniqueIndexes(zk.legal)
      ensures old(zk).legal == LegalNames(Legals(old(zk))) ==> writes == old(writes) && zk == old(zk)
    {
      ghost var z := zk;
      cmds, elected, bad := map[], false, "";
      var chks: map<string, map<string, string>>;
      rv, chks := GetCheck();
      if rv != 0 { return; }
      var errs: Clusters;
      rv, errs := GetError();
      if rv != 0 { return; }
      var want: map<string, seq<string>>;
      rv, want, cmds, bad := ElectAll(chks, errs, up, z);
      if rv != 0 { return; }
      elected := true;
      AllElected(z, up, want, cmds);
      rv := LegalCmp(want);
      if rv != 0 && !fault { bad :| bad in want && !IsCluster(bad); }
    }

    // ----- check_redis -----

    /** The endpoints that check_redis asks. */
    static method Ask(addrs: set<string>) returns (asked: set<nat>)
      ensures asked == Endpoints(addrs)
    {
      asked := {};
      var todo := addrs;
      while todo != {}
        invariant todo <= addrs && asked == Endpoints(addrs - todo)
      {
        var a := Pick(todo);
        todo := todo - {a};
        EndpointsMore(addrs - todo - {a}, a);
        assert addrs - todo - {a} + {a} == addrs - todo;
        match StrIpv4Int64(a)
        case None =>
        case Some(v) => asked := asked + {v};
      }
      assert addrs - todo == addrs;
    }

    /** The loop of check_redis over the replies, for endpoints that have been asked. */
    static method Enter(asked: set<nat>, replies: Replies, found: map<string, string>)
        returns (found': map<string, string>)
      requires forall v :: v in asked ==> v < WORD32 * WORD32
      ensures found' == found + Entered(asked, replies)
    {
      found' := found;
      var todo := asked;
      NothingEntered(replies, found);
      while todo != {}
        invariant todo <= asked && found' == found + Entered(asked - todo, replies)
      {
        var v := Pick(todo);
        ghost var done := asked - todo;
        todo := todo - {v};
        EnteredMore(done, v, replies, found);
        assert done + {v} == asked - todo;
        if v in replies {
          match replies[v]
          case Malformed =>
          case Pair(name, value) =>
            if name == "slaveof" { found' := found'[Int64StrIpv4(v) := IpPort(value)]; }
        }
      }
      assert asked - todo == asked;
    }

    /** check_redis: asks every endpoint; addresses that were not found are asked again. */
    static method CheckRedis(addrs: set<string>, found: map<string, string>, tries: seq<Replies>)
        returns (found': map<string, string>)
      requires tries != []
      ensures found' == Poll(addrs, found, tries)
      decreases |tries|
    {
      var asked := Ask(addrs);
      EndpointsBound(addrs);
      found' := Enter(asked, tries[0], found);
      var missing := addrs - found'.Keys;
      if missing != {} && |tries| > 1 {
        found' := CheckRedis(missing, found', tries[1..]);
      }
    }

    // ----- do_slaveof_cmd -----

    /** The arguments for one address; a target that cannot be parsed is skipped. */
    static method AddCmd(batch: Batch, a: string, cmd: string) returns (batch': Batch)
      ensures batch' == WithCmd(batch, a, Some(cmd))
    {
      batch' := batch;
      match StrIpv4Int64(a)
      case None =>
      case Some(v) =>
        if cmd == NO_ONE {
          batch' := batch[v := ("NO", "ONE")];
        } else {
          match StrIpv4(cmd)
          case None =>
          case Some((ip, port)) => batch' := batch[v := (ip, OfInt(port))];
        }
    }

    /** The commands of one attempt, by endpoint. */
    static method MakeBatch(cmds: map<string, string>) returns (batch: Batch)
      ensures batch == BatchOf(Ordered(cmds.Keys), cmds)
    {
      var order := Sort(cmds.Keys);
      ListsUnique(order, Ordered(cmds.Keys));
      ListsMembers(order, cmds.Keys);
      batch := map[];
      var i := 0;
      while i < |order|
        invariant 0 <= i <= |order| && batch == BatchOf(order[..i], cmds)
      {
        assert order[..i + 1] == order[..i] + [order[i]] && order[i] in cmds;
        batch := AddCmd(batch, order[i], cmds[order[i]]);
        i := i + 1;
      }
      assert order[..i] == order;
    }

    /** do_slaveof_cmd: sends the commands, and again those that were not acknowledged. */
    static method DoSlaveof(cmds: map<string, string>, oks: seq<set<nat>>)
        returns (log: seq<Batch>, left: map<string, string>)
      requires oks != []
      ensures (log, left) == Sent(cmds, oks)
      decreases |oks|
    {
      var batch := MakeBatch(cmds);
      if batch == map[] { return [], cmds; }
      log, left := [batch], cmds - Acked(batch, oks[0]);
      if left != map[] && |oks| > 1 {
        var more;
        more, left := DoSlaveof(left, oks[1..]);
        log := log + more;
      }
    }

    // ----- check -----

    /** The part of check before check_redis. */
    method Reconcile(cfgs: Clusters, ghost up: set<string>) returns (rv: int)
      requires Wf(zk)
      modifies this
      ensures old(fault) ==> fault
      ensures rv != 0 ==> fault
      ensures Safe(old(zk), zk, cfgs, up) && zk.legal == old(zk).legal
      ensures rv == 0 ==> TrimmedAll(old(zk), zk, cfgs)
      ensures DividedAll(old(zk), cfgs, up) ==> writes == old(writes) && zk == old(zk)
    {
      ghost var z0 := zk;
      SafeStart(z0, cfgs, up);
      if DividedAll(z0, cfgs, up) { DividedIsIdle(z0, cfgs, up); }
      var errs: Clusters;
      rv, errs := GetError();
      if rv != 0 { return; }
      var chks: map<string, map<string, string>>;
      rv, chks := GetCheck();
      ghost var z1 := zk;
      SafePrune(z0, z0, z1, cfgs, up);
      if rv != 0 { return; }
      ErrorsSame(z0, z1, errs);
      rv := LogicCheckAdd(cfgs, errs, chks);
      ghost var z2 := zk;
      SafePhase(Adding(cfgs), z0, z1, z2, cfgs, up);
      if rv != 0 { return; }
      ErrorsKnown(z1, z2, errs, cfgs);
      StillCovered(z1, z2, chks, cfgs);
      rv := LogicErrorRm(cfgs, errs);
      ghost var z3 := zk;
      SafePhase(TrimmingErrors(cfgs), z0, z2, z3, cfgs, up);
      if rv != 0 { return; }
      SnapshotSame(z2, z3, chks, cfgs);
      rv := LogicCheckRm(cfgs, chks);
      SafePhase(TrimmingChecks(cfgs), z0, z3, zk, cfgs, up);
      if rv != 0 { return; }
      TrimDone(z0, z1, z2, z3, zk, cfgs);
    }

    /** check_error and check_check. */
    method Judge(cfgs: Clusters, up: set<string>, ghost z0: Tree) returns (rv: int, ghost bad: string)
      requires Wf(z0) && Safe(z0, zk, cfgs, up) && TrimmedAll(z0, zk, cfgs)
      modifies this
      ensures old(fault) ==> fault
      ensures Safe(z0, zk, cfgs, up) && zk.legal == old(zk).legal
      ensures rv == 0 ==> DividedAll(zk, cfgs, up) && SeatedAll(z0, zk, cfgs)
      ensures rv == 0 ==> forall c :: c in cfgs ==> !Wedged(At(z0, c), cfgs[c], up)
      ensures rv != 0 ==> fault || (bad in cfgs && Wedged(At(z0, bad), cfgs[bad], up))
      ensures DividedAll(old(zk), cfgs, up) ==> writes == old(writes) && zk == old(zk)
    {
      ghost var z4 := zk;
      bad := "";
      if DividedAll(z4, cfgs, up) { DividedIsIdle(z4, cfgs, up); }
      TrimmedPairs(z0, z4, cfgs);
      rv := CheckError(up);
      ghost var z5 := zk;
      SafePhase(Repairing(up), z0, z4, z5, cfgs, up);
      if rv != 0 { return; }
      RepairedPairs(z4, z5, up);
      ghost var z6;
      rv, z6, bad := CheckCheck(up);
      SafePrune(z0, z5, z6, cfgs, up);
      SafePhase(Demoting(up), z0, z6, zk, cfgs, up);
      if rv == 0 {
        PassDivides(z0, z4, z5, z6, zk, cfgs, up);
      } else if !fault {
        JudgedAll(z0, z4, z5, z6, cfgs, up, bad);
      }
    }

    /** The part of check after check_redis; `z0` is what the pass found. */
    method Decide(cfgs: Clusters, found: map<string, string>, ghost z0: Tree)
        returns (rv: int, cmds: map<string, string>, ghost elected: bool)
      requires Wf(z0) && Safe(z0, zk, cfgs, found.Keys) && TrimmedAll(z0, zk, cfgs)
      requires Disjoint(cfgs) && (forall c :: c in cfgs ==> IsCluster(c)) && zk.legal == z0.legal
      modifies this
      ensures old(fault) ==> fault
      ensures Safe(z0, zk, cfgs, found.Keys)
      ensures elected ==> Decides(z0, zk, cfgs, found, cmds)
      ensures !elected ==> zk.legal == z0.legal
      ensures rv == 0 ==> elected && zk.legal == LegalNames(Legals(zk))
      ensures rv != 0 ==> fault || !Passable(z0, cfgs, found.Keys)
      ensures Settled(old(zk), cfgs, found.Keys) ==> writes == old(writes) && zk == old(zk)
      ensures UniqueIndexes(z0.legal) && DistinctIndexes(cfgs.Keys) ==> UniqueIndexes(zk.legal)
    {
      ghost var up, bad := found.Keys, "";
      cmds, elected := map[], false;
      rv, bad := Judge(cfgs, found.Keys, z0);
      if rv != 0 { return; }
      ghost var z7 := zk;
      DividedDisjoint(z7, cfgs, up);
      rv, cmds, elected, bad := GenLegal(found);
      SafeLegal(z0, z7, zk, cfgs, up);
      LegalsSame(z7, zk, found, cmds);
    }

    /** The body of check, when `answers` is what check_redis will find. */
    method Run(tries: seq<Replies>, ghost answers: map<string, string>)
        returns (rv: int, cmds: map<string, string>, ghost elected: bool)
      requires tries != [] && Wf(zk) && writes == 0 && !fault
      requires answers == Poll(AllAddrs(Configured(zk.config)), map[], tries)
      modifies this
      ensures Leaves(old(zk), zk, answers, elected, rv == 0, cmds, writes)
      ensures rv != 0 ==> fault || !Feasible(old(zk), answers.Keys)
    {
      ghost var z0, want, up := zk, Configured(zk.config), answers.Keys;
      cmds, elected := map[], false;
      SafeStart(z0, want, up);
      var cfgs: Clusters;
      rv, cfgs := GetConfig();
      if rv != 0 { return; }
      rv := Reconcile(cfgs, up);
      if rv != 0 { return; }
      var found := CheckRedis(AllAddrs(cfgs), map[], tries);
      rv, cmds, elected := Decide(cfgs, found, z0);
    }

    /** check: one whole pass. `tries` is what the endpoints would reply to each attempt of
        check_redis, and `oks` are those that reply OK to each attempt of do_slaveof_cmd;
        `elected` when the pass has reached legal_cmp; `log` is what a completed pass sends,
        `left` what is not acknowledged. */
    method Check(tries: seq<Replies>, oks: seq<set<nat>>)
        returns (rv: int, cmds: map<string, string>, log: seq<Batch>, left: map<string, string>, ghost elected: bool)
      requires |tries| == 3 && |oks| == 3 && Wf(zk)
      modifies this
      ensures Outcome(old(zk), zk, tries, elected, rv == 0, cmds, writes)
      ensures rv != 0 ==> fault || !Feasible(old(zk), Healthy(Configured(old(zk).config), tries))
      ensures (log, left) == if rv == 0 then Sent(cmds, oks) else ([], map[])
    {
      ghost var z0, cfgs := zk, Configured(zk.config);
      ghost var answers := Poll(AllAddrs(cfgs), map[], tries);
      writes, fault, log, left := 0, false, [], map[];
      rv, cmds, elected := Run(tries, answers);
      FoundCovers(z0, cfgs, tries);
      LeavesSame(z0, zk, answers, Answers(cfgs, tries), elected, rv == 0, cmds, writes);
      if rv == 0 {
        log, left := DoSlaveof(cmds, oks);
      }
    }
  }
}

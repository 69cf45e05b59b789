/** How the order of a cluster's addresses changes: those that stay keep their order, the
    others come after them. */
module CtrlOrder {
  import opened Options
  import opened Sequences
  import opened Text
  import opened ZkTree
  import opened Legal
  import opened CtrlSteps
  import opened Polling
  import opened PassSpec
  import opened CtrlTrace
  import opened CtrlRuns

  function Restrict(s: seq<string>, keep: set<string>): seq<string> {
    if s == [] then []
    else
      var n := |s| - 1;
      Restrict(s[..n], keep) + if s[n] in keep then [s[n]] else []
  }

  /** The addresses whose node is still there. */
  ghost function Stayed(d: Dir, d': Dir): set<string> {
    set n | n in d.nodes && n in d'.nodes :: d.nodes[n]
  }

  /** The addresses with a new node, by its number. */
  ghost function Newcomers(d: Dir, d': Dir): seq<string> {
    var names := Ordered(d'.nodes.Keys - d.nodes.Keys);
    ListsMembers(names, d'.nodes.Keys - d.nodes.Keys);
    Follow(names, d'.nodes)
  }

  lemma {:induction false} RestrictLists(s: seq<string>, keep: set<string>)
    requires Sorted(s)
    ensures Lists(Restrict(s, keep), Elems(s) * keep)
  {
    if s != [] {
      var n := |s| - 1;
      SortedPrefix(s);
      RestrictLists(s[..n], keep);
      var r := Restrict(s[..n], keep);
      ListsMembers(r, Elems(s[..n]) * keep);
      if s[n] in keep {
        SortedAppend(r, [s[n]]);
        assert Elems(r + [s[n]]) == Elems(r) + {s[n]};
      } else {
        assert r + [] == r;
      }
    }
  }

  lemma {:induction false} RestrictSame(s: seq<string>, a: set<string>, b: set<string>)
    requires Elems(s) * a == Elems(s) * b
    ensures Restrict(s, a) == Restrict(s, b)
  {
    if s != [] {
      var n := |s| - 1;
      assert s[n] in Elems(s) && forall x :: x in Elems(s[..n]) ==> x in Elems(s);
      assert Elems(s[..n]) * a == Elems(s[..n]) * b by {
        forall x
          ensures x in Elems(s[..n]) * a <==> x in Elems(s[..n]) * b
        {
          assert x in Elems(s[..n]) ==> (x in Elems(s) * a <==> x in Elems(s) * b);
        }
      }
      RestrictSame(s[..n], a, b);
      assert s[n] in Elems(s) * a <==> s[n] in Elems(s) * b;
    }
  }

  lemma OlderIsLess(d: Dir, d': Dir, keep: set<string>, x: string, y: string)
    requires DirOk(d) && Tidy(d) && Evolves(d, d', keep) && x in d.nodes && y in d'.nodes && y !in d.nodes
    ensures Less(x, y)
  {
    assert Padded(x) && Idx(x) < d.next && Padded(y) && d.next <= Idx(y);
    PaddedOrder(x, y);
  }

  lemma ListsAppend(s: seq<string>, t: seq<string>, xs: set<string>, ys: set<string>)
    requires Lists(s, xs) && Lists(t, ys) && forall x, y :: x in xs && y in ys ==> Less(x, y)
    ensures Lists(s + t, xs + ys)
  {
    ListsMembers(s, xs);
    ListsMembers(t, ys);
    SortedAppend(s, t);
    assert Elems(s + t) == Elems(s) + Elems(t);
  }

  /** The names of `d'` are those of `d` that are left, and then the new ones. */
  lemma NamesSplit(d: Dir, d': Dir, keep: set<string>)
    requires DirOk(d) && Tidy(d) && Evolves(d, d', keep)
    ensures Ordered(d'.nodes.Keys) == Restrict(Ordered(d.nodes.Keys), d'.nodes.Keys)
                                          + Ordered(d'.nodes.Keys - d.nodes.Keys)
  {
    var was, now := d.nodes.Keys, d'.nodes.Keys;
    forall x, y | x in was * now && y in now - was
      ensures Less(x, y)
    {
      OlderIsLess(d, d', keep, x, y);
    }
    NamesMerge(was, now);
  }

  lemma NamesMerge(was: set<string>, now: set<string>)
    requires forall x, y :: x in was * now && y in now - was ==> Less(x, y)
    ensures Ordered(now) == Restrict(Ordered(was), now) + Ordered(now - was)
  {
    RestrictLists(Ordered(was), now);
    Merge(Restrict(Ordered(was), now), Ordered(now - was), was * now, now - was, now);
  }

  lemma Merge(s: seq<string>, t: seq<string>, xs: set<string>, ys: set<string>, all: set<string>)
    requires Lists(s, xs) && Lists(t, ys) && all == xs + ys
    requires forall x, y :: x in xs && y in ys ==> Less(x, y)
    ensures Ordered(all) == s + t
  {
    ListsAppend(s, t, xs, ys);
    ListsUnique(s + t, Ordered(all));
  }

  lemma {:induction false} FollowRestrict(names: seq<string>, d: Dir, d': Dir, keep: set<string>)
    requires Tidy(d) && Evolves(d, d', keep) && DirOk(d)
    requires forall n :: n in names ==> n in d.nodes
    ensures forall n :: n in Restrict(names, d'.nodes.Keys) ==> n in d'.nodes
    ensures Follow(Restrict(names, d'.nodes.Keys), d'.nodes) == Restrict(Follow(names, d.nodes), Stayed(d, d'))
  {
    NamesStay(d, d', keep);
    FollowStay(names, d.nodes, d'.nodes, Stayed(d, d'));
  }

  lemma NamesStay(d: Dir, d': Dir, keep: set<string>)
    requires Tidy(d) && Evolves(d, d', keep) && DirOk(d)
    ensures forall n :: n in d.nodes ==> (n in d'.nodes <==> d.nodes[n] in Stayed(d, d'))
    ensures forall n :: n in d.nodes && n in d'.nodes ==> d'.nodes[n] == d.nodes[n]
  {
  }

  lemma {:induction false} FollowStay(names: seq<string>, nodes: map<string, string>, nodes': map<string, string>,
                                      stay: set<string>)
    requires forall n :: n in names ==> n in nodes && (n in nodes' <==> nodes[n] in stay)
    requires forall n :: n in names && n in nodes' ==> nodes'[n] == nodes[n]
    ensures forall n :: n in Restrict(names, nodes'.Keys) ==> n in nodes'
    ensures Follow(Restrict(names, nodes'.Keys), nodes') == Restrict(Follow(names, nodes), stay)
  {
    if names != [] {
      var k := |names| - 1;
      var n := names[k];
      FollowStay(names[..k], nodes, nodes', stay);
      assert Follow(names, nodes)[..k] == Follow(names[..k], nodes);
      FollowAppend(Restrict(names[..k], nodes'.Keys), if n in nodes' then [n] else [], nodes');
    }
  }

  lemma FollowAppend(s: seq<string>, t: seq<string>, nodes: map<string, string>)
    requires forall n :: n in s || n in t ==> n in nodes
    ensures Follow(s + t, nodes) == Follow(s, nodes) + Follow(t, nodes)
  {
  }

  lemma OrderSplit(d: Dir, d': Dir, keep: set<string>)
    requires DirOk(d) && Tidy(d) && Tidy(d') && Evolves(d, d', keep)
    ensures Order(d') == Restrict(Order(d), Stayed(d, d')) + Newcomers(d, d')
  {
    var names := Ordered(d.nodes.Keys);
    ListsMembers(names, d.nodes.Keys);
    ListsMembers(Ordered(d'.nodes.Keys - d.nodes.Keys), d'.nodes.Keys - d.nodes.Keys);
    NamesSplit(d, d', keep);
    FollowRestrict(names, d, d', keep);
    FollowAppend(Restrict(names, d'.nodes.Keys), Ordered(d'.nodes.Keys - d.nodes.Keys), d'.nodes);
  }

  lemma WhoStays(d: Dir, d': Dir, keep: set<string>)
    requires DirOk(d) && Tidy(d) && Evolves(d, d', keep)
    ensures Data(d) * keep <= Stayed(d, d') <= Data(d) * Data(d')
  {
    forall a | a in Data(d) * keep
      ensures a in Stayed(d, d')
    {
      var n :| n in d.nodes && d.nodes[n] == a;
      assert IsLowest(d, n);
    }
    forall a | a in Stayed(d, d')
      ensures a in Data(d) * Data(d')
    {
      var n :| n in d.nodes && n in d'.nodes && d.nodes[n] == a;
      assert Padded(n) && Idx(n) < d.next;
    }
  }

  lemma NewName(d: Dir, d': Dir, keep: set<string>, n: string)
    requires DirOk(d) && Tidy(d') && Evolves(d, d', keep) && n in d'.nodes
    ensures d'.nodes[n] in Stayed(d, d') <==> n in d.nodes
  {
    if n in d.nodes {
      assert Padded(n) && Idx(n) < d.next;
      assert d.nodes[n] in Stayed(d, d');
    }
    if d'.nodes[n] in Stayed(d, d') {
      var x :| x in d.nodes && x in d'.nodes && d.nodes[x] == d'.nodes[n];
      assert Padded(x) && Idx(x) < d.next;
      assert x == n;
    }
  }

  lemma WhoIsNew(d: Dir, d': Dir, keep: set<string>)
    requires DirOk(d) && Tidy(d') && Evolves(d, d', keep)
    ensures Elems(Newcomers(d, d')) == Data(d') - Stayed(d, d')
  {
    var come := d'.nodes.Keys - d.nodes.Keys;
    FollowElems(Ordered(come), come, d'.nodes);
    forall a
      ensures a in Data(d') - Stayed(d, d') <==> exists n :: n in come && d'.nodes[n] == a
    {
      IsNew(d, d', keep, a);
    }
  }

  lemma IsNew(d: Dir, d': Dir, keep: set<string>, a: string)
    requires DirOk(d) && Tidy(d') && Evolves(d, d', keep)
    ensures a in Data(d') - Stayed(d, d') <==> exists n :: n in d'.nodes.Keys - d.nodes.Keys && d'.nodes[n] == a
  {
    if a in Data(d') {
      var n :| n in d'.nodes && d'.nodes[n] == a;
      NewName(d, d', keep, n);
    }
    if n :| n in d'.nodes.Keys - d.nodes.Keys && d'.nodes[n] == a { NewName(d, d', keep, n); }
  }

  lemma FollowElems(names: seq<string>, xs: set<string>, nodes: map<string, string>)
    requires Lists(names, xs) && xs <= nodes.Keys
    ensures (forall n :: n in names ==> n in nodes)
    ensures forall a :: a in Elems(Follow(names, nodes)) <==> exists n :: n in xs && nodes[n] == a
  {
    ListsMembers(names, xs);
    forall a
      ensures a in Elems(Follow(names, nodes)) <==> exists n :: n in xs && nodes[n] == a
    {
      if n :| n in xs && nodes[n] == a {
        var i :| 0 <= i < |names| && names[i] == n;
        assert Follow(names, nodes)[i] == a;
      }
      if a in Elems(Follow(names, nodes)) {
        var i :| 0 <= i < |names| && nodes[names[i]] == a;
        assert names[i] in xs;
      }
    }
  }

  /** Between any two states of a run in which the cluster is tidy, such as those that two
      completed passes leave: the addresses that kept their node come first, in their old
      order, and all others after them. Every address that was configured and answered in
      all passes between is among the first. */
  lemma Seniority(r: Trace, c: string, keep: set<string>, i: nat, j: nat)
    requires IsRun(r) && i <= j <= |r.es| && Loyal(r, c, keep, i, j)
    requires Tidy(DirAt(r.zs[i], c)) && Tidy(DirAt(r.zs[j], c))
    ensures var d, d' := DirAt(r.zs[i], c), DirAt(r.zs[j], c);
            && Order(d') == Restrict(Order(d), Stayed(d, d')) + Newcomers(d, d')
            && Data(d) * keep <= Stayed(d, d') <= Data(d) * Data(d')
            && Elems(Newcomers(d, d')) == Data(d') - Stayed(d, d')
  {
    var d, d' := DirAt(r.zs[i], c), DirAt(r.zs[j], c);
    RunEvolves(r, c, keep, i, j);
    RunWf(r, i);
    assert DirOk(d);
    OrderSplit(d, d', keep);
    WhoStays(d, d', keep);
    WhoIsNew(d, d', keep);
  }

  // ----- the order of the newcomers -----

  ghost predicate InLine(errs: set<string>, s: seq<string>) {
    forall i, j :: 0 <= i < j < |s| ==> Precedes(errs, s[i], s[j])
  }

  lemma PrecedesOnce(errs: set<string>, a: string, b: string)
    ensures !(Precedes(errs, a, b) && Precedes(errs, b, a)) && !Precedes(errs, a, a)
  {
    LessTotal(a, b);
    LessTotal(a, a);
  }

  lemma {:induction false} LineIsUnique(errs: set<string>, s: seq<string>, t: seq<string>)
    requires InLine(errs, s) && InLine(errs, t) && Elems(s) == Elems(t)
    ensures s == t
  {
    NoElems(s);
    NoElems(t);
    if s != [] {
      SameHead(errs, s, t);
      forall x
        ensures x in s[1..] <==> x in t[1..]
      {
        PrecedesOnce(errs, x, x);
        assert x in Elems(s) <==> x in Elems(t);
        assert x in s <==> x == s[0] || x in s[1..];
        assert x in t <==> x == t[0] || x in t[1..];
      }
      LineIsUnique(errs, s[1..], t[1..]);
      assert s == [s[0]] + s[1..] && t == [t[0]] + t[1..];
    }
  }

  lemma SameHead(errs: set<string>, s: seq<string>, t: seq<string>)
    requires InLine(errs, s) && InLine(errs, t) && Elems(s) == Elems(t) && s != [] && t != []
    ensures s[0] == t[0]
  {
    assert s[0] in Elems(t) && t[0] in Elems(s);
    var i :| 0 <= i < |s| && s[i] == t[0];
    var j :| 0 <= j < |t| && t[j] == s[0];
    PrecedesOnce(errs, s[0], t[0]);
  }

  lemma SortedInLine(errs: set<string>, s: seq<string>)
    requires Sorted(s) && (Elems(s) <= errs || Elems(s) !! errs)
    ensures InLine(errs, s)
  {
    forall i, j | 0 <= i < j < |s|
      ensures Precedes(errs, s[i], s[j])
    {
      SortedTake(s, j);
      assert s[i] in Elems(s) && s[j] in Elems(s);
    }
  }

  lemma JoinInLine(errs: set<string>, s: seq<string>, t: seq<string>)
    requires InLine(errs, s) && InLine(errs, t)
    requires (forall x :: x in s ==> x !in errs) && forall x :: x in t ==> x in errs
    ensures InLine(errs, s + t)
  {
  }

  lemma GroupsInLine(errs: set<string>, xs: set<string>)
    ensures InLine(errs, Ordered(xs - errs) + Ordered(xs * errs))
    ensures Elems(Ordered(xs - errs) + Ordered(xs * errs)) == xs
  {
    var s, t := Ordered(xs - errs), Ordered(xs * errs);
    SortedInLine(errs, s);
    SortedInLine(errs, t);
    ListsMembers(s, xs - errs);
    ListsMembers(t, xs * errs);
    JoinInLine(errs, s, t);
    JoinElems(s, t);
    BothGroups(xs, errs);
  }

  lemma BothGroups(xs: set<string>, errs: set<string>)
    ensures xs - errs + xs * errs == xs
  {
  }

  lemma JoinElems(s: seq<string>, t: seq<string>)
    ensures Elems(s + t) == Elems(s) + Elems(t)
  {
  }

  lemma NewcomersInLine(k: Cluster, k': Cluster)
    requires Tidy(DirOf(k')) && Seated(k, k')
    ensures InLine(ErrOf(k), Newcomers(DirOf(k), DirOf(k')))
  {
    var d, d' := DirOf(k), DirOf(k');
    var names := Ordered(d'.nodes.Keys - d.nodes.Keys);
    ListsMembers(names, d'.nodes.Keys - d.nodes.Keys);
    forall i, j | 0 <= i < j < |names|
      ensures Precedes(ErrOf(k), Newcomers(d, d')[i], Newcomers(d, d')[j])
    {
      assert names[i] in names && names[j] in names;
      SortedTake(names, j);
      PaddedOrder(names[i], names[j]);
    }
  }

  /** One pass that reaches the election: the old order restricted to the configured addresses
      that answer, followed by those that had no node: first the ones that were not in the error
      tree, then the ones that were, both in the order of their addresses. */
  lemma NextOrder(z: Tree, z': Tree, tries: seq<Replies>, ok: bool, cmds: map<string, string>, writes: nat, c: string)
    requires Wf(z) && Outcome(z, z', tries, true, ok, cmds, writes)
    requires c in Configured(z.config) && Tidy(DirAt(z, c))
    ensures var cfgs := Configured(z.config);
            var live, errs, d, d' := cfgs[c] * Healthy(cfgs, tries), ErrOf(At(z, c)), DirAt(z, c), DirAt(z', c);
            && Order(d') == Restrict(Order(d), live) + Newcomers(d, d')
            && Newcomers(d, d') == Ordered(live - Data(d) - errs) + Ordered((live - Data(d)) * errs)
            && Elems(Newcomers(d, d')) == live - Data(d)
  {
    var cfgs := Configured(z.config);
    var up, errs := Healthy(cfgs, tries), ErrOf(At(z, c));
    assert Kept(At(z, c), At(z', c), cfgs[c], up) && Divided(At(z', c), Lookup(cfgs, c), up) && DirOk(DirAt(z, c));
    ExactSplit(DirAt(z, c), DirAt(z', c), cfgs[c] * (up + errs), cfgs[c] * up);
    assert Seated(At(z, c), At(z', c));
    NewcomersInLine(At(z, c), At(z', c));
    GroupsInLine(errs, cfgs[c] * up - Data(DirAt(z, c)));
    LineIsUnique(errs, Newcomers(DirAt(z, c), DirAt(z', c)),
                 Ordered(cfgs[c] * up - Data(DirAt(z, c)) - errs) + Ordered((cfgs[c] * up - Data(DirAt(z, c))) * errs));
  }

  /** The first master of a cluster that is new to the controller is the least of its
      addresses that answer. */
  lemma FirstMaster(z: Tree, z': Tree, tries: seq<Replies>, ok: bool, cmds: map<string, string>, writes: nat, c: string)
    requires Wf(z) && Outcome(z, z', tries, true, ok, cmds, writes)
    requires c in Configured(z.config) && At(z, c) == Cluster(None, None)
    requires Configured(z.config)[c] * Healthy(Configured(z.config), tries) != {}
    ensures var cfgs := Configured(z.config);
            var live, order := cfgs[c] * Healthy(cfgs, tries), Order(DirAt(z', c));
            && order != [] && order[0] in live && forall a :: a in live && a != order[0] ==> Less(order[0], a)
  {
    var live := Configured(z.config)[c] * Healthy(Configured(z.config), tries);
    NextOrder(z, z', tries, ok, cmds, writes, c);
    FreshOrder(live, Order(DirAt(z', c)), DirAt(z, c));
    LeastFirst(live, Order(DirAt(z', c)));
  }

  lemma LeastFirst(xs: set<string>, s: seq<string>)
    requires Lists(s, xs) && s != []
    ensures s[0] in xs && forall x :: x in xs && x != s[0] ==> Less(s[0], x)
  {
    ListsMembers(s, xs);
    forall x | x in xs && x != s[0]
      ensures Less(s[0], x)
    {
      assert x in s[1..];
    }
  }

  lemma FreshOrder(live: set<string>, order: seq<string>, d: Dir)
    requires d == EMPTY_DIR && live != {}
    requires order == Restrict(Order(d), live) + (Ordered(live - Data(d) - {}) + Ordered((live - Data(d)) * {}))
    ensures order == Ordered(live) && order != []
  {
    OrderMembers(d);
    NoNodes(d);
    assert live - Data(d) - {} == live && (live - Data(d)) * {} == {};
    assert Ordered({}) == [];
    NoElems(order);
  }

  lemma ExactSplit(d: Dir, d': Dir, keep: set<string>, live: set<string>)
    requires DirOk(d) && Tidy(d) && Tidy(d') && Evolves(d, d', keep) && live <= keep && Data(d') == live
    ensures Order(d') == Restrict(Order(d), live) + Newcomers(d, d')
    ensures Elems(Newcomers(d, d')) == live - Data(d)
  {
    OrderSplit(d, d', keep);
    WhoStays(d, d', keep);
    WhoIsNew(d, d', keep);
    Squeezed(Data(d), Stayed(d, d'), keep, live);
    OrderIsData(d);
    RestrictSame(Order(d), Stayed(d, d'), live);
  }

  lemma Squeezed(data: set<string>, stay: set<string>, keep: set<string>, live: set<string>)
    requires data * keep <= stay <= data * live && live <= keep
    ensures data * stay == data * live && live - stay == live - data
  {
  }

  /** A master that missed a pass and is back in the next one, where both reach the election,
      comes after every address that stayed: while one of those is left it is not elected. */
  lemma RecoveredComesLast(z: Tree, z1: Tree, z2: Tree, first: Event, second: Event, c: string, m: string)
    requires Wf(z) && first.Pass? && second.Pass? && first.elected && second.elected
             && Step(z, first, z1) && Step(z1, second, z2)
    requires c in Configured(z.config) && c in Configured(z1.config)
    requires m !in Healthy(Configured(z.config), first.tries)
    ensures var d, d' := DirAt(z1, c), DirAt(z2, c);
            var live := Configured(z1.config)[c] * Healthy(Configured(z1.config), second.tries);
            && Order(d') == Restrict(Order(d), live) + Newcomers(d, d')
            && (m in live ==> m in Newcomers(d, d') && m !in Restrict(Order(d), live))
  {
    var cfgs := Configured(z.config);
    var d := DirAt(z1, c);
    assert Divided(At(z1, c), Lookup(cfgs, c), Healthy(cfgs, first.tries));
    NextOrder(z1, z2, second.tries, second.ok, second.cmds, second.writes, c);
    assert m !in Data(d);
    OrderIsData(d);
    var live := Configured(z1.config)[c] * Healthy(Configured(z1.config), second.tries);
    RestrictWithin(Order(d), live);
    assert m !in Elems(Order(d));
    assert m in Newcomers(d, DirAt(z2, c)) <==> m in Elems(Newcomers(d, DirAt(z2, c)));
  }

  lemma {:induction false} RestrictWithin(s: seq<string>, keep: set<string>)
    ensures forall x :: x in Restrict(s, keep) ==> x in Elems(s)
  {
    if s != [] {
      var n := |s| - 1;
      RestrictWithin(s[..n], keep);
      forall x | x in Restrict(s, keep)
        ensures x in Elems(s)
      {
        assert x in Restrict(s[..n], keep) || x == s[n];
      }
    }
  }
}

/** The lock node that a controller creates before a pass and deletes after it, for any
    number of controllers. The node is ephemeral: ZooKeeper removes it when the session that
    created it ends. A controller keeps the handle it was constructed with, so that every
    operation fails after its session has ended. */
module PassLock {
  import opened Options
  import opened CtrlSteps

  /** The owner of the node, the controllers that are inside a pass, and those whose session
      has ended. */
  datatype State = State(node: Option<nat>, inside: set<nat>, ended: set<nat>)

  datatype Event = Lock(c: nat, fate: Fate) | Unlock(c: nat, fate: Fate) | Expire(c: nat)

  predicate Enabled(s: State, e: Event) {
    match e
    case Lock(c, _) => c !in s.inside
    case Unlock(c, _) => c in s.inside
    case Expire(_) => true
  }

  /** get_lock enters the pass only when it was told that the node was created; free_lock
      deletes the node by path, whoever created it. */
  function Step(s: State, e: Event): State {
    match e
    case Lock(c, fate) =>
      if c in s.ended || s.node.Some? || !Took(fate) then s
      else s.(node := Some(c), inside := if fate == Done then s.inside + {c} else s.inside)
    case Unlock(c, fate) =>
      s.(node := if c in s.ended || !Took(fate) then s.node else None, inside := s.inside - {c})
    case Expire(c) =>
      s.(node := if s.node == Some(c) then None else s.node, ended := s.ended + {c})
  }

  const INITIAL := State(None, {}, {})

  function Run(es: seq<Event>): Option<State> {
    if es == [] then Some(INITIAL)
    else
      match Run(es[..|es| - 1])
      case None => None
      case Some(s) => if Enabled(s, es[|es| - 1]) then Some(Step(s, es[|es| - 1])) else None
  }

  /** Whoever is inside a pass and can still write owns the node. */
  ghost predicate Exclusive(s: State) {
    && (forall c :: c in s.inside && c !in s.ended ==> s.node == Some(c))
    && (s.node.Some? ==> s.node.value !in s.ended)
  }

  lemma {:induction false} RunExcludes(es: seq<Event>)
    requires Run(es).Some?
    ensures Exclusive(Run(es).value)
  {
    if es != [] {
      var n := |es| - 1;
      RunExcludes(es[..n]);
    }
  }

  /** In every run, whatever operations fail and sessions end, at most one controller that
      can still write is inside a pass. */
  lemma OneWriter(es: seq<Event>, c: nat, d: nat)
    requires Run(es).Some?
    requires c in Run(es).value.inside - Run(es).value.ended && d in Run(es).value.inside - Run(es).value.ended
    ensures c == d && Run(es).value.node == Some(c)
  {
    RunExcludes(es);
  }

  /** Although free_lock deletes by path, it never deletes the node of another. */
  lemma FreesItsOwn(es: seq<Event>, c: nat, fate: Fate)
    requires Run(es).Some? && Enabled(Run(es).value, Unlock(c, fate))
    ensures var s := Run(es).value;
            Step(s, Unlock(c, fate)).node == if s.node == Some(c) && Took(fate) then None else s.node
  {
    RunExcludes(es);
  }

  // ----- a lock that nobody frees -----

  /** The node is there and its owner is not inside a pass. */
  predicate Leaked(s: State) { s.node.Some? && s.node.value !in s.inside }

  /** The lock leaks when, in a live session, the creation of the node took effect but was
      reported as failed, or the deletion failed; and in no other way. */
  lemma LeaksExactly(es: seq<Event>, e: Event)
    requires Run(es).Some? && !Leaked(Run(es).value) && Enabled(Run(es).value, e)
    ensures var s := Run(es).value;
            Leaked(Step(s, e)) <==>
              || (e.Lock? && e.c !in s.ended && s.node.None? && e.fate == Unreported)
              || (e.Unlock? && e.c !in s.ended && e.fate == Failed)
  {
    RunExcludes(es);
  }

  /** After a leak no controller enters a pass until the session of the owner ends. */
  lemma {:induction false} LeakLasts(es: seq<Event>, i: nat, c: nat)
    requires i <= |es| && Run(es).Some? && Run(es[..i]).Some?
    requires Leaked(Run(es[..i]).value) && Run(es[..i]).value.node == Some(c)
    requires forall j :: i <= j < |es| ==> es[j] != Expire(c)
    ensures Run(es).value.node == Some(c) && Run(es).value.inside <= Run(es[..i]).value.inside
    decreases |es|
  {
    if i < |es| {
      var n := |es| - 1;
      assert es[..n][..i] == es[..i];
      LeakLasts(es[..n], i, c);
      RunExcludes(es[..n]);
    } else {
      assert es[..i] == es;
    }
  }

  /** A controller whose session has ended never enters a pass again. */
  lemma {:induction false} EndedStaysOut(es: seq<Event>, i: nat, c: nat)
    requires i <= |es| && Run(es).Some? && Run(es[..i]).Some?
    requires c in Run(es[..i]).value.ended && c !in Run(es[..i]).value.inside
    ensures c in Run(es).value.ended && c !in Run(es).value.inside
    decreases |es|
  {
    if i < |es| {
      var n := |es| - 1;
      assert es[..n][..i] == es[..i];
      EndedStaysOut(es[..n], i, c);
    } else {
      assert es[..i] == es;
    }
  }
}

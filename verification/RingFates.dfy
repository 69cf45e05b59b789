/** The ring, the multimap and the argument objects together do what one small
    automaton per request says: its callback runs once, when all accepted sends are
    answered or a tick passes the deadline, whichever comes first. */
module RingFates {
  import opened Options
  import opened RequestRing
  import opened RingRuns

  /** The state after a run from the constructor with this idx_, if it is a run. */
  ghost function Run(idx: nat, es: seq<Event>): (r: Option<State>)
    ensures r.Some? ==> Inv(r.value)
  {
    if es == [] then InitialInv(idx); Some(Initial(idx))
    else
      match Run(idx, es[..|es| - 1])
      case None => None
      case Some(s) =>
        if Enabled(s, es[|es| - 1]) then StepKeepsInv(s, es[|es| - 1]); Some(Step(s, es[|es| - 1])) else None
  }

  /** One request on its own. `Open` waits for the addresses in `left`; `Done` has run
      its callback. */
  datatype Fate = Open(rv: map<nat, Reply>, left: set<nat>) | Done(rv: map<nat, Reply>, timedOut: bool)

  function Born(targets: seq<Target>): Fate {
    if SentTo(targets) == {} then Done(map[], false) else Open(map[], SentTo(targets))
  }

  function Next(m: nat, deadline: real, fate: Fate, e: Event): Fate {
    match fate
    case Done(_, _) => fate
    case Open(rv, left) =>
      if e.Answered? && e.owner == m then
        var rv' := if e.reply.Some? then rv[e.addr := e.reply.value] else rv;
        if left - {e.addr} == {} then Done(rv', false) else Open(rv', left - {e.addr})
      else if e.Ticked? && e.stamp > deadline then Done(rv, true)
      else fate
  }

  predicate Issues(e: Event) {
    (e.AsyncIssued? || e.SyncIssued?) && e.targets != []
  }

  /** The number that get_cf's order gives to the next request. */
  function Issued(es: seq<Event>): nat {
    if es == [] then 0 else Issued(es[..|es| - 1]) + if Issues(es[|es| - 1]) then 1 else 0
  }

  predicate IssuedWithCallback(es: seq<Event>, i: nat) {
    i < |es| && es[i].AsyncIssued? && es[i].callback && es[i].targets != []
  }

  /** What becomes of the request issued at position `i`, from the events alone. */
  function FateOf(es: seq<Event>, i: nat): Fate
    requires IssuedWithCallback(es, i)
  {
    if |es| == i + 1 then Born(es[i].targets)
    else Next(Issued(es[..i]), es[i].now + es[i].timeout, FateOf(es[..|es| - 1], i), es[|es| - 1])
  }

  function CallsOf(log: seq<Call>, m: nat): seq<Call> {
    if log == [] then []
    else CallsOf(log[..|log| - 1], m) + if log[|log| - 1].owner == m then [log[|log| - 1]] else []
  }

  lemma CallsAppend(log: seq<Call>, c: Call, m: nat)
    ensures CallsOf(log + [c], m) == CallsOf(log, m) + if c.owner == m then [c] else []
  {
    assert (log + [c])[..|log|] == log;
  }

  lemma NoCallsYet(log: seq<Call>, m: nat)
    requires forall k :: 0 <= k < |log| ==> log[k].owner < m
    ensures CallsOf(log, m) == []
  {
  }

  ghost predicate Matches(s: State, m: nat, deadline: real, fate: Fate) {
    m < s.count &&
    match fate
    case Open(rv, left) =>
      && m in s.args && m in s.sent && s.sent[m].unanswered == left
      && s.args[m].kind.Async? && s.args[m].callback && s.args[m].deadline == deadline && s.args[m].rv == rv
      && CallsOf(s.log, m) == []
    case Done(rv, timedOut) =>
      m !in s.args && CallsOf(s.log, m) == [Call(m, rv, timedOut)]
  }

  lemma BornMatches(s: State, e: Event)
    requires Inv(s) && Enabled(s, e) && e.AsyncIssued? && e.callback && e.targets != []
    ensures Matches(Step(s, e), s.count, e.now + e.timeout, Born(e.targets))
  {
    NoCallsYet(s.log, s.count);
    CallsAppend(s.log, Call(s.count, map[], false), s.count);
    assert forall m :: m in s.args ==> ArgOk(s, m);
  }

  /** A live asynchronous request has its slot, its count and its timer. */
  lemma OpenRequest(s: State, m: nat)
    requires Inv(s) && m in s.args && s.args[m].kind.Async? && s.args[m].callback
    ensures InSlot(s, m) && m in s.sent && s.sent[m].kind.Async? && s.sent[m].unanswered != {}
    ensures s.slots[s.sent[m].slot] == Slot(|s.sent[m].unanswered|, Some(m))
    ensures Timer(s.args[m].deadline, s.sent[m].slot, m) in s.timers
  {
    assert ArgOk(s, m) && SlotOk(s, s.sent[m].slot);
  }

  lemma OwnAnswer(s: State, m: nat, deadline: real, fate: Fate, e: Event)
    requires Inv(s) && Enabled(s, e) && e.Answered? && e.owner == m && Matches(s, m, deadline, fate)
    ensures Matches(Step(s, e), m, deadline, Next(m, deadline, fate, e))
  {
    if fate.Open? {
      OpenRequest(s, m);
      OwnAnswerOpen(s, m, e.addr, e.reply);
      CallsAppend(s.log, Call(m, if e.reply.Some? then fate.rv[e.addr := e.reply.value] else fate.rv, false), m);
    } else {
      var h := s.sent[m];
      assert SlotOk(s, h.slot);
      if s.slots[h.slot].d.Some? { SlotOwner(s, m, h.slot); }
    }
  }

  lemma OwnAnswerOpen(s: State, m: nat, addr: nat, r: Option<Reply>)
    requires m in s.args && s.args[m].kind.Async? && s.args[m].callback
    requires InSlot(s, m) && s.sent[m].kind.Async? && addr in s.sent[m].unanswered
    requires s.slots[s.sent[m].slot].f == |s.sent[m].unanswered|
    ensures var s', left := Answer(s, m, addr, r), s.sent[m].unanswered - {addr};
            var rv := if r.Some? then s.args[m].rv[addr := r.value] else s.args[m].rv;
            && s'.sent == s.sent[m := s.sent[m].(unanswered := left)] && s'.count == s.count
            && s'.log == (if left == {} then s.log + [Call(m, rv, false)] else s.log)
            && s'.args == if left == {} then s.args - {m} else s.args[m := s.args[m].(rv := rv)]
  {
    assert |s.sent[m].unanswered - {addr}| == |s.sent[m].unanswered| - 1;
  }

  /** A step about another request: `s'` differs from `s` only in that one. */
  ghost predicate Untouched(s: State, s': State, m: nat) {
    && s'.count >= s.count
    && (m in s'.args <==> m in s.args) && (m in s.args ==> s'.args[m] == s.args[m])
    && (m in s'.sent <==> m in s.sent) && (m in s.sent ==> s'.sent[m] == s.sent[m])
    && CallsOf(s'.log, m) == CallsOf(s.log, m)
  }

  lemma OtherAnswer(s: State, e: Event, m: nat)
    requires Inv(s) && Enabled(s, e) && e.Answered? && e.owner != m
    ensures Untouched(s, Step(s, e), m)
  {
    var h := s.sent[e.owner];
    assert SlotOk(s, h.slot);
    if s.slots[h.slot].d.Some? {
      SlotOwner(s, e.owner, h.slot);
      if h.kind.Async? { OtherAsyncAnswer(s, e, m); }
    }
  }

  lemma OtherAsyncAnswer(s: State, e: Event, m: nat)
    requires Inv(s) && e.Answered? && e.owner != m
    requires InSlot(s, e.owner) && s.sent[e.owner].kind.Async? && e.owner in s.args && s.args[e.owner].kind.Async?
    ensures Untouched(s, Answer(s, e.owner, e.addr, e.reply), m)
  {
    var rv := s.args[e.owner].rv;
    CallsAppend(s.log, Call(e.owner, if e.reply.Some? then rv[e.addr := e.reply.value] else rv, false), m);
  }

  lemma OtherIssue(s: State, e: Event, m: nat)
    requires Inv(s) && Enabled(s, e) && (e.AsyncIssued? || e.SyncIssued?) && m < s.count
    ensures Untouched(s, Step(s, e), m)
  {
    if e.AsyncIssued? {
      OtherAsyncIssue(s, e.targets, e.callback, e.now, e.timeout, m);
    } else {
      OtherSyncIssue(s, e.targets, m);
    }
  }

  lemma OtherAsyncIssue(s: State, targets: seq<Target>, callback: bool, now: real, timeout: real, m: nat)
    requires NextIdx(s.idx) < |s.slots| && m < s.count
    ensures Untouched(s, IssueAsync(s, targets, callback, now, timeout), m)
  {
    CallsAppend(s.log, Call(s.count, map[], false), m);
  }

  lemma OtherSyncIssue(s: State, targets: seq<Target>, m: nat)
    requires NextIdx(s.idx) < |s.slots| && m < s.count
    ensures Untouched(s, IssueSync(s, targets), m)
  {
  }

  /** One round for the entry `t` removes its request, if that is still in its slot and has a callback, and calls it. */
  ghost predicate IsExpiry(s: State, s': State, t: Timer) {
    && s'.count == s.count && s'.sent == s.sent && t.slot < |s.slots|
    && if s.slots[t.slot].d.Some?
       then s.slots[t.slot].d == Some(t.owner) && t.owner in s.args
            && if s.args[t.owner].callback
               then s'.args == s.args - {t.owner} && s'.log == s.log + [Call(t.owner, s.args[t.owner].rv, true)]
               else s'.args == s.args && s'.log == s.log
       else s'.args == s.args && s'.log == s.log
  }

  lemma ExpiryOfFirst(s: State)
    requires Inv(s) && s.timers != []
    ensures IsExpiry(s, ExpireFirst(s), s.timers[0])
  {
    var t := s.timers[0];
    assert t in s.timers && Holds(s, t.owner, t.slot) && SlotOk(s, t.slot);
    if s.slots[t.slot].d.Some? { SlotOwner(s, t.owner, t.slot); }
  }

  lemma ExpiryMatches(s: State, s': State, t: Timer, m: nat, deadline: real, fate: Fate)
    requires IsExpiry(s, s', t) && Matches(s, m, deadline, fate)
    requires fate.Open? && t.owner == m ==> s.slots[t.slot].d.Some?
    ensures Matches(s', m, deadline, if fate.Open? && t.owner == m then Done(fate.rv, true) else fate)
  {
    if s.slots[t.slot].d.Some? { CallsAppend(s.log, Call(t.owner, s.args[t.owner].rv, true), m); }
  }

  lemma ExpireFirstOn(s: State, m: nat, deadline: real, fate: Fate)
    requires Inv(s) && s.timers != [] && Matches(s, m, deadline, fate)
    ensures var t := s.timers[0];
            Matches(ExpireFirst(s), m, deadline,
                    if fate.Open? && t.owner == m then Done(fate.rv, true) else fate)
    ensures fate.Open? && s.timers[0].owner == m ==> s.timers[0].stamp == deadline
  {
    var t := s.timers[0];
    ExpiryOfFirst(s);
    if fate.Open? && t.owner == m { OwnEntry(s, m); }
    ExpiryMatches(s, ExpireFirst(s), t, m, deadline, fate);
  }

  /** The first entry, if it is that of an open request, has its slot and its deadline. */
  lemma OwnEntry(s: State, m: nat)
    requires Inv(s) && m in s.args && s.args[m].kind.Async? && s.args[m].callback
    requires s.timers != [] && s.timers[0].owner == m
    ensures s.timers[0].stamp == s.args[m].deadline && s.timers[0].slot < |s.slots|
    ensures s.slots[s.timers[0].slot].d == Some(m)
  {
    OpenRequest(s, m);
    EarliestFirst(s.timers);
  }

  lemma {:induction false} ExpireOn(s: State, now: real, m: nat, deadline: real, fate: Fate)
    requires Inv(s) && Matches(s, m, deadline, fate)
    ensures Matches(Expire(s, now), m, deadline, Next(m, deadline, fate, Ticked(now)))
    decreases |s.timers|
  {
    if s.timers != [] && now > s.timers[0].stamp {
      assert s.timers[0] in s.timers;
      ExpireFirstOn(s, m, deadline, fate);
      ExpireFirstKeepsInv(s);
      var fate' := if fate.Open? && s.timers[0].owner == m then Done(fate.rv, true) else fate;
      ExpireOn(ExpireFirst(s), now, m, deadline, fate');
    } else if fate.Open? {
      OpenRequest(s, m);
      EarliestFirst(s.timers);
    }
  }

  lemma StepMatches(s: State, e: Event, m: nat, deadline: real, fate: Fate)
    requires Inv(s) && Enabled(s, e) && Matches(s, m, deadline, fate)
    ensures Matches(Step(s, e), m, deadline, Next(m, deadline, fate, e))
  {
    match e
    case AsyncIssued(_, _, _, _) => OtherIssue(s, e, m);
    case SyncIssued(_) => OtherIssue(s, e, m);
    case Answered(x, _, _) =>
      if x == m { OwnAnswer(s, m, deadline, fate, e); } else { OtherAnswer(s, e, m); }
    case Ticked(stamp) => ExpireOn(s, stamp, m, deadline, fate);
    case Left(_, _) =>
  }

  lemma {:induction false} CountIsIssued(idx: nat, es: seq<Event>)
    requires Run(idx, es).Some?
    ensures Run(idx, es).value.count == Issued(es)
  {
    if es != [] {
      CountIsIssued(idx, es[..|es| - 1]);
      var s, e := Run(idx, es[..|es| - 1]).value, es[|es| - 1];
      StepCounts(s, e);
    }
  }

  lemma StepCounts(s: State, e: Event)
    requires Inv(s) && Enabled(s, e)
    ensures Step(s, e).count == s.count + if Issues(e) then 1 else 0
  {
    if e.Ticked? { ExpireKeepsCount(s, e.stamp); }
  }

  lemma {:induction false} ExpireKeepsCount(s: State, now: real)
    requires Inv(s)
    ensures Expire(s, now).count == s.count
    decreases |s.timers|
  {
    if s.timers != [] && now > s.timers[0].stamp {
      assert s.timers[0] in s.timers;
      ExpireFirstKeepsInv(s);
      ExpireKeepsCount(ExpireFirst(s), now);
    }
  }

  /** In every run, the calls made for a request are exactly those of its automaton:
      none while it is open, one with the collected replies when it is done. */
  lemma {:induction false} CallbackFollowsFate(idx: nat, es: seq<Event>, i: nat)
    requires Run(idx, es).Some? && IssuedWithCallback(es, i)
    ensures Matches(Run(idx, es).value, Issued(es[..i]), es[i].now + es[i].timeout, FateOf(es, i))
    decreases |es|
  {
    var n := |es| - 1;
    var m, deadline := Issued(es[..i]), es[i].now + es[i].timeout;
    var front, e, s, s' := es[..n], es[n], Run(idx, es[..n]).value, Run(idx, es).value;
    assert s' == Step(s, e);
    if i == n {
      CountIsIssued(idx, front);
      BornMatches(s, e);
      assert s.count == m;
    } else {
      assert front[..i] == es[..i] && front[i] == es[i];
      CallbackFollowsFate(idx, front, i);
      StepMatches(s, e, m, deadline, FateOf(front, i));
      assert FateOf(es, i) == Next(m, deadline, FateOf(front, i), e);
    }
  }

  /** The addresses that have answered request `m` after position `i`. */
  function AnsweredAddrs(es: seq<Event>, i: nat, m: nat): set<nat> {
    set k | i < k < |es| && es[k].Answered? && es[k].owner == m :: es[k].addr
  }

  predicate PassedDeadline(es: seq<Event>, i: nat, deadline: real) {
    exists k :: i < k < |es| && es[k].Ticked? && es[k].stamp > deadline
  }

  lemma {:induction false} DoneExactly(es: seq<Event>, i: nat)
    requires IssuedWithCallback(es, i)
    ensures var m, deadline := Issued(es[..i]), es[i].now + es[i].timeout;
            && (FateOf(es, i).Done? <==>
                  SentTo(es[i].targets) <= AnsweredAddrs(es, i, m) || PassedDeadline(es, i, deadline))
            && (FateOf(es, i).Open? ==> FateOf(es, i).left == SentTo(es[i].targets) - AnsweredAddrs(es, i, m))
    decreases |es|
  {
    var n := |es| - 1;
    var m, deadline := Issued(es[..i]), es[i].now + es[i].timeout;
    if i == n {
      assert AnsweredAddrs(es, i, m) == {};
    } else {
      DoneExactly(es[..n], i);
      assert es[..n][..i] == es[..i];
      var e := es[n];
      assert AnsweredAddrs(es, i, m)
          == AnsweredAddrs(es[..n], i, m) + if e.Answered? && e.owner == m then {e.addr} else {};
      assert PassedDeadline(es, i, deadline)
          <==> PassedDeadline(es[..n], i, deadline) || (e.Ticked? && e.stamp > deadline);
    }
  }

  /** A call of cmd_async creates a request if and only if the address map is not empty.
      With an empty map it returns before anything is recorded. */
  lemma NoRequestForEmptyMap(idx: nat, es: seq<Event>, i: nat)
    requires i < |es| && es[i].AsyncIssued? && Run(idx, es[..i + 1]).Some?
    ensures Run(idx, es[..i]).Some?
    ensures var s, s' := Run(idx, es[..i]).value, Run(idx, es[..i + 1]).value;
            && (s'.count == s.count + 1 <==> es[i].targets != [])
            && (es[i].targets == [] ==> s' == s)
  {
    assert es[..i + 1][..i] == es[..i];
  }

  /** The requests of cmd_async with a callback. */
  function CallbackRequests(es: seq<Event>): set<nat> {
    set i | 0 <= i < |es| && IssuedWithCallback(es, i) :: Issued(es[..i])
  }

  /** Every call made and every callback still to be run belongs to one of these requests. */
  ghost predicate CallsWithin(s: State, ms: set<nat>) {
    && (forall k :: 0 <= k < |s.log| ==> s.log[k].owner in ms)
    && (forall m :: m in s.args && s.args[m].callback ==> m in ms)
  }

  lemma RequestsGrow(es: seq<Event>)
    requires es != []
    ensures var n := |es| - 1;
            CallbackRequests(es) ==
            CallbackRequests(es[..n]) + if IssuedWithCallback(es, n) then {Issued(es[..n])} else {}
  {
    var n := |es| - 1;
    forall i | 0 <= i < n
      ensures es[..n][..i] == es[..i] && (IssuedWithCallback(es[..n], i) <==> IssuedWithCallback(es, i))
    {
    }
  }

  lemma {:induction false} ExpireCalls(s: State, now: real, ms: set<nat>)
    requires Inv(s) && CallsWithin(s, ms)
    ensures CallsWithin(Expire(s, now), ms)
    decreases |s.timers|
  {
    if s.timers != [] && now > s.timers[0].stamp {
      assert s.timers[0] in s.timers;
      ExpireFirstKeepsInv(s);
      ExpireCalls(ExpireFirst(s), now, ms);
    }
  }

  lemma IssueCalls(s: State, targets: seq<Target>, callback: bool, now: real, timeout: real, ms: set<nat>)
    requires CallsWithin(s, ms) && NextIdx(s.idx) < |s.slots|
    ensures CallsWithin(IssueAsync(s, targets, callback, now, timeout),
                        ms + if callback && targets != [] then {s.count} else {})
  {
  }

  lemma AnswerCalls(s: State, m: nat, addr: nat, r: Option<Reply>, ms: set<nat>)
    requires CallsWithin(s, ms) && m in s.sent && s.sent[m].slot < |s.slots|
    ensures CallsWithin(Answer(s, m, addr, r), ms)
  {
  }

  lemma StepCalls(s: State, e: Event, ms: set<nat>)
    requires Inv(s) && Enabled(s, e) && CallsWithin(s, ms)
    ensures CallsWithin(Step(s, e), ms + if e.AsyncIssued? && e.callback && e.targets != [] then {s.count} else {})
  {
    match e
    case AsyncIssued(targets, callback, now, timeout) => IssueCalls(s, targets, callback, now, timeout, ms);
    case SyncIssued(_) =>
    case Answered(m, addr, r) => AnswerCalls(s, m, addr, r, ms);
    case Ticked(stamp) => ExpireCalls(s, stamp, ms);
    case Left(_, _) =>
  }

  /** No callback is ever run but those of requests that were issued with one: none for a
      call with an empty address map. */
  lemma {:induction false} OnlyTheirCalls(idx: nat, es: seq<Event>)
    requires Run(idx, es).Some?
    ensures CallsWithin(Run(idx, es).value, CallbackRequests(es))
  {
    if es != [] {
      var n := |es| - 1;
      OnlyTheirCalls(idx, es[..n]);
      CountIsIssued(idx, es[..n]);
      RequestsGrow(es);
      StepCalls(Run(idx, es[..n]).value, es[n], CallbackRequests(es[..n]));
    }
  }

  /** In any interleaving the callback of a cmd_async call is run exactly once as soon as all
      accepted sends are answered or a tick has passed its deadline, and not before; unless
      its address map was empty, for then there is no request and no call. Nothing ever uses
      a freed or foreign argument. */
  lemma ExactlyOnce(idx: nat, es: seq<Event>, i: nat)
    requires Run(idx, es).Some? && i < |es| && es[i].AsyncIssued? && es[i].callback
    ensures var s, m := Run(idx, es).value, Issued(es[..i]);
            && !s.wild
            && CallsWithin(s, CallbackRequests(es))
            && (m in CallbackRequests(es[..i + 1]) <==> es[i].targets != [])
            && (es[i].targets != [] ==>
                  |CallsOf(s.log, m)| ==
                    if SentTo(es[i].targets) <= AnsweredAddrs(es, i, m)
                       || PassedDeadline(es, i, es[i].now + es[i].timeout)
                    then 1 else 0)
  {
    OnlyTheirCalls(idx, es);
    RequestsGrow(es[..i + 1]);
    assert es[..i + 1][..i] == es[..i];
    RequestsBelow(es[..i]);
    if es[i].targets != [] {
      CallbackFollowsFate(idx, es, i);
      DoneExactly(es, i);
    }
  }

  lemma RequestsBelow(es: seq<Event>)
    ensures forall m :: m in CallbackRequests(es) ==> m < Issued(es)
  {
    forall i | 0 <= i < |es| && IssuedWithCallback(es, i)
      ensures Issued(es[..i]) < Issued(es)
    {
      IssuedGrows(es, i);
    }
  }

  lemma {:induction false} IssuedGrows(es: seq<Event>, i: nat)
    requires i < |es| && Issues(es[i])
    ensures Issued(es[..i]) < Issued(es)
  {
    var n := |es| - 1;
    if i < n {
      assert es[..n][..i] == es[..i];
      IssuedGrows(es[..n], i);
    }
  }

  // ----- what the callback gets -----

  /** A reply of this content has come in for request `m` after position `i`. */
  predicate Replied(es: seq<Event>, i: nat, m: nat, addr: nat, x: Reply) {
    exists k :: i < k < |es| && es[k] == Answered(m, addr, Some(x))
  }

  predicate Has(rv: map<nat, Reply>, addr: nat, x: Reply) { addr in rv && rv[addr] == x }

  /** Exactly the replies that have come in, each under its address. */
  ghost predicate GotAll(es: seq<Event>, i: nat, m: nat, rv: map<nat, Reply>) {
    forall addr, x :: Has(rv, addr, x) <==> Replied(es, i, m, addr, x)
  }

  /** All accepted sends of the request at `i` have been answered. */
  predicate AllAnswered(es: seq<Event>, i: nat)
    requires i < |es| && es[i].AsyncIssued?
  {
    SentTo(es[i].targets) <= AnsweredAddrs(es, i, Issued(es[..i]))
  }

  predicate IsSettled(es: seq<Event>, i: nat)
    requires i < |es| && es[i].AsyncIssued?
  {
    AllAnswered(es, i) || PassedDeadline(es, i, es[i].now + es[i].timeout)
  }

  /** The first `n` events settle the request, and fewer do not. */
  predicate SettlesAt(es: seq<Event>, i: nat, n: nat)
    requires i < |es| && es[i].AsyncIssued?
  {
    i < n <= |es| && IsSettled(es[..n], i) && (n > i + 1 ==> !IsSettled(es[..n - 1], i))
  }

  /** What is in hand while a request is open, and what the callback got when it was done. */
  ghost predicate Collected(es: seq<Event>, i: nat, n: nat, fate: Fate)
    requires i < |es| && es[i].AsyncIssued?
  {
    var m := Issued(es[..i]);
    match fate
    case Open(rv, left) => left != {} && rv.Keys !! left && GotAll(es, i, m, rv)
    case Done(rv, timedOut) =>
      SettlesAt(es, i, n) && GotAll(es[..n], i, m, rv) && (timedOut <==> !AllAnswered(es[..n], i))
  }

  lemma SettledIsDone(es: seq<Event>, i: nat)
    requires IssuedWithCallback(es, i)
    ensures IsSettled(es, i) <==> FateOf(es, i).Done?
  {
    DoneExactly(es, i);
  }

  lemma BornCollected(es: seq<Event>, i: nat)
    requires IssuedWithCallback(es, i) && |es| == i + 1
    ensures Collected(es, i, i + 1, FateOf(es, i))
  {
    var n := i + 1;
    assert es[..n] == es;
    SettledIsDone(es, i);
    assert AnsweredAddrs(es, i, Issued(es[..i])) == {};
  }

  lemma PrefixOf(es: seq<Event>, i: nat, n: nat)
    requires i < n <= |es| - 1
    ensures es[..|es| - 1][..n] == es[..n] && es[..|es| - 1][..n - 1] == es[..n - 1]
    ensures es[..|es| - 1][..i] == es[..i] && es[..|es| - 1][i] == es[i]
  {
  }

  lemma DoneStays(es: seq<Event>, i: nat, n: nat)
    requires IssuedWithCallback(es, i) && i < |es| - 1 && FateOf(es[..|es| - 1], i).Done?
    requires Collected(es[..|es| - 1], i, n, FateOf(es[..|es| - 1], i))
    ensures Collected(es, i, n, FateOf(es, i))
  {
    PrefixOf(es, i, n);
  }

  lemma RepliedMore(es: seq<Event>, i: nat, m: nat, addr: nat, x: Reply)
    requires i < |es| - 1
    ensures Replied(es, i, m, addr, x) <==>
              Replied(es[..|es| - 1], i, m, addr, x) || es[|es| - 1] == Answered(m, addr, Some(x))
  {
    assert forall k :: i < k < |es| - 1 ==> es[..|es| - 1][k] == es[k];
  }

  /** One more event for a request that is open. */
  lemma OpenCollects(es: seq<Event>, i: nat)
    requires IssuedWithCallback(es, i) && i < |es| - 1 && FateOf(es[..|es| - 1], i).Open?
    requires Collected(es[..|es| - 1], i, |es| - 1, FateOf(es[..|es| - 1], i))
    requires var e := es[|es| - 1];
             e.Answered? && e.owner == Issued(es[..i]) ==> e.addr in FateOf(es[..|es| - 1], i).left
    ensures Collected(es, i, |es|, FateOf(es, i))
  {
    var n := |es| - 1;
    var front, e, m := es[..n], es[n], Issued(es[..i]);
    PrefixOf(es, i, n);
    SettledIsDone(front, i);
    SettledIsDone(es, i);
    DoneExactly(front, i);
    DoneExactly(es, i);
    assert es[..|es|] == es;
    forall addr, x
      ensures Replied(es, i, m, addr, x) <==> Replied(front, i, m, addr, x) || e == Answered(m, addr, Some(x))
    {
      RepliedMore(es, i, m, addr, x);
    }
    assert AnsweredAddrs(es, i, m) == AnsweredAddrs(front, i, m) + if e.Answered? && e.owner == m then {e.addr} else {};
  }

  lemma {:induction false} RepliesCollected(idx: nat, es: seq<Event>, i: nat) returns (n: nat)
    requires Run(idx, es).Some? && IssuedWithCallback(es, i)
    ensures Collected(es, i, n, FateOf(es, i))
    decreases |es|
  {
    if |es| == i + 1 {
      BornCollected(es, i);
      n := i + 1;
    } else {
      var front := es[..|es| - 1];
      PrefixOf(es, i, |es| - 1);
      n := RepliesCollected(idx, front, i);
      if FateOf(front, i).Done? {
        DoneStays(es, i, n);
      } else {
        CallbackFollowsFate(idx, front, i);
        OpenCollects(es, i);
        n := |es|;
      }
    }
  }

  /** What the callback of a cmd_async call gets, in any interleaving: exactly the replies that had
      come in when the request was settled, each under its address, and the word that it was timed
      out exactly if some accepted send had not been answered by then. */
  lemma CallbackGetsReplies(idx: nat, es: seq<Event>, i: nat) returns (n: nat, call: Call)
    requires Run(idx, es).Some? && IssuedWithCallback(es, i) && IsSettled(es, i)
    ensures SettlesAt(es, i, n)
    ensures CallsOf(Run(idx, es).value.log, Issued(es[..i])) == [call]
    ensures GotAll(es[..n], i, Issued(es[..i]), call.rv)
    ensures call.timedOut <==> !AllAnswered(es[..n], i)
  {
    SettledIsDone(es, i);
    n := RepliesCollected(idx, es, i);
    CallbackFollowsFate(idx, es, i);
    var fate := FateOf(es, i);
    call := Call(Issued(es[..i]), fate.rv, fate.timedOut);
  }

  // ----- synchronous requests -----

  /** What has come in for one request of cmd, and the addresses still to answer. */
  datatype Wait = Wait(rv: map<nat, Reply>, err: map<nat, Reply>, left: set<nat>)

  predicate IssuedSync(es: seq<Event>, i: nat) {
    i < |es| && es[i].SyncIssued? && es[i].targets != []
  }

  function TakeIn(w: Wait, addr: nat, r: Option<Reply>): Wait {
    var left := w.left - {addr};
    if r.None? then w.(left := left)
    else if r.value.isError then Wait(w.rv, w.err[addr := r.value], left)
    else Wait(w.rv[addr := r.value], w.err, left)
  }

  function WaitOf(es: seq<Event>, i: nat): Wait
    requires IssuedSync(es, i)
  {
    if |es| == i + 1 then Wait(map[], map[], SentTo(es[i].targets))
    else
      var n := |es| - 1;
      var w := WaitOf(es[..n], i);
      if es[n].Answered? && es[n].owner == Issued(es[..i]) then TakeIn(w, es[n].addr, es[n].reply) else w
  }

  /** As long as the caller is in cmd its argument holds just that, and it is woken when
      nothing is left to come. */
  ghost predicate Holding(s: State, m: nat, w: Wait) {
    && m < s.count
    && (if m in s.sent then s.sent[m].kind.Sync? && s.sent[m].unanswered == w.left else w.left == {})
    && (m in s.args ==>
          && s.args[m].kind.Sync? && s.args[m].rv == w.rv && s.args[m].err == w.err
          && (s.args[m].woken <==> w.left == {}))
  }

  /** A step that does not concern request `m`. */
  ghost predicate Spared(s: State, s': State, m: nat) {
    && s'.count >= s.count
    && (m in s'.args <==> m in s.args) && (m in s.args ==> s'.args[m] == s.args[m])
    && (m in s'.sent <==> m in s.sent) && (m in s.sent ==> s'.sent[m] == s.sent[m])
  }

  lemma {:induction false} ExpireSpares(s: State, now: real, m: nat)
    requires Inv(s) && (m in s.args ==> s.args[m].kind.Sync?)
    ensures Spared(s, Expire(s, now), m)
    decreases |s.timers|
  {
    if s.timers != [] && now > s.timers[0].stamp {
      var t := s.timers[0];
      assert t in s.timers && Holds(s, t.owner, t.slot) && SlotOk(s, t.slot);
      if s.slots[t.slot].d.Some? { SlotOwner(s, t.owner, t.slot); }
      assert Spared(s, ExpireFirst(s), m);
      ExpireFirstKeepsInv(s);
      ExpireSpares(ExpireFirst(s), now, m);
    }
  }

  lemma SyncAnswer(s: State, m: nat, w: Wait, e: Event)
    requires Inv(s) && Enabled(s, e) && e.Answered? && e.owner == m && Holding(s, m, w)
    ensures Holding(Step(s, e), m, TakeIn(w, e.addr, e.reply))
  {
    var h := s.sent[m];
    assert SlotOk(s, h.slot);
    if m in s.args {
      assert ArgOk(s, m);
      assert InSlot(s, m);
      assert |h.unanswered - {e.addr}| == |h.unanswered| - 1;
    } else if s.slots[h.slot].d.Some? {
      SlotOwner(s, m, h.slot);
    }
  }

  lemma StepHolding(s: State, e: Event, m: nat, w: Wait)
    requires Inv(s) && Enabled(s, e) && Holding(s, m, w)
    ensures Holding(Step(s, e), m, if e.Answered? && e.owner == m then TakeIn(w, e.addr, e.reply) else w)
  {
    match e
    case AsyncIssued(_, _, _, _) => OtherIssue(s, e, m);
    case SyncIssued(_) => OtherIssue(s, e, m);
    case Answered(x, _, _) =>
      if x == m { SyncAnswer(s, m, w, e); } else { OtherAnswer(s, e, m); }
    case Ticked(stamp) => ExpireSpares(s, stamp, m);
    case Left(_, _) =>
  }

  /** `w` is what has come in: the replies that are not errors, the errors, and whoever has
      not answered at all. */
  ghost predicate CameIn(es: seq<Event>, i: nat, m: nat, w: Wait)
    requires i < |es| && es[i].SyncIssued?
  {
    && w.left == SentTo(es[i].targets) - AnsweredAddrs(es, i, m)
    && w.rv.Keys !! w.left && w.err.Keys !! w.left
    && (forall addr, x :: Has(w.rv, addr, x) <==> Replied(es, i, m, addr, x) && !x.isError)
    && (forall addr, x :: Has(w.err, addr, x) <==> Replied(es, i, m, addr, x) && x.isError)
  }

  lemma CameInNext(es: seq<Event>, i: nat, m: nat, w: Wait)
    requires i < |es| - 1 && es[i].SyncIssued? && CameIn(es[..|es| - 1], i, m, w)
    requires var e := es[|es| - 1]; e.Answered? && e.owner == m ==> e.addr in w.left
    ensures var e := es[|es| - 1];
            CameIn(es, i, m, if e.Answered? && e.owner == m then TakeIn(w, e.addr, e.reply) else w)
  {
    var n := |es| - 1;
    var front, e := es[..n], es[n];
    assert AnsweredAddrs(es, i, m) == AnsweredAddrs(front, i, m) + if e.Answered? && e.owner == m then {e.addr} else {};
    forall addr, x
      ensures Replied(es, i, m, addr, x) <==> Replied(front, i, m, addr, x) || e == Answered(m, addr, Some(x))
    {
      assert forall k :: i < k < n ==> front[k] == es[k];
    }
    if e.Answered? && e.owner == m { ReplyTaken(w, e.addr, e.reply); }
  }

  lemma ReplyTaken(w: Wait, addr: nat, r: Option<Reply>)
    requires addr in w.left && w.rv.Keys !! w.left && w.err.Keys !! w.left
    ensures var w' := TakeIn(w, addr, r);
            && (forall a, x :: Has(w'.rv, a, x) <==> Has(w.rv, a, x) || (a == addr && r == Some(x) && !x.isError))
            && (forall a, x :: Has(w'.err, a, x) <==> Has(w.err, a, x) || (a == addr && r == Some(x) && x.isError))
            && w'.rv.Keys !! w'.left && w'.err.Keys !! w'.left
  {
  }

  lemma {:induction false} WaitingCaller(idx: nat, es: seq<Event>, i: nat)
    requires Run(idx, es).Some? && IssuedSync(es, i)
    ensures var m := Issued(es[..i]);
            Holding(Run(idx, es).value, m, WaitOf(es, i)) && CameIn(es, i, m, WaitOf(es, i))
    decreases |es|
  {
    var n := |es| - 1;
    var m, front, e := Issued(es[..i]), es[..n], es[n];
    var s := Run(idx, front).value;
    if i == n {
      CountIsIssued(idx, front);
      assert forall x :: x in s.args ==> ArgOk(s, x);
      assert AnsweredAddrs(es, i, m) == {};
    } else {
      assert front[..i] == es[..i] && front[i] == es[i];
      WaitingCaller(idx, front, i);
      StepHolding(s, e, m, WaitOf(front, i));
      CameInNext(es, i, m, WaitOf(front, i));
    }
  }

  /** The replies that came in for request `m`, each under its address, errors apart. */
  ghost predicate GotReplies(es: seq<Event>, i: nat, m: nat, arg: Arg) {
    && (forall addr, x :: Has(arg.rv, addr, x) <==> Replied(es, i, m, addr, x) && !x.isError)
    && (forall addr, x :: Has(arg.err, addr, x) <==> Replied(es, i, m, addr, x) && x.isError)
  }

  lemma HoldingGot(s: State, m: nat, es: seq<Event>, i: nat, w: Wait)
    requires IssuedSync(es, i) && m in s.args && Holding(s, m, w) && CameIn(es, i, m, w)
    ensures GotReplies(es, i, m, s.args[m])
    ensures s.args[m].woken <==> SentTo(es[i].targets) <= AnsweredAddrs(es, i, m)
  {
    NoneLeft(SentTo(es[i].targets), AnsweredAddrs(es, i, m), w.left);
  }

  lemma NoneLeft(all: set<nat>, done: set<nat>, left: set<nat>)
    requires left == all - done
    ensures left == {} <==> all <= done
  {
    assert all <= done + left;
  }

  /** What a caller of cmd has when it leaves the wait, in any interleaving: the replies that
      came in so far, each under its address, errors apart. Unless it was timed out, every
      accepted send has been answered, so that these are all. */
  lemma CallerGetsReplies(idx: nat, es: seq<Event>, i: nat, timedOut: bool)
    requires Run(idx, es).Some? && IssuedSync(es, i) && Enabled(Run(idx, es).value, Left(Issued(es[..i]), timedOut))
    ensures var s, m := Run(idx, es).value, Issued(es[..i]);
            && m in s.args && GotReplies(es, i, m, s.args[m])
            && (!timedOut ==> SentTo(es[i].targets) <= AnsweredAddrs(es, i, m))
  {
    WaitingCaller(idx, es, i);
    HoldingGot(Run(idx, es).value, Issued(es[..i]), es, i, WaitOf(es, i));
  }
}

/** Every interleaving of issues, replies, late replies, null replies, ticks and
    timed-out callers. */
module RingRuns {
  import opened Options
  import opened RequestRing

  datatype Event =
    | AsyncIssued(targets: seq<Target>, callback: bool, now: real, timeout: real)
    | SyncIssued(targets: seq<Target>)
    | Answered(owner: nat, addr: nat, reply: Option<Reply>)
    | Ticked(stamp: real)
    | Left(owner: nat, timedOut: bool)

  // ----- which steps can happen -----

  predicate HasTimer(s: State, m: nat) {
    exists t :: t in s.timers && t.owner == m
  }

  predicate Unanswered(s: State, m: nat) {
    m in s.sent && s.sent[m].unanswered != {}
  }

  predicate Waiting(s: State, m: nat) {
    m in s.args && s.args[m].kind.Sync?
  }

  /** Request `m` still has a reply to come, a timer entry, or a caller in `cmd`. */
  predicate Outstanding(s: State, m: nat) {
    Unanswered(s, m) || HasTimer(s, m) || Waiting(s, m)
  }

  /** Fewer than CUR_CALL_NUM requests have been issued since each outstanding one. */
  ghost predicate Roomy(s: State) {
    forall m: nat :: Outstanding(s, m) ==> s.count - m < CUR_CALL_NUM
  }

  ghost predicate DistinctAddrs(targets: seq<Target>) {
    forall i, j :: 0 <= i < j < |targets| ==> targets[i].addr != targets[j].addr
  }

  /** What the surroundings promise: hiredis answers each accepted send at most once,
      a slot is not taken again while its earlier request is outstanding, and a
      caller leaves the wait only after a notification, a timeout, or at once when it
      sent nothing. */
  ghost predicate Enabled(s: State, e: Event) {
    match e
    case AsyncIssued(targets, _, _, _) => Roomy(s) && DistinctAddrs(targets)
    case SyncIssued(targets) => Roomy(s) && DistinctAddrs(targets)
    case Answered(m, addr, _) => m in s.sent && addr in s.sent[m].unanswered
    case Ticked(_) => true
    case Left(m, timedOut) => Waiting(s, m) && (timedOut || s.args[m].woken)
  }

  ghost function Step(s: State, e: Event): State
    requires Inv(s) && Enabled(s, e)
  {
    match e
    case AsyncIssued(targets, callback, now, timeout) => IssueAsync(s, targets, callback, now, timeout)
    case SyncIssued(targets) => IssueSync(s, targets)
    case Answered(m, addr, reply) => Answer(s, m, addr, reply)
    case Ticked(stamp) => Expire(s, stamp)
    case Left(m, timedOut) => Leave(s, m, timedOut)
  }

  // ----- the invariant -----

  /** The slot taken `d` allocations before the one at `idx`. */
  function SlotAt(idx: nat, d: nat): int {
    if d <= idx then idx - d else idx + CUR_CALL_NUM - d
  }

  /** Request `m` took slot `i`, and its slot has not come round again. */
  predicate Holds(s: State, m: nat, i: nat) {
    m < s.count && s.count - m <= CUR_CALL_NUM && i == SlotAt(s.idx, s.count - 1 - m)
  }

  /** `d_` of slot `i` is the argument of the request that took it, and `f_` counts the
      sends that have not been answered. */
  ghost predicate SlotOk(s: State, i: nat)
    requires i < |s.slots|
  {
    var c := s.slots[i];
    match c.d
    case None => c.f == 0
    case Some(m) =>
      && m in s.args && m in s.sent
      && s.sent[m].slot == i && s.sent[m].unanswered != {}
      && c.f == |s.sent[m].unanswered|
      && s.sent[m].kind == s.args[m].kind
      && (s.args[m].kind.Async? ==> Timer(s.args[m].deadline, i, m) in s.timers)
  }

  predicate InSlot(s: State, m: nat) {
    m in s.sent && s.sent[m].slot < |s.slots| && s.slots[s.sent[m].slot].d == Some(m)
  }

  predicate ArgOk(s: State, m: nat)
    requires m in s.args
  {
    var a := s.args[m];
    && m < s.count
    && (a.kind.Sync? ==> Holds(s, m, a.slot) && (a.woken <==> !InSlot(s, m)))
    && (a.kind.Async? && a.callback ==> InSlot(s, m))
  }

  /** An earlier deadline, or the same of an earlier request. */
  predicate Sooner(t: Timer, x: Timer) { t.stamp < x.stamp || (t.stamp == x.stamp && t.owner < x.owner) }

  /** The multimap: by stamp and by request, and at most one entry per request. */
  predicate TimersOk(ts: seq<Timer>) {
    ts == [] || ((forall t :: t in ts[1..] ==> Sooner(ts[0], t) && ts[0].owner != t.owner) && TimersOk(ts[1..]))
  }

  ghost predicate Inv(s: State) {
    && |s.slots| == CUR_CALL_NUM
    && (s.count > 0 ==> s.idx < CUR_CALL_NUM)
    && TimersOk(s.timers)
    && (forall t :: t in s.timers ==>
          Holds(s, t.owner, t.slot) && (t.owner in s.args ==> s.args[t.owner].kind.Async?))
    && (forall m :: m in s.sent ==> m < s.count && (s.sent[m].unanswered != {} ==> Holds(s, m, s.sent[m].slot)))
    && (forall m :: m in s.sent ==> s.sent[m].slot < CUR_CALL_NUM)
    && (forall i :: 0 <= i < CUR_CALL_NUM ==> SlotOk(s, i))
    && (forall m :: m in s.args ==> ArgOk(s, m))
    && (forall k :: 0 <= k < |s.log| ==> s.log[k].owner < s.count)
    && !s.wild
  }

  lemma SlotAtInjective(idx: nat, d: nat, d': nat)
    requires idx < CUR_CALL_NUM && d < CUR_CALL_NUM && d' < CUR_CALL_NUM
    requires SlotAt(idx, d) == SlotAt(idx, d')
    ensures d == d'
  {
  }

  /** Two requests whose slots have not come round hold different slots. */
  lemma HoldsUnique(s: State, m: nat, m': nat, i: nat)
    requires Inv(s) && Holds(s, m, i) && Holds(s, m', i)
    ensures m == m'
  {
    SlotAtInjective(s.idx, s.count - 1 - m, s.count - 1 - m');
  }

  /** get_cf stays in range whatever idx_ was, and keeps the earlier slots apart. */
  lemma NextIdxShifts(idx: nat, d: nat)
    ensures NextIdx(idx) < CUR_CALL_NUM
    ensures idx < CUR_CALL_NUM && d + 1 < CUR_CALL_NUM ==> SlotAt(NextIdx(idx), d + 1) == SlotAt(idx, d)
    ensures idx < CUR_CALL_NUM && d < CUR_CALL_NUM ==> (SlotAt(idx, d) == NextIdx(idx) <==> d == CUR_CALL_NUM - 1)
  {
  }

  lemma InitialInv(idx: nat)
    ensures Inv(Initial(idx))
  {
  }

  lemma SlotInUse(s: State, i: nat)
    requires Inv(s) && i < CUR_CALL_NUM
    ensures s.slots[i].d.None? ==> s.slots[i] == IDLE
    ensures s.slots[i].d.Some? ==> Unanswered(s, s.slots[i].d.value) && Holds(s, s.slots[i].d.value, i)
  {
    assert SlotOk(s, i);
  }

  /** get_cf hands out a fresh slot: idle, and not the slot of any reply still to come,
      timer entry or waiting caller. */
  lemma GetCfFresh(s: State)
    requires Inv(s) && Roomy(s)
    ensures var i := NextIdx(s.idx);
            && i < CUR_CALL_NUM
            && s.slots[i] == IDLE
            && (forall m :: Unanswered(s, m) ==> s.sent[m].slot != i)
            && (forall t :: t in s.timers ==> t.slot != i)
            && (forall m :: Waiting(s, m) ==> s.args[m].slot != i)
  {
    var i := NextIdx(s.idx);
    forall m: nat, j: nat | Outstanding(s, m) && Holds(s, m, j)
      ensures j != i
    {
      NextIdxShifts(s.idx, s.count - 1 - m);
    }
    forall t | t in s.timers
      ensures t.slot != i
    {
      assert HasTimer(s, t.owner);
    }
    NextIdxShifts(s.idx, 0);
    SlotInUse(s, i);
  }

  /** The window is exact: the next slot is that of request `m` iff a million requests, the next
      one included, have followed it. */
  lemma SlotReusedExactly(s: State, m: nat, i: nat)
    requires Inv(s) && Holds(s, m, i)
    ensures NextIdx(s.idx) == i <==> s.count - m == 1_000_000
  {
    NextIdxShifts(s.idx, s.count - 1 - m);
  }

  // ----- the timeout multimap -----

  lemma {:induction false} InsertTimerEffect(ts: seq<Timer>, t: Timer)
    requires TimersOk(ts)
    requires forall x :: x in ts ==> x.owner < t.owner
    ensures var r := InsertTimer(ts, t);
            && TimersOk(r)
            && (forall x :: x in r <==> x in ts || x == t)
  {
    if ts != [] {
      EarliestFirst(ts);
      if !(t.stamp < ts[0].stamp) {
        InsertTimerEffect(ts[1..], t);
      }
    }
  }

  lemma EarliestFirst(ts: seq<Timer>)
    requires TimersOk(ts) && ts != []
    ensures forall x :: x in ts <==> x == ts[0] || x in ts[1..]
    ensures forall x :: x in ts ==> ts[0].stamp <= x.stamp
  {
  }

  lemma {:induction false} EraseTimerEffect(ts: seq<Timer>, t: Timer)
    requires TimersOk(ts) && t in ts
    requires forall x :: x in ts && x.slot == t.slot ==> x.owner == t.owner
    ensures var r := EraseTimer(ts, t.stamp, t.slot);
            && TimersOk(r)
            && (forall x :: x in r <==> x in ts && x.owner != t.owner)
  {
    EarliestFirst(ts);
    if !(ts[0].stamp == t.stamp && ts[0].slot == t.slot) {
      EraseTimerEffect(ts[1..], t);
    }
  }

  // ----- every step keeps the invariant -----

  /** Taking the next slot keeps every outstanding request's hold on its own. */
  lemma HoldsKept(s: State, m: nat, i: nat)
    requires Inv(s) && Roomy(s) && Outstanding(s, m) && Holds(s, m, i)
    ensures m < s.count && s.count + 1 - m <= CUR_CALL_NUM && i == SlotAt(NextIdx(s.idx), s.count - m)
  {
    NextIdxShifts(s.idx, s.count - 1 - m);
  }

  lemma AsyncIssuedKeepsInv(s: State, targets: seq<Target>, callback: bool, now: real, timeout: real)
    requires Inv(s) && Roomy(s)
    ensures Inv(IssueAsync(s, targets, callback, now, timeout))
  {
    if targets != [] {
      GetCfFresh(s);
      InsertTimerEffect(s.timers, Timer(now + timeout, NextIdx(s.idx), s.count));
      assert s.count !in s.args by { assert forall m :: m in s.args ==> ArgOk(s, m); }
      IssueKeepsInv(s, IssueAsync(s, targets, callback, now, timeout), SentTo(targets), Async);
    }
  }

  lemma SyncIssuedKeepsInv(s: State, targets: seq<Target>)
    requires Inv(s) && Roomy(s)
    ensures Inv(IssueSync(s, targets))
  {
    if targets != [] {
      GetCfFresh(s);
      assert s.count !in s.args by { assert forall m :: m in s.args ==> ArgOk(s, m); }
      IssueKeepsInv(s, IssueSync(s, targets), SentTo(targets), Sync);
    }
  }

  /** An issue changes at most one slot, idle before, and adds the entries of one new
      request. */
  ghost predicate IssueShape(s: State, s': State, to: set<nat>, kind: Kind)
    requires NextIdx(s.idx) < |s.slots|
  {
    var i, m := NextIdx(s.idx), s.count;
    && s'.idx == i && s'.count == m + 1 && s'.wild == s.wild
    && TimersOk(s'.timers)
    && (forall t :: t in s.timers ==> t in s'.timers)
    && (forall t :: t in s'.timers ==> t in s.timers || (t.owner == m && t.slot == i && kind.Async?))
    && s'.sent == (if to == {} then s.sent else s.sent[m := Sent(i, kind, to)])
    && s'.slots == (if to == {} then s.slots else s.slots[i := Slot(|to|, Some(m))])
    && (s'.args == s.args || (m in s'.args && s'.args == s.args[m := s'.args[m]]))
    && (m in s'.args ==>
          var a := s'.args[m];
          && a.kind == kind && a.slot == i
          && (to == {} ==> if kind.Sync? then a.woken else !a.callback)
          && (to != {} ==> !a.woken && (kind.Async? ==> Timer(a.deadline, i, m) in s'.timers)))
    && (to != {} ==> m in s'.args)
    && (s'.log == s.log || exists c :: s'.log == s.log + [c] && c.owner == m)
  }

  lemma IssueKeepsInv(s: State, s': State, to: set<nat>, kind: Kind)
    requires Inv(s) && Roomy(s) && NextIdx(s.idx) < |s.slots| && IssueShape(s, s', to, kind)
    ensures Inv(s')
  {
    GetCfFresh(s);
    IssueKeepsHolds(s, s');
    IssueKeepsSlots(s, s', to, kind);
    forall x | x in s'.args
      ensures ArgOk(s', x)
    {
      if x != s.count { assert ArgOk(s, x) && (Waiting(s, x) ==> Outstanding(s, x)); }
    }
    forall t | t in s'.timers
      ensures Holds(s', t.owner, t.slot) && (t.owner in s'.args ==> s'.args[t.owner].kind.Async?)
    {
      if t in s.timers { assert HasTimer(s, t.owner) && Holds(s, t.owner, t.slot); }
    }
    forall m | m in s'.sent && s'.sent[m].unanswered != {}
      ensures Holds(s', m, s'.sent[m].slot)
    {
      if m != s.count { assert Unanswered(s, m); }
    }
  }

  lemma IssueKeepsHolds(s: State, s': State)
    requires Inv(s) && Roomy(s) && s'.idx == NextIdx(s.idx) && s'.count == s.count + 1
    ensures forall m, i :: Outstanding(s, m) && Holds(s, m, i) ==> Holds(s', m, i)
  {
    forall m, i | Outstanding(s, m) && Holds(s, m, i)
      ensures Holds(s', m, i)
    {
      HoldsKept(s, m, i);
    }
  }

  lemma IssueKeepsSlots(s: State, s': State, to: set<nat>, kind: Kind)
    requires Inv(s) && NextIdx(s.idx) < |s.slots| && IssueShape(s, s', to, kind)
    requires s.slots[NextIdx(s.idx)] == IDLE
    ensures forall i :: 0 <= i < CUR_CALL_NUM ==> SlotOk(s', i)
    ensures forall m :: m in s.args ==> (InSlot(s', m) <==> InSlot(s, m))
  {
    assert forall m :: m in s.args ==> ArgOk(s, m);
    forall i | 0 <= i < CUR_CALL_NUM
      ensures SlotOk(s', i)
    {
      assert SlotOk(s, i);
    }
  }

  /** A slot in use belongs to the request that holds it. */
  lemma SlotOwner(s: State, m: nat, i: nat)
    requires Inv(s) && i < CUR_CALL_NUM && Holds(s, m, i) && s.slots[i].d.Some?
    ensures s.slots[i].d == Some(m)
  {
    assert SlotOk(s, i);
    HoldsUnique(s, m, s.slots[i].d.value, i);
  }

  lemma AnsweredKeepsInv(s: State, m: nat, addr: nat, r: Option<Reply>)
    requires Inv(s) && Enabled(s, Answered(m, addr, r))
    ensures Inv(Answer(s, m, addr, r))
  {
    var h := s.sent[m];
    assert SlotOk(s, h.slot);
    if s.slots[h.slot].d.None? {
      LateAnswerKeepsInv(s, m, addr);
    } else {
      SlotOwner(s, m, h.slot);
      assert |h.unanswered - {addr}| == |h.unanswered| - 1;
      if h.kind.Async? {
        AsyncAnswerKeepsInv(s, m, addr, r);
      } else {
        ChangeOfOne(s, Answer(s, m, addr, r), m, h.slot);
      }
    }
  }

  lemma AsyncAnswerKeepsInv(s: State, m: nat, addr: nat, r: Option<Reply>)
    requires Inv(s) && InSlot(s, m) && s.sent[m].kind.Async? && addr in s.sent[m].unanswered
    requires |s.sent[m].unanswered - {addr}| == |s.sent[m].unanswered| - 1
    ensures Inv(Answer(s, m, addr, r))
  {
    assert SlotOk(s, s.sent[m].slot);
    if s.slots[s.sent[m].slot].f == 1 {
      EraseOwn(s, m);
    }
    ChangeOfOne(s, Answer(s, m, addr, r), m, s.sent[m].slot);
  }

  lemma EraseOwn(s: State, m: nat)
    requires Inv(s) && InSlot(s, m) && m in s.args && s.args[m].kind.Async?
    ensures var r := EraseTimer(s.timers, s.args[m].deadline, s.sent[m].slot);
            && TimersOk(r)
            && (forall x :: x in r <==> x in s.timers && x.owner != m)
  {
    var i := s.sent[m].slot;
    assert SlotOk(s, i);
    forall x | x in s.timers && x.slot == i
      ensures x.owner == m
    {
      HoldsUnique(s, x.owner, m, i);
    }
    EraseTimerEffect(s.timers, Timer(s.args[m].deadline, i, m));
  }

  /** A step that touches only the slot, the argument, the timer and the sends of the
      request in slot `i`. */
  lemma ChangeOfOne(s: State, s': State, m: nat, i: nat)
    requires Inv(s) && InSlot(s, m) && s.sent[m].slot == i && |s'.slots| == |s.slots|
    requires s'.idx == s.idx && s'.count == s.count && !s'.wild
    requires s'.slots == s.slots[i := s'.slots[i]]
    requires s'.sent.Keys == s.sent.Keys && s'.sent[m].slot == i
    requires forall x :: x in s.sent && x != m ==> s'.sent[x] == s.sent[x]
    requires forall x :: x != m ==> (x in s'.args <==> x in s.args) && (x in s.args ==> s'.args[x] == s.args[x])
    requires TimersOk(s'.timers)
    requires forall t :: t in s'.timers ==> t in s.timers
    requires forall t :: t in s.timers && t.owner != m ==> t in s'.timers
    requires m in s'.args ==>
               m in s.args && s'.args[m].kind == s.args[m].kind && s'.args[m].slot == s.args[m].slot && ArgOk(s', m)
    requires SlotOk(s', i) && s'.slots[i].d in {None, Some(m)}
    requires s'.log == s.log || (exists c :: s'.log == s.log + [c] && c.owner == m)
    ensures Inv(s')
  {
    assert SlotOk(s, i);
    forall j | 0 <= j < CUR_CALL_NUM && j != i
      ensures SlotOk(s', j)
    {
      assert SlotOk(s, j);
    }
    forall x | x in s'.args && x != m
      ensures ArgOk(s', x)
    {
      assert ArgOk(s, x);
      assert InSlot(s', x) <==> InSlot(s, x);
    }
    forall t | t in s'.timers
      ensures Holds(s', t.owner, t.slot) && (t.owner in s'.args ==> s'.args[t.owner].kind.Async?)
    {
      assert Holds(s, t.owner, t.slot);
    }
  }

  lemma ExpireFirstKeepsInv(s: State)
    requires Inv(s) && s.timers != []
    ensures Inv(ExpireFirst(s))
  {
    var t, s' := s.timers[0], ExpireFirst(s);
    EarliestFirst(s.timers);
    assert Holds(s, t.owner, t.slot) && SlotOk(s, t.slot);
    if s.slots[t.slot].d.None? {
      StaleTimerKeepsInv(s);
    } else {
      SlotOwner(s, t.owner, t.slot);
      ChangeOfOne(s, s', t.owner, t.slot);
    }
  }

  lemma StaleTimerKeepsInv(s: State)
    requires Inv(s) && s.timers != [] && s.slots[s.timers[0].slot].d.None?
    ensures Inv(s.(timers := s.timers[1..]))
  {
    var s' := s.(timers := s.timers[1..]);
    EarliestFirst(s.timers);
    forall i | 0 <= i < CUR_CALL_NUM
      ensures SlotOk(s', i)
    {
      assert SlotOk(s, i);
    }
    forall x | x in s'.args
      ensures ArgOk(s', x)
    {
      assert ArgOk(s, x);
    }
  }

  lemma {:induction false} ExpireKeepsInv(s: State, now: real)
    requires Inv(s)
    ensures Inv(Expire(s, now))
    decreases |s.timers|
  {
    if s.timers != [] && now > s.timers[0].stamp {
      assert s.timers[0] in s.timers;
      ExpireFirstKeepsInv(s);
      ExpireKeepsInv(ExpireFirst(s), now);
    }
  }

  // ----- the order of one tick -----

  /** Its argument is there, and its entry in the multimap. */
  ghost predicate HasEntry(s: State, m: nat) {
    m in s.args && exists i: nat :: Timer(s.args[m].deadline, i, m) in s.timers
  }

  /** An earlier deadline, or the same and issued before. */
  predicate Precedes(s: State, m: nat, n: nat)
    requires m in s.args && n in s.args
  {
    s.args[m].deadline < s.args[n].deadline || (s.args[m].deadline == s.args[n].deadline && m < n)
  }

  /** Each call is that of a request whose deadline has passed, in the order of the requests. */
  ghost predicate CalledInOrder(s: State, calls: seq<Call>, now: real) {
    && (forall i :: 0 <= i < |calls| ==> calls[i].timedOut && HasEntry(s, calls[i].owner))
    && (forall i :: 0 <= i < |calls| ==> s.args[calls[i].owner].deadline < now)
    && (forall i, j :: 0 <= i < j < |calls| ==> Precedes(s, calls[i].owner, calls[j].owner))
  }

  lemma EntryBehind(s: State, s1: State, m: nat)
    requires s.timers != [] && TimersOk(s.timers) && s1.timers == s.timers[1..]
    requires HasEntry(s1, m) && m in s.args && s.args[m] == s1.args[m]
    ensures HasEntry(s, m) && Sooner(s.timers[0], Timer(s.args[m].deadline, 0, m))
  {
    var i: nat :| Timer(s1.args[m].deadline, i, m) in s1.timers;
    EarliestFirst(s.timers);
    assert Timer(s.args[m].deadline, i, m) in s.timers;
  }

  ghost predicate IsCallOf(s: State, calls: seq<Call>, t: Timer) {
    |calls| == 1 && calls[0].owner == t.owner && calls[0].timedOut && HasEntry(s, t.owner)
    && s.args[t.owner].deadline == t.stamp
  }

  /** One round of the loop takes the first entry, and calls for it or for none. */
  ghost predicate IsRound(s: State, s1: State) {
    && s.timers != [] && s1.timers == s.timers[1..]
    && (forall m :: m in s1.args ==> m in s.args && s.args[m] == s1.args[m])
    && exists first :: s1.log == s.log + first && (first == [] || IsCallOf(s, first, s.timers[0]))
  }

  lemma FirstRound(s: State)
    requires Inv(s) && s.timers != []
    ensures IsRound(s, ExpireFirst(s))
  {
    var t := s.timers[0];
    assert t in s.timers && Holds(s, t.owner, t.slot) && SlotOk(s, t.slot);
    if s.slots[t.slot].d.Some? {
      SlotOwner(s, t.owner, t.slot);
      EarliestFirst(s.timers);
      var call := Call(t.owner, s.args[t.owner].rv, true);
      assert IsCallOf(s, [call], t) && ExpireFirst(s).log in {s.log, s.log + [call]};
    }
    assert s.log == s.log + [];
  }

  ghost predicate AllCalled(s: State, log: seq<Call>, now: real) {
    exists calls :: log == s.log + calls && CalledInOrder(s, calls, now)
  }

  /** A call of the rest is that of a later entry. */
  lemma RestCalled(s: State, s1: State, rest: seq<Call>, i: nat, now: real)
    requires IsRound(s, s1) && TimersOk(s.timers) && CalledInOrder(s1, rest, now) && i < |rest|
    ensures rest[i].timedOut && HasEntry(s, rest[i].owner) && s.args[rest[i].owner].deadline < now
    ensures Sooner(s.timers[0], Timer(s.args[rest[i].owner].deadline, 0, rest[i].owner))
    ensures s.args[rest[i].owner] == s1.args[rest[i].owner]
  {
    assert HasEntry(s1, rest[i].owner);
    EntryBehind(s, s1, rest[i].owner);
  }

  lemma OneMoreCall(s: State, s1: State, first: Call, rest: seq<Call>, now: real)
    requires IsRound(s, s1) && TimersOk(s.timers) && s.timers[0].stamp < now
    requires IsCallOf(s, [first], s.timers[0]) && CalledInOrder(s, rest, now)
    requires forall i :: 0 <= i < |rest| ==>
               Sooner(s.timers[0], Timer(s.args[rest[i].owner].deadline, 0, rest[i].owner))
    ensures CalledInOrder(s, [first] + rest, now)
  {
  }

  lemma RestInOrder(s: State, s1: State, rest: seq<Call>, now: real)
    requires IsRound(s, s1) && TimersOk(s.timers) && CalledInOrder(s1, rest, now)
    ensures CalledInOrder(s, rest, now)
    ensures forall i :: 0 <= i < |rest| ==>
              Sooner(s.timers[0], Timer(s.args[rest[i].owner].deadline, 0, rest[i].owner))
  {
    forall i | 0 <= i < |rest|
      ensures rest[i].timedOut && HasEntry(s, rest[i].owner) && s.args[rest[i].owner].deadline < now
      ensures Sooner(s.timers[0], Timer(s.args[rest[i].owner].deadline, 0, rest[i].owner))
      ensures s.args[rest[i].owner] == s1.args[rest[i].owner]
    {
      RestCalled(s, s1, rest, i, now);
    }
  }

  lemma FirstAndRest(s: State, s1: State, first: seq<Call>, rest: seq<Call>, now: real)
    requires IsRound(s, s1) && TimersOk(s.timers) && s.timers[0].stamp < now && CalledInOrder(s1, rest, now)
    requires first == [] || IsCallOf(s, first, s.timers[0])
    ensures CalledInOrder(s, first + rest, now)
  {
    RestInOrder(s, s1, rest, now);
    if first == [] {
      assert first + rest == rest;
    } else {
      assert first == [first[0]];
      OneMoreCall(s, s1, first[0], rest, now);
    }
  }

  lemma RoundInOrder(s: State, s1: State, log: seq<Call>, now: real)
    requires IsRound(s, s1) && TimersOk(s.timers) && s.timers[0].stamp < now && AllCalled(s1, log, now)
    ensures AllCalled(s, log, now)
  {
    var rest: seq<Call> :| log == s1.log + rest && CalledInOrder(s1, rest, now);
    var first: seq<Call> :| s1.log == s.log + first && (first == [] || IsCallOf(s, first, s.timers[0]));
    FirstAndRest(s, s1, first, rest, now);
    assert log == s.log + (first + rest);
  }

  /** The callbacks that one tick runs come by deadline, and those of one deadline in the order in
      which the requests were issued. */
  lemma {:induction false} ExpireInOrder(s: State, now: real)
    requires Inv(s)
    ensures exists calls :: Expire(s, now).log == s.log + calls && CalledInOrder(s, calls, now)
    decreases |s.timers|
  {
    if s.timers != [] && now > s.timers[0].stamp {
      assert s.timers[0] in s.timers;
      FirstRound(s);
      ExpireFirstKeepsInv(s);
      ExpireInOrder(ExpireFirst(s), now);
      RoundInOrder(s, ExpireFirst(s), Expire(s, now).log, now);
    } else {
      assert s.log == s.log + [] && CalledInOrder(s, [], now);
    }
  }

  lemma LeftKeepsInv(s: State, m: nat, timedOut: bool)
    requires Inv(s) && Enabled(s, Left(m, timedOut))
    ensures Inv(Leave(s, m, timedOut))
  {
    var s', i := Leave(s, m, timedOut), s.args[m].slot;
    assert ArgOk(s, m) && SlotOk(s, i);
    if s.slots[i].d.Some? {
      SlotOwner(s, m, i);
      ChangeOfOne(s, s', m, i);
    } else {
      assert s'.slots == s.slots;
      InSlotHolds(s, m);
      ReturnKeepsInv(s, m);
    }
  }

  lemma InSlotHolds(s: State, m: nat)
    requires Inv(s)
    ensures InSlot(s, m) ==> Holds(s, m, s.sent[m].slot)
  {
    if m in s.sent { SlotInUse(s, s.sent[m].slot); }
  }

  lemma ReturnKeepsInv(s: State, m: nat)
    requires Inv(s) && m in s.args && !InSlot(s, m)
    ensures Inv(s.(args := s.args - {m}))
  {
    var s' := s.(args := s.args - {m});
    forall i | 0 <= i < CUR_CALL_NUM
      ensures SlotOk(s', i)
    {
      assert SlotOk(s, i);
    }
    forall x | x in s'.args
      ensures ArgOk(s', x)
    {
      assert ArgOk(s, x);
    }
  }

  lemma StepKeepsInv(s: State, e: Event)
    requires Inv(s) && Enabled(s, e)
    ensures Inv(Step(s, e))
  {
    match e
    case AsyncIssued(targets, callback, now, timeout) => AsyncIssuedKeepsInv(s, targets, callback, now, timeout);
    case SyncIssued(targets) => SyncIssuedKeepsInv(s, targets);
    case Answered(m, addr, r) => AnsweredKeepsInv(s, m, addr, r);
    case Ticked(stamp) => ExpireKeepsInv(s, stamp);
    case Left(m, timedOut) => LeftKeepsInv(s, m, timedOut);
  }

  lemma LateAnswerKeepsInv(s: State, m: nat, addr: nat)
    requires Inv(s) && m in s.sent && s.slots[s.sent[m].slot].d.None?
    ensures Inv(s.(sent := s.sent[m := s.sent[m].(unanswered := s.sent[m].unanswered - {addr})]))
  {
    var s1 := s.(sent := s.sent[m := s.sent[m].(unanswered := s.sent[m].unanswered - {addr})]);
    forall i | 0 <= i < CUR_CALL_NUM
      ensures SlotOk(s1, i)
    {
      assert SlotOk(s, i);
    }
    forall x | x in s1.args
      ensures ArgOk(s1, x)
    {
      assert ArgOk(s, x);
    }
  }
}

/** The two locks and the condition variable of the synchronous RedisEvent::cmd, one
    lock operation at a time, for any number of callers and the event loop. */
module SyncWait {
  import opened Options

  datatype Thread = Loop | Caller(c: nat)

  /** Where a caller of `cmd` is. Only the lines that touch a lock, the slot or the
      argument object are kept apart. */
  datatype Pc =
    | WantMutex                  // before mutex_.lock()
    | Issuing                    // in the sending loop
    | WantMux                    // before locking carg.mux
    | HasBoth                    // before mutex_.unlock()
    | HasMux                     // before timed_wait
    | Asleep                     // in timed_wait
    | Notified                   // woken, before carg.mux is taken again
    | TimedOut                   // the wait timed out, before carg.mux is taken again
    | HasMuxAgain(late: bool)    // timed_wait has returned
    | WantMutexAgain             // timed out, before mutex_ is taken to reset the slot
    | Resetting                  // before cf->reset()
    | Reading(late: bool)        // uses carg and rv without any lock
    | Gone                       // cmd has returned and carg no longer exists

  datatype MuxOwner = Free | OfCaller | OfLoop

  /** A caller, its carg and its slot. `sent`: the addresses of the accepted sends; `live`:
      the slot points to carg; `f`: its count; `got`: the addresses whose replies have been
      written into carg or rv; `nulls`: those that were counted down with a null reply. */
  datatype Call = Call(pc: Pc, mux: MuxOwner, sent: set<nat>, live: bool, f: int, unanswered: set<nat>,
                       got: set<nat>, nulls: set<nat>)

  /** The loop outside its mutex, inside it, before taking the mux of a finished call
      in redis_cmd_cb, or before notify_one. */
  datatype LoopPc = Outside | Inside | WantMuxOf(c: nat) | NotifyOf(c: nat)

  datatype State = State(mutex: Option<Thread>, loop: LoopPc, calls: map<nat, Call>)

  datatype Action =
    | Begin(c: nat) | TakeMutex(c: nat) | Send(c: nat, to: set<nat>) | TakeMux(c: nat) | DropMutex(c: nat)
    | Sleep(c: nat) | TimeOut(c: nat) | Reacquire(c: nat) | DropMux(c: nat)
    | RetakeMutex(c: nat) | Reset(c: nat) | Finish(c: nat)
    | LoopTake | LoopDrop | Fire(c: nat, addr: nat, isNull: bool) | LoopTakeMux | Notify

  predicate Enabled(s: State, a: Action) {
    match a
    case Begin(c) => c !in s.calls
    case TakeMutex(c) => c in s.calls && s.calls[c].pc.WantMutex? && s.mutex.None?
    case Send(c, _) => c in s.calls && s.calls[c].pc.Issuing?
    case TakeMux(c) => c in s.calls && s.calls[c].pc.WantMux? && s.calls[c].mux.Free?
    case DropMutex(c) => c in s.calls && s.calls[c].pc.HasBoth?
    case Sleep(c) => c in s.calls && s.calls[c].pc.HasMux?
    case TimeOut(c) => c in s.calls && s.calls[c].pc.Asleep?
    case Reacquire(c) => c in s.calls && (s.calls[c].pc.Notified? || s.calls[c].pc.TimedOut?) && s.calls[c].mux.Free?
    case DropMux(c) => c in s.calls && s.calls[c].pc.HasMuxAgain?
    case RetakeMutex(c) => c in s.calls && s.calls[c].pc.WantMutexAgain? && s.mutex.None?
    case Reset(c) => c in s.calls && s.calls[c].pc.Resetting?
    case Finish(c) => c in s.calls && s.calls[c].pc.Reading?
    case LoopTake => s.loop.Outside? && s.mutex.None?
    case LoopDrop => s.loop.Inside?
    case Fire(c, addr, _) => s.loop.Inside? && c in s.calls && addr in s.calls[c].unanswered
    case LoopTakeMux => s.loop.WantMuxOf? && s.loop.c in s.calls && s.calls[s.loop.c].mux.Free?
    case Notify => s.loop.NotifyOf? && s.loop.c in s.calls
  }

  /** The body of redis_cmd_cb up to the notification. */
  function Counted(k: Call, addr: nat, isNull: bool): Call {
    var k1 := k.(f := k.f - 1, live := k.f - 1 != 0);
    if isNull then k1.(nulls := k.nulls + {addr}) else k1.(got := k.got + {addr})
  }

  function Step(s: State, a: Action): State
    requires Enabled(s, a)
  {
    match a
    case Begin(c) => s.(calls := s.calls[c := Call(WantMutex, Free, {}, false, 0, {}, {}, {})])
    case TakeMutex(c) => s.(mutex := Some(Caller(c)), calls := s.calls[c := s.calls[c].(pc := Issuing)])
    case Send(c, to) =>
      s.(calls := s.calls[c := s.calls[c].(pc := WantMux, sent := to, live := to != {}, f := |to|, unanswered := to)])
    case TakeMux(c) => s.(calls := s.calls[c := s.calls[c].(pc := HasBoth, mux := OfCaller)])
    case DropMutex(c) => s.(mutex := None, calls := s.calls[c := s.calls[c].(pc := HasMux)])
    case Sleep(c) =>
      s.(calls := s.calls[c := s.calls[c].(pc := if s.calls[c].sent != {} then Asleep else Reading(false),
                                           mux := Free)])
    case TimeOut(c) => s.(calls := s.calls[c := s.calls[c].(pc := TimedOut)])
    case Reacquire(c) =>
      s.(calls := s.calls[c := s.calls[c].(pc := HasMuxAgain(s.calls[c].pc.TimedOut?), mux := OfCaller)])
    case DropMux(c) =>
      s.(calls := s.calls[c := s.calls[c].(pc := if s.calls[c].pc.late then WantMutexAgain else Reading(false),
                                           mux := Free)])
    case RetakeMutex(c) => s.(mutex := Some(Caller(c)), calls := s.calls[c := s.calls[c].(pc := Resetting)])
    case Reset(c) =>
      s.(mutex := None, calls := s.calls[c := s.calls[c].(pc := Reading(true), live := false, f := 0)])
    case Finish(c) => s.(calls := s.calls[c := s.calls[c].(pc := Gone)])
    case LoopTake => s.(mutex := Some(Loop), loop := Inside)
    case LoopDrop => s.(mutex := None, loop := Outside)
    case Fire(c, addr, isNull) =>
      var k := s.calls[c].(unanswered := s.calls[c].unanswered - {addr});
      if !k.live || k.f == 0 then s.(calls := s.calls[c := k])
      else
        var k' := Counted(k, addr, isNull);
        s.(calls := s.calls[c := k'], loop := if k'.f == 0 then WantMuxOf(c) else Inside)
    case LoopTakeMux => s.(loop := NotifyOf(s.loop.c), calls := s.calls[s.loop.c := s.calls[s.loop.c].(mux := OfLoop)])
    case Notify =>
      var k := s.calls[s.loop.c];
      s.(loop := Inside, calls := s.calls[s.loop.c := k.(mux := Free, pc := if k.pc.Asleep? then Notified else k.pc)])
  }

  // ----- the invariant -----

  predicate HoldsMutex(pc: Pc) { pc.Issuing? || pc.WantMux? || pc.HasBoth? || pc.Resetting? }

  predicate HoldsMux(pc: Pc) { pc.HasBoth? || pc.HasMux? || pc.HasMuxAgain? }

  predicate InCallback(loop: LoopPc, c: nat) { loop == WantMuxOf(c) || loop == NotifyOf(c) }

  ghost predicate CallOk(s: State, c: nat)
    requires c in s.calls
  {
    var k := s.calls[c];
    && (s.mutex == Some(Caller(c)) <==> HoldsMutex(k.pc))
    && (k.mux.OfCaller? <==> HoldsMux(k.pc))
    && (k.mux.OfLoop? <==> s.loop == NotifyOf(c))
    && (k.pc.WantMutex? || k.pc.Issuing? ==> !k.live && k.unanswered == {} && k.sent == {})
    && (k.pc.WantMux? || k.pc.HasBoth? ==> k.live == (k.unanswered != {}) == (k.sent != {}) && !InCallback(s.loop, c))
    && (k.live ==> k.f == |k.unanswered| && k.unanswered != {} && k.sent != {} && !InCallback(s.loop, c))
    && (k.live ==> !k.pc.Notified? && !k.pc.Reading? && !k.pc.Gone? && k.pc != HasMuxAgain(false))
    && (InCallback(s.loop, c) ==>
          k.unanswered == {} && k.sent != {} &&
          (k.pc.HasMux? || k.pc.Asleep? || k.pc.TimedOut? || k.pc == HasMuxAgain(true) || k.pc.WantMutexAgain?))
    && (k.pc.HasMux? || k.pc.Asleep? ==>
          k.live || InCallback(s.loop, c) || (k.pc.HasMux? && k.sent == {} && k.unanswered == {}))
    && (k.pc.Notified? || k.pc == HasMuxAgain(false) || k.pc == Reading(false) ==> k.unanswered == {})
  }

  /** Until a late caller has reset its slot, whoever has answered is accounted for. */
  ghost predicate Accounted(k: Call) {
    && k.got + k.nulls <= k.sent && k.got !! k.nulls
    && (k.pc == Reading(true) || k.pc.Gone? || (
          && (k.unanswered != {} ==> k.live)
          && k.unanswered <= k.sent
          && k.got + k.nulls == k.sent - k.unanswered))
  }

  ghost predicate Inv(s: State) {
    && (s.mutex == Some(Loop) <==> !s.loop.Outside?)
    && (s.mutex.Some? && s.mutex.value.Caller? ==> s.mutex.value.c in s.calls)
    && (s.loop.WantMuxOf? || s.loop.NotifyOf? ==> s.loop.c in s.calls)
    && (forall c :: c in s.calls ==> CallOk(s, c))
    && (forall c :: c in s.calls ==> Accounted(s.calls[c]))
  }

  const INITIAL := State(None, Outside, map[])

  predicate ByLoop(a: Action) { a.LoopTake? || a.LoopDrop? || a.LoopTakeMux? || a.Notify? }

  /** Every lock operation, reply, timeout and wake-up keeps the invariant. */
  lemma StepKeepsInv(s: State, a: Action)
    requires Inv(s) && Enabled(s, a)
    ensures Inv(Step(s, a))
  {
    var s' := Step(s, a);
    forall c | c in s'.calls
      ensures CallOk(s', c) && Accounted(s'.calls[c])
    {
      if a.Fire? {
        FireKeepsOk(s, a, c);
      } else if ByLoop(a) {
        LoopKeepsOk(s, a, c);
      } else if c == a.c {
        CallerKeepsOk(s, a);
        CallerAccounts(s, a);
      } else {
        OthersKeepOk(s, a, c);
      }
    }
  }

  lemma LoopKeepsOk(s: State, a: Action, c: nat)
    requires Inv(s) && Enabled(s, a) && ByLoop(a) && c in s.calls
    ensures CallOk(Step(s, a), c) && Accounted(Step(s, a).calls[c])
  {
    assert CallOk(s, c);
    if a.LoopTakeMux? || a.Notify? { assert CallOk(s, s.loop.c); }
  }

  lemma CallerKeepsOk(s: State, a: Action)
    requires Inv(s) && Enabled(s, a) && !a.Fire? && !ByLoop(a)
    ensures CallOk(Step(s, a), a.c)
  {
    if a.Begin? || a.TakeMutex? || a.Send? || a.TakeMux? || a.DropMutex? {
      IssuingKeepsOk(s, a);
    } else if a.Sleep? || a.TimeOut? || a.Reacquire? || a.DropMux? {
      WaitingKeepsOk(s, a);
    } else {
      LeavingKeepsOk(s, a);
    }
  }

  lemma IssuingKeepsOk(s: State, a: Action)
    requires Inv(s) && Enabled(s, a) && (a.Begin? || a.TakeMutex? || a.Send? || a.TakeMux? || a.DropMutex?)
    ensures CallOk(Step(s, a), a.c)
  {
    if a.c in s.calls { assert CallOk(s, a.c); }
  }

  lemma WaitingKeepsOk(s: State, a: Action)
    requires Inv(s) && Enabled(s, a) && (a.Sleep? || a.TimeOut? || a.Reacquire? || a.DropMux?)
    ensures CallOk(Step(s, a), a.c)
  {
    if a.Sleep? || a.TimeOut? { SleepingKeepsOk(s, a); } else { WakingKeepsOk(s, a); }
  }

  lemma SleepingKeepsOk(s: State, a: Action)
    requires Inv(s) && Enabled(s, a) && (a.Sleep? || a.TimeOut?)
    ensures CallOk(Step(s, a), a.c)
  {
    assert CallOk(s, a.c);
  }

  lemma WakingKeepsOk(s: State, a: Action)
    requires Inv(s) && Enabled(s, a) && (a.Reacquire? || a.DropMux?)
    ensures CallOk(Step(s, a), a.c)
  {
    assert CallOk(s, a.c);
  }

  lemma LeavingKeepsOk(s: State, a: Action)
    requires Inv(s) && Enabled(s, a) && (a.RetakeMutex? || a.Reset? || a.Finish?)
    ensures CallOk(Step(s, a), a.c)
  {
    assert CallOk(s, a.c);
  }

  lemma CallerAccounts(s: State, a: Action)
    requires Inv(s) && Enabled(s, a) && !a.Fire? && !ByLoop(a)
    ensures Accounted(Step(s, a).calls[a.c])
  {
    if a.c in s.calls {
      var k := s.calls[a.c];
      assert CallOk(s, a.c) && Accounted(k);
      if a.Send? {
        assert k.got + k.nulls <= {};
        assert k.got == {} && k.nulls == {};
      }
    }
  }

  lemma OthersKeepOk(s: State, a: Action, c: nat)
    requires Inv(s) && Enabled(s, a) && !a.Fire? && !ByLoop(a) && c in s.calls && c != a.c
    ensures CallOk(Step(s, a), c) && Accounted(Step(s, a).calls[c])
  {
    assert CallOk(s, c);
    if a.c in s.calls { assert CallOk(s, a.c); }
    assert Step(s, a).calls[c] == s.calls[c] && Step(s, a).loop == s.loop;
  }

  lemma FireKeepsOk(s: State, a: Action, c: nat)
    requires Inv(s) && Enabled(s, a) && a.Fire? && c in s.calls
    ensures CallOk(Step(s, a), c) && Accounted(Step(s, a).calls[c])
  {
    var left := s.calls[a.c].unanswered - {a.addr};
    assert |left| == |s.calls[a.c].unanswered| - 1;
    assert CallOk(s, c) && CallOk(s, a.c);
    if c == a.c { FireAccounts(s, a); }
  }

  lemma FireAccounts(s: State, a: Action)
    requires Inv(s) && Enabled(s, a) && a.Fire?
    ensures Accounted(Step(s, a).calls[a.c])
  {
    var k := s.calls[a.c];
    assert CallOk(s, a.c) && Accounted(k);
    if k.live { CountedIsAccounted(k, a.addr, a.isNull); }
  }

  lemma CountedIsAccounted(k: Call, addr: nat, isNull: bool)
    requires Accounted(k) && k.live && k.f == |k.unanswered| && addr in k.unanswered && !k.pc.Reading? && !k.pc.Gone?
    ensures k.f != 0 && Accounted(Counted(k, addr, isNull).(unanswered := k.unanswered - {addr}))
  {
    assert |k.unanswered - {addr}| == k.f - 1;
  }

  ghost function Run(acts: seq<Action>): (r: Option<State>)
    ensures r.Some? ==> Inv(r.value)
  {
    if acts == [] then Some(INITIAL)
    else
      match Run(acts[..|acts| - 1])
      case None => None
      case Some(s) =>
        if Enabled(s, acts[|acts| - 1]) then StepKeepsInv(s, acts[|acts| - 1]);
          Some(Step(s, acts[|acts| - 1])) else None
  }

  // ----- what follows in every interleaving -----

  /** No wake-up is lost: a caller asleep without a reply to come is about to be
      notified by the loop, which at that point needs nothing but the caller's free mux. */
  lemma NoLostWakeup(acts: seq<Action>, c: nat)
    requires Run(acts).Some? && c in Run(acts).value.calls
    requires Run(acts).value.calls[c].pc.Asleep? && Run(acts).value.calls[c].unanswered == {}
    ensures var s := Run(acts).value;
            if s.loop == NotifyOf(c)
            then Enabled(s, Notify) && Step(s, Notify).calls[c].pc.Notified?
            else s.loop == WantMuxOf(c) && Enabled(s, LoopTakeMux)
                 && Enabled(Step(s, LoopTakeMux), Notify)
                 && Step(Step(s, LoopTakeMux), Notify).calls[c].pc.Notified?
  {
    var s := Run(acts).value;
    assert CallOk(s, c);
  }

  /** redis_cmd_cb works only on the carg of a caller that is still inside `cmd` and
      has not reset its slot, whether it counts down, takes the mux or notifies. */
  lemma CallbackFindsCarg(acts: seq<Action>, c: nat)
    requires Run(acts).Some? && c in Run(acts).value.calls
    requires Run(acts).value.calls[c].live || InCallback(Run(acts).value.loop, c)
    ensures var pc := Run(acts).value.calls[c].pc; !pc.Reading? && !pc.Gone?
  {
    assert CallOk(Run(acts).value, c);
  }

  /** Once the caller reads its results without a lock, no callback writes them. */
  lemma ResultsAreStable(acts: seq<Action>, a: Action, c: nat)
    requires Run(acts).Some? && Enabled(Run(acts).value, a)
    requires c in Run(acts).value.calls && (Run(acts).value.calls[c].pc.Reading? || Run(acts).value.calls[c].pc.Gone?)
    ensures c in Step(Run(acts).value, a).calls
    ensures Step(Run(acts).value, a).calls[c].got == Run(acts).value.calls[c].got
    ensures var pc := Step(Run(acts).value, a).calls[c].pc; pc.Reading? || pc.Gone?
  {
    ReadingStep(Run(acts).value, a, c);
  }

  lemma ReadingStep(s: State, a: Action, c: nat)
    requires Inv(s) && Enabled(s, a) && c in s.calls && (s.calls[c].pc.Reading? || s.calls[c].pc.Gone?)
    ensures c in Step(s, a).calls && Step(s, a).calls[c].got == s.calls[c].got
    ensures var pc := Step(s, a).calls[c].pc; pc.Reading? || pc.Gone?
  {
    if a.Fire? || ByLoop(a) { ReadingLoop(s, a, c); } else { ReadingCaller(s, a, c); }
  }

  lemma ReadingLoop(s: State, a: Action, c: nat)
    requires Inv(s) && Enabled(s, a) && (a.Fire? || ByLoop(a))
    requires c in s.calls && (s.calls[c].pc.Reading? || s.calls[c].pc.Gone?)
    ensures c in Step(s, a).calls && Step(s, a).calls[c].got == s.calls[c].got
    ensures Step(s, a).calls[c].pc == s.calls[c].pc
  {
    assert CallOk(s, c);
  }

  lemma ReadingCaller(s: State, a: Action, c: nat)
    requires Enabled(s, a) && !a.Fire? && !ByLoop(a) && c in s.calls && (s.calls[c].pc.Reading? || s.calls[c].pc.Gone?)
    ensures c in Step(s, a).calls && Step(s, a).calls[c].got == s.calls[c].got
    ensures var pc := Step(s, a).calls[c].pc; pc.Reading? || pc.Gone?
  {
    if a.c == c { assert a.Finish?; }
  }

  /** A caller that was not late reads only after every accepted send is answered, and it
      has all replies but the null ones. A late one has some of them. */
  lemma OnTimeIsComplete(acts: seq<Action>, c: nat)
    requires Run(acts).Some? && c in Run(acts).value.calls && Run(acts).value.calls[c].pc.Reading?
    ensures var k := Run(acts).value.calls[c];
            && k.got <= k.sent - k.nulls
            && (!k.pc.late ==> k.unanswered == {} && k.got == k.sent - k.nulls)
  {
    var k := Run(acts).value.calls[c];
    assert CallOk(Run(acts).value, c) && Accounted(k);
  }

  // ----- no deadlock -----

  /** The lock the caller or the loop needs for its next step, if any. */
  datatype Lock = MutexLock | MuxLock(c: nat)

  ghost function Wants(s: State, t: Thread): Option<Lock> {
    match t
    case Loop =>
      if s.loop.WantMuxOf? then Some(MuxLock(s.loop.c))
      else if s.loop.Outside? then Some(MutexLock)
      else None
    case Caller(c) =>
      if c !in s.calls then None
      else
        var pc := s.calls[c].pc;
        if pc.WantMutex? || pc.WantMutexAgain? then Some(MutexLock)
        else if pc.WantMux? || pc.Notified? || pc.TimedOut? then Some(MuxLock(c))
        else None
  }

  ghost predicate Has(s: State, t: Thread, l: Lock) {
    match l
    case MutexLock => s.mutex == Some(t)
    case MuxLock(c) =>
      c in s.calls && (if t == Loop then s.calls[c].mux.OfLoop? else t == Caller(c) && s.calls[c].mux.OfCaller?)
  }

  /** mutex_ comes before every mux: a thread that wants mutex_ holds no mux, and one
      that holds a mux wants nothing. */
  lemma LockOrder(acts: seq<Action>, t: Thread, c: nat)
    requires Run(acts).Some? && Has(Run(acts).value, t, MuxLock(c))
    ensures Wants(Run(acts).value, t).None?
  {
    assert CallOk(Run(acts).value, c);
  }

  /** `cmd` takes its own mux under mutex_ without waiting. */
  lemma FirstMuxIsFree(acts: seq<Action>, c: nat)
    requires Run(acts).Some? && c in Run(acts).value.calls && Run(acts).value.calls[c].pc.WantMux?
    ensures Enabled(Run(acts).value, TakeMux(c))
  {
    assert CallOk(Run(acts).value, c);
  }

  /** The next step of a thread; for a sleeping caller, its timeout. */
  function Move(s: State, t: Thread): Action {
    match t
    case Loop =>
      (match s.loop
       case Outside => LoopTake
       case Inside => LoopDrop
       case WantMuxOf(_) => LoopTakeMux
       case NotifyOf(_) => Notify)
    case Caller(c) =>
      if c !in s.calls then Begin(c)
      else
        match s.calls[c].pc
        case WantMutex => TakeMutex(c)
        case Issuing => Send(c, {})
        case WantMux => TakeMux(c)
        case HasBoth => DropMutex(c)
        case HasMux => Sleep(c)
        case Asleep => TimeOut(c)
        case Notified => Reacquire(c)
        case TimedOut => Reacquire(c)
        case HasMuxAgain(_) => DropMux(c)
        case WantMutexAgain => RetakeMutex(c)
        case Resetting => Reset(c)
        case Reading(_) => Finish(c)
        case Gone => Finish(c)
  }

  function Holder(s: State, l: Lock): Option<Thread> {
    match l
    case MutexLock => s.mutex
    case MuxLock(c) =>
      if c !in s.calls || s.calls[c].mux.Free? then None
      else if s.calls[c].mux.OfLoop? then Some(Loop) else Some(Caller(c))
  }

  /** The threads cannot deadlock: a thread that cannot move waits for a lock whose
      holder can move, or for mutex_ whose holder waits for a mux whose holder can move.
      (A caller that has returned has nothing left to do.) */
  lemma NoDeadlock(acts: seq<Action>, t: Thread)
    requires Run(acts).Some?
    requires var s := Run(acts).value;
             !Enabled(s, Move(s, t)) && !(t.Caller? && t.c in s.calls && s.calls[t.c].pc.Gone?)
    ensures var s := Run(acts).value;
            && Wants(s, t).Some? && Holder(s, Wants(s, t).value).Some?
            && var u := Holder(s, Wants(s, t).value).value;
               Enabled(s, Move(s, u)) ||
               (Wants(s, t).value == MutexLock && Wants(s, u).Some? && Holder(s, Wants(s, u).value).Some?
                && Enabled(s, Move(s, Holder(s, Wants(s, u).value).value)))
  {
    BlockedWaits(Run(acts).value, t);
  }

  ghost predicate WaitsInVain(s: State, t: Thread) {
    && Wants(s, t).Some? && Holder(s, Wants(s, t).value).Some?
    && var u := Holder(s, Wants(s, t).value).value;
       !Enabled(s, Move(s, u)) &&
       !(Wants(s, t).value == MutexLock && Wants(s, u).Some? && Holder(s, Wants(s, u).value).Some?
         && Enabled(s, Move(s, Holder(s, Wants(s, u).value).value)))
  }

  lemma BlockedWants(s: State, t: Thread)
    requires Inv(s) && !Enabled(s, Move(s, t)) && !(t.Caller? && t.c in s.calls && s.calls[t.c].pc.Gone?)
    ensures Wants(s, t).Some? && Holder(s, Wants(s, t).value).Some?
    ensures Wants(s, t).value.MuxLock? ==> Wants(s, t).value.c in s.calls
  {
    if t.Caller? && t.c in s.calls { assert CallOk(s, t.c); }
  }

  lemma BlockedWaits(s: State, t: Thread)
    requires Inv(s) && !Enabled(s, Move(s, t)) && !(t.Caller? && t.c in s.calls && s.calls[t.c].pc.Gone?)
    ensures Wants(s, t).Some? && Holder(s, Wants(s, t).value).Some? && !WaitsInVain(s, t)
  {
    BlockedWants(s, t);
    if Wants(s, t).value.MuxLock? {
      MuxHolderMoves(s, Wants(s, t).value.c);
    } else {
      MutexHolderMoves(s);
    }
  }

  lemma MuxHolderMoves(s: State, c: nat)
    requires Inv(s) && c in s.calls
    ensures s.calls[c].mux.Free? || Enabled(s, Move(s, Holder(s, MuxLock(c)).value))
  {
    assert CallOk(s, c);
  }

  lemma MutexHolderMoves(s: State)
    requires Inv(s)
    ensures s.mutex.Some? ==>
              var u := s.mutex.value;
              Enabled(s, Move(s, u)) ||
              (Wants(s, u).Some? && Holder(s, Wants(s, u).value).Some?
                && Enabled(s, Move(s, Holder(s, Wants(s, u).value).value)))
  {
    if s.mutex.Some? && s.mutex.value.Caller? {
      assert CallOk(s, s.mutex.value.c);
    } else if s.loop.WantMuxOf? {
      MuxHolderMoves(s, s.loop.c);
    }
  }
}

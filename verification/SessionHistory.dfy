/** What holds over whole runs of the session scripts. */
module SessionHistory {
  import opened Options
  import opened RedisDb
  import opened SessionScripts

  /** One script call, or time passing. */
  datatype Event =
    | Bound(b: Binding)
    | Closing(uid: string, lc: string, gate: string, deadline: int)
    | Closed(uid: string, lc: string)
    | Swept(stamp: int)
    | Passed(seconds: nat)

  function Step(db: Db, e: Event): Db {
    match e
    case Bound(b) => Bind(db, b)
    case Closing(uid, lc, gate, deadline) => Schedule(db, uid, lc, gate, deadline)
    case Closed(uid, lc) => Finish(db, uid, lc)
    case Swept(stamp) => Sweep(db, stamp)
    case Passed(seconds) => Elapse(db, seconds)
  }

  /** The database after a run that starts with an empty one at time `t`. */
  function Run(t: int, es: seq<Event>): Db {
    if es == [] then Db(t, map[], map[]) else Step(Run(t, es[..|es| - 1]), es[|es| - 1])
  }

  /** The value of the last pair with this name, if there is one. */
  function LastValue(pairs: seq<(string, string)>, name: string, otherwise: string): string {
    if pairs == [] then otherwise
    else if pairs[|pairs| - 1].0 == name then pairs[|pairs| - 1].1
    else LastValue(pairs[..|pairs| - 1], name, otherwise)
  }

  /** The gate that syn/upidx binds: an extension field called GATE replaces the argument. */
  function GateOf(b: Binding): string { LastValue(b.ext, GATE, b.gate) }

  /** What callers send: user ids have no dot (they are decimal) and gates are named. */
  predicate Proper(e: Event) {
    match e
    case Bound(b) => Dotless(b.uid) && GateOf(b) != ""
    case Closing(uid, lc, gate, deadline) => Dotless(uid) && gate != ""
    case Closed(uid, lc) => Dotless(uid)
    case Swept(_) => true
    case Passed(_) => true
  }

  predicate AllProper(es: seq<Event>) {
    forall i :: 0 <= i < |es| ==> Proper(es[i])
  }

  predicate Live(db: Db, uid: string, lc: string) {
    SessionKey(uid, lc) in db.hashes
  }

  predicate Indexed(db: Db, uid: string, lc: string) {
    HGet(db.hashes, IndexKey(uid), lc).Some?
  }

  /** A live session is indexed, its index lives at least as long, and its gate is
      empty exactly while it waits in DLY_CK. */
  ghost predicate SessionOk(db: Db, uid: string, lc: string) {
    var key, index := SessionKey(uid, lc), IndexKey(uid);
    key in db.hashes ==>
      && Indexed(db, uid, lc)
      && db.hashes[key].expiry.At? && db.hashes[index].expiry.At?
      && db.now < db.hashes[key].expiry.stamp <= db.hashes[index].expiry.stamp
      && GATE in db.hashes[key].fields
      && (db.hashes[key].fields[GATE] == "" <==> key in db.delays)
  }

  ghost predicate Inv(db: Db) {
    && NoEmptyHash(db.hashes)
    && (forall m :: m in db.delays ==> WellNamed(m))
    && (forall uid, lc :: Dotless(uid) ==> SessionOk(db, uid, lc))
  }

  // ----- every step keeps the invariant -----

  lemma BindKeepsInv(db: Db, b: Binding)
    requires Inv(db) && Proper(Bound(b))
    ensures Inv(Bind(db, b))
  {
    var db' := Bind(db, b);
    BindKeepsValid(db, b);
    forall uid, lc | Dotless(uid)
      ensures SessionOk(db', uid, lc)
    {
      if uid == b.uid && lc == b.lc {
        BoundSessionOk(db, b);
      } else {
        OtherSessionOk(db, b, uid, lc);
      }
    }
  }

  lemma BoundGate(db: Db, b: Binding)
    requires Proper(Bound(b))
    ensures var f := SessionFields(SessionSoFar(db.hashes, b), b); GATE in f && f[GATE] == GateOf(b)
  {
    var was := SessionSoFar(db.hashes, b);
    var r := Reserved(b);
    assert r[..3][..2] + [r[2]] == r[..3] && Put(was, r) == Put(was, r[..3])["CT" := r[3].1];
    assert GATE != "CT" by { assert GATE[0] == 'G' && "CT"[0] == 'C'; }
    assert Put(was, r[..3]) == Put(was, r[..3][..2])[GATE := b.gate];
    assert GATE != CV by { assert GATE[0] == 'G' && CV[0] == 'C'; }
    PutLastValue(SessionBase(was, b), b.ext, GATE);
  }

  lemma {:induction false} PutLastValue(fields: map<string, string>, pairs: seq<(string, string)>, name: string)
    requires name in fields
    ensures name in Put(fields, pairs) && Put(fields, pairs)[name] == LastValue(pairs, name, fields[name])
  {
    if pairs != [] { PutLastValue(fields, pairs[..|pairs| - 1], name); }
  }

  lemma BoundSessionOk(db: Db, b: Binding)
    requires Inv(db) && Proper(Bound(b))
    ensures SessionOk(Bind(db, b), b.uid, b.lc)
  {
    KeysDisjoint(b.uid, b.uid, b.lc);
    BoundGate(db, b);
  }

  lemma OtherSessionOk(db: Db, b: Binding, uid: string, lc: string)
    requires Inv(db) && Proper(Bound(b)) && Dotless(uid) && (uid != b.uid || lc != b.lc)
    ensures SessionOk(Bind(db, b), uid, lc)
  {
    var key := SessionKey(uid, lc);
    KeysDisjoint(b.uid, uid, lc);
    KeysDisjoint(uid, b.uid, b.lc);
    if key == SessionKey(b.uid, b.lc) { SessionKeyInjective(uid, lc, b.uid, b.lc); }
    if key in db.hashes {
      assert SessionOk(db, uid, lc);
      KeysDisjoint(b.uid, uid, b.lc);
      if uid == b.uid {
        assert lc in LiveFields(db.hashes, uid);
      }
    }
  }

  lemma ScheduleKeepsInv(db: Db, uid: string, lc: string, gate: string, deadline: int)
    requires Inv(db) && Proper(Closing(uid, lc, gate, deadline))
    ensures Inv(Schedule(db, uid, lc, gate, deadline))
  {
    var db' := Schedule(db, uid, lc, gate, deadline);
    ParseInverts(uid, lc);
    forall u, l | Dotless(u)
      ensures SessionOk(db', u, l)
    {
      assert SessionOk(db, u, l);
      KeysDisjoint(u, uid, lc);
      if SessionKey(u, l) == SessionKey(uid, lc) { SessionKeyInjective(u, l, uid, lc); }
    }
  }

  lemma FinishKeepsInv(db: Db, uid: string, lc: string)
    requires Inv(db) && Dotless(uid)
    ensures Inv(Finish(db, uid, lc))
  {
    var db' := Finish(db, uid, lc);
    HDelEffect(db.hashes, IndexKey(uid), lc);
    forall u, l | Dotless(u)
      ensures SessionOk(db', u, l)
    {
      assert SessionOk(db, u, l);
      KeysDisjoint(u, uid, lc);
      KeysDisjoint(uid, u, l);
      if u == uid && l == lc {
      } else if SessionKey(u, l) == SessionKey(uid, lc) {
        SessionKeyInjective(u, l, uid, lc);
      } else if SessionKey(u, l) in db'.hashes {
        assert HGet(HDel(db.hashes, IndexKey(uid), lc), IndexKey(u), l) == HGet(db.hashes, IndexKey(u), l);
      }
    }
  }

  /** What timeout_rm leaves of one session and of its index entry. */
  lemma SweepEffect(db: Db, stamp: int, uid: string, lc: string)
    requires Inv(db) && Dotless(uid)
    ensures var db' := Sweep(db, stamp);
            var key, index := SessionKey(uid, lc), IndexKey(uid);
            && (key in db'.hashes <==> key in db.hashes && key !in Due(db, stamp))
            && (key in db'.hashes ==> db'.hashes[key] == db.hashes[key])
            && HGet(db'.hashes, index, lc) == (if key in Due(db, stamp) then None else HGet(db.hashes, index, lc))
            && (index in db'.hashes ==> index in db.hashes && db'.hashes[index].expiry == db.hashes[index].expiry)
  {
    var due := Due(db, stamp);
    var key, index := SessionKey(uid, lc), IndexKey(uid);
    var h1 := db.hashes - due;
    UnindexEffect(h1, due);
    ParseInverts(uid, lc);
    if index in due {
      assert WellNamed(index);
      KeysDisjoint(uid, UidOf(index), LcOf(index));
    }
    forall m | m in due
      ensures index == IndexKey(UidOf(m)) && lc == LcOf(m) <==> m == key
      ensures key != IndexKey(UidOf(m))
    {
      assert WellNamed(m);
      KeysDisjoint(uid, UidOf(m), lc);
      KeysDisjoint(UidOf(m), uid, lc);
    }
    assert Unindexed(due, index, lc) <==> key in due;
    if key in h1 {
      assert Left(h1, due, key) == h1[key].fields;
    }
  }

  lemma SweepKeepsInv(db: Db, stamp: int)
    requires Inv(db)
    ensures Inv(Sweep(db, stamp))
  {
    var db' := Sweep(db, stamp);
    UnindexEffect(db.hashes - Due(db, stamp), Due(db, stamp));
    forall uid, lc | Dotless(uid)
      ensures SessionOk(db', uid, lc)
    {
      assert SessionOk(db, uid, lc);
      SweepEffect(db, stamp, uid, lc);
    }
  }

  lemma ElapseKeepsInv(db: Db, seconds: nat)
    requires Inv(db)
    ensures Inv(Elapse(db, seconds))
  {
    var db' := Elapse(db, seconds);
    forall uid, lc | Dotless(uid)
      ensures SessionOk(db', uid, lc)
    {
      assert SessionOk(db, uid, lc);
    }
  }

  lemma StepKeepsInv(db: Db, e: Event)
    requires Inv(db) && Proper(e)
    ensures Inv(Step(db, e))
  {
    match e
    case Bound(b) => BindKeepsInv(db, b);
    case Closing(uid, lc, gate, deadline) => ScheduleKeepsInv(db, uid, lc, gate, deadline);
    case Closed(uid, lc) => FinishKeepsInv(db, uid, lc);
    case Swept(stamp) => SweepKeepsInv(db, stamp);
    case Passed(seconds) => ElapseKeepsInv(db, seconds);
  }

  lemma {:induction false} RunInv(t: int, es: seq<Event>)
    requires AllProper(es)
    ensures Inv(Run(t, es))
  {
    if es != [] {
      RunInv(t, es[..|es| - 1]);
      StepKeepsInv(Run(t, es[..|es| - 1]), es[|es| - 1]);
    }
  }

  // ----- the index right after a binding -----

  /** Right after syn or upidx the index of the uid lists exactly its live sessions. */
  lemma IndexExactAfterBind(t: int, es: seq<Event>, b: Binding, lc: string)
    requires AllProper(es) && Proper(Bound(b))
    ensures var db := Run(t, es + [Bound(b)]); Indexed(db, b.uid, lc) <==> Live(db, b.uid, lc)
  {
    var es' := es + [Bound(b)];
    assert es'[..|es'| - 1] == es;
    var db, db' := Run(t, es), Run(t, es');
    RunInv(t, es);
    RunInv(t, es');
    assert SessionOk(db', b.uid, lc);
    KeysDisjoint(b.uid, b.uid, b.lc);
    if SessionKey(b.uid, lc) == SessionKey(b.uid, b.lc) { SessionKeyInjective(b.uid, lc, b.uid, b.lc); }
    if Indexed(db', b.uid, lc) && lc != b.lc {
      assert lc in LiveFields(db.hashes, b.uid);
    }
  }

  // ----- which delayed closes take effect -----

  predicate IsBindOf(e: Event, uid: string, lc: string) {
    e.Bound? && e.b.uid == uid && e.b.lc == lc
  }

  predicate IsCloseFrom(e: Event, uid: string, lc: string, gate: string) {
    e.Closing? && e.uid == uid && e.lc == lc && e.gate == gate
  }

  /** Position of the last syn/upidx of a session, or -1. */
  function LastBind(es: seq<Event>, uid: string, lc: string): (i: int)
    ensures -1 <= i < |es|
    ensures i >= 0 ==> IsBindOf(es[i], uid, lc)
    ensures forall j :: i < j < |es| ==> !IsBindOf(es[j], uid, lc)
  {
    if es == [] then -1
    else if IsBindOf(es[|es| - 1], uid, lc) then |es| - 1
    else LastBind(es[..|es| - 1], uid, lc)
  }

  /** The first fin_delay of a session from `gate` at position `i` or later, or |es|. */
  function FirstClose(es: seq<Event>, i: nat, uid: string, lc: string, gate: string): (j: nat)
    requires i <= |es|
    ensures i <= j <= |es|
    ensures j < |es| ==> IsCloseFrom(es[j], uid, lc, gate)
    ensures forall k :: i <= k < j ==> !IsCloseFrom(es[k], uid, lc, gate)
    decreases |es| - i
  {
    if i == |es| || IsCloseFrom(es[i], uid, lc, gate) then i else FirstClose(es, i + 1, uid, lc, gate)
  }

  /** The deadline that the history gives a session: that of the first fin_delay
      sent, since the latest syn/upidx, by the gate that syn/upidx named. */
  function PendingClose(es: seq<Event>, uid: string, lc: string): Option<int> {
    var i := LastBind(es, uid, lc);
    if i < 0 then None else CloseSince(es, i, uid, lc, GateOf(es[i].b))
  }

  function ScheduledClose(db: Db, key: string): Option<int> {
    if key in db.delays then Some(db.delays[key]) else None
  }

  /** How one more event changes what the history says. */
  lemma PendingCloseStep(es: seq<Event>, e: Event, uid: string, lc: string)
    ensures var es', i := es + [e], LastBind(es, uid, lc);
            && LastBind(es', uid, lc) == (if IsBindOf(e, uid, lc) then |es| else i)
            && PendingClose(es', uid, lc) == (
                 if IsBindOf(e, uid, lc) then None
                 else if i >= 0 && PendingClose(es, uid, lc).None? && IsCloseFrom(e, uid, lc, GateOf(es[i].b))
                 then Some(e.deadline)
                 else PendingClose(es, uid, lc))
  {
    LastBindAppend(es, e, uid, lc);
    if IsBindOf(e, uid, lc) { PendingAfterBind(es, e, uid, lc); } else { PendingAfterOther(es, e, uid, lc); }
  }

  lemma PendingAfterBind(es: seq<Event>, e: Event, uid: string, lc: string)
    requires IsBindOf(e, uid, lc)
    ensures PendingClose(es + [e], uid, lc) == None
  {
    LastBindAppend(es, e, uid, lc);
    var es' := es + [e];
    assert es'[|es|] == e && FirstClose(es', |es|, uid, lc, GateOf(e.b)) == |es'|;
  }

  lemma PendingAfterOther(es: seq<Event>, e: Event, uid: string, lc: string)
    requires !IsBindOf(e, uid, lc)
    ensures var i := LastBind(es, uid, lc);
            PendingClose(es + [e], uid, lc) ==
              if i >= 0 && PendingClose(es, uid, lc).None? && IsCloseFrom(e, uid, lc, GateOf(es[i].b))
              then Some(e.deadline)
              else PendingClose(es, uid, lc)
  {
    LastBindAppend(es, e, uid, lc);
    var i := LastBind(es, uid, lc);
    if i >= 0 {
      assert (es + [e])[i] == es[i];
      CloseAppend(es, e, i, uid, lc, GateOf(es[i].b));
    }
  }

  /** What the first close of this gate from position `i` on says. */
  function CloseSince(es: seq<Event>, i: nat, uid: string, lc: string, gate: string): Option<int>
    requires i <= |es|
  {
    var j := FirstClose(es, i, uid, lc, gate);
    if j < |es| then Some(es[j].deadline) else None
  }

  lemma CloseAppend(es: seq<Event>, e: Event, i: nat, uid: string, lc: string, gate: string)
    requires i <= |es|
    ensures CloseSince(es + [e], i, uid, lc, gate) == (
              if CloseSince(es, i, uid, lc, gate).None? && IsCloseFrom(e, uid, lc, gate) then Some(e.deadline)
              else CloseSince(es, i, uid, lc, gate))
  {
    FirstCloseAppend(es, e, i, uid, lc, gate);
    var j := FirstClose(es, i, uid, lc, gate);
    if j < |es| { assert (es + [e])[j] == es[j]; }
  }

  lemma LastBindAppend(es: seq<Event>, e: Event, uid: string, lc: string)
    ensures LastBind(es + [e], uid, lc) == if IsBindOf(e, uid, lc) then |es| else LastBind(es, uid, lc)
  {
    assert (es + [e])[..|es|] == es;
  }

  lemma {:induction false} FirstCloseAppend(es: seq<Event>, e: Event, i: nat, uid: string, lc: string, gate: string)
    requires i <= |es|
    ensures var j := FirstClose(es, i, uid, lc, gate);
            FirstClose(es + [e], i, uid, lc, gate)
              == if j < |es| || IsCloseFrom(e, uid, lc, gate) then j else |es| + 1
    decreases |es| - i
  {
    if i < |es| && !IsCloseFrom(es[i], uid, lc, gate) {
      FirstCloseAppend(es, e, i + 1, uid, lc, gate);
    }
  }

  ghost predicate MatchesHistory(db: Db, es: seq<Event>, uid: string, lc: string) {
    var key := SessionKey(uid, lc);
    key in db.hashes ==>
      && LastBind(es, uid, lc) >= 0
      && ScheduledClose(db, key) == PendingClose(es, uid, lc)
      && HGet(db.hashes, key, GATE)
         == Some(if PendingClose(es, uid, lc).Some? then "" else GateOf(es[LastBind(es, uid, lc)].b))
  }

  /** For a live session, GATE and DLY_CK say exactly what the history says. */
  lemma {:induction false} HistoryDecides(t: int, es: seq<Event>, uid: string, lc: string)
    requires AllProper(es) && Dotless(uid)
    ensures MatchesHistory(Run(t, es), es, uid, lc)
  {
    if es != [] {
      var n := |es| - 1;
      HistoryDecides(t, es[..n], uid, lc);
      RunInv(t, es[..n]);
      assert es == es[..n] + [es[n]];
      PendingCloseStep(es[..n], es[n], uid, lc);
      MatchStep(Run(t, es[..n]), es[..n], es[n], uid, lc);
    }
  }

  lemma MatchStep(db: Db, es: seq<Event>, e: Event, uid: string, lc: string)
    requires Inv(db) && Proper(e) && Dotless(uid)
    requires MatchesHistory(db, es, uid, lc)
    requires LastBind(es, uid, lc) >= 0 ==> GateOf(es[LastBind(es, uid, lc)].b) != ""
    ensures MatchesHistory(Step(db, e), es + [e], uid, lc)
  {
    PendingCloseStep(es, e, uid, lc);
    assert SessionOk(db, uid, lc);
    if IsBindOf(e, uid, lc) {
      BoundGate(db, e.b);
    } else if SessionKey(uid, lc) in Step(db, e).hashes {
      StepOnSession(db, e, uid, lc);
    }
  }

  /** What a step other than its own syn/upidx does to a session that survives it. */
  lemma StepOnSession(db: Db, e: Event, uid: string, lc: string)
    requires Inv(db) && Proper(e) && Dotless(uid) && !IsBindOf(e, uid, lc)
    requires SessionKey(uid, lc) in Step(db, e).hashes
    ensures var key, db' := SessionKey(uid, lc), Step(db, e);
            && key in db.hashes && GATE in db.hashes[key].fields
            && var taken := IsCloseFrom(e, uid, lc, db.hashes[key].fields[GATE]);
               && HGet(db'.hashes, key, GATE) == Some(if taken then "" else db.hashes[key].fields[GATE])
               && ScheduledClose(db', key) == if taken then Some(e.deadline) else ScheduledClose(db, key)
  {
    var key := SessionKey(uid, lc);
    assert SessionOk(db, uid, lc);
    match e
    case Bound(b) =>
      KeysDisjoint(b.uid, uid, lc);
      if key == SessionKey(b.uid, b.lc) { SessionKeyInjective(uid, lc, b.uid, b.lc); }
    case Closing(u, l, gate, deadline) =>
      if key == SessionKey(u, l) { SessionKeyInjective(uid, lc, u, l); }
    case Closed(u, l) =>
      KeysDisjoint(u, uid, lc);
      HDelEffect(db.hashes, IndexKey(u), l);
      assert HGet(Finish(db, u, l).hashes, key, GATE) == HGet(HDel(db.hashes, IndexKey(u), l), key, GATE);
    case Swept(stamp) =>
      SweepEffect(db, stamp, uid, lc);
    case Passed(seconds) =>
  }

  /** timeout_rm removes a live session exactly when the gate of its latest
      syn/upidx has itself sent a fin_delay since then and the first such
      deadline has come. */
  lemma SweepRemovesExactly(t: int, es: seq<Event>, uid: string, lc: string, stamp: int)
    requires AllProper(es) && Dotless(uid) && Live(Run(t, es), uid, lc)
    ensures var pending := PendingClose(es, uid, lc);
            Live(Run(t, es + [Swept(stamp)]), uid, lc) <==> !(pending.Some? && pending.value <= stamp)
  {
    var es' := es + [Swept(stamp)];
    assert es'[..|es'| - 1] == es;
    RunInv(t, es);
    HistoryDecides(t, es, uid, lc);
    SweepEffect(Run(t, es), stamp, uid, lc);
  }

  /** A fin_delay from another gate than that of the latest syn/upidx, or one that
      is not the first since then, changes nothing. */
  lemma StaleCloseIgnored(t: int, es: seq<Event>, uid: string, lc: string, gate: string, deadline: int)
    requires AllProper(es) && Proper(Closing(uid, lc, gate, deadline))
    requires LastBind(es, uid, lc) >= 0 ==>
               gate != GateOf(es[LastBind(es, uid, lc)].b) || PendingClose(es, uid, lc).Some?
    ensures Run(t, es + [Closing(uid, lc, gate, deadline)]) == Run(t, es)
  {
    var es' := es + [Closing(uid, lc, gate, deadline)];
    assert es'[..|es'| - 1] == es;
    HistoryDecides(t, es, uid, lc);
  }

  // ----- conservation of online episodes -----

  function Bit(b: bool): nat { if b then 1 else 0 }

  /** The script creates the index entry of the session. */
  predicate Creates(db: Db, e: Event, uid: string, lc: string) {
    IsBindOf(e, uid, lc) && lc !in LiveFields(db.hashes, uid)
  }

  /** The reply reports the session offline: a non-nil reply of fin.lua, or a pair
      in the reply of timeout_rm.lua. */
  predicate ReportsOffline(db: Db, e: Event, uid: string, lc: string) {
    || (e == Closed(uid, lc) && HGet(db.hashes, IndexKey(uid), lc).Some?)
    || (e.Swept? && SessionKey(uid, lc) in Due(db, e.stamp) && HGet(db.hashes, IndexKey(uid), lc).Some?)
  }

  /** The entry goes without a report: dropped by the cleanup of syn/upidx, or gone
      with an expired index. */
  predicate DropsSilently(db: Db, e: Event, uid: string, lc: string) {
    && Indexed(db, uid, lc)
    && (|| (e.Bound? && e.b.uid == uid && !Live(db, uid, lc))
        || (e.Passed? && Expired(db.hashes[IndexKey(uid)], db.now + e.seconds)))
  }

  function Creations(t: int, es: seq<Event>, uid: string, lc: string): nat {
    if es == [] then 0
    else Creations(t, es[..|es| - 1], uid, lc) + Bit(Creates(Run(t, es[..|es| - 1]), es[|es| - 1], uid, lc))
  }

  function OfflineReports(t: int, es: seq<Event>, uid: string, lc: string): nat {
    if es == [] then 0
    else OfflineReports(t, es[..|es| - 1], uid, lc) + Bit(ReportsOffline(Run(t, es[..|es| - 1]), es[|es| - 1], uid, lc))
  }

  function SilentDrops(t: int, es: seq<Event>, uid: string, lc: string): nat {
    if es == [] then 0
    else SilentDrops(t, es[..|es| - 1], uid, lc) + Bit(DropsSilently(Run(t, es[..|es| - 1]), es[|es| - 1], uid, lc))
  }

  lemma BindConserves(db: Db, b: Binding, uid: string, lc: string)
    requires Inv(db) && Proper(Bound(b)) && Dotless(uid)
    ensures Indexed(Bind(db, b), uid, lc) <==>
              if uid == b.uid then lc == b.lc || lc in LiveFields(db.hashes, uid) else Indexed(db, uid, lc)
    ensures lc in LiveFields(db.hashes, uid) <==> Indexed(db, uid, lc) && Live(db, uid, lc)
  {
    KeysDisjoint(uid, b.uid, b.lc);
    KeysDisjoint(b.uid, uid, b.lc);
    assert IndexKey(uid) != SessionKey(b.uid, b.lc) && (IndexKey(uid) == IndexKey(b.uid) <==> uid == b.uid);
  }

  lemma ConservationStep(db: Db, e: Event, uid: string, lc: string)
    requires Inv(db) && Proper(e) && Dotless(uid)
    ensures Bit(Indexed(db, uid, lc)) + Bit(Creates(db, e, uid, lc))
         == Bit(Indexed(Step(db, e), uid, lc)) + Bit(ReportsOffline(db, e, uid, lc))
            + Bit(DropsSilently(db, e, uid, lc))
  {
    var index := IndexKey(uid);
    assert SessionOk(db, uid, lc);
    match e
    case Bound(b) => BindConserves(db, b, uid, lc);
    case Closing(u, l, gate, deadline) =>
      KeysDisjoint(uid, u, l);
    case Closed(u, l) =>
      KeysDisjoint(uid, u, l);
      KeysDisjoint(u, uid, l);
      HDelEffect(db.hashes, IndexKey(u), l);
      assert HGet(Finish(db, u, l).hashes, index, lc) == HGet(HDel(db.hashes, IndexKey(u), l), index, lc);
    case Swept(stamp) =>
      SweepEffect(db, stamp, uid, lc);
    case Passed(seconds) =>
  }

  /** Every creation of an index entry is matched by one offline report, or one
      silent drop, or the entry is still there. */
  lemma {:induction false} Conservation(t: int, es: seq<Event>, uid: string, lc: string)
    requires AllProper(es) && Dotless(uid)
    ensures Creations(t, es, uid, lc)
         == OfflineReports(t, es, uid, lc) + SilentDrops(t, es, uid, lc) + Bit(Indexed(Run(t, es), uid, lc))
  {
    if es != [] {
      var n := |es| - 1;
      Conservation(t, es[..n], uid, lc);
      RunInv(t, es[..n]);
      ConservationStep(Run(t, es[..n]), es[n], uid, lc);
    }
  }
}

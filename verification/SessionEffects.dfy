/** What the session scripts leave in the database, key by key and field by field. */
module SessionEffects {
  import opened Options
  import opened RedisDb
  import opened SessionHistory
  import opened SessionScripts
  import Decimal

  // ----- the extension -----

  predicate Names(pairs: seq<(string, string)>, name: string) { exists i :: 0 <= i < |pairs| && pairs[i].0 == name }

  /** The last pair of the name counts, and without one the other value. */
  lemma {:induction false} LastValueIs(pairs: seq<(string, string)>, name: string, otherwise: string, i: nat)
    ensures !Names(pairs, name) ==> LastValue(pairs, name, otherwise) == otherwise
    ensures i < |pairs| && pairs[i].0 == name && (forall j :: i < j < |pairs| ==> pairs[j].0 != name) ==>
              LastValue(pairs, name, otherwise) == pairs[i].1
  {
    if pairs != [] {
      var n := |pairs| - 1;
      LastValueIs(pairs[..n], name, otherwise, i);
      assert Names(pairs[..n], name) ==> Names(pairs, name);
    }
  }

  lemma PutIs(fields: map<string, string>, pairs: seq<(string, string)>, name: string)
    ensures name in Put(fields, pairs) <==> name in fields || Names(pairs, name)
    ensures name in Put(fields, pairs) ==>
              Put(fields, pairs)[name] == LastValue(pairs, name, if name in fields then fields[name] else "")
  {
    PutEffect(fields, pairs, name);
    PutOrElse(fields, pairs, name, if name in fields then fields[name] else "");
  }

  lemma {:induction false} PutOrElse(fields: map<string, string>, pairs: seq<(string, string)>, name: string,
                                     was: string)
    requires name in fields ==> fields[name] == was
    ensures name in Put(fields, pairs) ==> Put(fields, pairs)[name] == LastValue(pairs, name, was)
  {
    if pairs != [] { PutOrElse(fields, pairs[..|pairs| - 1], name, was); }
  }

  // ----- syn and upidx -----

  /** The field of the session of `uid` on client `lc`. */
  function SessionField(db: Db, uid: string, lc: string, name: string): Option<string> {
    HGet(db.hashes, "L." + uid + "." + lc, name)
  }

  /** The field of the index of `uid` for client `lc`. */
  function IndexField(db: Db, uid: string, lc: string): Option<string> { HGet(db.hashes, "U." + uid, lc) }

  function Else(o: Option<string>, otherwise: string): string { if o.Some? then o.value else otherwise }

  lemma FieldsApart()
    ensures "SID" != "RID" && "SID" != "GATE" && "SID" != "CT" && "SID" != "CV"
    ensures "RID" != "GATE" && "RID" != "CT" && "RID" != "CV" && "GATE" != "CT" && "GATE" != "CV" && "CT" != "CV"
  {
    assert "SID"[0] == 'S' && "RID"[0] == 'R' && "GATE"[0] == 'G' && "CT"[0] == 'C' && "CV"[0] == 'C';
    assert "CT"[1] == 'T' && "CV"[1] == 'V';
  }

  lemma ReservedIs(was: map<string, string>, b: Binding, name: string)
    ensures var f := Put(was, Reserved(b));
            && "SID" in f && f["SID"] == "0" && "RID" in f && f["RID"] == b.sid
            && "GATE" in f && f["GATE"] == b.gate && "CT" in f && f["CT"] == Decimal.OfInt(b.ct)
            && (name !in {"SID", "RID", "GATE", "CT"} ==> Lookup(f, name) == Lookup(was, name))
  {
    var r := Reserved(b);
    FieldsApart();
    assert r[..3][..2] == r[..2] && r[..2][..1] == r[..1] && r[..1][..0] == [];
    assert Put(was, r[..1]) == was["SID" := "0"];
    assert Put(was, r[..2]) == was["SID" := "0"]["RID" := b.sid];
    assert Put(was, r[..3]) == was["SID" := "0"]["RID" := b.sid]["GATE" := b.gate];
    assert Put(was, r) == was["SID" := "0"]["RID" := b.sid]["GATE" := b.gate]["CT" := Decimal.OfInt(b.ct)];
  }

  lemma BoundSession(db: Db, b: Binding, name: string)
    ensures var key := SessionKey(b.uid, b.lc);
            SessionField(Bind(db, b), b.uid, b.lc, name) == Lookup(SessionFields(SessionSoFar(db.hashes, b), b), name)
            && SessionField(db, b.uid, b.lc, name) == Lookup(SessionSoFar(db.hashes, b), name)
  {
    KeysDisjoint(b.uid, b.uid, b.lc);
  }

  /** Every field of the session after syn or upidx. An extension field of the name counts, and
      of several the last; without one SID is 0, RID the sid, GATE the gate, CT the client type,
      CV what it was or else the version, and any other field is what it was. */
  lemma FieldsAfterBind(db: Db, b: Binding, name: string)
    ensures var was, now := SessionField(db, b.uid, b.lc, name), SessionField(Bind(db, b), b.uid, b.lc, name);
            && (name == "SID" ==> now == Some(LastValue(b.ext, name, "0")))
            && (name == "RID" ==> now == Some(LastValue(b.ext, name, b.sid)))
            && (name == "GATE" ==> now == Some(LastValue(b.ext, name, b.gate)))
            && (name == "CT" ==> now == Some(LastValue(b.ext, name, Decimal.OfInt(b.ct))))
            && (name == "CV" ==> now == Some(LastValue(b.ext, name, Else(was, b.cv))))
            && (name !in {"SID", "RID", "GATE", "CT", "CV"} ==>
                  now == if Names(b.ext, name) then Some(LastValue(b.ext, name, "")) else was)
  {
    var was := SessionSoFar(db.hashes, b);
    BoundSession(db, b, name);
    ReservedIs(was, b, name);
    FieldsApart();
    var base := SessionBase(was, b);
    PutIs(base, b.ext, name);
    OtherwiseUnused(b.ext, name, if name in base then base[name] else "");
    assert "CV" == CV;
  }

  lemma {:induction false} OtherwiseUnused(pairs: seq<(string, string)>, name: string, x: string)
    ensures Names(pairs, name) ==> LastValue(pairs, name, x) == LastValue(pairs, name, "")
    ensures !Names(pairs, name) ==> LastValue(pairs, name, x) == x
  {
    if pairs != [] {
      OtherwiseUnused(pairs[..|pairs| - 1], name, x);
      assert Names(pairs[..|pairs| - 1], name) ==> Names(pairs, name);
    }
  }

  /** Every field of the index: that of a live session keeps its value, one without session goes,
      and a new one holds client type and version. */
  lemma IndexAfterBind(db: Db, b: Binding, lc: string)
    ensures var was, live := IndexField(db, b.uid, lc), "L." + b.uid + "." + lc in db.hashes;
            IndexField(Bind(db, b), b.uid, lc) ==
              if was.Some? && live then was
              else if lc == b.lc then Some(Decimal.OfInt(b.ct) + ";" + b.cv)
              else None
  {
    KeysDisjoint(b.uid, b.uid, b.lc);
    assert SessionKey(b.uid, lc) == "L." + b.uid + "." + lc;
  }

  /** Nothing else changes, but that a delayed close of the session is cancelled. */
  lemma RestAfterBind(db: Db, b: Binding, k: string)
    requires k != "U." + b.uid && k != "L." + b.uid + "." + b.lc
    ensures k in Bind(db, b).hashes <==> k in db.hashes
    ensures k in db.hashes ==> Bind(db, b).hashes[k] == db.hashes[k]
    ensures Bind(db, b).now == db.now && Bind(db, b).delays == db.delays - {"L." + b.uid + "." + b.lc}
  {
  }

  /** How long the session is granted. */
  function Granted(ct: int): int { if 0 <= ct < 100 then 1200 else if ct == 100_000 then 60 else 600 }

  /** The session is live for exactly the seconds granted to the client type; the index at least
      as long, and longer only if a session of the user was live and the index had longer to go. */
  lemma LeaseAfterBind(db: Db, b: Binding, k: nat)
    ensures Live(Elapse(Bind(db, b), k), b.uid, b.lc) <==> k < Granted(b.ct)
    ensures "U." + b.uid in Elapse(Bind(db, b), k).hashes <==>
              || k < Granted(b.ct)
              || (&& "U." + b.uid in db.hashes && db.hashes["U." + b.uid].expiry.At?
                  && db.now + k < db.hashes["U." + b.uid].expiry.stamp
                  && exists lc :: lc in db.hashes["U." + b.uid].fields && "L." + b.uid + "." + lc in db.hashes)
  {
    KeysDisjoint(b.uid, b.uid, b.lc);
    assert Lease(b.ct) == Granted(b.ct);
    AnyLive(db.hashes, b.uid);
  }

  lemma AnyLive(hashes: Hashes, uid: string)
    ensures LiveFields(hashes, uid) != map[] <==>
              "U." + uid in hashes && exists lc :: lc in hashes["U." + uid].fields && "L." + uid + "." + lc in hashes
  {
    var live := LiveFields(hashes, uid);
    if live != map[] {
      var lc :| lc in live;
      assert SessionKey(uid, lc) == "L." + uid + "." + lc;
    }
    if "U." + uid in hashes {
      if lc :| lc in hashes["U." + uid].fields && "L." + uid + "." + lc in hashes {
        assert SessionKey(uid, lc) in hashes;
        assert lc in live;
      }
    }
  }

  // ----- fin_delay -----

  /** fin_delay from the gate that is bound schedules the close and empties GATE; from another
      gate, or without a session, it does nothing. Nothing else changes. */
  lemma ScheduleTakes(db: Db, uid: string, lc: string, gate: string, deadline: int, k: string, f: string)
    ensures var db', key := Schedule(db, uid, lc, gate, deadline), "L." + uid + "." + lc;
            var taken := SessionField(db, uid, lc, "GATE") == Some(gate);
            && HGet(db'.hashes, k, f) == (if taken && k == key && f == "GATE" then Some("") else HGet(db.hashes, k, f))
            && (k in db'.hashes <==> k in db.hashes)
            && (k in db'.hashes ==> db'.hashes[k].expiry == db.hashes[k].expiry)
            && db'.now == db.now && db'.delays == if taken then db.delays[key := deadline] else db.delays
  {
    assert SessionKey(uid, lc) == "L." + uid + "." + lc;
  }

  // ----- fin and timeout_rm -----

  /** fin takes the session, its index field and its delayed close, and nothing else. */
  lemma FinishTakes(db: Db, uid: string, lc: string, k: string, f: string)
    requires NoEmptyHash(db.hashes)
    ensures var db', key := Finish(db, uid, lc), "L." + uid + "." + lc;
            && HGet(db'.hashes, k, f) ==
                 (if k == key || (k == "U." + uid && f == lc) then None else HGet(db.hashes, k, f))
            && (k in db'.hashes ==> k in db.hashes && db'.hashes[k].expiry == db.hashes[k].expiry)
            && (k in db'.delays <==> k in db.delays && k != key)
            && (k in db'.delays ==> db'.delays[k] == db.delays[k])
  {
    HDelEffect(db.hashes, "U." + uid, lc);
    var h := HDel(db.hashes, "U." + uid, lc);
    assert HGet(h, k, f) == if k == "U." + uid && f == lc then None else HGet(db.hashes, k, f);
  }

  /** timeout_rm leaves exactly the closes that are not due; a second sweep with the same stamp
      does nothing and reports nothing. */
  lemma SweepClears(db: Db, stamp: int, m: string)
    requires NoEmptyHash(db.hashes)
    ensures m in Sweep(db, stamp).delays <==> m in db.delays && db.delays[m] > stamp
    ensures m in Sweep(db, stamp).delays ==> Sweep(db, stamp).delays[m] == db.delays[m]
    ensures Due(Sweep(db, stamp), stamp) == {} && Sweep(Sweep(db, stamp), stamp) == Sweep(db, stamp)
  {
    var db' := Sweep(db, stamp);
    assert Due(db', stamp) == {};
    UnindexEffect(db.hashes - Due(db, stamp), Due(db, stamp));
    UnindexNone(db'.hashes);
    assert db'.hashes - {} == db'.hashes && db'.delays - {} == db'.delays;
  }

  // ----- over runs -----

  /** What a step other than its own syn/upidx leaves of a session that survives it. */
  lemma RecordStays(db: Db, e: Event, uid: string, lc: string, name: string)
    requires Inv(db) && Proper(e) && Dotless(uid) && !IsBindOf(e, uid, lc) && name != GATE
    requires Live(Step(db, e), uid, lc)
    ensures var key := SessionKey(uid, lc);
            && Live(db, uid, lc) && Step(db, e).hashes[key].expiry == db.hashes[key].expiry
            && SessionField(Step(db, e), uid, lc, name) == SessionField(db, uid, lc, name)
  {
    var key := SessionKey(uid, lc);
    match e
    case Bound(b) =>
      KeysDisjoint(b.uid, uid, lc);
      if key == SessionKey(b.uid, b.lc) { SessionKeyInjective(uid, lc, b.uid, b.lc); }
    case Closing(u, l, gate, deadline) =>
    case Closed(u, l) =>
      KeysDisjoint(u, uid, lc);
      FinishTakes(db, u, l, key, name);
    case Swept(stamp) =>
      SweepEffect(db, stamp, uid, lc);
    case Passed(seconds) =>
  }

  /** What the last syn or upidx of a session recorded, at time `bound`. */
  ghost predicate Recorded(db: Db, b: Binding, bound: int) {
    && Live(db, b.uid, b.lc)
    && SessionField(db, b.uid, b.lc, "SID") == Some(LastValue(b.ext, "SID", "0"))
    && SessionField(db, b.uid, b.lc, "RID") == Some(LastValue(b.ext, "RID", b.sid))
    && SessionField(db, b.uid, b.lc, "CT") == Some(LastValue(b.ext, "CT", Decimal.OfInt(b.ct)))
    && db.hashes[SessionKey(b.uid, b.lc)].expiry == At(bound + Granted(b.ct))
    && bound <= db.now < bound + Granted(b.ct)
  }

  lemma BindRecords(db: Db, b: Binding)
    ensures Recorded(Bind(db, b), b, db.now)
  {
    FieldsAfterBind(db, b, "SID");
    FieldsAfterBind(db, b, "RID");
    FieldsAfterBind(db, b, "CT");
    KeysDisjoint(b.uid, b.uid, b.lc);
    assert Lease(b.ct) == Granted(b.ct);
  }

  lemma StillRecorded(db: Db, e: Event, b: Binding, bound: int)
    requires Inv(db) && Proper(e) && Dotless(b.uid) && !IsBindOf(e, b.uid, b.lc)
    requires Live(db, b.uid, b.lc) ==> Recorded(db, b, bound)
    requires Live(Step(db, e), b.uid, b.lc)
    ensures Recorded(Step(db, e), b, bound)
  {
    FieldsApart();
    RecordStays(db, e, b.uid, b.lc, "SID");
    RecordStays(db, e, b.uid, b.lc, "RID");
    RecordStays(db, e, b.uid, b.lc, "CT");
  }

  /** After any run a live session holds what its last syn or upidx recorded, and goes when the
      time granted since then is over. */
  lemma {:induction false} RecordDecides(t: int, es: seq<Event>, uid: string, lc: string)
    requires AllProper(es) && Dotless(uid) && Live(Run(t, es), uid, lc)
    ensures var i := LastBind(es, uid, lc); i >= 0 && Recorded(Run(t, es), es[i].b, Run(t, es[..i]).now)
  {
    if es != [] {
      var n := |es| - 1;
      var db, e := Run(t, es[..n]), es[n];
      assert es == es[..n] + [e];
      LastBindAppend(es[..n], e, uid, lc);
      if IsBindOf(e, uid, lc) {
        BindRecords(db, e.b);
      } else {
        RunInv(t, es[..n]);
        RecordStays(db, e, uid, lc, "SID");
        RecordDecides(t, es[..n], uid, lc);
        var i := LastBind(es[..n], uid, lc);
        assert es[..n][..i] == es[..i];
        StillRecorded(db, e, es[i].b, Run(t, es[..i]).now);
      }
    }
  }
}

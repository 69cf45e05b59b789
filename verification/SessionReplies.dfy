/** What OnlineCtrl reads in the replies of timeout_rm.lua and get_multi.lua after a run of the
    session scripts. */
module SessionReplies {
  import opened Decimal
  import opened LuaNumber
  import opened OnlineReply
  import opened Options
  import opened RedisDb
  import opened Sequences
  import opened SessionHistory
  import opened SessionScripts

  lemma NumberIsDotless(n: int)
    ensures Dotless(OfInt(n))
  {
    if !Dotless(OfInt(n)) {
      var i :| 0 <= i < |OfInt(n)| && OfInt(n)[i] == '.';
      OfIntChars(n, i);
      assert false;
    }
  }

  // ----- timeout_rm -----

  function IndexValue(hashes: Hashes, m: string): Option<string> { HGet(hashes, IndexKey(UidOf(m)), LcOf(m)) }

  /** The members of a due list that timeout_rm reports. */
  function Reported(hashes: Hashes, ms: seq<string>): seq<string> {
    if ms == [] then []
    else
      var m := ms[|ms| - 1];
      Reported(hashes, ms[..|ms| - 1]) + if IndexValue(hashes, m).Some? then [m] else []
  }

  /** What OnlineCtrl reads in the reply. */
  function SweepRead(hashes: Hashes, ms: seq<string>): seq<(int, string)> {
    ReadPairs(Wire(AllTold(Reports(hashes, ms))))
  }

  /** The i-th pair names the user of the i-th member and has the value of its index entry. */
  ghost predicate NamesAll(hashes: Hashes, read: seq<(int, string)>, r: seq<string>) {
    && |read| == |r|
    && forall i :: 0 <= i < |r| ==> OfInt(read[i].0) == UidOf(r[i]) && Some(read[i].1) == IndexValue(hashes, r[i])
  }

  lemma {:induction false} ReportsInOrder(hashes: Hashes, ms: seq<string>)
    requires Distinct(ms)
    ensures var r := Reported(hashes, ms);
            && |Reports(hashes, ms)| == |r|
            && (forall i :: 0 <= i < |r| ==>
                  && IndexValue(hashes, r[i]).Some?
                  && Reports(hashes, ms)[i] == (UidOf(r[i]), IndexValue(hashes, r[i]).value))
            && Distinct(r)
            && (forall m :: m in r <==> m in ms && IndexValue(hashes, m).Some?)
  {
    if ms != [] {
      var n := |ms| - 1;
      ReportsInOrder(hashes, ms[..n]);
      assert ms == ms[..n] + [ms[n]];
      assert ms[n] !in ms[..n];
    }
  }

  /** What is said of the reports in order is what is said of the members. */
  lemma SameReports(hashes: Hashes, read: seq<(int, string)>, reports: seq<(string, string)>, r: seq<string>)
    requires |reports| == |r|
    requires forall i :: 0 <= i < |r| ==> Some(reports[i].1) == IndexValue(hashes, r[i]) && reports[i].0 == UidOf(r[i])
    ensures ReadsReports(read, reports) <==> NamesAll(hashes, read, r)
    ensures AllReportable(reports) <==> forall m :: m in r ==> Reportable(UidOf(m))
  {
    if AllReportable(reports) {
      forall m | m in r
        ensures Reportable(UidOf(m))
      {
        var i :| 0 <= i < |r| && r[i] == m;
        assert Reportable(reports[i].0);
      }
    }
  }

  /** The reply reports each due, indexed session once and nothing else; OnlineCtrl reads the
      reports one by one with the right users if and only if every user id is the text of a
      64-bit number that is a double. */
  lemma ReportsOnce(hashes: Hashes, ms: seq<string>)
    requires Distinct(ms)
    ensures var r := Reported(hashes, ms);
            && Distinct(r)
            && (forall m :: m in r <==> m in ms && IndexValue(hashes, m).Some?)
            && (NamesAll(hashes, SweepRead(hashes, ms), r) <==> forall m :: m in r ==> Reportable(UidOf(m)))
  {
    ReportsInOrder(hashes, ms);
    ReadExactly(Reports(hashes, ms));
    SameReports(hashes, SweepRead(hashes, ms), Reports(hashes, ms), Reported(hashes, ms));
  }

  /** If every user id is a numeral, a wrong user is named exactly in the pairs whose own user id
      is not the text of a 64-bit number that is a double. */
  lemma EachPair(hashes: Hashes, ms: seq<string>)
    requires Distinct(ms)
    requires forall m :: m in Reported(hashes, ms) ==> LuaInt(UidOf(m)).Some?
    ensures var r, read := Reported(hashes, ms), SweepRead(hashes, ms);
            && |read| == |r|
            && forall i :: 0 <= i < |r| ==>
                 && LuaInt(UidOf(r[i])) == Some(read[i].0) && Some(read[i].1) == IndexValue(hashes, r[i])
                 && (OfInt(read[i].0) == UidOf(r[i]) <==> Reportable(UidOf(r[i])))
  {
    var r, reports := Reported(hashes, ms), Reports(hashes, ms);
    ReportsInOrder(hashes, ms);
    forall i | 0 <= i < |reports|
      ensures AllTold(reports)[i].0.Some?
    {
      assert r[i] in r;
    }
    EachReport(reports);
  }

  /** What `ReportsOffline` counts for timeout_rm is what its reply holds: after any run, and in
      whatever order the due members come. */
  lemma ReportedExactly(t: int, es: seq<Event>, stamp: int, ms: seq<string>, uid: string, lc: string)
    requires AllProper(es) && Dotless(uid)
    requires Enumerates(ms, Due(Run(t, es), stamp))
    ensures SessionKey(uid, lc) in Reported(Run(t, es).hashes, ms)
       <==> ReportsOffline(Run(t, es), Swept(stamp), uid, lc)
  {
    var db, key := Run(t, es), SessionKey(uid, lc);
    ReportsInOrder(db.hashes, ms);
    ParseInverts(uid, lc);
    assert key in ms <==> key in Elems(ms);
  }

  /** User `n` has a session that the sweep takes offline, recorded with this value. */
  ghost predicate GoesOffline(db: Db, stamp: int, n: int, tv: string) {
    exists lc :: ReportsOffline(db, Swept(stamp), OfInt(n), lc) && HGet(db.hashes, IndexKey(OfInt(n)), lc) == Some(tv)
  }

  ghost predicate ReadsRight(db: Db, stamp: int, read: seq<(int, string)>) {
    forall n, tv :: IsInt64(n) ==> ((n, tv) in read <==> GoesOffline(db, stamp, n, tv))
  }

  lemma MemberOffline(t: int, es: seq<Event>, stamp: int, ms: seq<string>, m: string, n: int)
    requires AllProper(es) && Enumerates(ms, Due(Run(t, es), stamp))
    requires m in Reported(Run(t, es).hashes, ms) && UidOf(m) == OfInt(n)
    ensures IndexValue(Run(t, es).hashes, m).Some?
    ensures GoesOffline(Run(t, es), stamp, n, IndexValue(Run(t, es).hashes, m).value)
  {
    var db := Run(t, es);
    RunInv(t, es);
    ReportsInOrder(db.hashes, ms);
    NumberIsDotless(n);
    assert m in Elems(ms) && WellNamed(m);
    ReportedExactly(t, es, stamp, ms, OfInt(n), LcOf(m));
  }

  /** With user ids that are texts of 64-bit numbers, as OnlineCtrl sends them: the pairs read of
      a sweep are the users and values of the sessions taken offline if and only if the number of
      every session reported is a double. */
  lemma SweepReplyExact(t: int, es: seq<Event>, stamp: int, ms: seq<string>)
    requires AllProper(es) && Enumerates(ms, Due(Run(t, es), stamp))
    requires forall m :: m in Reported(Run(t, es).hashes, ms) ==> exists n :: IsInt64(n) && UidOf(m) == OfInt(n)
    ensures ReadsRight(Run(t, es), stamp, SweepRead(Run(t, es).hashes, ms))
       <==> forall m :: m in Reported(Run(t, es).hashes, ms) ==> Reportable(UidOf(m))
  {
    var db := Run(t, es);
    var r, read := Reported(db.hashes, ms), SweepRead(db.hashes, ms);
    if ReadsRight(db, stamp, read) {
      forall m | m in r
        ensures Reportable(UidOf(m))
      {
        var n :| IsInt64(n) && UidOf(m) == OfInt(n);
        MemberOffline(t, es, stamp, ms, m, n);
        OnlyDoublesRead(db.hashes, ms, n, IndexValue(db.hashes, m).value);
      }
    }
    if forall m :: m in r ==> Reportable(UidOf(m)) {
      forall n, tv | IsInt64(n)
        ensures (n, tv) in read <==> GoesOffline(db, stamp, n, tv)
      {
        ReadsOffline(t, es, stamp, ms, n, tv);
      }
    }
  }

  lemma OnlyDoublesRead(hashes: Hashes, ms: seq<string>, n: int, tv: string)
    requires Distinct(ms) && (n, tv) in SweepRead(hashes, ms)
    requires forall m :: m in Reported(hashes, ms) ==> exists k :: IsInt64(k) && UidOf(m) == OfInt(k)
    ensures Representable(n)
  {
    var r, read := Reported(hashes, ms), SweepRead(hashes, ms);
    forall m | m in r
      ensures LuaInt(UidOf(m)).Some?
    {
      var k :| IsInt64(k) && UidOf(m) == OfInt(k);
      ToNumberOfInt(k);
    }
    EachPair(hashes, ms);
    var i :| 0 <= i < |read| && read[i] == (n, tv);
    OnlyDoubles(UidOf(r[i]));
  }

  lemma ReadsOffline(t: int, es: seq<Event>, stamp: int, ms: seq<string>, n: int, tv: string)
    requires AllProper(es) && Enumerates(ms, Due(Run(t, es), stamp)) && IsInt64(n)
    requires forall m :: m in Reported(Run(t, es).hashes, ms) ==> Reportable(UidOf(m))
    ensures (n, tv) in SweepRead(Run(t, es).hashes, ms) <==> GoesOffline(Run(t, es), stamp, n, tv)
  {
    var db := Run(t, es);
    var r, read := Reported(db.hashes, ms), SweepRead(db.hashes, ms);
    ReportsOnce(db.hashes, ms);
    if (n, tv) in read {
      var i :| 0 <= i < |read| && read[i] == (n, tv);
      MemberOffline(t, es, stamp, ms, r[i], n);
    }
    if GoesOffline(db, stamp, n, tv) {
      var lc :| ReportsOffline(db, Swept(stamp), OfInt(n), lc) && HGet(db.hashes, IndexKey(OfInt(n)), lc) == Some(tv);
      NumberIsDotless(n);
      ReportedExactly(t, es, stamp, ms, OfInt(n), lc);
      ParseInverts(OfInt(n), lc);
      var i :| 0 <= i < |r| && r[i] == SessionKey(OfInt(n), lc);
      OfIntInjective(read[i].0, n);
      assert read[i] == (n, tv);
    }
  }

  // ----- get_multi -----

  /** The reply lists every live session of the queried uids with its fields, and every entry with
      fields is a live session. */
  lemma ListsLive(t: int, es: seq<Event>, uids: seq<string>, listed: seq<Line>, uid: string, lc: string)
    requires AllProper(es) && uid in uids && Dotless(uid)
    requires forall e :: e in listed <==> e.0 in uids && IsListed(Run(t, es).hashes, e)
    ensures Live(Run(t, es), uid, lc) ==> (uid, lc, Run(t, es).hashes[SessionKey(uid, lc)].fields) in listed
    ensures forall fields :: (uid, lc, fields) in listed && fields != map[] ==>
              Live(Run(t, es), uid, lc) && fields == Run(t, es).hashes[SessionKey(uid, lc)].fields
  {
    RunInv(t, es);
    assert SessionOk(Run(t, es), uid, lc);
    if Live(Run(t, es), uid, lc) {
      var e := (uid, lc, Run(t, es).hashes[SessionKey(uid, lc)].fields);
      assert e.0 in uids && IsListed(Run(t, es).hashes, e);
    }
  }

  /** After any run, OnlineCtrl reads a live session of a queried user under its own number if and
      only if that number is a double; if that holds for all queried users, it reads each with its
      fields, and what it reads with fields is live. */
  lemma GetMultiComplete(t: int, es: seq<Event>, uids: seq<string>, listed: seq<Line>, n: int, lc: string)
    requires AllProper(es) && IsInt64(n) && OfInt(n) in uids
    requires forall e :: e in listed <==> e.0 in uids && IsListed(Run(t, es).hashes, e)
    ensures var db, key, m := Run(t, es), SessionKey(OfInt(n), lc), ReadSessions(Entries(listed));
            && (Live(db, OfInt(n), lc) ==> ((n, lc) in m <==> Representable(n)))
            && ((forall uid :: uid in uids ==> Reportable(uid)) ==>
                  && (Live(db, OfInt(n), lc) ==> (n, lc) in m && m[(n, lc)] == db.hashes[key].fields)
                  && ((n, lc) in m && m[(n, lc)] != map[] ==>
                        Live(db, OfInt(n), lc) && m[(n, lc)] == db.hashes[key].fields))
  {
    NumberIsDotless(n);
    ListsLive(t, es, uids, listed, OfInt(n), lc);
    SessionKeys(Entries(listed), n, lc);
    if Live(Run(t, es), OfInt(n), lc) {
      LiveIsRead(listed, n, lc, Run(t, es).hashes[SessionKey(OfInt(n), lc)].fields);
    }
    if forall uid :: uid in uids ==> Reportable(uid) {
      ReadIsLive(Run(t, es).hashes, uids, listed, n, lc);
      assert Reportable(OfInt(n));
      var k :| IsInt64(k) && Representable(k) && OfInt(n) == OfInt(k);
      OfIntInjective(n, k);
    }
  }

  lemma LiveIsRead(listed: seq<Line>, n: int, lc: string, fields: map<string, string>)
    requires IsInt64(n) && (OfInt(n), lc, fields) in listed
    ensures Has(Entries(listed), n, lc) <==> Representable(n)
  {
    var rv := Entries(listed);
    ComesBack(n);
    var i :| 0 <= i < |listed| && listed[i] == (OfInt(n), lc, fields);
    assert rv[i] == EntryOf(listed[i]);
    if Has(rv, n, lc) {
      var j :| 0 <= j < |rv| && rv[j].uid == Some(n) && rv[j].lc == lc;
      OnlyDoubles(listed[j].0);
    }
  }

  lemma ReadIsLive(hashes: Hashes, uids: seq<string>, listed: seq<Line>, n: int, lc: string)
    requires forall uid :: uid in uids ==> Reportable(uid)
    requires forall e :: e in listed <==> e.0 in uids && IsListed(hashes, e)
    ensures var key, m := SessionKey(OfInt(n), lc), ReadSessions(Entries(listed));
            (n, lc) in m ==> m[(n, lc)] == if key in hashes then hashes[key].fields else map[]
  {
    var rv, key := Entries(listed), SessionKey(OfInt(n), lc);
    var fields := if key in hashes then hashes[key].fields else map[];
    forall i | 0 <= i < |rv| && rv[i].uid == Some(n) && rv[i].lc == lc
      ensures rv[i].fields == fields
    {
      var e := listed[i];
      assert rv[i] == EntryOf(e) && e in listed && Reportable(e.0);
      NamedExactly(e.0);
      assert IsListed(hashes, e);
    }
    SessionsRead(rv, n, lc, fields);
  }
}

/** Replies of the session scripts on the wire, and how OnlineCtrl reads them. */
module OnlineReply {
  import opened Options
  import opened Decimal
  import opened LuaNumber

  /** An element of a Lua list in a reply. */
  datatype Elem = Num(n: int) | Text(s: string)

  /** A report of timeout_rm.lua: tonumber of the user id, and the index value. */
  type Told = (Option<int>, string)

  function ToldOf(report: (string, string)): Told { (LuaInt(report.0), report.1) }

  function AllTold(reports: seq<(string, string)>): seq<Told> {
    seq(|reports|, i requires 0 <= i < |reports| => ToldOf(reports[i]))
  }

  /** Appending a number to a Lua list; nil appends nothing. */
  function NumElem(n: Option<int>): seq<Elem> { if n.Some? then [Num(n.value)] else [] }

  /** The flat list of timeout_rm.lua. */
  function Wire(told: seq<Told>): seq<Elem> {
    if told == [] then []
    else
      var last := told[|told| - 1];
      Wire(told[..|told| - 1]) + NumElem(last.0) + [Text(last.1)]
  }

  /** The reply with one more report. */
  lemma OneMoreReport(reports: seq<(string, string)>, uid: string, tv: string)
    ensures Wire(AllTold(reports + [(uid, tv)])) == Wire(AllTold(reports)) + NumElem(LuaInt(uid)) + [Text(tv)]
  {
    var told := AllTold(reports + [(uid, tv)]);
    assert told[..|told| - 1] == AllTold(reports);
  }

  /** One session that get_multi.lua lists: user id, client, and what its hash holds. */
  type Line = (string, string, map<string, string>)

  /** One entry of the reply of get_multi.lua: three elements, or two without the first. */
  datatype Entry = Entry(uid: Option<int>, lc: string, fields: map<string, string>)

  function EntryOf(e: Line): Entry { Entry(LuaInt(e.0), e.1, e.2) }

  function Entries(listed: seq<Line>): seq<Entry> {
    seq(|listed|, i requires 0 <= i < |listed| => EntryOf(listed[i]))
  }

  // ----- OnlineCtrl::timeout_rm -----

  predicate IsPair(x: Elem, y: Elem) { x.Num? && y.Text? }

  /** The pairs in a list of even length; other neighbours are skipped. */
  function PairsOf(es: seq<Elem>): seq<(int, string)> {
    if |es| < 2 then []
    else
      var m := |es| - 2;
      PairsOf(es[..m]) + if IsPair(es[m], es[m + 1]) then [(es[m].n, es[m + 1].s)] else []
  }

  /** A list of odd length is refused as a whole. */
  function ReadPairs(es: seq<Elem>): seq<(int, string)> { if |es| % 2 != 0 then [] else PairsOf(es) }

  method TimeoutPairs(es: seq<Elem>) returns (rvs: seq<(int, string)>)
    ensures rvs == ReadPairs(es)
  {
    rvs := [];
    if |es| % 2 != 0 { return; }
    var i := 0;
    while i < |es|
      invariant 0 <= i <= |es| && i % 2 == 0 && rvs == PairsOf(es[..i])
    {
      assert es[..i + 2][..i] == es[..i];
      if es[i].Num? && es[i + 1].Text? {
        rvs := rvs + [(es[i].n, es[i + 1].s)];
      }
      i := i + 2;
    }
    assert es[..i] == es;
  }

  // ----- what it reads of the reports -----

  predicate AllNumbers(told: seq<Told>) { forall i :: 0 <= i < |told| ==> told[i].0.Some? }

  lemma {:induction false} NumbersRead(told: seq<Told>)
    requires AllNumbers(told)
    ensures |Wire(told)| == 2 * |told| && |PairsOf(Wire(told))| == |told|
    ensures forall i :: 0 <= i < |told| ==> PairsOf(Wire(told))[i] == (told[i].0.value, told[i].1)
  {
    if told != [] {
      var m := |told| - 1;
      var front, last, es := told[..m], told[m], Wire(told);
      NumbersRead(front);
      assert es == Wire(front) + [Num(last.0.value), Text(last.1)];
      assert es[..|es| - 2] == Wire(front);
    }
  }

  function Numbers(es: seq<Elem>): nat {
    if es == [] then 0 else Numbers(es[..|es| - 1]) + if es[|es| - 1].Num? then 1 else 0
  }

  lemma {:induction false} PairsNeedNumbers(es: seq<Elem>)
    ensures |PairsOf(es)| <= Numbers(es)
  {
    if |es| >= 2 {
      var m := |es| - 2;
      PairsNeedNumbers(es[..m]);
      assert es[..m + 1][..m] == es[..m] && es[..|es| - 1] == es[..m + 1];
    }
  }

  lemma NumbersMore(es: seq<Elem>, e: Elem)
    ensures Numbers(es + [e]) == Numbers(es) + if e.Num? then 1 else 0
  {
    assert (es + [e])[..|es|] == es;
  }

  lemma WireMore(front: seq<Told>, last: Told)
    ensures Wire(front + [last]) == Wire(front) + NumElem(last.0) + [Text(last.1)]
    ensures Numbers(Wire(front + [last])) == Numbers(Wire(front)) + if last.0.Some? then 1 else 0
  {
    assert (front + [last])[..|front|] == front;
    var es := Wire(front) + NumElem(last.0);
    match last.0
    case None => assert es == Wire(front);
    case Some(n) => NumbersMore(Wire(front), Num(n));
    NumbersMore(es, Text(last.1));
  }

  lemma {:induction false} WireNumbers(told: seq<Told>)
    ensures Numbers(Wire(told)) <= |told|
    ensures Numbers(Wire(told)) == |told| ==> AllNumbers(told)
  {
    if told != [] {
      var m := |told| - 1;
      var front, last := told[..m], told[m];
      WireNumbers(front);
      WireMore(front, last);
      assert told == front + [last];
    }
  }

  lemma EvenIsRead(es: seq<Elem>, n: nat)
    requires |es| == 2 * n
    ensures ReadPairs(es) == PairsOf(es)
  {
  }

  lemma OddIsRefused(es: seq<Elem>, n: nat)
    requires |es| == 2 * n - 1
    ensures ReadPairs(es) == []
  {
  }

  /** All reports are read if and only if all have a number. */
  lemma AllAreRead(told: seq<Told>)
    ensures |ReadPairs(Wire(told))| == |told| <==> AllNumbers(told)
    ensures AllNumbers(told) ==> ReadPairs(Wire(told)) == PairsOf(Wire(told))
  {
    if AllNumbers(told) {
      NumbersRead(told);
      EvenIsRead(Wire(told), |told|);
    } else {
      PairsNeedNumbers(Wire(told));
      WireNumbers(told);
    }
  }

  /** The i-th pair read is the i-th report: the text of its number is the user id. */
  ghost predicate ReadsReports(pairs: seq<(int, string)>, reports: seq<(string, string)>) {
    && |pairs| == |reports|
    && forall i :: 0 <= i < |reports| ==> OfInt(pairs[i].0) == reports[i].0 && pairs[i].1 == reports[i].1
  }

  ghost predicate AllReportable(reports: seq<(string, string)>) {
    forall i :: 0 <= i < |reports| ==> Reportable(reports[i].0)
  }

  /** OnlineCtrl reads the reports of a sweep as they were made if and only if each user id is
      the text of a 64-bit number that is a double. */
  lemma ReadExactly(reports: seq<(string, string)>)
    ensures ReadsReports(ReadPairs(Wire(AllTold(reports))), reports) <==> AllReportable(reports)
  {
    var told := AllTold(reports);
    AllAreRead(told);
    forall i | 0 <= i < |reports|
      ensures told[i].0.Some? && OfInt(told[i].0.value) == reports[i].0 <==> Reportable(reports[i].0)
    {
      NamedExactly(reports[i].0);
    }
    if AllNumbers(told) { NumbersRead(told); }
    if AllReportable(reports) {
      forall i | 0 <= i < |told|
        ensures told[i].0.Some?
      {
        assert Reportable(reports[i].0);
      }
    }
  }

  /** With numbers for all, each report is read as one pair, under the right user id exactly if
      that id is the text of a 64-bit number that is a double. */
  lemma EachReport(reports: seq<(string, string)>)
    requires AllNumbers(AllTold(reports))
    ensures var read := ReadPairs(Wire(AllTold(reports)));
            && |read| == |reports|
            && forall i :: 0 <= i < |reports| ==>
                 && LuaInt(reports[i].0) == Some(read[i].0) && read[i].1 == reports[i].1
                 && (OfInt(read[i].0) == reports[i].0 <==> Reportable(reports[i].0))
  {
    var told := AllTold(reports);
    NumbersRead(told);
    EvenIsRead(Wire(told), |told|);
    forall i | 0 <= i < |reports|
      ensures told[i] == ToldOf(reports[i])
      ensures told[i].0.Some? && OfInt(told[i].0.value) == reports[i].0 <==> Reportable(reports[i].0)
    {
      NamedExactly(reports[i].0);
    }
  }

  /** A user id that is no numeral shifts the list: alone it makes the list odd, and nothing of
      the sweep is read. */
  lemma OneNonNumeral(told: seq<Told>, k: nat)
    requires k < |told| && told[k].0.None? && forall i :: 0 <= i < |told| && i != k ==> told[i].0.Some?
    ensures ReadPairs(Wire(told)) == []
  {
    WireLength(told, k);
    OddIsRefused(Wire(told), |told|);
  }

  lemma {:induction false} WireLength(told: seq<Told>, k: nat)
    requires k < |told| && told[k].0.None? && forall i :: 0 <= i < |told| && i != k ==> told[i].0.Some?
    ensures |Wire(told)| == 2 * |told| - 1
  {
    var m := |told| - 1;
    if k < m { WireLength(told[..m], k); } else { NumbersRead(told[..m]); }
  }

  // ----- OnlineCtrl::one_uid_session -----

  type Sessions = map<(int, string), map<string, string>>

  /** Entries without a number are refused; a later entry adds to an earlier one. */
  function ReadSessions(rv: seq<Entry>): Sessions {
    if rv == [] then map[] else WithEntry(ReadSessions(rv[..|rv| - 1]), rv[|rv| - 1])
  }

  function WithEntry(m: Sessions, e: Entry): Sessions {
    match e.uid
    case None => m
    case Some(n) => m[(n, e.lc) := (if (n, e.lc) in m then m[(n, e.lc)] else map[]) + e.fields]
  }

  method MultiSessions(rv: seq<Entry>) returns (m: Sessions)
    ensures m == ReadSessions(rv)
  {
    m := map[];
    var i := 0;
    while i < |rv|
      invariant 0 <= i <= |rv| && m == ReadSessions(rv[..i])
    {
      assert rv[..i + 1][..i] == rv[..i];
      m := OneUidSession(m, rv[i]);
      i := i + 1;
    }
    assert rv[..i] == rv;
  }

  method OneUidSession(m: Sessions, e: Entry) returns (m': Sessions)
    ensures m' == WithEntry(m, e)
  {
    m' := m;
    match e.uid
    case None =>
    case Some(n) =>
      var sessions := if (n, e.lc) in m then m[(n, e.lc)] else map[];
      m' := m[(n, e.lc) := sessions + e.fields];
  }

  ghost predicate Has(rv: seq<Entry>, n: int, lc: string) {
    exists i :: 0 <= i < |rv| && rv[i].uid == Some(n) && rv[i].lc == lc
  }

  lemma HasMore(rv: seq<Entry>, e: Entry, n: int, lc: string)
    ensures Has(rv + [e], n, lc) <==> Has(rv, n, lc) || (e.uid == Some(n) && e.lc == lc)
  {
    var more := rv + [e];
    if Has(rv, n, lc) {
      var i :| 0 <= i < |rv| && rv[i].uid == Some(n) && rv[i].lc == lc;
      assert more[i] == rv[i];
    }
    assert more[|rv|] == e;
  }

  /** A session is read exactly under the numbers of the entries that name it. */
  lemma {:induction false} SessionKeys(rv: seq<Entry>, n: int, lc: string)
    ensures (n, lc) in ReadSessions(rv) <==> Has(rv, n, lc)
  {
    if rv != [] {
      var m := |rv| - 1;
      SessionKeys(rv[..m], n, lc);
      HasMore(rv[..m], rv[m], n, lc);
      assert rv == rv[..m] + [rv[m]];
    }
  }

  /** What is read under a key to which all entries say the same. */
  lemma {:induction false} SessionsRead(rv: seq<Entry>, n: int, lc: string, fields: map<string, string>)
    requires forall i :: 0 <= i < |rv| && rv[i].uid == Some(n) && rv[i].lc == lc ==> rv[i].fields == fields
    ensures (n, lc) in ReadSessions(rv) ==> ReadSessions(rv)[(n, lc)] == fields
  {
    if rv != [] {
      SessionsRead(rv[..|rv| - 1], n, lc, fields);
      assert fields + fields == fields && map[] + fields == fields;
    }
  }

  lemma OneEntry(e: Entry)
    ensures ReadSessions([e]) == WithEntry(map[], e)
  {
    assert [e][..0] == [];
  }

  lemma TwoEntries(e: Entry, e': Entry)
    ensures ReadSessions([e, e']) == WithEntry(WithEntry(map[], e), e')
  {
    OneEntry(e);
    assert [e, e'][..1] == [e];
  }

  lemma SameKeyTwice(n: int, lc: string, one: map<string, string>, other: map<string, string>)
    ensures WithEntry(WithEntry(map[], Entry(Some(n), lc, one)), Entry(Some(n), lc, other))
         == map[(n, lc) := one + other]
  {
    assert map[] + one == one;
  }

  /** Two sessions come out as one if their users have one number in the reply, as 2^53 and
      2^53 + 1 have. */
  lemma TwoUsersAlike(uid: string, uid': string, lc: string, one: map<string, string>, other: map<string, string>)
    requires LuaInt(uid).Some? && LuaInt(uid') == LuaInt(uid)
    ensures ReadSessions(Entries([(uid, lc, one), (uid', lc, other)])) == map[(LuaInt(uid).value, lc) := one + other]
  {
    var e, e' := EntryOf((uid, lc, one)), EntryOf((uid', lc, other));
    assert Entries([(uid, lc, one), (uid', lc, other)]) == [e, e'];
    TwoEntries(e, e');
    SameKeyTwice(LuaInt(uid).value, lc, one, other);
  }
}

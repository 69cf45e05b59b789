/** The Lua scripts of the session store, as steps over one Redis database. */
module SessionScripts {
  import opened Options
  import opened RedisDb
  import opened Sequences
  import opened WriteStat
  import Decimal
  import opened LuaNumber
  import opened OnlineReply

  const GATE := "GATE"
  const CV := "CV"

  /** The arguments of syn.lua and upidx.lua that the scripts read. */
  datatype Binding = Binding(uid: string, lc: string, sid: string, gate: string, ct: int, cv: string,
                             ext: seq<(string, string)>)

  predicate Dotless(s: string) { '.' !in s }

  function IndexKey(uid: string): string { "U." + uid }

  function SessionKey(uid: string, lc: string): string { "L." + uid + "." + lc }

  // ----- key parsing of timeout_rm.lua -----

  /** Position of the first '.' of `s` at or after `from`, or |s|. */
  function FindDot(s: string, from: nat): (p: nat)
    requires from <= |s|
    ensures from <= p <= |s|
    ensures forall i :: from <= i < p ==> s[i] != '.'
    ensures p < |s| ==> s[p] == '.'
    decreases |s| - from
  {
    if from == |s| || s[from] == '.' then from else FindDot(s, from + 1)
  }

  function UidOf(key: string): string {
    if |key| < 2 then "" else key[2..FindDot(key, 2)]
  }

  function LcOf(key: string): string {
    if |key| < 2 then "" else
      var p := FindDot(key, 2);
      if p == |key| then "" else key[p + 1..]
  }

  /** A member of DLY_CK that fin_delay.lua could have written. */
  predicate WellNamed(key: string) {
    key == SessionKey(UidOf(key), LcOf(key))
  }

  /** timeout_rm's parsing inverts the key of a session exactly for the uids
      without a dot. */
  lemma ParseInverts(uid: string, lc: string)
    ensures Dotless(uid) <==> (UidOf(SessionKey(uid, lc)) == uid && LcOf(SessionKey(uid, lc)) == lc)
    ensures WellNamed(SessionKey(uid, lc))
  {
    var key := SessionKey(uid, lc);
    var p := FindDot(key, 2);
    SessionKeyParts(uid, lc);
    assert p <= 2 + |uid|;
    KeyFromParts(key);
    if Dotless(uid) {
      assert forall i :: 2 <= i < 2 + |uid| ==> key[i] == uid[i - 2];
    } else {
      var i :| 0 <= i < |uid| && uid[i] == '.';
      assert key[2 + i] == '.';
    }
  }

  lemma SessionKeyParts(uid: string, lc: string)
    ensures var key := SessionKey(uid, lc);
            && |key| == 3 + |uid| + |lc|
            && key[..2] == "L."
            && key[2..2 + |uid|] == uid
            && key[2 + |uid|] == '.'
            && key[2 + |uid| + 1..] == lc
            && forall i :: 0 <= i < |uid| ==> key[2 + i] == uid[i]
  {
  }

  lemma KeyFromParts(key: string)
    requires |key| >= 2 && key[..2] == "L." && FindDot(key, 2) < |key|
    ensures WellNamed(key)
  {
    KeyInPieces(key, FindDot(key, 2));
  }

  lemma KeyInPieces(key: string, p: nat)
    requires 2 <= p < |key| && key[..2] == "L." && key[p] == '.'
    ensures key == SessionKey(key[2..p], key[p + 1..])
  {
    assert key == key[..2] + key[2..p] + [key[p]] + key[p + 1..];
    assert "." == [key[p]];
  }

  lemma SessionKeyInjective(uid: string, lc: string, uid': string, lc': string)
    requires Dotless(uid) && Dotless(uid')
    requires SessionKey(uid, lc) == SessionKey(uid', lc')
    ensures uid == uid' && lc == lc'
  {
    ParseInverts(uid, lc);
    ParseInverts(uid', lc');
  }

  lemma KeysDisjoint(uid: string, uid': string, lc: string)
    ensures IndexKey(uid) != SessionKey(uid', lc)
    ensures IndexKey(uid) == IndexKey(uid') ==> uid == uid'
  {
    assert IndexKey(uid)[0] == 'U' && SessionKey(uid', lc)[0] == 'L';
    assert IndexKey(uid)[2..] == uid && IndexKey(uid')[2..] == uid';
  }

  // ----- what each script does, as a function -----

  /** Time to live in seconds granted to a client type. */
  function Lease(ct: int): int {
    if 100 <= ct < 200 then 600
    else if 200 <= ct < 300 then 600
    else if 0 <= ct < 100 then 1200
    else if ct == 100000 then 60
    else 600
  }

  function Max(a: int, b: int): int { if a < b then b else a }

  /** The fields of the index of `uid` that still have a session. */
  function LiveFields(hashes: Hashes, uid: string): map<string, string> {
    if IndexKey(uid) in hashes
    then map v | v in hashes[IndexKey(uid)].fields && SessionKey(uid, v) in hashes :: hashes[IndexKey(uid)].fields[v]
    else map[]
  }

  /** What HMSET writes into the session. */
  function Reserved(b: Binding): seq<(string, string)> {
    [("SID", "0"), ("RID", b.sid), (GATE, b.gate), ("CT", Decimal.OfInt(b.ct))]
  }

  function SessionBase(was: map<string, string>, b: Binding): map<string, string> {
    var base := Put(was, Reserved(b));
    if CV in base then base else base[CV := b.cv]
  }

  function SessionFields(was: map<string, string>, b: Binding): map<string, string> {
    Put(SessionBase(was, b), b.ext)
  }

  function SessionSoFar(hashes: Hashes, b: Binding): map<string, string> {
    var key := SessionKey(b.uid, b.lc);
    if key in hashes then hashes[key].fields else map[]
  }

  /** What the index records for a session: client type and version. */
  function Label(b: Binding): string {
    Decimal.OfInt(b.ct) + ";" + b.cv
  }

  /** `hashes` after HMSET, HSETNX and the extension loop on the session. */
  function WithSession(hashes: Hashes, b: Binding): Hashes {
    var key := SessionKey(b.uid, b.lc);
    hashes[key := Hash(SessionFields(SessionSoFar(hashes, b), b), if key in hashes then hashes[key].expiry else Never)]
  }

  function WithFields(hashes: Hashes, key: string, fields: map<string, string>): Hashes
    requires key in hashes
  {
    hashes[key := hashes[key].(fields := fields)]
  }

  /** HMSET and HSETNX on the session. */
  lemma BaseWritten(hashes: Hashes, b: Binding)
    ensures var key := SessionKey(b.uid, b.lc);
            HSetNX(HMSet(hashes, key, Reserved(b)), key, CV, b.cv) ==
              hashes[key := Hash(SessionBase(SessionSoFar(hashes, b), b),
                                 if key in hashes then hashes[key].expiry else Never)]
  {
  }

  /** syn.lua and upidx.lua. */
  function Bind(db: Db, b: Binding): Db {
    var index, key := IndexKey(b.uid), SessionKey(b.uid, b.lc);
    var live := LiveFields(db.hashes, b.uid);
    var end := db.now + Lease(b.ct);
    var indexHash := Hash(
      if b.lc in live then live else live[b.lc := Label(b)],
      At(if live != map[] && db.hashes[index].expiry.At? then Max(db.hashes[index].expiry.stamp, end) else end));
    var sessionHash := Hash(
      SessionFields(SessionSoFar(db.hashes, b), b),
      At(end));
    Db(db.now, db.hashes[index := indexHash][key := sessionHash], db.delays - {key})
  }

  /** fin_delay.lua. */
  function Schedule(db: Db, uid: string, lc: string, gate: string, deadline: int): Db {
    var key := SessionKey(uid, lc);
    if HGet(db.hashes, key, GATE) == Some(gate)
    then db.(hashes := HSet(db.hashes, key, GATE, ""), delays := db.delays[key := deadline])
    else db
  }

  /** fin.lua. */
  function Finish(db: Db, uid: string, lc: string): Db {
    var key := SessionKey(uid, lc);
    db.(hashes := HDel(db.hashes, IndexKey(uid), lc) - {key}, delays := db.delays - {key})
  }

  /** `hashes` after every session key in `gone` has been taken out of its index. */
  predicate Unindexed(gone: set<string>, key: string, field: string) {
    exists m | m in gone :: key == IndexKey(UidOf(m)) && field == LcOf(m)
  }

  function Left(hashes: Hashes, gone: set<string>, key: string): map<string, string>
    requires key in hashes
  {
    map v | v in hashes[key].fields && !Unindexed(gone, key, v) :: hashes[key].fields[v]
  }

  function Unindex(hashes: Hashes, gone: set<string>): Hashes {
    map k | k in hashes && Left(hashes, gone, k) != map[] :: Hash(Left(hashes, gone, k), hashes[k].expiry)
  }

  /** timeout_rm.lua. */
  function Sweep(db: Db, stamp: int): Db {
    var due := Due(db, stamp);
    Db(db.now, Unindex(db.hashes - due, due), db.delays - due)
  }

  /** The reply of timeout_rm.lua for due members in the order `ms`. */
  function Reports(hashes: Hashes, ms: seq<string>): seq<(string, string)> {
    if ms == [] then []
    else
      var m := ms[|ms| - 1];
      var tv := HGet(hashes, IndexKey(UidOf(m)), LcOf(m));
      Reports(hashes, ms[..|ms| - 1]) + if tv.Some? then [(UidOf(m), tv.value)] else []
  }

  /** The reply of get_multi.lua for one uid whose index lists `lcs` in that order. */
  function Listing(hashes: Hashes, uid: string, lcs: seq<string>): seq<Line> {
    seq(|lcs|, i requires 0 <= i < |lcs| =>
      var key := SessionKey(uid, lcs[i]);
      (uid, lcs[i], if key in hashes then hashes[key].fields else map[]))
  }

  // ----- lemmas about the loops -----

  /** `s` lists the elements of `xs` once each. */
  ghost predicate Enumerates(s: seq<string>, xs: set<string>) {
    Distinct(s) && Elems(s) == xs
  }

  lemma UnindexEffect(hashes: Hashes, gone: set<string>)
    ensures NoEmptyHash(Unindex(hashes, gone))
    ensures forall k, f :: HGet(Unindex(hashes, gone), k, f)
                           == if Unindexed(gone, k, f) then None else HGet(hashes, k, f)
    ensures forall k :: k in Unindex(hashes, gone) ==>
                        k in hashes && Unindex(hashes, gone)[k].expiry == hashes[k].expiry
  {
    var h := Unindex(hashes, gone);
    forall k, f
      ensures HGet(h, k, f) == if Unindexed(gone, k, f) then None else HGet(hashes, k, f)
    {
      if k in hashes && f in hashes[k].fields && !Unindexed(gone, k, f) {
        assert f in Left(hashes, gone, k);
      }
    }
  }

  lemma UnindexNone(hashes: Hashes)
    requires NoEmptyHash(hashes)
    ensures Unindex(hashes, {}) == hashes
  {
    UnindexEffect(hashes, {});
    SameHashes(hashes, Unindex(hashes, {}));
  }

  lemma UnindexOne(hashes: Hashes, gone: set<string>, m: string)
    ensures Unindex(hashes, gone + {m}) == HDel(Unindex(hashes, gone), IndexKey(UidOf(m)), LcOf(m))
  {
    var h, h' := Unindex(hashes, gone), Unindex(hashes, gone + {m});
    var key, field := IndexKey(UidOf(m)), LcOf(m);
    UnindexEffect(hashes, gone);
    UnindexEffect(hashes, gone + {m});
    HDelEffect(h, key, field);
    forall k, f
      ensures HGet(h', k, f) == HGet(HDel(h, key, field), k, f)
    {
      UnindexedOne(gone, m, k, f);
    }
    SameHashes(h', HDel(h, key, field));
  }

  lemma UnindexedOne(gone: set<string>, m: string, k: string, f: string)
    ensures Unindexed(gone + {m}, k, f) <==> Unindexed(gone, k, f) || (k == IndexKey(UidOf(m)) && f == LcOf(m))
  {
  }

  lemma ElemsAppend(s: seq<string>, x: string)
    ensures Elems(s + [x]) == Elems(s) + {x}
  {
  }

  lemma ElemsPrefix(s: seq<string>, i: nat)
    requires i < |s|
    ensures Elems(s[..i + 1]) == Elems(s[..i]) + {s[i]}
  {
    assert s[..i + 1] == s[..i] + [s[i]];
  }

  /** `hashes` with `fields` as the index of `uid`. */
  ghost function WithIndex(hashes: Hashes, uid: string, fields: map<string, string>): Hashes {
    if fields == map[] || IndexKey(uid) !in hashes then hashes - {IndexKey(uid)}
    else hashes[IndexKey(uid) := hashes[IndexKey(uid)].(fields := fields)]
  }

  ghost predicate Dropped(hashes: Hashes, uid: string, lcs: seq<string>, f: string) {
    f in lcs && SessionKey(uid, f) !in hashes
  }

  /** `h` is `h0` after the cleanup loop has looked at `lcs`. */
  ghost predicate Cleaned(h0: Hashes, h: Hashes, uid: string, lcs: seq<string>) {
    && NoEmptyHash(h)
    && (forall k :: k in h ==> k in h0 && h[k].expiry == h0[k].expiry)
    && (forall k :: k in h0 && k != IndexKey(uid) ==> k in h)
    && (forall k, f :: HGet(h, k, f) == if k == IndexKey(uid) && Dropped(h0, uid, lcs, f) then None else HGet(h0, k, f))
  }

  lemma CleanupStep(h0: Hashes, h: Hashes, uid: string, lcs: seq<string>, i: nat)
    requires i < |lcs| && Cleaned(h0, h, uid, lcs[..i])
    ensures Cleaned(h0, if SessionKey(uid, lcs[i]) in h then h else HDel(h, IndexKey(uid), lcs[i]), uid, lcs[..i + 1])
  {
    KeysDisjoint(uid, uid, lcs[i]);
    HDelEffect(h, IndexKey(uid), lcs[i]);
    forall f
      ensures Dropped(h0, uid, lcs[..i + 1], f)
         <==> Dropped(h0, uid, lcs[..i], f) || (f == lcs[i] && SessionKey(uid, lcs[i]) !in h)
    {
      assert lcs[..i + 1] == lcs[..i] + [lcs[i]];
      assert SessionKey(uid, lcs[i]) in h <==> SessionKey(uid, lcs[i]) in h0;
    }
  }

  lemma CleanupDone(h0: Hashes, h: Hashes, uid: string, lcs: seq<string>)
    requires NoEmptyHash(h0) && Cleaned(h0, h, uid, lcs)
    requires Elems(lcs) == if IndexKey(uid) in h0 then h0[IndexKey(uid)].fields.Keys else {}
    ensures h == WithIndex(h0, uid, LiveFields(h0, uid))
  {
    var after := WithIndex(h0, uid, LiveFields(h0, uid));
    forall k, f
      ensures HGet(h, k, f) == HGet(after, k, f)
    {
      assert f in lcs <==> f in Elems(lcs);
      if k == IndexKey(uid) && k in h0 {
        assert f in LiveFields(h0, uid) <==> f in h0[k].fields && SessionKey(uid, f) in h0;
      }
    }
    SameHashes(h, after);
  }

  lemma BindKeepsValid(db: Db, b: Binding)
    requires NoEmptyHash(db.hashes)
    ensures NoEmptyHash(Bind(db, b).hashes)
  {
    var live := LiveFields(db.hashes, b.uid);
    var fields := if b.lc in live then live else live[b.lc := Label(b)];
    assert b.lc in fields;
    var was := SessionSoFar(db.hashes, b);
    PutEffect(SessionBase(was, b), b.ext, CV);
    assert CV in SessionFields(was, b);
  }

  /** The two EXPIRE commands of syn.lua, on a database where the index and the
      session have been written, amount to Bind. */
  lemma BindInSteps(db: Db, written: Db, b: Binding)
    requires written.now == db.now && written.delays == db.delays
    requires written.hashes == WithSession(HSetNX(WithIndex(db.hashes, b.uid, LiveFields(db.hashes, b.uid)),
                                                  IndexKey(b.uid), b.lc, Label(b)), b)
    ensures var key, index, ep := SessionKey(b.uid, b.lc), IndexKey(b.uid), Lease(b.ct);
            var db1 := Expire(written, key, ep);
            var db2 := if Ttl(db1, index) < ep then Expire(db1, index, ep) else db1;
            db2.(delays := db2.delays - {key}) == Bind(db, b)
  {
    var index, key, live := IndexKey(b.uid), SessionKey(b.uid, b.lc), LiveFields(db.hashes, b.uid);
    KeysDisjoint(b.uid, b.uid, b.lc);
    var h0 := HSetNX(WithIndex(db.hashes, b.uid, live), index, b.lc, Label(b));
    IndexWritten(db.hashes, index, live, b.lc, Label(b));
    SoFarUnaffected(db.hashes, h0, b);
    var ep := Lease(b.ct);
    LeasesRenewed(db, h0, written, index, key, ep);
    SecondWriteWins(db.hashes, index, h0[index],
                    Hash(h0[index].fields,
                         At(if h0[index].expiry.At? then Max(h0[index].expiry.stamp, db.now + ep) else db.now + ep)));
  }

  lemma SecondWriteWins(hashes: Hashes, key: string, first: Hash, second: Hash)
    ensures hashes[key := first][key := second] == hashes[key := second]
  {
  }

  lemma SoFarUnaffected(hashes: Hashes, hashes': Hashes, b: Binding)
    requires SessionKey(b.uid, b.lc) in hashes <==> SessionKey(b.uid, b.lc) in hashes'
    requires SessionKey(b.uid, b.lc) in hashes ==> hashes[SessionKey(b.uid, b.lc)] == hashes'[SessionKey(b.uid, b.lc)]
    ensures SessionSoFar(hashes', b) == SessionSoFar(hashes, b)
  {
  }

  /** HSETNX on a cleaned index: the live fields and the new one; the old expiry
      survives only if some session of the uid is live. */
  lemma IndexWritten(hashes: Hashes, index: string, live: map<string, string>, lc: string, text: string)
    requires live != map[] ==> index in hashes
    ensures var cleaned := if live == map[] || index !in hashes then hashes - {index}
                           else hashes[index := hashes[index].(fields := live)];
            HSetNX(cleaned, index, lc, text) ==
             hashes[index := Hash(if lc in live then live else live[lc := text],
                                 if live == map[] then Never else hashes[index].expiry)]
  {
  }

  lemma LeasesRenewed(db: Db, h0: Hashes, written: Db, index: string, key: string, ep: int)
    requires written.now == db.now && ep > 0 && index != key
    requires index in h0 && key in written.hashes && written.hashes == h0[key := written.hashes[key]]
    ensures var db1 := Expire(written, key, ep);
            var db2 := if Ttl(db1, index) < ep then Expire(db1, index, ep) else db1;
            && db2.now == db.now && db2.delays == written.delays
            && db2.hashes == h0[index := Hash(h0[index].fields,
                                              At(if h0[index].expiry.At? then
                                                  Max(h0[index].expiry.stamp, db.now + ep) else db.now + ep))]
                               [key := Hash(written.hashes[key].fields, At(db.now + ep))]
  {
  }

  // ----- the scripts -----

  class SessionStore {
    var db: Db
    /** The sorted set RANK_W. */
    var rank: Rank

    ghost predicate Valid()
      reads this
    {
      && NoEmptyHash(db.hashes)
      && (forall m :: m in db.delays ==> WellNamed(m))
    }

    constructor (now: int)
      ensures Valid() && db == Db(now, map[], map[]) && rank == map[]
    {
      db, rank := Db(now, map[], map[]), map[];
    }

    /** The write statistic at the end of syn.lua, upidx.lua and fin.lua and at the start of
        fin_delay.lua. */
    method CountWrite(uid: string)
      modifies this`rank
      ensures rank == Written(old(rank), uid)
    {
      rank := ZIncrBy(rank, uid, 1);
      var cn := |rank|;
      if cn > RANK_LIMIT {
        rank := ZRemRangeByRank(rank, cn - RANK_LIMIT);
      }
    }

    /** HKEYS: the field names in some order. */
    method HKeys(key: string) returns (names: seq<string>)
      ensures Enumerates(names, if key in db.hashes then db.hashes[key].fields.Keys else {})
    {
      names := [];
      var todo := if key in db.hashes then db.hashes[key].fields.Keys else {};
      ghost var all := todo;
      while todo != {}
        invariant todo <= all && Enumerates(names, all - todo)
      {
        var v :| v in todo;
        assert v !in Elems(names);
        ElemsAppend(names, v);
        names, todo := names + [v], todo - {v};
      }
    }

    /** ZRANGEBYSCORE DLY_CK -inf stamp: the due members, lowest score first. */
    method RangeByScore(stamp: int) returns (ms: seq<string>)
      ensures Enumerates(ms, Due(db, stamp))
      ensures forall i, j :: 0 <= i < j < |ms| ==>
                ms[i] in db.delays && ms[j] in db.delays && db.delays[ms[i]] <= db.delays[ms[j]]
    {
      ms := [];
      var todo := Due(db, stamp);
      while todo != {}
        invariant todo <= Due(db, stamp) && Enumerates(ms, Due(db, stamp) - todo)
        invariant forall x :: x in ms ==> x in db.delays
        invariant forall x, y :: x in ms && y in todo ==> db.delays[x] <= db.delays[y]
        invariant forall i, j :: 0 <= i < j < |ms| ==> db.delays[ms[i]] <= db.delays[ms[j]]
      {
        var m := Earliest(todo);
        assert m !in Elems(ms);
        ElemsAppend(ms, m);
        ms, todo := ms + [m], todo - {m};
      }
    }

    method Earliest(todo: set<string>) returns (m: string)
      requires todo != {} && todo <= db.delays.Keys
      ensures m in todo && forall y :: y in todo ==> db.delays[m] <= db.delays[y]
    {
      m :| m in todo;
      var rest := todo - {m};
      while rest != {}
        invariant rest <= todo && m in todo
        invariant forall y :: y in todo - rest ==> db.delays[m] <= db.delays[y]
      {
        var y :| y in rest;
        if db.delays[y] < db.delays[m] { m := y; }
        rest := rest - {y};
      }
    }

    /** syn.lua, and upidx.lua, whose text is the same. */
    method Syn(b: Binding) returns (reply: seq<Elem>)
      requires Valid()
      modifies this
      ensures Valid()
      ensures db == Bind(old(db), b) && rank == Written(old(rank), b.uid)
      ensures reply == [Num(0)] + NumElem(LuaInt(b.sid))
    {
      var index, key := IndexKey(b.uid), SessionKey(b.uid, b.lc);
      var lcs := HKeys(index);
      Cleanup(b.uid, lcs);

      db := db.(hashes := HSetNX(db.hashes, index, b.lc, Label(b)));
      WriteSession(b);
      ghost var written := db;

      var ep := Lease(b.ct);
      db := Expire(db, key, ep);
      if Ttl(db, index) < ep {
        db := Expire(db, index, ep);
      }
      db := db.(delays := db.delays - {key});
      CountWrite(b.uid);
      reply := [Num(0)] + NumElem(LuaInt(b.sid));
      BindInSteps(old(db), written, b);
      BindKeepsValid(old(db), b);
    }

    /** The middle of syn.lua: HMSET, HSETNX and the loop over the extension. */
    method WriteSession(b: Binding)
      modifies this`db
      ensures db == old(db).(hashes := WithSession(old(db.hashes), b))
    {
      var key := SessionKey(b.uid, b.lc);
      BaseWritten(db.hashes, b);
      db := db.(hashes := HMSet(db.hashes, key, Reserved(b)));
      db := db.(hashes := HSetNX(db.hashes, key, CV, b.cv));
      WriteExt(key, b.ext);
    }

    method WriteExt(key: string, ext: seq<(string, string)>)
      requires key in db.hashes
      modifies this`db
      ensures db == old(db).(hashes := WithFields(old(db.hashes), key, Put(old(db.hashes)[key].fields, ext)))
    {
      ghost var h := db.hashes;
      var i := 0;
      while i < |ext|
        invariant 0 <= i <= |ext|
        invariant db == old(db).(hashes := WithFields(h, key, Put(h[key].fields, ext[..i])))
      {
        db := db.(hashes := HSet(db.hashes, key, ext[i].0, ext[i].1));
        assert ext[..i + 1][..i] == ext[..i];
        i := i + 1;
      }
      assert ext[..i] == ext;
    }

    /** The first loop of syn.lua: drop the index fields whose session is gone. */
    method Cleanup(uid: string, lcs: seq<string>)
      requires Valid()
      requires Enumerates(lcs, if IndexKey(uid) in db.hashes then db.hashes[IndexKey(uid)].fields.Keys else {})
      modifies this`db
      ensures Valid()
      ensures db.now == old(db.now) && db.delays == old(db.delays)
      ensures db.hashes == WithIndex(old(db.hashes), uid, LiveFields(old(db.hashes), uid))
    {
      var index := IndexKey(uid);
      ghost var h0 := db.hashes;
      var i := 0;
      while i < |lcs|
        invariant 0 <= i <= |lcs|
        invariant db.now == old(db.now) && db.delays == old(db.delays)
        invariant Cleaned(h0, db.hashes, uid, lcs[..i])
      {
        CleanupStep(h0, db.hashes, uid, lcs, i);
        if SessionKey(uid, lcs[i]) !in db.hashes {
          db := db.(hashes := HDel(db.hashes, index, lcs[i]));
        }
        i := i + 1;
      }
      assert lcs[..i] == lcs;
      CleanupDone(h0, db.hashes, uid, lcs);
    }

    /** fin_delay.lua. */
    method FinDelay(uid: string, lc: string, gate: string, delay: int)
      requires Valid()
      modifies this
      ensures Valid()
      ensures db == Schedule(old(db), uid, lc, gate, delay) && rank == Written(old(rank), uid)
    {
      CountWrite(uid);
      var key := SessionKey(uid, lc);
      var bgate := HGet(db.hashes, key, GATE);
      if bgate == Some(gate) {
        ParseInverts(uid, lc);
        db := db.(delays := db.delays[key := delay]);
        db := db.(hashes := HSet(db.hashes, key, GATE, ""));
      }
    }

    /** fin.lua; the reply is the value the index held, if any. */
    method Fin(uid: string, lc: string) returns (ofl: Option<string>)
      requires Valid()
      modifies this
      ensures Valid()
      ensures db == Finish(old(db), uid, lc) && rank == Written(old(rank), uid)
      ensures ofl == HGet(old(db.hashes), IndexKey(uid), lc)
    {
      var key := SessionKey(uid, lc);
      ofl := HGet(db.hashes, IndexKey(uid), lc);
      db := db.(hashes := HDel(db.hashes, IndexKey(uid), lc));
      db := db.(hashes := db.hashes - {key});
      db := db.(delays := db.delays - {key});
      CountWrite(uid);
    }

    /** timeout_rm.lua; `ms` is the order in which the due members were listed. */
    method TimeoutRm(stamp: int) returns (ofl: seq<Elem>, ms: seq<string>)
      requires Valid()
      modifies this`db
      ensures Valid()
      ensures db == Sweep(old(db), stamp)
      ensures Enumerates(ms, Due(old(db), stamp))
      ensures forall i, j :: 0 <= i < j < |ms| ==>
                ms[i] in old(db.delays) && ms[j] in old(db.delays) && old(db.delays)[ms[i]] <= old(db.delays)[ms[j]]
      ensures ofl == Wire(AllTold(Reports(old(db.hashes), ms)))
    {
      ms := RangeByScore(stamp);
      assert forall m :: m in ms ==> m in Elems(ms);
      DelAll(ms);
      ofl := UnindexAll(old(db.hashes), ms);
      db := db.(delays := db.delays - Due(db, stamp));
    }

    /** The first loop of timeout_rm.lua. */
    method DelAll(lcs: seq<string>)
      modifies this`db
      ensures db == old(db).(hashes := old(db.hashes) - Elems(lcs))
    {
      var i := 0;
      while i < |lcs|
        invariant 0 <= i <= |lcs|
        invariant db == old(db).(hashes := old(db.hashes) - Elems(lcs[..i]))
      {
        ElemsPrefix(lcs, i);
        db := db.(hashes := db.hashes - {lcs[i]});
        i := i + 1;
      }
      assert lcs[..i] == lcs;
    }

    /** The second loop of timeout_rm.lua; `h0` are the hashes before the first. */
    method UnindexAll(ghost h0: Hashes, lcs: seq<string>) returns (ofl: seq<Elem>)
      requires NoEmptyHash(db.hashes) && Distinct(lcs)
      requires db.hashes == h0 - Elems(lcs)
      requires forall m :: m in lcs ==> WellNamed(m)
      modifies this`db
      ensures db == old(db).(hashes := Unindex(old(db.hashes), Elems(lcs)))
      ensures ofl == Wire(AllTold(Reports(h0, lcs)))
    {
      UnindexNone(db.hashes);
      ofl := [];
      var i := 0;
      assert Elems(lcs[..0]) == {};
      while i < |lcs|
        invariant 0 <= i <= |lcs|
        invariant db == old(db).(hashes := Unindex(old(db.hashes), Elems(lcs[..i])))
        invariant ofl == Wire(AllTold(Reports(h0, lcs[..i])))
      {
        ofl := UnindexNext(h0, old(db.hashes), lcs, i, ofl);
        i := i + 1;
      }
      assert lcs[..i] == lcs;
    }

    /** The body of that loop; `h1` are the hashes before it. */
    method UnindexNext(ghost h0: Hashes, ghost h1: Hashes, lcs: seq<string>, i: nat, ofl: seq<Elem>)
        returns (ofl': seq<Elem>)
      requires i < |lcs| && Distinct(lcs) && h1 == h0 - Elems(lcs) && forall m :: m in lcs ==> WellNamed(m)
      requires db.hashes == Unindex(h1, Elems(lcs[..i])) && ofl == Wire(AllTold(Reports(h0, lcs[..i])))
      modifies this`db
      ensures db == old(db).(hashes := Unindex(h1, Elems(lcs[..i + 1])))
      ensures ofl' == Wire(AllTold(Reports(h0, lcs[..i + 1])))
    {
      UnindexStep(h0, h1, lcs, i);
      var uid, tv := UnindexKey(lcs[i]);
      ofl' := ofl;
      assert tv.None? ==> Reports(h0, lcs[..i + 1]) == Reports(h0, lcs[..i]);
      if tv.Some? {
        OneMoreReport(Reports(h0, lcs[..i]), uid, tv.value);
        ofl' := ofl + NumElem(LuaInt(uid)) + [Text(tv.value)];
      }
    }

    /** Parse one key and drop its index field; `tv` is what the index held. */
    method UnindexKey(klc: string) returns (uid: string, tv: Option<string>)
      requires |klc| >= 2 && FindDot(klc, 2) < |klc|
      modifies this`db
      ensures db == old(db).(hashes := HDel(old(db.hashes), IndexKey(UidOf(klc)), LcOf(klc)))
      ensures uid == UidOf(klc) && tv == HGet(old(db.hashes), IndexKey(uid), LcOf(klc))
    {
      var idx := FindDot(klc, 2);
      var lc := klc[idx + 1..];
      uid := klc[2..idx];
      tv := HGet(db.hashes, IndexKey(uid), lc);
      db := db.(hashes := HDel(db.hashes, IndexKey(uid), lc));
    }

    /** get_multi.lua; `orders` gives the order in which HKEYS listed each index. */
    method GetMulti(uids: seq<string>) returns (rv: seq<Entry>, orders: seq<seq<string>>)
      ensures |orders| == |uids|
      ensures forall i :: 0 <= i < |uids| ==>
                Enumerates(orders[i],
                           if IndexKey(uids[i]) in db.hashes then db.hashes[IndexKey(uids[i])].fields.Keys else {})
      ensures rv == Entries(Listings(db.hashes, uids, orders))
      ensures forall e :: e in Listings(db.hashes, uids, orders) <==> e.0 in uids && IsListed(db.hashes, e)
    {
      rv, orders := [], [];
      var i := 0;
      while i < |uids|
        invariant 0 <= i <= |uids| && |orders| == i
        invariant forall j :: 0 <= j < i ==>
                    Enumerates(orders[j],
                               if IndexKey(uids[j]) in db.hashes then db.hashes[IndexKey(uids[j])].fields.Keys else {})
        invariant rv == Entries(Listings(db.hashes, uids[..i], orders))
      {
        var uid := uids[i];
        var lcs := HKeys(IndexKey(uid));
        ListingsNext(db.hashes, uids[..i], orders, uid, lcs);
        assert uids[..i + 1] == uids[..i] + [uid];
        rv := AppendListing(rv, uid, lcs);
        EntriesMore(Listings(db.hashes, uids[..i], orders), Listing(db.hashes, uid, lcs));
        orders := orders + [lcs];
        i := i + 1;
      }
      assert uids[..i] == uids;
      ListingsExact(db.hashes, uids, orders);
    }

    /** The inner loop of get_multi.lua. */
    method AppendListing(rv: seq<Entry>, uid: string, lcs: seq<string>) returns (rv': seq<Entry>)
      ensures rv' == rv + Entries(Listing(db.hashes, uid, lcs))
    {
      rv' := rv;
      var j := 0;
      while j < |lcs|
        invariant 0 <= j <= |lcs|
        invariant rv' == rv + Entries(Listing(db.hashes, uid, lcs[..j]))
      {
        var key := SessionKey(uid, lcs[j]);
        rv' := rv' + [Entry(LuaInt(uid), lcs[j], if key in db.hashes then db.hashes[key].fields else map[])];
        j := j + 1;
      }
      assert lcs[..j] == lcs;
    }
  }

  lemma EntriesMore(s: seq<Line>, t: seq<Line>)
    ensures Entries(s + t) == Entries(s) + Entries(t)
  {
  }

  /** One entry of the reply: an index field and what its session holds. */
  predicate IsListed(hashes: Hashes, e: Line) {
    && IndexKey(e.0) in hashes && e.1 in hashes[IndexKey(e.0)].fields
    && e.2 == if SessionKey(e.0, e.1) in hashes then hashes[SessionKey(e.0, e.1)].fields else map[]
  }

  lemma ListingExact(hashes: Hashes, uid: string, lcs: seq<string>, e: Line)
    ensures e in Listing(hashes, uid, lcs) <==>
              e.0 == uid && e.1 in lcs &&
              e.2 == if SessionKey(uid, e.1) in hashes then hashes[SessionKey(uid, e.1)].fields else map[]
  {
    var l := Listing(hashes, uid, lcs);
    if e in l {
      var j :| 0 <= j < |l| && l[j] == e;
      assert lcs[j] == e.1;
    }
    if e.1 in lcs {
      var j :| 0 <= j < |lcs| && lcs[j] == e.1;
      assert l[j].1 == e.1;
    }
  }

  lemma {:induction false} ListingsExact(hashes: Hashes, uids: seq<string>, orders: seq<seq<string>>)
    requires |orders| == |uids|
    requires forall i :: 0 <= i < |uids| ==>
               Enumerates(orders[i], if IndexKey(uids[i]) in hashes then hashes[IndexKey(uids[i])].fields.Keys else {})
    ensures forall e :: e in Listings(hashes, uids, orders) <==> e.0 in uids && IsListed(hashes, e)
  {
    if uids != [] {
      var n := |uids| - 1;
      ListingsExact(hashes, uids[..n], orders[..n]);
      assert uids == uids[..n] + [uids[n]];
      forall e
        ensures e in Listing(hashes, uids[n], orders[n]) <==> e.0 == uids[n] && IsListed(hashes, e)
      {
        ListingExact(hashes, uids[n], orders[n], e);
        assert e.1 in orders[n] <==> e.1 in Elems(orders[n]);
      }
    }
  }

  lemma ListingsNext(hashes: Hashes, uids: seq<string>, orders: seq<seq<string>>, uid: string, lcs: seq<string>)
    requires |uids| == |orders|
    ensures Listings(hashes, uids + [uid], orders + [lcs]) == Listings(hashes, uids, orders) + Listing(hashes, uid, lcs)
  {
    assert (uids + [uid])[..|uids|] == uids && (orders + [lcs])[..|orders|] == orders;
  }

  function Listings(hashes: Hashes, uids: seq<string>, orders: seq<seq<string>>): seq<Line>
    requires |uids| == |orders|
  {
    if uids == [] then []
    else
      var n := |uids| - 1;
      Listings(hashes, uids[..n], orders[..n]) + Listing(hashes, uids[n], orders[n])
  }

  lemma UnindexStep(h0: Hashes, h1: Hashes, lcs: seq<string>, i: nat)
    requires i < |lcs| && Distinct(lcs) && h1 == h0 - Elems(lcs)
    requires forall m :: m in lcs ==> WellNamed(m)
    ensures |lcs[i]| >= 2 && FindDot(lcs[i], 2) < |lcs[i]|
    ensures var uid, lc := UidOf(lcs[i]), LcOf(lcs[i]);
            var h := Unindex(h1, Elems(lcs[..i]));
            var tv := HGet(h, IndexKey(uid), lc);
            && Unindex(h1, Elems(lcs[..i + 1])) == HDel(h, IndexKey(uid), lc)
            && Reports(h0, lcs[..i + 1]) == Reports(h0, lcs[..i]) + if tv.Some? then [(uid, tv.value)] else []
  {
    NotYetUnindexed(h0, lcs, i);
    UnindexOne(h1, Elems(lcs[..i]), lcs[i]);
    ElemsPrefix(lcs, i);
    assert lcs[..i + 1][..i] == lcs[..i];
  }

  /** Taking earlier members out of their indexes does not change what the next finds. */
  lemma NotYetUnindexed(hashes: Hashes, lcs: seq<string>, i: nat)
    requires i < |lcs| && Distinct(lcs)
    requires forall m :: m in lcs ==> WellNamed(m)
    ensures |lcs[i]| >= 2 && FindDot(lcs[i], 2) < |lcs[i]|
    ensures var uid, lc := UidOf(lcs[i]), LcOf(lcs[i]);
            && uid == lcs[i][2..FindDot(lcs[i], 2)] && lc == lcs[i][FindDot(lcs[i], 2) + 1..]
            && HGet(Unindex(hashes - Elems(lcs), Elems(lcs[..i])), IndexKey(uid), lc) == HGet(hashes, IndexKey(uid), lc)
  {
    var m := lcs[i];
    var gone, uid, lc := Elems(lcs[..i]), UidOf(m), LcOf(m);
    var key := IndexKey(uid);
    assert WellNamed(m) && m == SessionKey(uid, lc);
    SessionKeyParts(uid, lc);
    UnindexEffect(hashes - Elems(lcs), gone);
    assert key !in Elems(lcs) by {
      if key in Elems(lcs) { KeysDisjoint(uid, UidOf(key), LcOf(key)); }
    }
    forall x | x in lcs[..i] && key == IndexKey(UidOf(x))
      ensures lc != LcOf(x)
    {
      KeysDisjoint(uid, UidOf(x), lc);
      assert WellNamed(x);
    }
  }
}

/** The write statistic of the session scripts: the sorted set RANK_W, which counts writes
    by user and is cut back when it grows over 1000 members. */
module WriteStat {
  import opened Sequences
  import opened Text

  /** Member to score. */
  type Rank = map<string, int>

  const RANK_LIMIT := 1000

  function ZIncrBy(r: Rank, m: string, step: int): Rank {
    r[m := if m in r then r[m] + step else step]
  }

  /** Members are ordered by score, and equal scores by name. */
  predicate Before(r: Rank, m: string, n: string)
    requires m in r && n in r
  {
    r[m] < r[n] || (r[m] == r[n] && Less(m, n))
  }

  function RankOf(r: Rank, m: string): nat
    requires m in r
  {
    |set x | x in r && Before(r, x, m)|
  }

  /** ZREMRANGEBYRANK from rank 0 up to this one. */
  function ZRemRangeByRank(r: Rank, last: nat): Rank {
    map m | m in r && RankOf(r, m) > last :: r[m]
  }

  /** The statistic after a write of one user. */
  function Written(r: Rank, uid: string): Rank {
    var r1 := ZIncrBy(r, uid, 1);
    if |r1| > RANK_LIMIT then ZRemRangeByRank(r1, |r1| - RANK_LIMIT) else r1
  }

  // ----- ranks -----

  lemma BeforeTotal(r: Rank, m: string, n: string)
    requires m in r && n in r
    ensures m == n || Before(r, m, n) || Before(r, n, m)
    ensures !(Before(r, m, n) && Before(r, n, m)) && !Before(r, m, m)
  {
    LessTotal(m, n);
    LessTotal(m, m);
  }

  lemma BeforeTrans(r: Rank, m: string, n: string, k: string)
    requires m in r && n in r && k in r && Before(r, m, n) && Before(r, n, k)
    ensures Before(r, m, k)
  {
    if r[m] == r[n] == r[k] { LessTrans(m, n, k); }
  }

  /** A member after all others. */
  lemma {:induction false} HasLast(r: Rank, ms: set<string>) returns (last: string)
    requires ms != {} && ms <= r.Keys
    ensures last in ms && forall m :: m in ms && m != last ==> Before(r, m, last)
  {
    last :| last in ms;
    if ms != {last} {
      var rest := ms - {last};
      var top := HasLast(r, rest);
      BeforeTotal(r, top, last);
      if Before(r, last, top) {
        last := top;
      } else {
        forall m | m in rest
          ensures Before(r, m, last)
        {
          if m != top { BeforeTrans(r, m, top, last); }
        }
      }
    }
  }

  /** The ranks within `ms`, if those were all members. */
  function RankIn(r: Rank, ms: set<string>, m: string): nat
    requires m in r && ms <= r.Keys
  {
    |set x | x in ms && Before(r, x, m)|
  }

  /** For every count there are exactly that many members of a lower rank. */
  lemma {:induction false} LowRanks(r: Rank, ms: set<string>, k: nat)
    requires ms <= r.Keys && k <= |ms|
    ensures |set m | m in ms && RankIn(r, ms, m) < k| == k
    decreases |ms|
  {
    var low := set m | m in ms && RankIn(r, ms, m) < k;
    if ms == {} {
      assert low == {};
    } else {
      var last := HasLast(r, ms);
      var rest := ms - {last};
      forall m | m in rest
        ensures RankIn(r, ms, m) == RankIn(r, rest, m) < |rest|
      {
        NotLast(r, ms, last, m);
      }
      BeforeTotal(r, last, last);
      assert (set x | x in ms && Before(r, x, last)) == rest;
      if k == |ms| {
        assert low == ms;
      } else {
        LowRanks(r, rest, k);
        assert low == set m | m in rest && RankIn(r, rest, m) < k;
      }
    }
  }

  lemma NotLast(r: Rank, ms: set<string>, last: string, m: string)
    requires ms <= r.Keys && last in ms && m in ms && m != last
    requires Before(r, m, last)
    ensures RankIn(r, ms, m) == RankIn(r, ms - {last}, m) < |ms - {last}|
  {
    BeforeTotal(r, m, last);
    BeforeTotal(r, m, m);
    var below := set x | x in ms && Before(r, x, m);
    assert below == set x | x in ms - {last} && Before(r, x, m);
    assert below <= ms - {last} - {m};
    SmallerSet(below, ms - {last}, m);
  }

  lemma SmallerSet(a: set<string>, b: set<string>, x: string)
    requires a <= b - {x} && x in b
    ensures |a| < |b|
  {
    FewerIn(a, b - {x});
  }

  lemma {:induction false} FewerIn(a: set<string>, b: set<string>)
    requires a <= b
    ensures |a| <= |b|
  {
    if a != {} {
      var x :| x in a;
      FewerIn(a - {x}, b - {x});
    }
  }

  /** A higher rank means a later member. */
  lemma RankOrder(r: Rank, m: string, n: string)
    requires m in r && n in r && Before(r, m, n)
    ensures RankOf(r, m) < RankOf(r, n)
  {
    var low, high := set x | x in r && Before(r, x, m), set x | x in r && Before(r, x, n);
    forall x | x in low
      ensures x in high && x != m
    {
      BeforeTrans(r, x, m, n);
      BeforeTotal(r, m, m);
    }
    SmallerSet(low, high, m);
  }

  lemma CutIsLowest(r: Rank, uid: string)
    requires |r| <= RANK_LIMIT
    ensures var r1, r' := ZIncrBy(r, uid, 1), Written(r, uid);
            && |r'| == (if |r1| > RANK_LIMIT then RANK_LIMIT - 1 else |r1|) <= RANK_LIMIT
            && (forall m :: m in r' ==> m in r1 && r'[m] == r1[m])
            && (forall m, n :: m in r1 && m !in r' && n in r' ==> Before(r1, m, n))
  {
    var r1, r' := ZIncrBy(r, uid, 1), Written(r, uid);
    if |r1| > RANK_LIMIT {
      var k := |r1| - RANK_LIMIT + 1;
      LowRanks(r1, r1.Keys, k);
      var gone := set m | m in r1.Keys && RankIn(r1, r1.Keys, m) < k;
      forall m | m in r1
        ensures RankOf(r1, m) == RankIn(r1, r1.Keys, m)
      {
        assert (set x | x in r1 && Before(r1, x, m)) == set x | x in r1.Keys && Before(r1, x, m);
      }
      assert r'.Keys == r1.Keys - gone;
      assert |r'.Keys| == |r1.Keys| - |gone|;
      forall m, n | m in r1 && m !in r' && n in r'
        ensures Before(r1, m, n)
      {
        BeforeTotal(r1, m, n);
        if Before(r1, n, m) { RankOrder(r1, n, m); }
      }
    }
  }

  /** Over 1000 members come down to 999; no count changes, and those that go come before those
      that stay, by count and then by name. */
  ghost predicate Trimmed(r1: Rank, r': Rank) {
    && |r'| == (if |r1| > 1000 then 999 else |r1|)
    && (forall m :: m in r' ==> m in r1 && r'[m] == r1[m])
    && (forall m, n :: m in r1 && m !in r' && n in r' ==> r1[m] < r1[n] || (r1[m] == r1[n] && Less(m, n)))
  }

  /** A write counts one more for its user. A statistic of 1000 members at most stays so: one
      more member than that, and it is cut back to 999, by the lowest counts. */
  lemma WriteTrims(r: Rank, uid: string)
    requires |r| <= 1000
    ensures Trimmed(r[uid := (if uid in r then r[uid] else 0) + 1], Written(r, uid))
  {
    CutIsLowest(r, uid);
    assert ZIncrBy(r, uid, 1) == r[uid := (if uid in r then r[uid] else 0) + 1];
  }

  // ----- runs -----

  /** The statistic after writes of these users, in this order. */
  function StatOf(users: seq<string>): Rank {
    if users == [] then map[] else Written(StatOf(users[..|users| - 1]), users[|users| - 1])
  }

  function WritesOf(users: seq<string>, uid: string): nat {
    if users == [] then 0
    else WritesOf(users[..|users| - 1], uid) + if users[|users| - 1] == uid then 1 else 0
  }

  lemma {:induction false} StatBounded(users: seq<string>)
    ensures |StatOf(users)| <= RANK_LIMIT
    ensures forall m :: m in StatOf(users) ==> 0 < StatOf(users)[m] <= WritesOf(users, m)
  {
    if users != [] {
      var n := |users| - 1;
      StatBounded(users[..n]);
      CutIsLowest(StatOf(users[..n]), users[n]);
      var r1 := ZIncrBy(StatOf(users[..n]), users[n], 1);
      forall m | m in r1
        ensures 0 < r1[m] <= WritesOf(users, m)
      {
      }
    }
  }

  lemma {:induction false} StatExact(users: seq<string>)
    requires |Elems(users)| <= RANK_LIMIT
    ensures StatOf(users).Keys == Elems(users)
    ensures forall m :: m in StatOf(users) ==> StatOf(users)[m] == WritesOf(users, m)
  {
    if users != [] {
      var n := |users| - 1;
      var front, uid := users[..n], users[n];
      assert users == front + [uid];
      assert Elems(users) == Elems(front) + {uid};
      FewerIn(Elems(front), Elems(users));
      StatExact(front);
      NeverWritten(front, uid);
      var r1 := ZIncrBy(StatOf(front), uid, 1);
      assert r1.Keys == Elems(users);
      assert |r1| == |r1.Keys|;
    }
  }

  /** After any writes the statistic has at most 1000 users and counts none of them too
      often. While no more than 1000 users have written, it is exact. */
  lemma StatCounts(users: seq<string>)
    ensures |StatOf(users)| <= 1000
    ensures forall m :: m in StatOf(users) ==> 0 < StatOf(users)[m] <= WritesOf(users, m)
    ensures |Elems(users)| <= 1000 ==> StatOf(users) == map m | m in Elems(users) :: WritesOf(users, m)
  {
    StatBounded(users);
    if |Elems(users)| <= RANK_LIMIT { StatExact(users); }
  }

  lemma {:induction false} NeverWritten(users: seq<string>, uid: string)
    ensures uid !in Elems(users) <==> WritesOf(users, uid) == 0
  {
    if users != [] {
      var n := |users| - 1;
      NeverWritten(users[..n], uid);
      assert users == users[..n] + [users[n]];
    }
  }
}

/** How the controller asks every Redis for its slaveof setting. Addresses are packed to
    64-bit endpoints for the request, and each answer is entered under the address that its
    endpoint is printed as. */
module Polling {
  import opened Options
  import opened Decimal
  import opened Text
  import opened Address
  import opened Ipv4
  import opened Slaveof

  /** A reply to CONFIG GET slaveof: two strings, or anything else. */
  datatype Reply = Pair(name: string, value: string) | Malformed

  /** The replies of one attempt, by endpoint; one that is missing timed out. */
  type Replies = map<nat, Reply>

  function AnswerOf(replies: Replies, v: nat): Option<string> {
    if v in replies && replies[v].Pair? && replies[v].name == "slaveof" then Some(IpPort(replies[v].value)) else None
  }

  function FirstAnswer(tries: seq<Replies>, v: nat): Option<string> {
    if tries == [] then None
    else if AnswerOf(tries[0], v).Some? then AnswerOf(tries[0], v)
    else FirstAnswer(tries[1..], v)
  }

  function LastAnswer(tries: seq<Replies>, v: nat): Option<string> {
    if tries == [] then None
    else if LastAnswer(tries[1..], v).Some? then LastAnswer(tries[1..], v)
    else AnswerOf(tries[0], v)
  }

  /** The endpoints that are asked for these addresses. */
  function Endpoints(addrs: set<string>): set<nat> {
    set a | a in addrs && StrIpv4Int64(a).Some? :: StrIpv4Int64(a).value
  }

  /** The addresses that these endpoints are printed as. */
  function Printed(asked: set<nat>): set<string> {
    set v | v in asked :: Int64StrIpv4(v)
  }

  /** The answers of one attempt, under the printed addresses. */
  function Entered(asked: set<nat>, replies: Replies): map<string, string> {
    AnswersUnder(Printed(asked), replies)
  }

  function AnswersUnder(names: set<string>, replies: Replies): map<string, string> {
    map a | a in names && AnswerOf(replies, NumberOf(a)).Some? :: AnswerOf(replies, NumberOf(a)).value
  }

  /** check_redis: what is found, when `found` has been found already. */
  function Poll(addrs: set<string>, found: map<string, string>, tries: seq<Replies>): map<string, string>
    requires tries != []
    decreases |tries|
  {
    var found' := found + Entered(Endpoints(addrs), tries[0]);
    var missing := addrs - found'.Keys;
    if missing == {} || |tries| == 1 then found' else Poll(missing, found', tries[1..])
  }

  lemma EndpointsBound(addrs: set<string>)
    ensures forall v :: v in Endpoints(addrs) ==> v < WORD32 * WORD32
  {
    forall a | a in addrs && StrIpv4Int64(a).Some?
      ensures StrIpv4Int64(a).value < WORD32 * WORD32
    {
      EndpointBound(a);
    }
  }

  lemma EndpointsMore(addrs: set<string>, a: string)
    ensures Endpoints(addrs + {a}) ==
            Endpoints(addrs) + if StrIpv4Int64(a).Some? then {StrIpv4Int64(a).value} else {}
  {
  }

  lemma NothingEntered(replies: Replies, found: map<string, string>)
    ensures found + Entered({}, replies) == found
  {
  }

  lemma EnteredMore(done: set<nat>, v: nat, replies: Replies, found: map<string, string>)
    requires v < WORD32 * WORD32
    ensures found + Entered(done + {v}, replies) ==
            if AnswerOf(replies, v).Some?
            then (found + Entered(done, replies))[Int64StrIpv4(v) := AnswerOf(replies, v).value]
            else found + Entered(done, replies)
  {
    NumberOfPrinted(v);
    PrintedMore(done, v);
    OneUnder(Printed(done), Int64StrIpv4(v), v, replies, found);
  }

  lemma PrintedMore(done: set<nat>, v: nat)
    ensures Printed(done + {v}) == Printed(done) + {Int64StrIpv4(v)}
  {
  }

  lemma OneUnder(names: set<string>, a: string, v: nat, replies: Replies, found: map<string, string>)
    requires NumberOf(a) == v
    ensures found + AnswersUnder(names + {a}, replies) ==
            if AnswerOf(replies, v).Some? then (found + AnswersUnder(names, replies))[a := AnswerOf(replies, v).value]
            else found + AnswersUnder(names, replies)
  {
    UnderMore(names, a, replies);
    if AnswerOf(replies, v).Some? { AddedLast(found, AnswersUnder(names, replies), a, AnswerOf(replies, v).value); }
  }

  lemma UnderMore(names: set<string>, a: string, replies: Replies)
    ensures AnswersUnder(names + {a}, replies) ==
            var answer := AnswerOf(replies, NumberOf(a));
            if answer.Some? then AnswersUnder(names, replies)[a := answer.value] else AnswersUnder(names, replies)
  {
  }

  lemma AddedLast(m: map<string, string>, n: map<string, string>, a: string, x: string)
    ensures m + n[a := x] == (m + n)[a := x]
  {
  }

  // ----- who is found -----

  /** Another address of the set is packed to the same endpoint. */
  ghost predicate Aliased(addrs: set<string>, a: string) {
    exists b :: b in addrs && b != a && StrIpv4Int64(b) == StrIpv4Int64(a)
  }

  /** What is found for an address. The other spelling of an aliased address never answers,
      so that its endpoint is asked in every attempt and the last answer counts. */
  ghost function Found(addrs: set<string>, tries: seq<Replies>, a: string): Option<string> {
    if !Survives(a) then None
    else if Aliased(addrs, a) then LastAnswer(tries, StrIpv4Int64(a).value)
    else FirstAnswer(tries, StrIpv4Int64(a).value)
  }

  lemma {:induction false} FirstOrLast(tries: seq<Replies>, v: nat)
    ensures FirstAnswer(tries, v).Some? <==> LastAnswer(tries, v).Some?
    ensures FirstAnswer(tries, v).Some? <==> exists i :: 0 <= i < |tries| && AnswerOf(tries[i], v).Some?
  {
    if tries != [] {
      FirstOrLast(tries[1..], v);
      if i :| 0 <= i < |tries| && AnswerOf(tries[i], v).Some? {
        if i > 0 { assert tries[1..][i - 1] == tries[i]; }
      }
      if FirstAnswer(tries[1..], v).Some? {
        var i :| 0 <= i < |tries[1..]| && AnswerOf(tries[1..][i], v).Some?;
        assert tries[1..][i] == tries[i + 1];
      }
    }
  }

  lemma EnteredIs(addrs: set<string>, replies: Replies, a: string)
    requires AddrOk(a)
    ensures Lookup(Entered(Endpoints(addrs), replies), a) ==
            if Survives(a) && StrIpv4Int64(a).value in Endpoints(addrs) then AnswerOf(replies, StrIpv4Int64(a).value)
            else None
  {
    EndpointsBound(addrs);
    var asked := Endpoints(addrs);
    forall v | v in asked && Int64StrIpv4(v) == a
      ensures StrIpv4Int64(a) == Some(v)
    {
      TextRoundTrip(v);
    }
    assert a in Printed(asked) <==> Survives(a) && StrIpv4Int64(a).value in asked;
    assert NumberOf(a) == StrIpv4Int64(a).value;
  }

  /** An address whose endpoint is not asked keeps what was found before. */
  lemma {:induction false} PollSkips(addrs: set<string>, found: map<string, string>, tries: seq<Replies>, a: string)
    requires tries != [] && AddrOk(a) && (Survives(a) ==> StrIpv4Int64(a).value !in Endpoints(addrs))
    ensures Lookup(Poll(addrs, found, tries), a) == Lookup(found, a)
    decreases |tries|
  {
    var found' := found + Entered(Endpoints(addrs), tries[0]);
    EnteredIs(addrs, tries[0], a);
    var missing := addrs - found'.Keys;
    if missing != {} && |tries| > 1 {
      assert Endpoints(missing) <= Endpoints(addrs);
      PollSkips(missing, found', tries[1..], a);
    }
  }

  /** While the other spelling of an address is missing, its endpoint is asked again. */
  lemma {:induction false} PollAlias(addrs: set<string>, found: map<string, string>, tries: seq<Replies>, a: string,
                                     b: string)
    requires tries != [] && Survives(a) && AddrOk(a)
    requires b in addrs && b !in found && b != a && StrIpv4Int64(b) == StrIpv4Int64(a)
    ensures var last := LastAnswer(tries, StrIpv4Int64(a).value);
            Lookup(Poll(addrs, found, tries), a) == if last.Some? then last else Lookup(found, a)
    decreases |tries|
  {
    var found' := found + Entered(Endpoints(addrs), tries[0]);
    var missing := addrs - found'.Keys;
    EnteredIs(addrs, tries[0], a);
    EnteredIs(addrs, tries[0], b);
    assert b !in found' by { assert Lookup(Entered(Endpoints(addrs), tries[0]), b) == None; }
    assert b in missing && StrIpv4Int64(a).value in Endpoints(addrs);
    if |tries| > 1 { PollAlias(missing, found', tries[1..], a, b); }
  }

  /** One attempt for an address that is still missing. */
  lemma Attempt(addrs: set<string>, found: map<string, string>, replies: Replies, a: string, v: nat)
    requires Survives(a) && AddrOk(a) && a in addrs && a !in found && v == StrIpv4Int64(a).value
    ensures Lookup(found + Entered(Endpoints(addrs), replies), a) == AnswerOf(replies, v)
  {
    EnteredIs(addrs, replies, a);
    assert v in Endpoints(addrs);
  }

  lemma {:induction false} PollOnce(addrs: set<string>, found: map<string, string>, tries: seq<Replies>, a: string,
                                    v: nat)
    requires tries != [] && Survives(a) && AddrOk(a) && v == StrIpv4Int64(a).value
    requires a in addrs && a !in found && !Aliased(addrs, a)
    ensures Lookup(Poll(addrs, found, tries), a) == FirstAnswer(tries, v)
    decreases |tries|
  {
    var found' := found + Entered(Endpoints(addrs), tries[0]);
    var missing := addrs - found'.Keys;
    Attempt(addrs, found, tries[0], a, v);
    FewerAliases(addrs, missing, a);
    if |tries| > 1 {
      if a in missing {
        PollOnce(missing, found', tries[1..], a, v);
      } else if missing != {} {
        PollSkips(missing, found', tries[1..], a);
      }
    } else {
      assert FirstAnswer(tries[1..], v) == None;
    }
  }

  lemma FewerAliases(addrs: set<string>, missing: set<string>, a: string)
    requires Survives(a) && !Aliased(addrs, a) && missing <= addrs
    ensures !Aliased(missing, a)
    ensures a !in missing ==> StrIpv4Int64(a).value !in Endpoints(missing)
  {
  }

  /** A configured address is found if and only if it survives the way to a number and back
      and its endpoint answers in some attempt; and then with the first answer, or the last
      one if it is configured in another spelling besides. */
  lemma PollFinds(addrs: set<string>, tries: seq<Replies>, a: string)
    requires tries != [] && a in addrs && AddrOk(a)
    ensures Lookup(Poll(addrs, map[], tries), a) == Found(addrs, tries, a)
    ensures a in Poll(addrs, map[], tries) <==>
              Survives(a) && exists i :: 0 <= i < |tries| && AnswerOf(tries[i], StrIpv4Int64(a).value).Some?
  {
    if !Survives(a) {
      PollSkips(addrs, map[], tries, a);
    } else {
      FirstOrLast(tries, StrIpv4Int64(a).value);
      if b :| b in addrs && b != a && StrIpv4Int64(b) == StrIpv4Int64(a) {
        PollAlias(addrs, map[], tries, a, b);
      } else {
        PollOnce(addrs, map[], tries, a, StrIpv4Int64(a).value);
      }
    }
  }

  lemma DottedNoBlank(q: Quad)
    ensures forall i :: 0 <= i < |Dotted(q)| ==> Dotted(q)[i] != ' '
  {
    NatField(q.a, ' ');
    NatField(q.b, ' ');
    NatField(q.c, ' ');
    NatField(q.d, ' ');
  }

  /** Whoever can be found can be read back as a master. */
  lemma SurvivorIsCanonical(a: string)
    requires Survives(a)
    ensures AddrOk(a) && Canonical(a)
  {
    EndpointBound(a);
    var v := StrIpv4Int64(a).value;
    var (ip, port) := Int64Ipv4(v);
    PrintedParts(v);
    DottedNoBlank(QuadOf(Unpack(v).0));
    PartsAreCanonical(a, ip, port);
  }

  lemma PartsAreCanonical(a: string, ip: string, port: int)
    requires AddrOk(a) && a == ip + ":" + OfInt(port) && |ip| == Find(a, ":", 0) && port == Atoi(a[|ip| + 1..])
    requires forall i :: 0 <= i < |ip| ==> ip[i] != ' '
    ensures Canonical(a)
  {
    assert a[|ip| + 1..] == OfInt(port);
    assert forall i :: 0 <= i < |ip| ==> a[i] == ip[i];
  }
}

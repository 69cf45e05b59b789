/** How the controller sends its SLAVEOF commands: packed to 64-bit endpoints, and again to
    those that did not reply OK. */
module Dispatch {
  import opened Options
  import opened Decimal
  import opened Address
  import opened Ipv4
  import opened Legal
  import opened Slaveof

  /** The arguments by endpoint. */
  type Batch = map<nat, (string, string)>

  /** What one attempt sends for these addresses. */
  function BatchOf(order: seq<string>, cmds: map<string, string>): Batch {
    if order == [] then map[]
    else
      var n := |order| - 1;
      WithCmd(BatchOf(order[..n], cmds), order[n], Lookup(cmds, order[n]))
  }

  /** One more address; a command for the same endpoint replaces an earlier one. */
  function WithCmd(batch: Batch, a: string, cmd: Option<string>): Batch {
    if cmd.Some? && StrIpv4Int64(a).Some? && SlaveofArgs(cmd.value).Some?
    then batch[StrIpv4Int64(a).value := SlaveofArgs(cmd.value).value]
    else batch
  }

  /** The addresses that replied OK, as printed. */
  function Acked(batch: Batch, oks: set<nat>): set<string> {
    set v | v in batch && v in oks :: Int64StrIpv4(v)
  }

  /** do_slaveof_cmd: what its attempts send, and the commands left unacknowledged. `oks`
      are the endpoints that reply OK to each attempt. */
  ghost function Sent(cmds: map<string, string>, oks: seq<set<nat>>): (r: (seq<Batch>, map<string, string>))
    requires oks != []
    decreases |oks|
  {
    var batch := BatchOf(Ordered(cmds.Keys), cmds);
    var left := cmds - Acked(batch, oks[0]);
    if batch == map[] then ([], cmds)
    else if left == map[] || |oks| == 1 then ([batch], left)
    else
      var (log, rest) := Sent(left, oks[1..]);
      ([batch] + log, rest)
  }

  /** What is sent is SLAVEOF NO ONE, or SLAVEOF with the host and the port of the master. */
  lemma ArgsExactly(host: string, port: int)
    requires host != "" && port != 0 && forall i :: 0 <= i < |host| ==> host[i] != ':'
    ensures SlaveofArgs("NO:ONE") == Some(("NO", "ONE"))
    ensures SlaveofArgs(host + ":" + OfInt(port)) == Some((host, OfInt(port)))
  {
    AtoiOfInt(port);
    HostAndPort(host, OfInt(port));
    NoOneIsNoAddress();
  }

  /** What an endpoint was told last. */
  function Told(log: seq<Batch>, v: nat): Option<(string, string)> {
    if log == [] then None
    else if Told(log[1..], v).Some? then Told(log[1..], v)
    else if v in log[0] then Some(log[0][v]) else None
  }

  /** Commands that can be sent, each to an endpoint of its own. */
  predicate Sendable(cmds: map<string, string>) {
    forall a :: a in cmds ==> Survives(a) && SlaveofArgs(cmds[a]).Some?
  }

  /** What is told to the endpoint of an address. */
  function ArgsFor(cmds: map<string, string>, a: string): Option<(string, string)> {
    if a in cmds then SlaveofArgs(cmds[a]) else None
  }

  function TellsAt(batch: Batch, v: nat): Option<(string, string)> { if v in batch then Some(batch[v]) else None }

  lemma OwnEndpoint(a: string, b: string)
    requires Survives(a) && Survives(b) && a != b
    ensures StrIpv4Int64(a).value != StrIpv4Int64(b).value
  {
  }

  lemma {:induction false} BatchIs(order: seq<string>, cmds: map<string, string>, a: string, v: nat)
    requires StrIpv4Int64(a) == Some(v) && forall n :: n in order && n != a ==> StrIpv4Int64(n) != Some(v)
    ensures TellsAt(BatchOf(order, cmds), v) == if a in order then ArgsFor(cmds, a) else None
  {
    if order != [] {
      var n := |order| - 1;
      BatchIs(order[..n], cmds, a, v);
      assert order == order[..n] + [order[n]];
      OneMoreCmd(BatchOf(order[..n], cmds), cmds, order[n], a, v);
    }
  }

  lemma OneMoreCmd(batch: Batch, cmds: map<string, string>, n: string, a: string, v: nat)
    requires StrIpv4Int64(a) == Some(v) && (n != a ==> StrIpv4Int64(n) != Some(v))
    requires n == a ==> TellsAt(batch, v) in {None, ArgsFor(cmds, a)}
    ensures TellsAt(WithCmd(batch, n, Lookup(cmds, n)), v) == if n == a then ArgsFor(cmds, a) else TellsAt(batch, v)
  {
  }

  lemma {:induction false} BatchBound(order: seq<string>, cmds: map<string, string>)
    ensures forall v :: v in BatchOf(order, cmds) ==> v < WORD32 * WORD32
  {
    if order != [] {
      var a := order[|order| - 1];
      BatchBound(order[..|order| - 1], cmds);
      if StrIpv4Int64(a).Some? { EndpointBound(a); }
    }
  }

  lemma AckedIs(batch: Batch, oks: set<nat>, a: string, v: nat)
    requires AddrOk(a) && Int64StrIpv4(v) == a && StrIpv4Int64(a) == Some(v)
    requires forall w :: w in batch ==> w < WORD32 * WORD32
    ensures a in Acked(batch, oks) <==> v in batch && v in oks
  {
    forall w | w in batch && Int64StrIpv4(w) == a
      ensures w == v
    {
      TextRoundTrip(w);
    }
  }

  /** Of the addresses that are packed to endpoint `v`, at most `a` has a command. */
  ghost predicate Alone(cmds: map<string, string>, a: string, v: nat) {
    forall n :: n in cmds && n != a ==> StrIpv4Int64(n) != Some(v)
  }

  lemma SendableAlone(cmds: map<string, string>, a: string, v: nat)
    requires Sendable(cmds) && Survives(a) && StrIpv4Int64(a) == Some(v)
    ensures Alone(cmds, a, v)
  {
    forall n | n in cmds && n != a
      ensures StrIpv4Int64(n) != Some(v)
    {
      OwnEndpoint(n, a);
    }
  }

  /** What the attempts mean for one address: it is told its command in every attempt up to
      the first that it acknowledges, and it is left over if it acknowledges none. */
  ghost predicate Delivered(oks: seq<set<nat>>, log: seq<Batch>, rest: map<string, string>, a: string, v: nat,
                            args: Option<(string, string)>) {
    && (forall i :: 0 <= i < |log| ==>
          TellsAt(log[i], v) == if exists j :: 0 <= j < i && j < |oks| && v in oks[j] then None else args)
    && Told(log, v) == args
    && (args.Some? ==> log != [] && (a in rest <==> forall j :: 0 <= j < |oks| ==> v !in oks[j]))
  }

  lemma FirstAttempt(cmds: map<string, string>, oks: set<nat>, a: string, v: nat)
    requires Int64StrIpv4(v) == a && StrIpv4Int64(a) == Some(v) && Alone(cmds, a, v)
    ensures var batch := BatchOf(Ordered(cmds.Keys), cmds);
            var left := cmds - Acked(batch, oks);
            && TellsAt(batch, v) == ArgsFor(cmds, a) && Alone(left, a, v)
            && ArgsFor(left, a) == (if v in oks then None else ArgsFor(cmds, a))
            && (ArgsFor(cmds, a).Some? ==> (a in left <==> v !in oks))
  {
    var order := Ordered(cmds.Keys);
    ListsMembers(order, cmds.Keys);
    BatchIs(order, cmds, a, v);
    BatchBound(order, cmds);
    AckedIs(BatchOf(order, cmds), oks, a, v);
  }

  lemma DeliveredNext(oks: seq<set<nat>>, batch: Batch, log: seq<Batch>, rest: map<string, string>, a: string, v: nat,
                      args: Option<(string, string)>)
    requires oks != [] && TellsAt(batch, v) == args
    requires Delivered(oks[1..], log, rest, a, v, if v in oks[0] then None else args)
    requires args.Some? && v in oks[0] ==> a !in rest
    ensures Delivered(oks, [batch] + log, rest, a, v, args)
  {
    var log' := [batch] + log;
    assert log'[1..] == log;
    forall i | 0 <= i < |log'|
      ensures TellsAt(log'[i], v) == if exists j :: 0 <= j < i && j < |oks| && v in oks[j] then None else args
    {
      if i > 0 {
        assert log'[i] == log[i - 1];
        assert forall j :: 0 <= j < |oks[1..]| ==> oks[1..][j] == oks[j + 1];
        assert forall j :: 0 < j < |oks| ==> oks[j] == oks[1..][j - 1];
      }
    }
    assert forall j :: 0 < j < |oks| ==> oks[j] == oks[1..][j - 1];
    assert forall j :: 0 <= j < |oks[1..]| ==> oks[1..][j] == oks[j + 1];
  }

  lemma DeliveredLast(oks: seq<set<nat>>, batch: Batch, rest: map<string, string>, a: string, v: nat,
                      args: Option<(string, string)>)
    requires oks != [] && TellsAt(batch, v) == args
    requires args.Some? ==> (a in rest <==> v !in oks[0])
    requires rest == map[] || |oks| == 1
    ensures Delivered(oks, [batch], rest, a, v, args)
  {
    assert Told([batch], v) == TellsAt(batch, v);
  }

  /** do_slaveof_cmd reaches every address that survives the way to a number and back. */
  lemma {:induction false} SentIsDelivered(cmds: map<string, string>, oks: seq<set<nat>>, a: string, v: nat)
    requires oks != [] && Int64StrIpv4(v) == a && StrIpv4Int64(a) == Some(v) && Alone(cmds, a, v)
    ensures Delivered(oks, Sent(cmds, oks).0, Sent(cmds, oks).1, a, v, ArgsFor(cmds, a))
    decreases |oks|
  {
    var batch := BatchOf(Ordered(cmds.Keys), cmds);
    var left := cmds - Acked(batch, oks[0]);
    FirstAttempt(cmds, oks[0], a, v);
    if batch == map[] {
      assert ArgsFor(cmds, a) == None;
    } else if left == map[] || |oks| == 1 {
      DeliveredLast(oks, batch, left, a, v, ArgsFor(cmds, a));
    } else {
      SentIsDelivered(left, oks[1..], a, v);
      LeftOnly(left, oks[1..]);
      DeliveredNext(oks, batch, Sent(left, oks[1..]).0, Sent(left, oks[1..]).1, a, v, ArgsFor(cmds, a));
    }
  }

  lemma {:induction false} LeftOnly(cmds: map<string, string>, oks: seq<set<nat>>)
    requires oks != []
    ensures Sent(cmds, oks).1.Keys <= cmds.Keys
    decreases |oks|
  {
    var batch := BatchOf(Ordered(cmds.Keys), cmds);
    var left := cmds - Acked(batch, oks[0]);
    if batch != map[] && left != map[] && |oks| > 1 { LeftOnly(left, oks[1..]); }
  }
}

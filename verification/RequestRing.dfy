/** The state that RedisEvent keeps about commands in flight: the ring of slots,
    the timeout multimap, and the argument objects. Every function is one body that
    runs under the global mutex. */
module RequestRing {
  import opened Options

  const CUR_CALL_NUM := 1000000
  const ARGV_MAX_LEN := 2048
  const SIZE_T := 0x1_0000_0000_0000_0000

  /** A reply: whether it is a Redis error, and its payload. */
  datatype Reply = Reply(isError: bool, payload: string)

  datatype Kind = Sync | Async

  /** cflag_t: replies to come, and the request whose argument object `d_` points to. */
  datatype Slot = Slot(f: int, d: Option<nat>)

  const IDLE := Slot(0, None)

  /** cmd_async_arg_t, or the cmd_arg_t on the stack of a synchronous caller. `woken`
      is the notification of the latter; `slot` is the caller's own pointer `cf`. */
  datatype Arg = Arg(kind: Kind, slot: nat, rv: map<nat, Reply>, err: map<nat, Reply>,
                     callback: bool, deadline: real, woken: bool)

  /** An entry of AsynReqCheck::req_. `owner` is bookkeeping the code does not have. */
  datatype Timer = Timer(stamp: real, slot: nat, owner: nat)

  /** What hiredis holds for a request: the slot pointer, which callback function,
      and the addresses that have not answered. */
  datatype Sent = Sent(slot: nat, kind: Kind, unanswered: set<nat>)

  /** One run of a user callback. */
  datatype Call = Call(owner: nat, rv: map<nat, Reply>, timedOut: bool)

  /** Requests are numbered in the order of get_cf; `count` is the next number.
      `wild` records that a body used an argument object that does not exist or has
      the other type. */
  datatype State = State(idx: nat, slots: seq<Slot>, timers: seq<Timer>, args: map<nat, Arg>,
                         sent: map<nat, Sent>, log: seq<Call>, count: nat, wild: bool)

  datatype Conn = Missing | NotReady | Ready(accepts: bool)

  /** One entry of addr_cmd: how many arguments, and how its connection stands. */
  datatype Target = Target(addr: nat, argc: nat, conn: Conn)

  predicate IsSent(t: Target) {
    t.argc < ARGV_MAX_LEN && t.conn == Ready(true)
  }

  function SentTo(targets: seq<Target>): set<nat> {
    set t | t in targets && IsSent(t) :: t.addr
  }

  /** The entries whose command hiredis accepts: fewer than 2048 arguments, on a connection that is
      ready and does not return an error. */
  function Accepted(targets: seq<Target>): set<nat> {
    set k: nat | k < |targets| && targets[k].argc < 2048 && targets[k].conn == Ready(true)
  }

  lemma AcceptedMore(front: seq<Target>, t: Target)
    ensures Accepted(front + [t]) ==
              Accepted(front) + if t.argc < 2048 && t.conn == Ready(true) then {|front|} else {}
    ensures |front| !in Accepted(front)
  {
    var all := front + [t];
    forall k: nat
      ensures k in Accepted(all) <==>
                k in Accepted(front) || (k == |front| && t.argc < 2048 && t.conn == Ready(true))
    {
      if k < |front| { assert all[k] == front[k]; }
    }
  }

  lemma SentMore(front: seq<Target>, t: Target)
    ensures SentTo(front + [t]) == SentTo(front) + if t.argc < 2048 && t.conn == Ready(true) then {t.addr} else {}
  {
    assert IsSent(t) <==> t.argc < 2048 && t.conn == Ready(true);
    assert forall x :: x in front + [t] <==> x in front || x == t;
  }

  /** As many addresses are sent to as entries are accepted. */
  lemma {:induction false} SentAreAccepted(targets: seq<Target>)
    requires forall i, j :: 0 <= i < j < |targets| ==> targets[i].addr != targets[j].addr
    ensures |SentTo(targets)| == |Accepted(targets)|
  {
    if targets == [] {
      assert SentTo(targets) == {} && Accepted(targets) == {};
    } else {
      var n := |targets| - 1;
      SentAreAccepted(targets[..n]);
      OneMoreSent(targets[..n], targets[n]);
      assert targets == targets[..n] + [targets[n]];
    }
  }

  lemma OneMoreSent(front: seq<Target>, t: Target)
    requires forall i :: 0 <= i < |front| ==> front[i].addr != t.addr
    requires |SentTo(front)| == |Accepted(front)|
    ensures |SentTo(front + [t])| == |Accepted(front + [t])|
  {
    AcceptedMore(front, t);
    SentMore(front, t);
    assert t.addr !in SentTo(front);
  }

  function NextIdx(idx: nat): nat {
    var i := (idx + 1) % SIZE_T;
    if i >= CUR_CALL_NUM then 0 else i
  }

  /** multimap::insert: after the entries with the same or an earlier stamp. */
  function InsertTimer(ts: seq<Timer>, t: Timer): seq<Timer> {
    if ts == [] || t.stamp < ts[0].stamp then [t] + ts else [ts[0]] + InsertTimer(ts[1..], t)
  }

  /** AsynReqCheck::erase: the first entry with this stamp and slot. */
  function EraseTimer(ts: seq<Timer>, stamp: real, slot: nat): seq<Timer> {
    if ts == [] then []
    else if ts[0].stamp == stamp && ts[0].slot == slot then ts[1..]
    else [ts[0]] + EraseTimer(ts[1..], stamp, slot)
  }

  /** RedisEvent::cmd_async. Without a live connection the callback runs at once and
      the timer entry stays. */
  function IssueAsync(s: State, targets: seq<Target>, callback: bool, now: real, timeout: real): State
    requires NextIdx(s.idx) < |s.slots|
  {
    if targets == [] then s
    else
      var m, i, to := s.count, NextIdx(s.idx), SentTo(targets);
      var arg := Arg(Async, i, map[], map[], callback, now + timeout, false);
      var s1 := s.(idx := i, count := m + 1, timers := InsertTimer(s.timers, Timer(now + timeout, i, m)));
      if to != {} then
        s1.(slots := s.slots[i := Slot(|to|, Some(m))], args := s.args[m := arg],
            sent := s.sent[m := Sent(i, Async, to)])
      else if callback then s1.(log := s.log + [Call(m, map[], false)])
      else s1.(args := s.args[m := arg])
  }

  /** RedisEvent::cmd up to the wait. With nothing sent the caller does not wait. */
  function IssueSync(s: State, targets: seq<Target>): State
    requires NextIdx(s.idx) < |s.slots|
  {
    if targets == [] then s
    else
      var m, i, to := s.count, NextIdx(s.idx), SentTo(targets);
      var arg := Arg(Sync, i, map[], map[], false, 0.0, to == {});
      var s1 := s.(idx := i, count := m + 1, args := s.args[m := arg]);
      if to != {} then s1.(slots := s.slots[i := Slot(|to|, Some(m))], sent := s.sent[m := Sent(i, Sync, to)])
      else s1
  }

  /** What cmd_async leaves behind: request `m` waits for exactly the addresses whose command was
      accepted, and its slot counts them. If there are none, nothing waits, and the callback has
      been run at once with nothing. */
  lemma AsyncWaits(s: State, targets: seq<Target>, callback: bool, now: real, timeout: real, a: nat)
    requires NextIdx(s.idx) < |s.slots| && targets != [] && s.count !in s.sent
    requires forall i, j :: 0 <= i < j < |targets| ==> targets[i].addr != targets[j].addr
    ensures var s', m, n := IssueAsync(s, targets, callback, now, timeout), s.count, |Accepted(targets)|;
            && (m in s'.sent && a in s'.sent[m].unanswered <==>
                  exists t :: t in targets && t.addr == a && t.argc < 2048 && t.conn == Ready(true))
            && (n > 0 ==> m in s'.sent && s'.slots == s.slots[NextIdx(s.idx) := Slot(n, Some(m))] && s'.log == s.log)
            && (n == 0 ==> s'.sent == s.sent && s'.slots == s.slots)
            && (n == 0 ==> s'.log == if callback then s.log + [Call(m, map[], false)] else s.log)
  {
    SentAreAccepted(targets);
    AcceptedAddr(targets, a);
  }

  /** The same for cmd, whose caller need not wait if there are none. */
  lemma SyncWaits(s: State, targets: seq<Target>, a: nat)
    requires NextIdx(s.idx) < |s.slots| && targets != [] && s.count !in s.sent
    requires forall i, j :: 0 <= i < j < |targets| ==> targets[i].addr != targets[j].addr
    ensures var s', m, n := IssueSync(s, targets), s.count, |Accepted(targets)|;
            && (m in s'.sent && a in s'.sent[m].unanswered <==>
                  exists t :: t in targets && t.addr == a && t.argc < 2048 && t.conn == Ready(true))
            && (n > 0 ==> m in s'.sent && s'.slots == s.slots[NextIdx(s.idx) := Slot(n, Some(m))])
            && (n == 0 ==> s'.sent == s.sent && s'.slots == s.slots)
            && m in s'.args && (s'.args[m].woken <==> n == 0)
  {
    SentAreAccepted(targets);
    AcceptedAddr(targets, a);
  }

  lemma AcceptedAddr(targets: seq<Target>, a: nat)
    ensures a in SentTo(targets) <==>
              exists t :: t in targets && t.addr == a && t.argc < 2048 && t.conn == Ready(true)
    ensures SentTo(targets) == {} <==> |SentTo(targets)| == 0
  {
    if t :| t in targets && t.addr == a && t.argc < 2048 && t.conn == Ready(true) {
      assert IsSent(t);
    }
  }

  /** The last steps of an asynchronous request whose slot has just been reset. */
  function RunCallback(s: State, m: nat, timedOut: bool): State
    requires m in s.args
  {
    if s.args[m].callback
    then s.(log := s.log + [Call(m, s.args[m].rv, timedOut)], args := s.args - {m})
    else s
  }

  /** redis_cmd_async_cb. A null reply (disconnect) only counts down. */
  function AsyncCb(s: State, i: nat, addr: nat, r: Option<Reply>): State
    requires i < |s.slots|
  {
    var c := s.slots[i];
    if c.f == 0 || c.d.None? then s
    else
      var m := c.d.value;
      if m !in s.args || s.args[m].kind != Async then s.(wild := true)
      else
        var arg := if r.Some? then s.args[m].(rv := s.args[m].rv[addr := r.value]) else s.args[m];
        var c' := if c.f - 1 == 0 then IDLE else c.(f := c.f - 1);
        var s1 := s.(slots := s.slots[i := c'], args := s.args[m := arg]);
        if c'.f == 0
        then RunCallback(s1.(timers := EraseTimer(s.timers, arg.deadline, i)), m, false)
        else s1
  }

  /** redis_cmd_cb, with redisrp_redisrvs: errors are kept apart from results. */
  function SyncCb(s: State, i: nat, addr: nat, r: Option<Reply>): State
    requires i < |s.slots|
  {
    var c := s.slots[i];
    if c.f == 0 || c.d.None? then s
    else
      var m := c.d.value;
      if m !in s.args || s.args[m].kind != Sync then s.(wild := true)
      else
        var arg := if r.None? then s.args[m]
                   else if r.value.isError then s.args[m].(err := s.args[m].err[addr := r.value])
                   else s.args[m].(rv := s.args[m].rv[addr := r.value]);
        var c' := if c.f - 1 == 0 then IDLE else c.(f := c.f - 1);
        s.(slots := s.slots[i := c'], args := s.args[m := if c'.f == 0 then arg.(woken := true) else arg])
  }

  /** hiredis fires the callback it holds for request `m` and address `addr`. */
  function Answer(s: State, m: nat, addr: nat, r: Option<Reply>): State
    requires m in s.sent && s.sent[m].slot < |s.slots|
  {
    var h := s.sent[m];
    var s1 := s.(sent := s.sent[m := h.(unanswered := h.unanswered - {addr})]);
    if h.kind.Async? then AsyncCb(s1, h.slot, addr, r) else SyncCb(s1, h.slot, addr, r)
  }

  /** One round of the loop in timeout_callback. */
  function ExpireFirst(s: State): State
    requires s.timers != [] && s.timers[0].slot < |s.slots|
  {
    var i := s.timers[0].slot;
    var c := s.slots[i];
    var s1 := s.(timers := s.timers[1..]);
    if c.f == 0 || c.d.None? then s1
    else
      var m := c.d.value;
      if m !in s.args || s.args[m].kind != Async then s1.(wild := true)
      else RunCallback(s1.(slots := s.slots[i := IDLE]), m, true)
  }

  ghost predicate TimersInRange(s: State) {
    forall k :: 0 <= k < |s.timers| ==> s.timers[k].slot < |s.slots|
  }

  /** AsynReqCheck::timeout_callback. */
  function Expire(s: State, now: real): State
    requires TimersInRange(s)
    decreases |s.timers|
  {
    if s.timers == [] || !(now > s.timers[0].stamp) then s else Expire(ExpireFirst(s), now)
  }

  /** A synchronous caller leaves the wait; after a timeout it resets its slot. */
  function Leave(s: State, m: nat, timedOut: bool): State
    requires m in s.args && s.args[m].slot < |s.slots|
  {
    var s1 := s.(args := s.args - {m});
    if timedOut then s1.(slots := s.slots[s.args[m].slot := IDLE]) else s1
  }

  // ----- the class -----

  /** RedisEvent together with its userdata_t and AsynReqCheck. `args`, `sent`, `log`
      and `count` stand for the heap and for hiredis. */
  class RedisEvent {
    var idx: nat
    const cfg: array<Slot>
    var req: seq<Timer>
    var args: map<nat, Arg>
    var sent: map<nat, Sent>
    var log: seq<Call>
    var count: nat
    var wild: bool

    function Abs(): State
      reads this, cfg
    {
      State(idx, cfg[..], req, args, sent, log, count, wild)
    }

    /** The constructor leaves idx_ uninitialised. */
    constructor (idx: nat)
      ensures fresh(cfg)
      ensures Abs() == Initial(idx)
    {
      this.idx := idx;
      cfg := new Slot[CUR_CALL_NUM](_ => IDLE);
      req, args, sent, log, count, wild := [], map[], map[], [], 0, false;
      new;
      assert cfg[..] == Initial(idx).slots;
    }

    method GetCf() returns (i: nat)
      requires cfg.Length == CUR_CALL_NUM
      modifies this`idx
      ensures idx == i == NextIdx(old(idx)) < cfg.Length
    {
      idx := (idx + 1) % SIZE_T;
      if idx >= CUR_CALL_NUM {
        idx := 0;
      }
      i := idx;
    }

    /** The sending loop shared by cmd and cmd_async. */
    method SendAll(targets: seq<Target>) returns (wsz: nat, to: set<nat>)
      requires forall i, j :: 0 <= i < j < |targets| ==> targets[i].addr != targets[j].addr
      ensures to == SentTo(targets) && wsz == |to| == |Accepted(targets)|
      ensures forall a :: a in to <==> exists t :: t in targets && t.addr == a && t.argc < 2048 && t.conn == Ready(true)
    {
      wsz, to := 0, {};
      var k := 0;
      while k < |targets|
        invariant 0 <= k <= |targets|
        invariant to == SentTo(targets[..k]) && wsz == |to|
      {
        var t := targets[k];
        assert targets[..k + 1] == targets[..k] + [t];
        assert t.addr !in to;
        if t.argc >= ARGV_MAX_LEN {
        } else if t.conn.Missing? {
        } else if t.conn.Ready? {
          if t.conn.accepts {
            wsz, to := wsz + 1, to + {t.addr};
          }
        }
        k := k + 1;
      }
      assert targets[..k] == targets;
      SentAreAccepted(targets);
      forall a
        ensures a in to <==> exists t :: t in targets && t.addr == a && t.argc < 2048 && t.conn == Ready(true)
      {
        AcceptedAddr(targets, a);
      }
    }

    /** RedisEvent::cmd_async. */
    method CmdAsync(targets: seq<Target>, callback: bool, now: real, timeout: real)
      requires cfg.Length == CUR_CALL_NUM && count !in args
      requires forall i, j :: 0 <= i < j < |targets| ==> targets[i].addr != targets[j].addr
      modifies this, cfg
      ensures Abs() == IssueAsync(old(Abs()), targets, callback, now, timeout)
    {
      if targets == [] { return; }
      var tmout := now + timeout;
      var m := count;
      count := count + 1;
      args := args[m := Arg(Async, NextIdx(idx), map[], map[], callback, tmout, false)];
      var cf := GetCf();
      req := InsertTimer(req, Timer(tmout, cf, m));
      var wsz, to := SendAll(targets);
      if wsz > 0 {
        sent := sent[m := Sent(cf, Async, to)];
        cfg[cf] := Slot(wsz, Some(m));
      } else if callback {
        log := log + [Call(m, args[m].rv, false)];
        args := args - {m};
      }
    }

    /** RedisEvent::cmd up to the wait; the argument object is on the caller's stack. */
    method Cmd(targets: seq<Target>)
      requires cfg.Length == CUR_CALL_NUM
      requires forall i, j :: 0 <= i < j < |targets| ==> targets[i].addr != targets[j].addr
      modifies this, cfg
      ensures Abs() == IssueSync(old(Abs()), targets)
    {
      if targets == [] { return; }
      var m := count;
      count := count + 1;
      var cf := GetCf();
      var wsz, to := SendAll(targets);
      args := args[m := Arg(Sync, cf, map[], map[], false, 0.0, wsz == 0)];
      if wsz > 0 {
        sent := sent[m := Sent(cf, Sync, to)];
        cfg[cf] := Slot(wsz, Some(m));
      }
    }

    /** RedisEvent::cmd after the wait. */
    method CmdDone(m: nat, isTimeout: bool)
      requires m in args && args[m].slot < cfg.Length
      modifies this`args, cfg
      ensures Abs() == Leave(old(Abs()), m, isTimeout)
    {
      if isTimeout {
        cfg[args[m].slot] := IDLE;
      }
      args := args - {m};
    }

    /** AsynReqCheck::erase. */
    method Erase(stamp: real, slot: nat)
      modifies this`req
      ensures req == EraseTimer(old(req), stamp, slot)
    {
      var k := 0;
      while k < |req|
        invariant 0 <= k <= |req| && req == old(req)
        invariant EraseTimer(req, stamp, slot) == req[..k] + EraseTimer(req[k..], stamp, slot)
      {
        if req[k].stamp == stamp && req[k].slot == slot {
          req := req[..k] + req[k + 1..];
          return;
        }
        assert req[..k + 1] == req[..k] + [req[k]] && req[k..][1..] == req[k + 1..];
        k := k + 1;
      }
      assert req[..k] == req;
    }

    /** redis_cmd_async_cb, fired by hiredis for address `addr` of request `owner`. */
    method RedisCmdAsyncCb(owner: nat, addr: nat, reply: Option<Reply>)
      requires owner in sent && sent[owner].kind == Async && sent[owner].slot < cfg.Length
      modifies this, cfg
      ensures Abs() == Answer(old(Abs()), owner, addr, reply)
    {
      var cf := sent[owner].slot;
      sent := sent[owner := sent[owner].(unanswered := sent[owner].unanswered - {addr})];
      if cfg[cf].f == 0 || cfg[cf].d.None? { return; }
      var carg := cfg[cf].d.value;
      if carg !in args || args[carg].kind != Async {
        wild := true;
        return;
      }
      cfg[cf] := cfg[cf].(f := cfg[cf].f - 1);
      if cfg[cf].f == 0 {
        cfg[cf] := IDLE;
      }
      if reply.Some? {
        args := args[carg := args[carg].(rv := args[carg].rv[addr := reply.value])];
      }
      if cfg[cf].f == 0 {
        Erase(args[carg].deadline, cf);
        if args[carg].callback {
          log := log + [Call(carg, args[carg].rv, false)];
          args := args - {carg};
        }
      }
    }

    /** redis_cmd_cb. */
    method RedisCmdCb(owner: nat, addr: nat, reply: Option<Reply>)
      requires owner in sent && sent[owner].kind == Sync && sent[owner].slot < cfg.Length
      modifies this, cfg
      ensures Abs() == Answer(old(Abs()), owner, addr, reply)
    {
      var cf := sent[owner].slot;
      sent := sent[owner := sent[owner].(unanswered := sent[owner].unanswered - {addr})];
      if cfg[cf].f == 0 || cfg[cf].d.None? { return; }
      var carg := cfg[cf].d.value;
      if carg !in args || args[carg].kind != Sync {
        wild := true;
        return;
      }
      cfg[cf] := cfg[cf].(f := cfg[cf].f - 1);
      if cfg[cf].f == 0 {
        cfg[cf] := IDLE;
      }
      if reply.Some? {
        if !reply.value.isError {
          args := args[carg := args[carg].(rv := args[carg].rv[addr := reply.value])];
        } else {
          args := args[carg := args[carg].(err := args[carg].err[addr := reply.value])];
        }
      }
      if cfg[cf].f == 0 {
        args := args[carg := args[carg].(woken := true)];
      }
    }

    /** AsynReqCheck::timeout_callback. */
    method TimeoutCallback(stamp: real)
      requires TimersInRange(Abs())
      modifies this, cfg
      ensures Abs() == Expire(old(Abs()), stamp)
    {
      while req != []
        invariant TimersInRange(Abs())
        invariant Expire(Abs(), stamp) == Expire(old(Abs()), stamp)
        decreases |req|
      {
        if !(stamp > req[0].stamp) { break; }
        ghost var before := Abs();
        var cf := req[0].slot;
        req := req[1..];
        if cfg[cf].f == 0 || cfg[cf].d.None? {
        } else {
          var carg := cfg[cf].d.value;
          if carg !in args || args[carg].kind != Async {
            wild := true;
          } else {
            cfg[cf] := IDLE;
            if args[carg].callback {
              log := log + [Call(carg, args[carg].rv, true)];
              args := args - {carg};
            }
          }
        }
        assert Abs() == ExpireFirst(before);
      }
    }
  }

  function Initial(idx: nat): State {
    State(idx, seq(CUR_CALL_NUM, _ => IDLE), [], map[], map[], [], 0, false)
  }
}

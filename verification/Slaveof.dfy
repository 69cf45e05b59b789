/** The slaveof setting of a Redis: how the controller reads it and how it changes it. */
module Slaveof {
  import opened Options
  import opened Decimal
  import opened Text
  import opened Address

  /** RedisCtrl::ip_port: "ip port" as "ip:port". */
  function IpPort(addr: string): string {
    if addr == "" then ""
    else
      var first, last := Find(addr, " ", 0), FindLast(addr, ' ');
      if first < 0 || last < 0 then "ERRORADDR" else addr[..first] + ":" + addr[last + 1..]
  }

  // ----- SLAVEOF commands -----

  const NO_ONE := "NO:ONE"

  /** The command for one address, given what it is a slave of now. */
  function CmdFor(addr: string, master: string, slaveof: string): Option<string> {
    if addr == master then (if slaveof != "" then Some(NO_ONE) else None)
    else if slaveof != master then Some(master)
    else None
  }

  /** The arguments that do_slaveof_cmd sends for a command, if it sends one. */
  function SlaveofArgs(target: string): Option<(string, string)> {
    if target == NO_ONE then Some(("NO", "ONE"))
    else
      match StrIpv4(target)
      case None => None
      case Some((ip, port)) => Some((ip, OfInt(port)))
  }

  /** What CONFIG GET slaveof says once SLAVEOF has taken effect. */
  function ConfigAfter(args: (string, string)): string {
    if args == ("NO", "ONE") then "" else args.0 + " " + args.1
  }

  /** What the controller reads once the command, if there is one, has taken effect. */
  function AfterCmd(cmd: Option<string>, slaveof: string): string {
    if cmd.None? || SlaveofArgs(cmd.value).None? then slaveof
    else IpPort(ConfigAfter(SlaveofArgs(cmd.value).value))
  }

  /** The port is written the way it is printed, and the host has no blank. */
  predicate Canonical(addr: string) {
    var pos := Find(addr, ":", 0);
    && AddrOk(addr)
    && (forall i :: 0 <= i < pos ==> addr[i] != ' ')
    && addr[pos + 1..] == OfInt(Atoi(addr[pos + 1..]))
  }

  /** SLAVEOF NO ONE is read back as no master. */
  lemma NoOneReadsEmpty(slaveof: string)
    ensures AfterCmd(Some(NO_ONE), slaveof) == ""
  {
  }

  lemma NoOneIsNoAddress()
    ensures !AddrOk(NO_ONE)
  {
    FindSkips(NO_ONE, ':', 0, 2);
    assert NO_ONE[2..3] == ":" && NO_ONE[3..] == "ONE";
    assert Atoi("ONE") == 0;
  }

  lemma StartsAt(host: string, middle: string, port: string)
    ensures var config := host + " " + middle + " " + port;
            config[..|host|] == host && config[|host|] == ' '
  {
  }

  lemma BlanksAround(host: string, port: string, config: string, front: string)
    requires forall i :: 0 <= i < |host| ==> host[i] != ' '
    requires forall i :: 0 <= i < |port| ==> port[i] != ' '
    requires config == front + " " + port && |host| < |config| && config[..|host|] == host && config[|host|] == ' '
    ensures IpPort(config) == host + ":" + port
  {
    assert config[|host|..|host| + 1] == " ";
    FindSkips(config, ' ', 0, |host|);
    assert config == front + [' '] + port;
    LastIs(front, ' ', port);
    assert config[|front| + 1..] == port;
  }

  /** The setting "host port" is read as "host:port", whatever stands between two blanks; none
      as none, and a text without a blank as an error. */
  lemma IpPortExactly(host: string, middle: string, port: string)
    requires forall i :: 0 <= i < |host| ==> host[i] != ' '
    requires forall i :: 0 <= i < |port| ==> port[i] != ' '
    ensures IpPort(host + " " + port) == host + ":" + port
    ensures IpPort(host + " " + middle + " " + port) == host + ":" + port
    ensures IpPort(host) == if host == "" then "" else "ERRORADDR"
  {
    BlanksAround(host, port, host + " " + port, host);
    var front := host + " " + middle;
    StartsAt(host, middle, port);
    BlanksAround(host, port, front + " " + port, front);
  }

  lemma ReadsBack(ip: string, text: string)
    requires ip != "" && forall i :: 0 <= i < |text| ==> text[i] != ' '
    ensures (forall i :: 0 <= i < |ip| ==> ip[i] != ' ') ==> IpPort(ip + " " + text) == ip + ":" + text
    ensures forall i :: 0 <= i < |ip| && ip[i] == ' ' ==>
              var p := IpPort(ip + " " + text); exists j :: 0 <= j < |ip| && j < |p| && p[j] == ':'
  {
    var config := ip + " " + text;
    assert config == ip + [' '] + text;
    LastIs(ip, ' ', text);
    assert config[|ip| + 1..] == text && config[..|ip|] == ip;
    if i :| 0 <= i < |ip| && ip[i] == ' ' {
      FindFrom(config, 0, i);
      var first := Find(config, " ", 0);
      assert IpPort(config) == config[..first] + ":" + text;
      assert IpPort(config)[first] == ':';
    } else {
      BlanksAround(ip, text, config, ip);
    }
  }

  /** A master is read back as it was commanded exactly when it is canonical. */
  lemma TakesHold(master: string, slaveof: string)
    requires AddrOk(master)
    ensures AfterCmd(Some(master), slaveof) == master <==> Canonical(master)
    ensures master != NO_ONE
  {
    NoOneIsNoAddress();
    var (ip, port) := StrIpv4(master).value;
    AfterSlaveof(master, ip, port, slaveof);
    AddressParts(master);
    OfIntNoBlank(port);
    ReadsBackAs(ip, master[|ip| + 1..], OfInt(port));
  }

  lemma AfterSlaveof(target: string, ip: string, port: int, slaveof: string)
    requires StrIpv4(target) == Some((ip, port)) && target != NO_ONE
    ensures AfterCmd(Some(target), slaveof) == IpPort(ip + " " + OfInt(port))
  {
    OfIntNotOne(port);
  }

  lemma AddressParts(addr: string)
    requires AddrOk(addr)
    ensures var (ip, port) := StrIpv4(addr).value;
            && ip != "" && |ip| == Find(addr, ":", 0) && addr == ip + ":" + addr[|ip| + 1..]
            && port == Atoi(addr[|ip| + 1..])
            && forall i :: 0 <= i < |ip| ==> ip[i] != ':' && ip[i] == addr[i]
  {
    var (ip, port) := StrIpv4(addr).value;
    forall i | 0 <= i < |ip|
      ensures ip[i] == addr[i] && ip[i] != ':'
    {
      FirstColon(addr, i);
    }
  }

  // ----- texts -----

  lemma ReadsBackAs(ip: string, port: string, text: string)
    requires ip != "" && (forall i :: 0 <= i < |ip| ==> ip[i] != ':') && forall i :: 0 <= i < |text| ==> text[i] != ' '
    ensures IpPort(ip + " " + text) == ip + ":" + port <==> port == text && forall i :: 0 <= i < |ip| ==> ip[i] != ' '
  {
    ReadsBack(ip, text);
    var addr := ip + ":" + port;
    if i :| 0 <= i < |ip| && ip[i] == ' ' {
      var p := IpPort(ip + " " + text);
      var j :| 0 <= j < |ip| && j < |p| && p[j] == ':';
      assert addr[j] == ip[j];
    } else {
      assert addr[|ip| + 1..] == port && (ip + ":" + text)[|ip| + 1..] == text;
    }
  }

  lemma OfIntNoBlank(n: int)
    ensures forall i :: 0 <= i < |OfInt(n)| ==> OfInt(n)[i] != ' '
  {
    forall i | 0 <= i < |OfInt(n)|
      ensures OfInt(n)[i] != ' '
    {
      OfIntChars(n, i);
    }
  }

  lemma OfIntNotOne(n: int)
    ensures OfInt(n) != "ONE"
  {
    if n < 0 { assert OfInt(n)[0] == '-'; } else { DigitAt(OfNat(n), 0); }
  }

  /** A blank at `j` is found no later. */
  lemma {:induction false} FindFrom(s: string, from: nat, j: nat)
    requires from <= j < |s| && s[j] == ' '
    ensures from <= Find(s, " ", from) <= j
    decreases j - from
  {
    assert s[from..from + 1] == [s[from]];
    if s[from] != ' ' { FindFrom(s, from + 1, j); }
  }

  lemma {:induction false} NoColonBefore(s: string, from: nat, i: nat)
    requires from <= i < Find(s, ":", from)
    ensures s[i] != ':'
    decreases i - from
  {
    assert s[from..from + 1] == [s[from]];
    if from < i { NoColonBefore(s, from + 1, i); }
  }

  lemma FirstColon(s: string, i: nat)
    requires i < Find(s, ":", 0)
    ensures s[i] != ':'
  {
    NoColonBefore(s, 0, i);
  }
}

/** Addresses as the controller and the client read them. */
module Address {
  import opened Options
  import opened Decimal
  import opened Text

  const INT_LIMIT := 0x8000_0000

  /** The leading digits of a string. */
  function LeadingDigits(s: string): (d: string)
    ensures |d| <= |s| && d == s[..|d|] && AllDigits(d)
    ensures |d| < |s| ==> !IsDigit(s[|d|])
  {
    if s == "" || !IsDigit(s[0]) then ""
    else
      DigitsCons(s[0], LeadingDigits(s[1..]));
      [s[0]] + LeadingDigits(s[1..])
  }

  predicate IsSpace(c: char) { c == ' ' || '\t' <= c <= '\r' }

  /** atoi: leading white space, a sign, digits; anything after them is ignored. */
  function Atoi(s: string): int
    decreases |s|
  {
    if s == "" then 0
    else if IsSpace(s[0]) then Atoi(s[1..])
    else if s[0] == '-' then 0 - ValueOf(LeadingDigits(s[1..]))
    else if s[0] == '+' then ValueOf(LeadingDigits(s[1..]))
    else ValueOf(LeadingDigits(s))
  }

  /** str_ipv4: the text before the first ':' and the number after it. */
  function StrIpv4(addr: string): Option<(string, int)> {
    var pos := Find(addr, ":", 0);
    if pos < 0 then None
    else
      var ip, port := addr[..pos], Atoi(addr[pos + 1..]);
      if port == 0 || ip == "" then None else Some((ip, port))
  }

  /** RedisCtrl::isvalid_addr. */
  predicate AddrOk(addr: string) { StrIpv4(addr).Some? }
}

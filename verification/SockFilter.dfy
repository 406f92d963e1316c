/**
  The accelerator's filter: white and black lists of addresses, ports, users
  and groups.  The loops with their flipped flags mean one declarative rule.
 */
module SockFilter {
  import opened Options
  import opened SockKeys

  const MAX_PARAM_LENGTH: nat := 10
  const FILTER_PASS := true
  const FILTER_RETURN := false

  /** A fixed-size rule table and how many of its rows are configured. */
  datatype Rules<T> = Rules(num: nat, rows: seq<T>)

  /** Addresses and masks of a rule are in host order. */
  datatype Cidr = Cidr(ip: bv32, mask: bv32)

  datatype PortRange = PortRange(first: nat, last: nat)

  datatype Ids = Ids(uid: nat, gid: nat)

  datatype Params = Params(
    acceptCidrs: Rules<Cidr>, returnCidrs: Rules<Cidr>,
    acceptPorts: Rules<PortRange>, returnPorts: Rules<PortRange>,
    acceptUids: Rules<nat>, returnUids: Rules<nat>,
    acceptGids: Rules<nat>, returnGids: Rules<nat>)

  predicate Sized<T>(r: Rules<T>) { |r.rows| == MAX_PARAM_LENGTH }

  predicate Tables(p: Params) {
    Sized(p.acceptCidrs) && Sized(p.returnCidrs) && Sized(p.acceptPorts) && Sized(p.returnPorts) &&
    Sized(p.acceptUids) && Sized(p.returnUids) && Sized(p.acceptGids) && Sized(p.returnGids)
  }

  /** The rows that count. */
  function Rows<T>(r: Rules<T>): (rows: seq<T>)
    requires Sized(r)
  {
    r.rows[..if r.num < MAX_PARAM_LENGTH then r.num else MAX_PARAM_LENGTH]
  }

  // ---------- single rules

  /** The comparison as coded, in network order. */
  predicate SameNet(ip: bv32, net: bv32, mask: bv32) {
    Swap32(net) & Swap32(mask) == ip & Swap32(mask)
  }

  predicate InCidr(ip: bv32, c: Cidr) {
    SameNet(ip, c.ip, c.mask)
  }

  lemma SwapAnd(a: bv32, b: bv32)
    ensures Swap32(a) & Swap32(b) == Swap32(a & b)
  {
  }

  lemma SwapUnder(a: bv32, b: bv32)
    ensures a & Swap32(b) == Swap32(Swap32(a) & b)
  {
  }

  lemma SwapInjective(a: bv32, b: bv32)
    ensures Swap32(a) == Swap32(b) <==> a == b
  {
  }

  /** In host order the comparison is on the network parts under the mask. */
  lemma HostOrderNet(ip: bv32, net: bv32, mask: bv32)
    ensures SameNet(ip, net, mask) <==> net & mask == Swap32(ip) & mask
  {
    SwapAnd(net, mask);
    SwapUnder(ip, mask);
    SwapInjective(net & mask, Swap32(ip) & mask);
  }

  lemma XorUnder(a: bv32, b: bv32, m: bv32)
    ensures (a ^ b) & m == (a & m) ^ (b & m)
  {
  }

  lemma XorZero(a: bv32, b: bv32)
    ensures a ^ b == 0 <==> a == b
  {
  }

  /** Two addresses agree under a mask iff no bit in which they differ is under it. */
  lemma AgreeUnder(a: bv32, b: bv32, m: bv32)
    ensures a & m == b & m <==> (a ^ b) & m == 0
  {
    XorUnder(a, b, m);
    XorZero(a & m, b & m);
  }

  /** An address is in a range exactly when no differing bit is under the mask. */
  lemma InMask(ip: bv32, net: bv32, mask: bv32)
    ensures InCidr(ip, Cidr(net, mask)) <==> (net ^ Swap32(ip)) & mask == 0
  {
    HostOrderNet(ip, net, mask);
    AgreeUnder(net, Swap32(ip), mask);
  }

  /** The mask of a prefix: that many ones, then zeros. */
  function PrefixMask(length: nat): bv32
    requires length <= 32
  {
    0xFFFF_FFFF << 32 - length
  }

  /** No differing bit under a prefix mask means that only bits behind the prefix differ. */
  lemma PrefixBits(diff: bv32, length: nat)
    requires length <= 32
    ensures diff & PrefixMask(length) == 0 <==> diff >> 32 - length == 0
  {
  }

  /** An address is in a range given by a prefix exactly when the two agree in all bits of the prefix. */
  lemma InPrefix(ip: bv32, net: bv32, length: nat)
    requires length <= 32
    ensures InCidr(ip, Cidr(net, PrefixMask(length))) <==> (net ^ Swap32(ip)) >> 32 - length == 0
  {
    InMask(ip, net, PrefixMask(length));
    PrefixBits(net ^ Swap32(ip), length);
  }

  /** A port of a key, turned back to host order for the comparison. */
  function HostPort(p: bv32): nat { Swap32(p << 16) as nat }

  lemma SwapsCancel(localPort: bv32)
    requires localPort < 0x1_0000
    ensures Swap32(EventSport(localPort) << 16) == localPort
  {
  }

  /** It is the port the socket was bound to. */
  lemma HostPortOfEvent(localPort: bv32)
    requires localPort < 0x1_0000
    ensures HostPort(EventSport(localPort)) == localPort as nat
  {
    SwapsCancel(localPort);
  }

  /** The four ports of the two keys, in host order. */
  function Ports(key: SockKey, peer: SockKey): set<nat> {
    {HostPort(key.sport), HostPort(key.dport), HostPort(peer.sport), HostPort(peer.dport)}
  }

  /** The range includes both of its ends. */
  ghost predicate Inside(port: nat, r: PortRange) { r.first <= port <= r.last }

  ghost predicate PortHit(key: SockKey, peer: SockKey, r: PortRange) {
    exists port :: port in Ports(key, peer) && Inside(port, r)
  }

  lemma OneOfFour(r: PortRange, a: nat, b: nat, c: nat, d: nat)
    ensures (exists x :: x in {a, b, c, d} && Inside(x, r)) <==>
            Inside(a, r) || Inside(b, r) || Inside(c, r) || Inside(d, r)
  {
    assert a in {a, b, c, d} && b in {a, b, c, d} && c in {a, b, c, d} && d in {a, b, c, d};
  }

  predicate IpHit(ip: bv32, cs: seq<Cidr>) { exists i | 0 <= i < |cs| :: InCidr(ip, cs[i]) }

  // ---------- what the filter means

  /** The four addresses of the two keys. */
  function Ips(key: SockKey, peer: SockKey): set<bv32> { {key.sip, key.dip, peer.sip, peer.dip} }

  ghost predicate IpRule(key: SockKey, peer: SockKey, p: Params)
    requires Tables(p)
  {
    (forall ip | ip in Ips(key, peer) :: !IpHit(ip, Rows(p.returnCidrs))) &&
    (p.acceptCidrs.num != 0 ==> forall ip | ip in Ips(key, peer) :: IpHit(ip, Rows(p.acceptCidrs)))
  }

  ghost predicate PortRule(key: SockKey, peer: SockKey, p: Params)
    requires Tables(p)
  {
    (forall r | r in Rows(p.returnPorts) :: !PortHit(key, peer, r)) &&
    (p.acceptPorts.num != 0 ==> exists r :: r in Rows(p.acceptPorts) && PortHit(key, peer, r))
  }

  /** No id on the return list; some id on the accept list if there is one. */
  ghost predicate IdRule(mine: nat, theirs: nat, accept: Rules<nat>, ret: Rules<nat>)
    requires Sized(accept) && Sized(ret)
  {
    mine !in Rows(ret) && theirs !in Rows(ret) &&
    (accept.num != 0 ==> mine in Rows(accept) || theirs in Rows(accept))
  }

  predicate NoIdRules(p: Params) {
    p.acceptUids.num == 0 && p.returnUids.num == 0 && p.acceptGids.num == 0 && p.returnGids.num == 0
  }

  /** own and theirs are what is known of the two processes; None when it cannot be found out. */
  ghost predicate Passes(key: SockKey, peer: SockKey, own: Option<Ids>, theirs: Option<Ids>, p: Params)
    requires Tables(p)
  {
    && IpRule(key, peer, p) && PortRule(key, peer, p)
    && (NoIdRules(p) ||
        (own.Some? && theirs.Some? &&
         IdRule(own.value.uid, theirs.value.uid, p.acceptUids, p.returnUids) &&
         IdRule(own.value.gid, theirs.value.gid, p.acceptGids, p.returnGids)))
  }

  /** Each of the four addresses must be off the return list and, if there is an accept list, on that. */
  lemma EveryAddressCounts(key: SockKey, peer: SockKey, p: Params)
    requires Tables(p)
    ensures IpRule(key, peer, p) <==>
            AddressPasses(key.sip, p) && AddressPasses(key.dip, p) &&
            AddressPasses(peer.sip, p) && AddressPasses(peer.dip, p)
  {
    var all := Ips(key, peer);
    assert key.sip in all && key.dip in all && peer.sip in all && peer.dip in all;
  }

  ghost predicate AddressPasses(ip: bv32, p: Params)
    requires Tables(p)
  {
    !IpHit(ip, Rows(p.returnCidrs)) && (p.acceptCidrs.num != 0 ==> IpHit(ip, Rows(p.acceptCidrs)))
  }

  /** A range of one port is hit by just that port, at either end of the connection. */
  lemma SinglePort(key: SockKey, peer: SockKey, port: nat)
    ensures PortHit(key, peer, PortRange(port, port)) <==>
            port == HostPort(key.sport) || port == HostPort(key.dport) ||
            port == HostPort(peer.sport) || port == HostPort(peer.dport)
  {
    OneOfFour(PortRange(port, port),
              HostPort(key.sport), HostPort(key.dport), HostPort(peer.sport), HostPort(peer.dport));
  }

  /** Unless all four id lists are empty, a connection passes only if the ids of both processes are known. */
  lemma UnknownIdsPassIff(key: SockKey, peer: SockKey, own: Option<Ids>, theirs: Option<Ids>, p: Params)
    requires Tables(p) && (own.None? || theirs.None?)
    ensures Passes(key, peer, own, theirs, p) <==>
            IpRule(key, peer, p) && PortRule(key, peer, p) &&
            p.acceptUids.num == 0 && p.acceptGids.num == 0 && p.returnUids.num == 0 && p.returnGids.num == 0
  {
  }

  /** An id is off the return list; and if there is an accept list, one of the two is on it. */
  lemma OwnersPassIff(key: SockKey, peer: SockKey, own: Ids, theirs: Ids, p: Params)
    requires Tables(p) && IpRule(key, peer, p) && PortRule(key, peer, p)
    ensures Passes(key, peer, Some(own), Some(theirs), p) <==>
            own.uid !in Rows(p.returnUids) && theirs.uid !in Rows(p.returnUids) &&
            own.gid !in Rows(p.returnGids) && theirs.gid !in Rows(p.returnGids) &&
            (p.acceptUids.num == 0 || own.uid in Rows(p.acceptUids) || theirs.uid in Rows(p.acceptUids)) &&
            (p.acceptGids.num == 0 || own.gid in Rows(p.acceptGids) || theirs.gid in Rows(p.acceptGids))
  {
  }

  ghost predicate MoreRows<T>(a: Rules<T>, b: Rules<T>)
    requires Sized(a) && Sized(b)
  {
    (forall x | x in Rows(a) :: x in Rows(b)) && (a.num != 0 ==> b.num != 0)
  }

  /** Adding return rules never turns a rejection into a pass. */
  lemma ReturnRulesOnlyReject(key: SockKey, peer: SockKey, own: Option<Ids>, theirs: Option<Ids>, p: Params, q: Params)
    requires Tables(p) && Tables(q) && q == p.(returnCidrs := q.returnCidrs, returnPorts := q.returnPorts,
                                               returnUids := q.returnUids, returnGids := q.returnGids)
    requires MoreRows(p.returnCidrs, q.returnCidrs) && MoreRows(p.returnPorts, q.returnPorts)
    requires MoreRows(p.returnUids, q.returnUids) && MoreRows(p.returnGids, q.returnGids)
    requires Passes(key, peer, own, theirs, q)
    ensures Passes(key, peer, own, theirs, p)
  {
    forall ip | ip in Ips(key, peer)
      ensures !IpHit(ip, Rows(p.returnCidrs))
    {
      if IpHit(ip, Rows(p.returnCidrs)) {
        var i :| 0 <= i < |Rows(p.returnCidrs)| && InCidr(ip, Rows(p.returnCidrs)[i]);
        assert Rows(p.returnCidrs)[i] in Rows(q.returnCidrs);
        assert IpHit(ip, Rows(q.returnCidrs));
      }
    }
  }

  // ---------- the loops

  method IsAcceptIp(ip: bv32, c: Cidr, flag: bool) returns (r: bool)
    ensures r == flag <==> InCidr(ip, c)
  {
    r := if InCidr(ip, c) then flag else !flag;
  }

  method AdjFilterIp(ip: bv32, rules: Rules<Cidr>, flag: bool) returns (r: bool)
    requires Sized(rules)
    ensures r == flag <==> IpHit(ip, Rows(rules))
  {
    var i := 0;
    while i < MAX_PARAM_LENGTH && i < rules.num
      invariant i <= |Rows(rules)|
      invariant forall j | 0 <= j < i :: !InCidr(ip, Rows(rules)[j])
    {
      var a := IsAcceptIp(ip, rules.rows[i], flag);
      if a == flag {
        assert InCidr(ip, Rows(rules)[i]);
        return flag;
      }
      i := i + 1;
    }
    return !flag;
  }

  method FilterIp(key: SockKey, peer: SockKey, rules: Rules<Cidr>, flag: bool) returns (r: bool)
    requires Sized(rules)
    ensures r == FILTER_PASS <==>
            rules.num == 0 || forall ip | ip in Ips(key, peer) :: (flag == FILTER_PASS <==> IpHit(ip, Rows(rules)))
  {
    if rules.num == 0 { return FILTER_PASS; }
    r := AdjFilterIp(key.sip, rules, flag);
    if r != FILTER_PASS { return FILTER_RETURN; }
    r := AdjFilterIp(key.dip, rules, flag);
    if r != FILTER_PASS { return FILTER_RETURN; }
    r := AdjFilterIp(peer.sip, rules, flag);
    if r != FILTER_PASS { return FILTER_RETURN; }
    r := AdjFilterIp(peer.dip, rules, flag);
  }

  method InRange(port: nat, r: PortRange) returns (a: bool)
    ensures a == Inside(port, r)
  {
    a := r.first <= port && r.last >= port;
  }

  method IsAcceptPort(key: SockKey, peer: SockKey, r: PortRange, flag: bool) returns (a: bool)
    ensures a == flag <==> PortHit(key, peer, r)
  {
    var sport := InRange(HostPort(key.sport), r);
    var dport := InRange(HostPort(key.dport), r);
    var peerSport := InRange(HostPort(peer.sport), r);
    var peerDport := InRange(HostPort(peer.dport), r);
    OneOfFour(r, HostPort(key.sport), HostPort(key.dport), HostPort(peer.sport), HostPort(peer.dport));
    return if sport || dport || peerSport || peerDport then flag else !flag;
  }

  method FilterPort(key: SockKey, peer: SockKey, rules: Rules<PortRange>, flag: bool) returns (r: bool)
    requires Sized(rules)
    ensures r == FILTER_PASS <==>
            rules.num == 0 || (flag == FILTER_PASS <==> exists x :: x in Rows(rules) && PortHit(key, peer, x))
  {
    if rules.num == 0 { return FILTER_PASS; }
    var i := 0;
    while i < MAX_PARAM_LENGTH && i < rules.num
      invariant i <= |Rows(rules)|
      invariant forall j | 0 <= j < i :: !PortHit(key, peer, Rows(rules)[j])
    {
      var a := IsAcceptPort(key, peer, rules.rows[i], flag);
      if a == flag {
        assert Rows(rules)[i] in Rows(rules) && PortHit(key, peer, Rows(rules)[i]);
        return flag;
      }
      i := i + 1;
    }
    return !flag;
  }

  /** Users and groups are filtered alike: either side's id may be on the list. */
  method FilterId(mine: nat, theirs: nat, rules: Rules<nat>, flag: bool) returns (r: bool)
    requires Sized(rules)
    ensures r == FILTER_PASS <==>
            rules.num == 0 || (flag == FILTER_PASS <==> mine in Rows(rules) || theirs in Rows(rules))
  {
    if rules.num == 0 { return FILTER_PASS; }
    var i := 0;
    while i < MAX_PARAM_LENGTH && i < rules.num
      invariant i <= |Rows(rules)|
      invariant forall j | 0 <= j < i :: Rows(rules)[j] != mine && Rows(rules)[j] != theirs
    {
      if mine == rules.rows[i] || theirs == rules.rows[i] {
        assert Rows(rules)[i] in Rows(rules);
        return flag;
      }
      i := i + 1;
    }
    return !flag;
  }

  /** Addresses and ports against all four lists. */
  method FilterTuple(key: SockKey, peer: SockKey, p: Params) returns (r: bool)
    requires Tables(p)
    ensures r == FILTER_PASS <==> IpRule(key, peer, p) && PortRule(key, peer, p)
  {
    r := FilterIp(key, peer, p.returnCidrs, FILTER_RETURN);
    if r != FILTER_PASS { return; }
    r := FilterIp(key, peer, p.acceptCidrs, FILTER_PASS);
    if r != FILTER_PASS { return; }
    r := FilterPort(key, peer, p.returnPorts, FILTER_RETURN);
    if r != FILTER_PASS { return; }
    r := FilterPort(key, peer, p.acceptPorts, FILTER_PASS);
  }

  /** Users and groups of the two processes against all four lists. */
  method FilterOwners(own: Ids, theirs: Ids, p: Params) returns (r: bool)
    requires Tables(p)
    ensures r == FILTER_PASS <==>
            IdRule(own.uid, theirs.uid, p.acceptUids, p.returnUids) &&
            IdRule(own.gid, theirs.gid, p.acceptGids, p.returnGids)
  {
    r := FilterId(own.uid, theirs.uid, p.returnUids, FILTER_RETURN);
    if r != FILTER_PASS { return; }
    r := FilterId(own.uid, theirs.uid, p.acceptUids, FILTER_PASS);
    if r != FILTER_PASS { return; }
    r := FilterId(own.gid, theirs.gid, p.returnGids, FILTER_RETURN);
    if r != FILTER_PASS { return; }
    r := FilterId(own.gid, theirs.gid, p.acceptGids, FILTER_PASS);
  }
}

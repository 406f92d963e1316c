/**
  Socket keys in the acceleration programs.  Two programs build the key of the
  same socket, from two contexts and with different byte-order arithmetic.
 */
module SockKeys {

  type Cookie = nat

  datatype SockKey = SockKey(sip: bv32, dip: bv32, sport: bv32, dport: bv32, cookie: Cookie)

  const ZERO_KEY: SockKey := SockKey(0, 0, 0, 0, 0)

  const LOOPBACK_ADDR: bv32 := 16777343

  /**
    What the kernel shows of a socket, to sockops and sk_msg programs alike:
    addresses in network order, the local port in host order, the remote port
    in network order.
   */
  datatype Sock = Sock(localIp: bv32, remoteIp: bv32, localPort: bv32, remotePort: bv32, netns: Cookie)

  /** Byte swap of the low 16 bits: htons on a little-endian host. */
  function Swap16(x: bv32): bv32 {
    ((x & 0xFF) << 8) | ((x >> 8) & 0xFF)
  }

  /** Byte swap of 32 bits: htonl and ntohl on a little-endian host. */
  function Swap32(x: bv32): bv32 {
    ((x & 0xFF) << 24) | ((x & 0xFF00) << 8) | ((x >> 8) & 0xFF00) | (x >> 24)
  }

  /** The namespace cookie enters the key only when both ends are the loopback address. */
  function WithCookie(k: SockKey, netns: Cookie): SockKey {
    k.(cookie := if k.sip != LOOPBACK_ADDR || k.dip != LOOPBACK_ADDR then 0 else netns)
  }

  function EventSport(localPort: bv32): bv32 { Swap16(localPort & 0xFFFF) }

  function EventDport(remotePort: bv32): bv32 { (remotePort >> 16) & 0xFFFF }

  function SendSport(localPort: bv32): bv32 { Swap32(localPort) >> 16 }

  function SendDport(remotePort: bv32): bv32 { remotePort >> 16 }

  /** The key computed when a connection is established or closed. */
  function EventKey(s: Sock): SockKey {
    WithCookie(SockKey(s.localIp, s.remoteIp, EventSport(s.localPort), EventDport(s.remotePort), 0), s.netns)
  }

  /** The key computed on the send path. */
  function SendKey(s: Sock): SockKey {
    WithCookie(SockKey(s.localIp, s.remoteIp, SendSport(s.localPort), SendDport(s.remotePort), 0), s.netns)
  }

  lemma PortsAgree(localPort: bv32, remotePort: bv32)
    ensures SendSport(localPort) == EventSport(localPort) && SendDport(remotePort) == EventDport(remotePort)
  {
  }

  /** Both programs compute the same key for every socket. */
  lemma KeyAgreement(s: Sock)
    ensures SendKey(s) == EventKey(s)
  {
    PortsAgree(s.localPort, s.remotePort);
  }

  lemma SwapBack(p: bv32)
    ensures Swap16(EventSport(p)) == p & 0xFFFF
  {
  }

  lemma HighHalf(p: bv32)
    ensures EventDport(p) == p >> 16
  {
  }

  /** The port of the socket a local-port word shows. */
  function LocalPortOf(p: bv32): bv32 { p & 0xFFFF }

  /** The port, in network order, that a remote-port word shows. */
  function RemotePortOf(p: bv32): bv32 { p >> 16 }

  lemma SportIdentifies(p: bv32, q: bv32)
    ensures EventSport(p) == EventSport(q) <==> LocalPortOf(p) == LocalPortOf(q)
  {
    SwapBack(p);
    SwapBack(q);
  }

  lemma DportIdentifies(p: bv32, q: bv32)
    ensures EventDport(p) == EventDport(q) <==> RemotePortOf(p) == RemotePortOf(q)
  {
    HighHalf(p);
    HighHalf(q);
  }

  lemma CookieIdentifies(k: SockKey, l: SockKey, n: Cookie, m: Cookie)
    requires k.cookie == l.cookie == 0
    ensures WithCookie(k, n) == WithCookie(l, m) <==>
            k == l && (k.sip == LOOPBACK_ADDR && k.dip == LOOPBACK_ADDR ==> n == m)
  {
  }

  /** Two sockets have one key exactly if addresses and ports agree and, on loopback, the namespaces too. */
  lemma KeyIdentifies(a: Sock, b: Sock)
    ensures EventKey(a) == EventKey(b) <==>
            a.localIp == b.localIp && a.remoteIp == b.remoteIp &&
            LocalPortOf(a.localPort) == LocalPortOf(b.localPort) &&
            RemotePortOf(a.remotePort) == RemotePortOf(b.remotePort) &&
            (a.localIp == LOOPBACK_ADDR && a.remoteIp == LOOPBACK_ADDR ==> a.netns == b.netns)
  {
    SportIdentifies(a.localPort, b.localPort);
    DportIdentifies(a.remotePort, b.remotePort);
    CookieIdentifies(SockKey(a.localIp, a.remoteIp, EventSport(a.localPort), EventDport(a.remotePort), 0),
                     SockKey(b.localIp, b.remoteIp, EventSport(b.localPort), EventDport(b.remotePort), 0),
                     a.netns, b.netns);
  }

  /** What the original-destination query answers on the accepting side. */
  datatype Target = Nat(ip: bv32, port: bv32) | NoNat | Failed

  /** The key of the other end, seen from the accepting socket. */
  function PeerKey(s: Sock, t: Target): (r: SockKey)
    requires !t.Failed?
  {
    var k := EventKey(s);
    if t.Nat? then WithCookie(SockKey(k.dip, t.ip, k.dport, t.port, 0), s.netns)
    else WithCookie(SockKey(k.dip, k.sip, k.dport, k.sport, 0), s.netns)
  }

  /** How a port in network order shows in a remote-port word. */
  function NetWord(port: bv32): bv32 { port << 16 }

  /** How the other end's host-order port shows in a remote-port word. */
  function WireWord(port: bv32): bv32 { NetWord(Swap16(port)) }

  /**
    a connected to b, directly or through address translation.  Loopback
    connections stay within one namespace; others may cross namespaces.
   */
  predicate Connected(a: Sock, b: Sock, t: Target) {
    && !t.Failed? && a.localPort < 0x1_0000 && b.localPort < 0x1_0000
    && (a.localIp == LOOPBACK_ADDR && a.remoteIp == LOOPBACK_ADDR ==> a.netns == b.netns)
    && a.localIp == b.remoteIp && b.remotePort == WireWord(a.localPort)
    && (if t.Nat? then a.remoteIp == t.ip && a.remotePort == NetWord(t.port) && t.port < 0x1_0000
        else a.remoteIp == b.localIp && a.remotePort == WireWord(b.localPort))
  }

  lemma WirePort(p: bv32)
    requires p < 0x1_0000
    ensures EventDport(WireWord(p)) == EventSport(p)
    ensures EventDport(NetWord(p)) == p
  {
  }

  lemma LocalPort(a: Sock, b: Sock, t: Target)
    requires Connected(a, b, t)
    ensures EventDport(b.remotePort) == EventSport(a.localPort)
  {
    WirePort(a.localPort);
  }

  lemma RemotePort(a: Sock, b: Sock, t: Target)
    requires Connected(a, b, t)
    ensures EventDport(a.remotePort) == if t.Nat? then t.port else EventSport(b.localPort)
  {
    WirePort(if t.Nat? then t.port else b.localPort);
  }

  /** The cookie only enters the key of a loopback connection. */
  lemma CookieAgrees(k: SockKey, n: Cookie, m: Cookie)
    requires k.sip == LOOPBACK_ADDR && k.dip == LOOPBACK_ADDR ==> n == m
    ensures WithCookie(k, n) == WithCookie(k, m)
  {
  }

  /** The accepting side computes exactly the key under which the connecting side registered. */
  lemma PeerIsPartner(a: Sock, b: Sock, t: Target)
    requires Connected(a, b, t)
    ensures PeerKey(b, t) == EventKey(a)
  {
    LocalPort(a, b, t);
    RemotePort(a, b, t);
    var sport, dport := EventSport(a.localPort), EventDport(a.remotePort);
    CookieAgrees(SockKey(a.localIp, a.remoteIp, sport, dport, 0), a.netns, b.netns);
  }
}

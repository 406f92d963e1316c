/**
  The DNS name table: services are merged by hostname, Kubernetes services
  taking precedence over external ones.
 */
module NameTable {
  import opened Options

  type Ip = seq<nat>

  datatype Service = Service(name: string, ns: string, hostname: string, addresses: seq<Ip>)

  datatype Workload = Workload(addresses: seq<Ip>, services: set<string>)

  datatype Registry = Kubernetes | External

  datatype NameInfo = NameInfo(ips: seq<Ip>, registry: Registry, ns: string, shortname: string)

  // ---------- addresses of one service

  predicate ValidIp(ip: Ip) { |ip| == 4 || |ip| == 16 }

  /** 0.0.0.0, in either length, or ::. */
  predicate Unspecified(ip: Ip) {
    ip == [0, 0, 0, 0] ||
    ip == [0, 0, 0, 0, 0, 0, 0, 0, 0, 0, 0, 0, 0, 0, 0, 0] ||
    ip == [0, 0, 0, 0, 0, 0, 0, 0, 0, 0, 0xFF, 0xFF, 0, 0, 0, 0]
  }

  /** Valid addresses before the first unspecified one. */
  function Listed(addrs: seq<Ip>): seq<Ip> {
    if addrs == [] || Unspecified(addrs[0]) then []
    else (if ValidIp(addrs[0]) then [addrs[0]] else []) + Listed(addrs[1..])
  }

  predicate Backs(w: Workload, svc: Service) {
    w.addresses != [] && (forall a | a in w.addresses :: ValidIp(a)) && svc.ns + "/" + svc.hostname in w.services
  }

  /** Addresses of the workloads behind a service without addresses of its own. */
  function Headless(svc: Service, ws: seq<Workload>): seq<Ip> {
    if ws == [] then []
    else
      var last := ws[|ws| - 1];
      Headless(svc, ws[..|ws| - 1]) + if Backs(last, svc) then last.addresses else []
  }

  function Addresses(svc: Service, ws: seq<Workload>): seq<Ip> {
    if Listed(svc.addresses) != [] then Listed(svc.addresses) else Headless(svc, ws)
  }

  /** A hostname of the form name.namespace.svc.domain is a Kubernetes service. */
  function RegistryOf(svc: Service, domain: string): Registry {
    if svc.hostname == svc.name + "." + svc.ns + ".svc." + domain then Kubernetes else External
  }

  /** All bytes are zero, apart from the two that mark an IPv4 address in IPv6 form. */
  predicate ZeroIp(ip: Ip) {
    (|ip| == 4 || |ip| == 16) && (forall i | 0 <= i < |ip| && i != 10 && i != 11 :: ip[i] == 0) &&
    (|ip| == 16 ==> ip[10] == ip[11] && ip[10] in {0, 0xFF})
  }

  lemma UnspecifiedMeans(ip: Ip)
    ensures Unspecified(ip) <==> ZeroIp(ip)
  {
    if ZeroIp(ip) {
      if |ip| == 4 {
        assert ip == [0, 0, 0, 0];
      } else if ip[10] == 0 {
        assert ip == [0, 0, 0, 0, 0, 0, 0, 0, 0, 0, 0, 0, 0, 0, 0, 0];
      } else {
        assert ip == [0, 0, 0, 0, 0, 0, 0, 0, 0, 0, 0xFF, 0xFF, 0, 0, 0, 0];
      }
    }
  }

  /** The i-th address has a valid length, and none up to it is zero. */
  predicate Shown(addrs: seq<Ip>, i: nat) {
    i < |addrs| && (|addrs[i]| == 4 || |addrs[i]| == 16) && forall j | 0 <= j <= i :: !ZeroIp(addrs[j])
  }

  /** An address is listed exactly when it is valid and stands before every unspecified one. */
  lemma {:induction false} ListedMeans(addrs: seq<Ip>, ip: Ip)
    ensures ip in Listed(addrs) <==> exists i: nat :: Shown(addrs, i) && addrs[i] == ip
  {
    if addrs != [] { UnspecifiedMeans(addrs[0]); }
    if addrs != [] && !Unspecified(addrs[0]) {
      var rest := addrs[1..];
      ListedMeans(rest, ip);
      forall i: nat | i < |rest|
        ensures Shown(rest, i) <==> Shown(addrs, i + 1)
      {
        assert Shown(rest, i) ==> forall j | 0 < j <= i + 1 :: addrs[j] == rest[j - 1];
        assert Shown(addrs, i + 1) ==> forall j | 0 <= j <= i :: rest[j] == addrs[j + 1];
      }
      if i: nat :| Shown(rest, i) && rest[i] == ip { assert Shown(addrs, i + 1); }
      if i: nat :| Shown(addrs, i) && addrs[i] == ip && i > 0 { assert Shown(rest, i - 1); }
      if ValidIp(addrs[0]) { assert Shown(addrs, 0); }
    }
  }

  /** The workload lists the service, and all its addresses have a valid length. */
  ghost predicate BehindHeadless(w: Workload, svc: Service) {
    svc.ns + "/" + svc.hostname in w.services && forall a | a in w.addresses :: |a| in {4, 16}
  }

  /** Addresses that all count are listed as they come. */
  lemma {:induction false} ListedInOrder(addrs: seq<Ip>)
    requires forall i | 0 <= i < |addrs| :: Shown(addrs, i)
    ensures Listed(addrs) == addrs
  {
    if addrs != [] {
      var rest := addrs[1..];
      assert Shown(addrs, 0);
      UnspecifiedMeans(addrs[0]);
      forall i | 0 <= i < |rest|
        ensures Shown(rest, i)
      {
        assert Shown(addrs, i + 1);
        assert forall j | 0 <= j <= i :: rest[j] == addrs[j + 1];
      }
      ListedInOrder(rest);
      assert addrs == [addrs[0]] + rest;
    }
  }

  /** Workloads give their addresses in the order they come. */
  lemma {:induction false} HeadlessInOrder(svc: Service, a: seq<Workload>, b: seq<Workload>)
    ensures Headless(svc, a + b) == Headless(svc, a) + Headless(svc, b)
    ensures forall w | BehindHeadless(w, svc) :: Headless(svc, [w]) == w.addresses
  {
    forall w | BehindHeadless(w, svc)
      ensures Headless(svc, [w]) == w.addresses
    {
      assert [w][..0] == [] && Headless(svc, []) == [];
    }
    if b == [] {
      assert a + b == a;
    } else {
      var n := |b| - 1;
      assert (a + b)[..|a| + n] == a + b[..n];
      HeadlessInOrder(svc, a, b[..n]);
    }
  }

  /** A headless service has exactly the addresses of the workloads behind it. */
  lemma {:induction false} HeadlessMeans(svc: Service, ws: seq<Workload>, ip: Ip)
    ensures ip in Headless(svc, ws) <==> exists w :: w in ws && BehindHeadless(w, svc) && ip in w.addresses
  {
    if ws != [] {
      var n := |ws| - 1;
      HeadlessMeans(svc, ws[..n], ip);
      assert ws == ws[..n] + [ws[n]];
      if w :| w in ws[..n] && BehindHeadless(w, svc) && ip in w.addresses { assert w in ws; }
    }
  }

  /** The addresses of a service: its own, and those of the workloads behind it only if it has none. */
  lemma AddressesMean(svc: Service, ws: seq<Workload>, ip: Ip)
    ensures ip in Addresses(svc, ws) <==>
            if exists i: nat :: Shown(svc.addresses, i)
            then exists i: nat :: Shown(svc.addresses, i) && svc.addresses[i] == ip
            else exists w :: w in ws && BehindHeadless(w, svc) && ip in w.addresses
  {
    var own := Listed(svc.addresses);
    ListedMeans(svc.addresses, ip);
    HeadlessMeans(svc, ws, ip);
    if own != [] { ListedMeans(svc.addresses, own[0]); }
    if i: nat :| Shown(svc.addresses, i) { ListedMeans(svc.addresses, svc.addresses[i]); }
  }

  // ---------- what the table means

  predicate Kube(host: string, svc: Service, ws: seq<Workload>, domain: string) {
    svc.hostname == host == svc.name + "." + svc.ns + ".svc." + domain && Addresses(svc, ws) != []
  }

  /** The first Kubernetes service with addresses for the host. */
  function FirstKube(host: string, svcs: seq<Service>, ws: seq<Workload>, domain: string): Option<Service> {
    if svcs == [] then None
    else
      var last := svcs[|svcs| - 1];
      var first := FirstKube(host, svcs[..|svcs| - 1], ws, domain);
      if first.Some? then first else if Kube(host, last, ws, domain) then Some(last) else None
  }

  /** All addresses of the host's services, in order. */
  function AllIps(host: string, svcs: seq<Service>, ws: seq<Workload>): seq<Ip> {
    if svcs == [] then []
    else
      var last := svcs[|svcs| - 1];
      AllIps(host, svcs[..|svcs| - 1], ws) + if last.hostname == host then Addresses(last, ws) else []
  }

  /** The entry of a host: the first Kubernetes service, otherwise everything external merged. */
  function Entry(host: string, svcs: seq<Service>, ws: seq<Workload>, domain: string): Option<NameInfo> {
    var k := FirstKube(host, svcs, ws, domain);
    if k.Some? then Some(NameInfo(Addresses(k.value, ws), Kubernetes, k.value.ns, k.value.name))
    else if AllIps(host, svcs, ws) == [] then None
    else Some(NameInfo(AllIps(host, svcs, ws), External, "", ""))
  }

  /** FirstKube finds the least index of a Kubernetes service for the host, if there is one. */
  lemma {:induction false} FirstKubeIsFirst(host: string, svcs: seq<Service>, ws: seq<Workload>, domain: string, i: nat)
    requires i < |svcs| && Kube(host, svcs[i], ws, domain)
    requires forall j | 0 <= j < i :: !Kube(host, svcs[j], ws, domain)
    ensures FirstKube(host, svcs, ws, domain) == Some(svcs[i])
  {
    var front := svcs[..|svcs| - 1];
    if i < |front| {
      assert front[i] == svcs[i] && forall j | 0 <= j < i :: front[j] == svcs[j];
      FirstKubeIsFirst(host, front, ws, domain, i);
    } else {
      assert forall j | 0 <= j < |front| :: front[j] == svcs[j];
      NoKube(host, front, ws, domain);
    }
  }

  lemma {:induction false} NoKube(host: string, svcs: seq<Service>, ws: seq<Workload>, domain: string)
    requires forall j | 0 <= j < |svcs| :: !Kube(host, svcs[j], ws, domain)
    ensures FirstKube(host, svcs, ws, domain) == None
  {
    if svcs != [] { NoKube(host, svcs[..|svcs| - 1], ws, domain); }
  }

  lemma {:induction false} FirstKubeIn(host: string, svcs: seq<Service>, ws: seq<Workload>, domain: string)
    ensures var k := FirstKube(host, svcs, ws, domain);
      if k.Some? then k.value in svcs && Kube(host, k.value, ws, domain)
      else forall s | s in svcs :: !Kube(host, s, ws, domain)
  {
    if svcs != [] {
      FirstKubeIn(host, svcs[..|svcs| - 1], ws, domain);
      assert svcs == svcs[..|svcs| - 1] + [svcs[|svcs| - 1]];
    }
  }

  ghost predicate Serves(ip: Ip, host: string, svcs: seq<Service>, ws: seq<Workload>) {
    exists s :: s in svcs && s.hostname == host && ip in Addresses(s, ws)
  }

  lemma {:induction false} AllIpsIn(host: string, svcs: seq<Service>, ws: seq<Workload>, ip: Ip)
    ensures ip in AllIps(host, svcs, ws) <==> Serves(ip, host, svcs, ws)
  {
    if svcs != [] {
      var n := |svcs| - 1;
      AllIpsIn(host, svcs[..n], ws, ip);
      assert svcs == svcs[..n] + [svcs[n]];
      if Serves(ip, host, svcs[..n], ws) {
        var s :| s in svcs[..n] && s.hostname == host && ip in Addresses(s, ws);
        assert s in svcs;
      }
    }
  }

  /** Services give their addresses in the order they come. */
  lemma {:induction false} AllIpsInOrder(host: string, a: seq<Service>, b: seq<Service>, ws: seq<Workload>)
    ensures AllIps(host, a + b, ws) == AllIps(host, a, ws) + AllIps(host, b, ws)
    ensures forall s: Service | s.hostname == host :: AllIps(host, [s], ws) == Addresses(s, ws)
  {
    forall s: Service | s.hostname == host
      ensures AllIps(host, [s], ws) == Addresses(s, ws)
    {
      assert [s][..0] == [] && AllIps(host, [], ws) == [];
    }
    if b == [] {
      assert a + b == a;
    } else {
      var n := |b| - 1;
      assert (a + b)[..|a| + n] == a + b[..n];
      AllIpsInOrder(host, a, b[..n], ws);
    }
  }

  // ---------- independence of the order of services

  /** All Kubernetes services of the host say the same: names and set of addresses. */
  ghost predicate Alike(host: string, svcs: seq<Service>, ws: seq<Workload>, domain: string) {
    forall s, t | s in svcs && t in svcs && Kube(host, s, ws, domain) && Kube(host, t, ws, domain) ::
      s.ns == t.ns && s.name == t.name && SameIps(Addresses(s, ws), Addresses(t, ws))
  }

  ghost predicate SameIps(a: seq<Ip>, b: seq<Ip>) {
    forall ip :: ip in a <==> ip in b
  }

  /** Same registry, names and set of addresses. */
  ghost predicate SameInfo(a: Option<NameInfo>, b: Option<NameInfo>) {
    if a.Some? && b.Some? then
      a.value.registry == b.value.registry && a.value.ns == b.value.ns && a.value.shortname == b.value.shortname &&
      SameIps(a.value.ips, b.value.ips)
    else a == b
  }

  /** The host's entry is the same for every order of the list. */
  ghost predicate OrderFree(host: string, a: seq<Service>, ws: seq<Workload>, domain: string) {
    forall b: seq<Service> | multiset(b) == multiset(a) ::
      SameInfo(Entry(host, b, ws, domain), Entry(host, a, ws, domain))
  }

  /** The order of the list does not matter exactly when the host's Kubernetes services are alike. */
  lemma OrderFreeIff(host: string, a: seq<Service>, ws: seq<Workload>, domain: string)
    ensures OrderFree(host, a, ws, domain) <==> Alike(host, a, ws, domain)
  {
    if Alike(host, a, ws, domain) {
      forall b: seq<Service> | multiset(b) == multiset(a)
        ensures SameInfo(Entry(host, b, ws, domain), Entry(host, a, ws, domain))
      {
        SameElements(a, b);
        AlikeMerge(host, a, b, ws, domain);
      }
    }
    if OrderFree(host, a, ws, domain) {
      forall s, t | s in a && t in a && Kube(host, s, ws, domain) && Kube(host, t, ws, domain)
        ensures s.ns == t.ns && s.name == t.name && SameIps(Addresses(s, ws), Addresses(t, ws))
      {
        KubeInFront(host, a, s, ws, domain);
        KubeInFront(host, a, t, ws, domain);
      }
    }
  }

  lemma SameElements<T>(a: seq<T>, b: seq<T>)
    requires multiset(a) == multiset(b)
    ensures forall x :: x in a <==> x in b
  {
    forall x ensures x in a <==> x in b { assert x in multiset(a) <==> x in multiset(b); }
  }

  /** Merging two lists of the same services, whose Kubernetes services are alike. */
  lemma AlikeMerge(host: string, a: seq<Service>, b: seq<Service>, ws: seq<Workload>, domain: string)
    requires (forall s :: s in a <==> s in b) && Alike(host, a, ws, domain)
    ensures SameInfo(Entry(host, b, ws, domain), Entry(host, a, ws, domain))
  {
    FirstKubeIn(host, a, ws, domain);
    FirstKubeIn(host, b, ws, domain);
    var x, y := AllIps(host, a, ws), AllIps(host, b, ws);
    forall ip
      ensures ip in x <==> ip in y
    {
      AllIpsIn(host, a, ws, ip);
      AllIpsIn(host, b, ws, ip);
    }
    if x != [] { assert x[0] in y; }
    if y != [] { assert y[0] in x; }
  }

  lemma MovedToFront<T>(a: seq<T>, i: nat)
    requires i < |a|
    ensures multiset([a[i]] + (a[..i] + a[i + 1..])) == multiset(a)
  {
    assert a == a[..i] + [a[i]] + a[i + 1..];
  }

  lemma FrontWins(host: string, s: Service, rest: seq<Service>, ws: seq<Workload>, domain: string)
    requires Kube(host, s, ws, domain)
    ensures Entry(host, [s] + rest, ws, domain) == Some(NameInfo(Addresses(s, ws), Kubernetes, s.ns, s.name))
  {
    FirstKubeIsFirst(host, [s] + rest, ws, domain, 0);
  }

  /** Whichever Kubernetes service is moved to the front becomes the entry. */
  lemma KubeInFront(host: string, a: seq<Service>, s: Service, ws: seq<Workload>, domain: string)
    requires s in a && Kube(host, s, ws, domain) && OrderFree(host, a, ws, domain)
    ensures SameInfo(Some(NameInfo(Addresses(s, ws), Kubernetes, s.ns, s.name)), Entry(host, a, ws, domain))
  {
    var i :| 0 <= i < |a| && a[i] == s;
    var rest := a[..i] + a[i + 1..];
    MovedToFront(a, i);
    assert SameInfo(Entry(host, [s] + rest, ws, domain), Entry(host, a, ws, domain));
    FrontWins(host, s, rest, ws, domain);
  }

  /** With two Kubernetes services the first one listed wins, so the order matters exactly when they differ. */
  lemma TwoKubesFollowOrder(s: Service, t: Service, ws: seq<Workload>, domain: string)
    requires Kube(s.hostname, s, ws, domain) && Kube(s.hostname, t, ws, domain)
    ensures Entry(s.hostname, [s, t], ws, domain) ==
            Some(NameInfo(Addresses(s, ws), Kubernetes, s.ns, s.name))
    ensures OrderFree(s.hostname, [s, t], ws, domain) <==>
            s.ns == t.ns && s.name == t.name && SameIps(Addresses(s, ws), Addresses(t, ws))
  {
    FirstKubeIsFirst(s.hostname, [s, t], ws, domain, 0);
    OrderFreeIff(s.hostname, [s, t], ws, domain);
    assert s in [s, t] && t in [s, t];
  }

  /**
    The service cache is keyed by namespace and hostname, so a list from it has
    no two services that agree in both.
   */
  predicate DistinctKeys(a: seq<Service>) {
    forall i, j | 0 <= i < j < |a| :: !(a[i].ns == a[j].ns && a[i].hostname == a[j].hostname)
  }

  ghost predicate AtMostOneKube(host: string, a: seq<Service>, ws: seq<Workload>, domain: string) {
    forall i, j | 0 <= i < j < |a| :: !(Kube(host, a[i], ws, domain) && Kube(host, a[j], ws, domain))
  }

  /** For a list from the cache the order does not matter exactly when the host has at most one Kubernetes service. */
  lemma CacheOrderFreeIff(host: string, a: seq<Service>, ws: seq<Workload>, domain: string)
    requires DistinctKeys(a)
    ensures OrderFree(host, a, ws, domain) <==> AtMostOneKube(host, a, ws, domain)
  {
    OrderFreeIff(host, a, ws, domain);
    if Alike(host, a, ws, domain) {
      forall i, j | 0 <= i < j < |a|
        ensures !(Kube(host, a[i], ws, domain) && Kube(host, a[j], ws, domain))
      {
        assert a[i] in a && a[j] in a;
      }
    }
    if AtMostOneKube(host, a, ws, domain) {
      forall s, t | s in a && t in a && Kube(host, s, ws, domain) && Kube(host, t, ws, domain)
        ensures s == t
      {
        var i :| 0 <= i < |a| && a[i] == s;
        var j :| 0 <= j < |a| && a[j] == t;
        assert !(i < j) && !(j < i);
      }
    }
  }

  /** Two Kubernetes services of one host in different namespaces need a namespace with a dot in it. */
  lemma TwoKubesNeedDot(s: Service, t: Service, ws: seq<Workload>, domain: string)
    requires Kube(s.hostname, s, ws, domain) && Kube(s.hostname, t, ws, domain) && s.ns != t.ns
    ensures '.' in s.ns || '.' in t.ns
  {
    var tail := ".svc." + domain;
    var a, b := s.name + "." + s.ns, t.name + "." + t.ns;
    assert a + tail == s.hostname == b + tail;
    assert a == (a + tail)[..|a|] && b == (b + tail)[..|b|];
    if |s.ns| <= |t.ns| {
      LongerHasDot(s.name, s.ns, t.name, t.ns);
    } else {
      LongerHasDot(t.name, t.ns, s.name, s.ns);
    }
  }

  lemma LongerHasDot(name: string, ns: string, name2: string, ns2: string)
    requires name + "." + ns == name2 + "." + ns2 && |ns| <= |ns2| && ns != ns2
    ensures '.' in ns2
  {
    var a, b := name + "." + ns, name2 + "." + ns2;
    assert |name| + |ns| == |name2| + |ns2|;
    assert a[|name| + 1..] == ns && b[|name2| + 1..] == ns2;
    assert a[|name|] == '.' && b[|name|] == ns2[|name| - |name2| - 1];
  }

  // ---------- building the table

  lemma ListedFrom(addrs: seq<Ip>, i: nat)
    requires i < |addrs|
    ensures Listed(addrs[i..]) ==
            if Unspecified(addrs[i]) then []
            else (if ValidIp(addrs[i]) then [addrs[i]] else []) + Listed(addrs[i + 1..])
  {
    assert addrs[i..][1..] == addrs[i + 1..];
  }

  method ListAddresses(svc: Service) returns (ips: seq<Ip>)
    ensures ips == Listed(svc.addresses)
  {
    ips := [];
    var i := 0;
    while i < |svc.addresses|
      invariant i <= |svc.addresses| && Listed(svc.addresses) == ips + Listed(svc.addresses[i..])
    {
      var a := svc.addresses[i];
      ListedFrom(svc.addresses, i);
      if Unspecified(a) { return; }
      if ValidIp(a) {
        assert ips + ([a] + Listed(svc.addresses[i + 1..])) == (ips + [a]) + Listed(svc.addresses[i + 1..]);
        ips := ips + [a];
      }
      i := i + 1;
    }
  }

  method ListHeadless(svc: Service, ws: seq<Workload>) returns (ips: seq<Ip>)
    ensures ips == Headless(svc, ws)
  {
    ips := [];
    var i := 0;
    while i < |ws|
      invariant i <= |ws| && ips == Headless(svc, ws[..i])
    {
      assert ws[..i + 1][..i] == ws[..i];
      if Backs(ws[i], svc) { ips := ips + ws[i].addresses; }
      i := i + 1;
    }
    assert ws[..|ws|] == ws;
  }

  /** A host's entry after one more service with addresses. */
  function Merged(was: Option<NameInfo>, svc: Service, ips: seq<Ip>, domain: string): NameInfo {
    if was.Some? && was.value.registry == Kubernetes then was.value
    else if RegistryOf(svc, domain) == Kubernetes then NameInfo(ips, Kubernetes, svc.ns, svc.name)
    else if was.None? then NameInfo(ips, External, "", "")
    else was.value.(ips := was.value.ips + ips)
  }

  lemma EntryStep(host: string, svcs: seq<Service>, svc: Service, ws: seq<Workload>, domain: string)
    ensures Entry(host, svcs + [svc], ws, domain) ==
            if svc.hostname == host && Addresses(svc, ws) != []
            then Some(Merged(Entry(host, svcs, ws, domain), svc, Addresses(svc, ws), domain))
            else Entry(host, svcs, ws, domain)
  {
    assert (svcs + [svc])[..|svcs|] == svcs;
    assert AllIps(host, svcs, ws) + [] == AllIps(host, svcs, ws) && [] + Addresses(svc, ws) == Addresses(svc, ws);
    FirstKubeIn(host, svcs, ws, domain);
  }

  /** The table says of every host what its entry is. */
  ghost predicate Stands(table: map<string, NameInfo>, svcs: seq<Service>, ws: seq<Workload>, domain: string) {
    forall host :: Get(table, host) == Entry(host, svcs, ws, domain)
  }

  lemma TableStep(table: map<string, NameInfo>, out: map<string, NameInfo>, svcs: seq<Service>, i: nat,
                  ws: seq<Workload>, domain: string)
    requires i < |svcs| && Stands(table, svcs[..i], ws, domain)
    requires var svc, ips := svcs[i], Addresses(svcs[i], ws);
      out == if ips == [] then table else table[svc.hostname := Merged(Get(table, svc.hostname), svc, ips, domain)]
    ensures Stands(out, svcs[..i + 1], ws, domain)
  {
    assert svcs[..i + 1] == svcs[..i] + [svcs[i]];
    forall host
      ensures Get(out, host) == Entry(host, svcs[..i + 1], ws, domain)
    {
      assert Get(table, host) == Entry(host, svcs[..i], ws, domain);
      EntryStep(host, svcs[..i], svcs[i], ws, domain);
    }
  }

  method AddService(table: map<string, NameInfo>, svc: Service, ips: seq<Ip>, domain: string)
    returns (out: map<string, NameInfo>)
    ensures out == table[svc.hostname := Merged(Get(table, svc.hostname), svc, ips, domain)]
  {
    out := table;
    var host, registry := svc.hostname, RegistryOf(svc, domain);
    if host !in table {
      var info := NameInfo(ips, registry, "", "");
      if registry == Kubernetes { info := info.(ns := svc.ns, shortname := svc.name); }
      out := table[host := info];
    } else if table[host].registry != Kubernetes {
      if registry == Kubernetes {
        out := table[host := NameInfo(ips, Kubernetes, svc.ns, svc.name)];
      } else {
        out := table[host := table[host].(ips := table[host].ips + ips)];
      }
    }
  }

  method BuildNameTable(svcs: seq<Service>, ws: seq<Workload>, domain: string) returns (table: map<string, NameInfo>)
    ensures forall host :: Get(table, host) == Entry(host, svcs, ws, domain)
  {
    table := map[];
    var i := 0;
    while i < |svcs|
      invariant i <= |svcs|
      invariant Stands(table, svcs[..i], ws, domain)
    {
      var svc := svcs[i];
      var ips := ListAddresses(svc);
      if |ips| == 0 { ips := ListHeadless(svc, ws); }
      ghost var before := table;
      if |ips| != 0 { table := AddService(table, svc, ips, domain); }
      TableStep(before, table, svcs, i, ws, domain);
      i := i + 1;
    }
    assert svcs[..|svcs|] == svcs;
  }
}

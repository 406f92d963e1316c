/**
  Socket acceleration: connection events maintain the socket, helper and proxy
  maps, and the send path redirects along the proxy map.
 */
module SockMesh {
  import opened Options
  import opened SockKeys
  import opened SockFilter

  /** The three maps: registered sockets, process ids of connecting ends, and who talks to whom. */
  datatype State = State(sockets: map<SockKey, nat>, helper: map<SockKey, Ids>, proxy: map<SockKey, SockKey>)

  /** A connection event with the answers the kernel gives along the way. */
  datatype Event =
    | Active(sock: Sock, id: nat, own: Option<Ids>, addOk: bool, helperOk: bool)
    | Passive(sock: Sock, id: nat, own: Option<Ids>, target: Target, addOk: bool, putOk: bool, putBackOk: bool)
    | Close(sock: Sock)

  // ---------- one event

  function Clean(k: SockKey, st: State): State {
    State(st.sockets - {k}, st.helper - {k}, st.proxy - {k})
  }

  function ActiveStep(e: Event, st: State): State
    requires e.Active?
  {
    var key := EventKey(e.sock);
    if !e.addOk then st
    else
      var st1 := st.(sockets := st.sockets[key := e.id]);
      if e.own.None? then st1
      else if !e.helperOk then Clean(key, st1)
      else st1.(helper := st1.helper[key := e.own.value])
  }

  /** The peer's key as the accepting side has it; all zero when it cannot be found out. */
  function PeerOf(e: Event): SockKey
    requires e.Passive?
  {
    if e.target.Failed? then ZERO_KEY else PeerKey(e.sock, e.target)
  }

  /** Looking at the ids of the peer uses up its helper entry. */
  ghost function AfterFilter(e: Event, st: State, p: Option<Params>): map<SockKey, Ids>
    requires e.Passive? && (p.Some? ==> Tables(p.value))
  {
    if p.Some? && IpRule(EventKey(e.sock), PeerOf(e), p.value) && PortRule(EventKey(e.sock), PeerOf(e), p.value) &&
       !NoIdRules(p.value) && e.own.Some?
    then st.helper - {PeerOf(e)} else st.helper
  }

  ghost predicate Accepted(e: Event, st: State, p: Option<Params>)
    requires e.Passive? && (p.Some? ==> Tables(p.value))
  {
    !e.target.Failed? && p.Some? &&
    Passes(EventKey(e.sock), PeerOf(e), e.own, Get(st.helper, PeerOf(e)), p.value)
  }

  ghost function PassiveStep(e: Event, st: State, p: Option<Params>): State
    requires e.Passive? && (p.Some? ==> Tables(p.value))
  {
    var key, peer := EventKey(e.sock), PeerOf(e);
    var st1 := if e.target.Failed? then st else st.(helper := AfterFilter(e, st, p));
    if Accepted(e, st, p) && e.addOk && e.putOk && e.putBackOk then
      st1.(sockets := st1.sockets[key := e.id], proxy := st1.proxy[key := peer][peer := key])
    else Clean(key, Clean(peer, st1))
  }

  function CloseStep(sock: Sock, st: State): State {
    var key := EventKey(sock);
    var st1 := st.(helper := st.helper - {key}, proxy := st.proxy - {key});
    if key in st.proxy then st1.(proxy := st1.proxy - {st.proxy[key]}) else st1
  }

  ghost function Step(e: Event, st: State, p: Option<Params>): State
    requires p.Some? ==> Tables(p.value)
  {
    match e
    case Active(_, _, _, _, _) => ActiveStep(e, st)
    case Passive(_, _, _, _, _, _, _) => PassiveStep(e, st, p)
    case Close(sock) => CloseStep(sock, st)
  }

  // ---------- the proxy map stays an involution

  ghost predicate Symmetric<K>(proxy: map<K, K>) {
    forall k | k in proxy :: proxy[k] in proxy && proxy[proxy[k]] == k
  }

  /** k is unpaired, or paired with itself or with b. */
  predicate FreeFor<K(==)>(k: K, b: K, proxy: map<K, K>) {
    k in proxy ==> proxy[k] == k || proxy[k] == b
  }

  /**
    When an event leaves no half pair behind: a passive event's keys are not
    paired with a third key, and an active event whose ids cannot be recorded
    comes on a key that is not paired.
   */
  predicate Harmless(e: Event, proxy: map<SockKey, SockKey>) {
    match e
    case Active(sock, _, own, addOk, helperOk) =>
      addOk && own.Some? && !helperOk ==> FreeFor(EventKey(sock), EventKey(sock), proxy)
    case Passive(sock, _, _, _, _, _, _) =>
      FreeFor(EventKey(sock), PeerOf(e), proxy) && FreeFor(PeerOf(e), EventKey(sock), proxy)
    case Close(_) => true
  }

  /** Pairing a with b, or dropping both, keeps a pairing symmetric exactly when neither has a third partner. */
  lemma PairOrDrop<K>(a: K, b: K, proxy: map<K, K>)
    requires Symmetric(proxy)
    ensures Symmetric(proxy[a := b][b := a]) <==> FreeFor(a, b, proxy) && FreeFor(b, a, proxy)
    ensures Symmetric(proxy - {b} - {a}) <==> FreeFor(a, b, proxy) && FreeFor(b, a, proxy)
    ensures Symmetric(proxy - {a}) <==> FreeFor(a, a, proxy)
  {
    var paired, dropped, one := proxy[a := b][b := a], proxy - {b} - {a}, proxy - {a};
    if !FreeFor(a, b, proxy) {
      assert proxy[a] in paired && paired[proxy[a]] == a;
      assert proxy[a] in dropped && dropped[proxy[a]] == a;
    }
    if !FreeFor(b, a, proxy) {
      assert proxy[b] in paired && paired[proxy[b]] == b;
      assert proxy[b] in dropped && dropped[proxy[b]] == b;
    }
    if !FreeFor(a, a, proxy) { assert proxy[a] in one && one[proxy[a]] == a; }
  }

  /** Whichever way an event ends, it keeps the pairing symmetric exactly when it is harmless. */
  lemma StepSymmetricIff(e: Event, st: State, p: Option<Params>)
    requires (p.Some? ==> Tables(p.value)) && Symmetric(st.proxy)
    ensures Symmetric(Step(e, st, p).proxy) <==> Harmless(e, st.proxy)
  {
    match e {
      case Active(sock, _, _, _, _) => PairOrDrop(EventKey(sock), EventKey(sock), st.proxy);
      case Passive(sock, _, _, _, _, _, _) => PairOrDrop(EventKey(sock), PeerOf(e), st.proxy);
      case Close(sock) => CloseCutsBoth(sock, st);
    }
  }

  /** Closing cuts both directions: neither end maps to anything, and nothing maps to the closed end. */
  lemma CloseCutsBoth(sock: Sock, st: State)
    requires Symmetric(st.proxy)
    ensures var after := CloseStep(sock, st).proxy; var key := EventKey(sock);
      Symmetric(after) && key !in after && (forall k | k in after :: after[k] != key) &&
      (key in st.proxy ==> st.proxy[key] !in after) && key !in CloseStep(sock, st).helper
  {
  }

  /** The keys an event may change something under. */
  function Touched(e: Event, proxy: map<SockKey, SockKey>): set<SockKey> {
    match e
    case Active(sock, _, _, _, _) => {EventKey(sock)}
    case Passive(sock, _, _, _, _, _, _) => {EventKey(sock), PeerOf(e)}
    case Close(sock) =>
      {EventKey(sock)} + if EventKey(sock) in proxy then {proxy[EventKey(sock)]} else {}
  }

  /** Nothing is stored differently under any other key, in any of the three maps. */
  lemma StepFrame(e: Event, st: State, p: Option<Params>, k: SockKey)
    requires (p.Some? ==> Tables(p.value)) && k !in Touched(e, st.proxy)
    ensures var after := Step(e, st, p);
      Get(after.sockets, k) == Get(st.sockets, k) && Get(after.helper, k) == Get(st.helper, k) &&
      Get(after.proxy, k) == Get(st.proxy, k)
  {
    if e.Passive? && !(Accepted(e, st, p) && e.addOk && e.putOk && e.putBackOk) { FailedPassiveCleans(e, st, p); }
  }

  /** An active event registers its socket and ids and leaves the pairs alone; a refused one does nothing. */
  lemma ActiveRegisters(e: Event, st: State, p: Option<Params>)
    requires (p.Some? ==> Tables(p.value)) && e.Active?
    ensures var after, key := Step(e, st, p), EventKey(e.sock);
      (!e.addOk ==> after == st) &&
      (e.addOk && (e.own.Some? ==> e.helperOk) ==>
        Get(after.sockets, key) == Some(e.id) && after.proxy == st.proxy &&
        Get(after.helper, key) == if e.own.Some? then e.own else Get(st.helper, key)) &&
      (e.addOk && e.own.Some? && !e.helperOk ==>
        key !in after.sockets && key !in after.helper && key !in after.proxy)
  {
  }

  /** An accepted event pairs its keys and registers its socket, and uses up the peer's ids if any id list is set. */
  lemma PassivePairs(e: Event, st: State, p: Option<Params>)
    requires (p.Some? ==> Tables(p.value)) && e.Passive?
    requires Accepted(e, st, p) && e.addOk && e.putOk && e.putBackOk
    ensures var after, key, peer := Step(e, st, p), EventKey(e.sock), PeerOf(e);
      Get(after.proxy, key) == Some(peer) && Get(after.proxy, peer) == Some(key) &&
      Get(after.sockets, key) == Some(e.id) && (peer != key ==> Get(after.sockets, peer) == Get(st.sockets, peer)) &&
      (peer != key ==> Get(after.helper, key) == Get(st.helper, key)) &&
      Get(after.helper, peer) ==
        if p.value.acceptUids.num == p.value.returnUids.num == p.value.acceptGids.num == p.value.returnGids.num == 0
        then Get(st.helper, peer) else None
  {
  }

  /** A close keeps every socket and every pair the closed end is not part of. */
  lemma CloseKeepsOthers(sock: Sock, st: State, k: SockKey)
    requires Symmetric(st.proxy) && k in st.proxy && k != EventKey(sock) && st.proxy[k] != EventKey(sock)
    ensures var after := CloseStep(sock, st);
      after.sockets == st.sockets && Get(after.proxy, k) == Some(st.proxy[k]) &&
      Get(after.helper, k) == Get(st.helper, k)
  {
  }

  /** A passive event that fails at any point forgets both keys and touches no other. */
  lemma FailedPassiveCleans(e: Event, st: State, p: Option<Params>)
    requires e.Passive? && (p.Some? ==> Tables(p.value))
    requires !(Accepted(e, st, p) && e.addOk && e.putOk && e.putBackOk)
    ensures var gone, after := {EventKey(e.sock), PeerOf(e)}, Step(e, st, p);
      after == State(st.sockets - gone, st.helper - gone, st.proxy - gone)
  {
    var a, b := EventKey(e.sock), PeerOf(e);
    DropTwo(a, b, st.sockets);
    DropTwo(a, b, st.helper);
    DropTwo(a, b, st.helper - {b});
    DropTwo(a, b, st.proxy);
  }

  lemma DropTwo<K, V>(a: K, b: K, m: map<K, V>)
    ensures m - {b} - {a} == m - {a, b} && m - {b} - {b} == m - {b} && (m - {b}) - {a, b} == m - {a, b}
  {
    assert m - {b} - {a} == m - {a, b};
  }

  /** The ids the filter sees of the peer are those the connecting process registered. */
  lemma PeerIdsAreRegistered(a: Event, b: Event, st: State, p: Option<Params>)
    requires (p.Some? ==> Tables(p.value)) && a.Active? && b.Passive? && Connected(a.sock, b.sock, b.target)
    requires a.addOk && a.own.Some? && a.helperOk
    ensures Get(Step(a, st, p).helper, PeerOf(b)) == a.own
  {
    PeerIsPartner(a.sock, b.sock, b.target);
  }

  // ---------- runs

  const EMPTY: State := State(map[], map[], map[])

  ghost function Run(es: seq<Event>, st: State, p: Option<Params>): State
    requires p.Some? ==> Tables(p.value)
  {
    if es == [] then st else Run(es[1..], Step(es[0], st, p), p)
  }

  ghost predicate HarmlessRun(es: seq<Event>, st: State, p: Option<Params>)
    requires p.Some? ==> Tables(p.value)
  {
    es == [] || (Harmless(es[0], st.proxy) && HarmlessRun(es[1..], Step(es[0], st, p), p))
  }

  /** Over every run of harmless events the proxy map stays a symmetric pairing. */
  lemma {:induction false} RunSymmetric(es: seq<Event>, st: State, p: Option<Params>)
    requires (p.Some? ==> Tables(p.value)) && Symmetric(st.proxy) && HarmlessRun(es, st, p)
    ensures Symmetric(Run(es, st, p).proxy)
  {
    if es != [] {
      StepSymmetricIff(es[0], st, p);
      RunSymmetric(es[1..], Step(es[0], st, p), p);
    }
  }

  // ---------- the send path

  /** The socket a message is handed to; None when it takes the normal path. */
  function Redirect(sock: Sock, st: State): Option<nat> {
    var k := SendKey(sock);
    if k in st.proxy then Get(st.sockets, st.proxy[k]) else None
  }

  /** Both ends registered: each one's messages go straight to the other. */
  lemma {:induction false} PairedEndsRedirect(a: Event, b: Event, st: State, p: Option<Params>)
    requires p.Some? && Tables(p.value) && a.Active? && b.Passive? && Connected(a.sock, b.sock, b.target)
    requires a.addOk && (a.own.Some? ==> a.helperOk) && EventKey(a.sock) != EventKey(b.sock)
    requires Accepted(b, Step(a, st, p), p) && b.addOk && b.putOk && b.putBackOk
    ensures var after := Run([a, b], st, p);
      Redirect(a.sock, after) == Some(b.id) && Redirect(b.sock, after) == Some(a.id)
  {
    KeyAgreement(a.sock);
    KeyAgreement(b.sock);
    PeerIsPartner(a.sock, b.sock, b.target);
    var st1 := Step(a, st, p);
    assert [a, b][1..] == [b] && [b][1..] == [];
    assert Run([b], st1, p) == Run([], Step(b, st1, p), p);
  }

  /** Closing either end stops redirection in both directions. */
  lemma ClosedEndsDoNotRedirect(closed: Sock, other: Sock, st: State)
    requires Symmetric(st.proxy) && (EventKey(closed) in st.proxy ==> st.proxy[EventKey(closed)] == EventKey(other))
    ensures Redirect(closed, CloseStep(closed, st)) == None
    ensures EventKey(closed) in st.proxy ==> Redirect(other, CloseStep(closed, st)) == None
  {
    KeyAgreement(closed);
    KeyAgreement(other);
    CloseCutsBoth(closed, st);
  }

  // ---------- where a redirection comes from

  /** The passive event is accepted and pairs its keys. */
  ghost predicate Pairs(e: Event, st: State, p: Option<Params>)
    requires p.Some? ==> Tables(p.value)
  {
    e.Passive? && Accepted(e, st, p) && e.addOk && e.putOk && e.putBackOk
  }

  /** The event pairs exactly these two keys. */
  ghost predicate PairsKeys(e: Event, st: State, p: Option<Params>, k: SockKey, m: SockKey)
    requires p.Some? ==> Tables(p.value)
  {
    Pairs(e, st, p) && ((EventKey(e.sock) == k && PeerOf(e) == m) || (EventKey(e.sock) == m && PeerOf(e) == k))
  }

  /** The event leaves its socket under the key. */
  ghost predicate Registers(e: Event, st: State, p: Option<Params>, k: SockKey)
    requires p.Some? ==> Tables(p.value)
  {
    EventKey(e.sock) == k &&
    match e
    case Active(_, _, own, addOk, helperOk) => addOk && (own.Some? ==> helperOk)
    case Passive(_, _, _, _, _, _, _) => Pairs(e, st, p)
    case Close(_) => false
  }

  /** The event parts the pair: a close of either end, or an event on either key that does not pair just these. */
  ghost predicate Parts(e: Event, st: State, p: Option<Params>, k: SockKey, m: SockKey)
    requires p.Some? ==> Tables(p.value)
  {
    match e
    case Active(sock, _, own, addOk, helperOk) =>
      addOk && own.Some? && !helperOk && (EventKey(sock) == k || EventKey(sock) == m)
    case Passive(sock, _, _, _, _, _, _) =>
      !PairsKeys(e, st, p, k, m) &&
      (EventKey(sock) == k || EventKey(sock) == m || PeerOf(e) == k || PeerOf(e) == m)
    case Close(sock) => EventKey(sock) == k || EventKey(sock) == m
  }

  predicate Paired<K(==)>(k: K, m: K, proxy: map<K, K>) {
    k in proxy && proxy[k] == m
  }

  /** What pairing or dropping two keys without third partners does to any pair. */
  lemma PairOrDropIff<K>(a: K, b: K, proxy: map<K, K>, k: K, m: K)
    requires Symmetric(proxy) && FreeFor(a, b, proxy) && FreeFor(b, a, proxy)
    ensures Paired(k, m, proxy[a := b][b := a]) <==>
            (k == a && m == b) || (k == b && m == a) || (Paired(k, m, proxy) && !(k in {a, b} || m in {a, b}))
    ensures Paired(k, m, proxy - {b} - {a}) <==> Paired(k, m, proxy) && !(k in {a, b} || m in {a, b})
  {
    if Paired(k, m, proxy) { assert m in proxy && proxy[m] == k; }
  }

  lemma PassivePairsIff(e: Event, st: State, p: Option<Params>, k: SockKey, m: SockKey)
    requires (p.Some? ==> Tables(p.value)) && Symmetric(st.proxy) && Harmless(e, st.proxy) && e.Passive?
    ensures Paired(k, m, PassiveStep(e, st, p).proxy) <==>
            PairsKeys(e, st, p, k, m) || (Paired(k, m, st.proxy) && !Parts(e, st, p, k, m))
  {
    var a, b := EventKey(e.sock), PeerOf(e);
    PairOrDropIff(a, b, st.proxy, k, m);
    if Pairs(e, st, p) {
      assert PassiveStep(e, st, p).proxy == st.proxy[a := b][b := a];
    } else {
      assert PassiveStep(e, st, p).proxy == st.proxy - {b} - {a};
    }
  }

  /** After a harmless event two keys are paired exactly if it paired them, or they were and it did not part them. */
  lemma StepPairsIff(e: Event, st: State, p: Option<Params>, k: SockKey, m: SockKey)
    requires (p.Some? ==> Tables(p.value)) && Symmetric(st.proxy) && Harmless(e, st.proxy)
    ensures Paired(k, m, Step(e, st, p).proxy) <==>
            PairsKeys(e, st, p, k, m) || (Paired(k, m, st.proxy) && !Parts(e, st, p, k, m))
  {
    match e {
      case Active(sock, _, _, addOk, _) =>
        if addOk && e.own.Some? && !e.helperOk { PairOrDropIff(EventKey(sock), EventKey(sock), st.proxy, k, m); }
      case Passive(_, _, _, _, _, _, _) => PassivePairsIff(e, st, p, k, m);
      case Close(sock) =>
        CloseCutsBoth(sock, st);
        if Paired(k, m, st.proxy) && !Parts(e, st, p, k, m) { CloseKeepsOthers(sock, st, k); }
    }
  }

  /** The event takes the socket under the key out of the map. */
  ghost predicate Drops(e: Event, st: State, p: Option<Params>, k: SockKey)
    requires p.Some? ==> Tables(p.value)
  {
    match e
    case Active(sock, _, own, addOk, helperOk) => addOk && own.Some? && !helperOk && EventKey(sock) == k
    case Passive(sock, _, _, _, _, _, _) => !Pairs(e, st, p) && (EventKey(sock) == k || PeerOf(e) == k)
    case Close(_) => false
  }

  /** After an event a key has a socket exactly if it registered it, or there was one and it did not drop it. */
  lemma StepSocketsIff(e: Event, st: State, p: Option<Params>, k: SockKey, id: nat)
    requires p.Some? ==> Tables(p.value)
    ensures Get(Step(e, st, p).sockets, k) == Some(id) <==>
            if Registers(e, st, p, k) then e.id == id else Get(st.sockets, k) == Some(id) && !Drops(e, st, p, k)
  {
  }

  /** The i-th event pairs the two keys, and none since has parted them. */
  ghost predicate PairedAt(es: seq<Event>, i: nat, p: Option<Params>, k: SockKey, m: SockKey)
    requires (p.Some? ==> Tables(p.value)) && i < |es|
  {
    PairsKeys(es[i], Run(es[..i], EMPTY, p), p, k, m) &&
    forall j | i < j < |es| :: !Parts(es[j], Run(es[..j], EMPTY, p), p, k, m)
  }

  /** The i-th event registers the key, and none since has registered or dropped it. */
  ghost predicate RegisteredAt(es: seq<Event>, i: nat, p: Option<Params>, k: SockKey)
    requires (p.Some? ==> Tables(p.value)) && i < |es|
  {
    Registers(es[i], Run(es[..i], EMPTY, p), p, k) &&
    forall j | i < j < |es| ::
      !Registers(es[j], Run(es[..j], EMPTY, p), p, k) && !Drops(es[j], Run(es[..j], EMPTY, p), p, k)
  }

  lemma {:induction false} RunLast(es: seq<Event>, e: Event, st: State, p: Option<Params>)
    requires p.Some? ==> Tables(p.value)
    ensures Run(es + [e], st, p) == Step(e, Run(es, st, p), p)
    ensures HarmlessRun(es + [e], st, p) <==> HarmlessRun(es, st, p) && Harmless(e, Run(es, st, p).proxy)
  {
    if es == [] {
      assert (es + [e])[1..] == [];
    } else {
      RunLast(es[1..], e, Step(es[0], st, p), p);
      assert (es + [e])[1..] == es[1..] + [e];
    }
  }

  ghost predicate PairedInRun(es: seq<Event>, p: Option<Params>, k: SockKey, m: SockKey)
    requires p.Some? ==> Tables(p.value)
  {
    exists i: nat :: i < |es| && PairedAt(es, i, p, k, m)
  }

  ghost predicate RegisteredInRun(es: seq<Event>, p: Option<Params>, k: SockKey, id: nat)
    requires p.Some? ==> Tables(p.value)
  {
    exists i: nat :: i < |es| && RegisteredAt(es, i, p, k) && es[i].id == id
  }

  lemma {:induction false} PairedInLonger(es: seq<Event>, e: Event, p: Option<Params>, k: SockKey, m: SockKey)
    requires p.Some? ==> Tables(p.value)
    ensures var st := Run(es, EMPTY, p);
      PairedInRun(es + [e], p, k, m) <==>
      PairsKeys(e, st, p, k, m) || (PairedInRun(es, p, k, m) && !Parts(e, st, p, k, m))
  {
    var all, n := es + [e], |es|;
    assert all[..n] == es && all[n] == e;
    assert forall j | 0 <= j < n :: all[j] == es[j] && all[..j] == es[..j];
    if PairedInRun(all, p, k, m) {
      var i: nat :| i < |all| && PairedAt(all, i, p, k, m);
      if i < n { assert PairedAt(es, i, p, k, m); }
    }
    if PairsKeys(e, Run(es, EMPTY, p), p, k, m) {
      assert PairedAt(all, n, p, k, m);
    } else if PairedInRun(es, p, k, m) && !Parts(e, Run(es, EMPTY, p), p, k, m) {
      var i: nat :| i < |es| && PairedAt(es, i, p, k, m);
      assert PairedAt(all, i, p, k, m);
    }
  }

  /**
    Over every harmless run, two keys are paired at the end exactly if some
    passive event of the run was accepted with just these keys and no event
    since has parted them.
   */
  lemma {:induction false} RunPairsIff(es: seq<Event>, p: Option<Params>, k: SockKey, m: SockKey)
    requires (p.Some? ==> Tables(p.value)) && HarmlessRun(es, EMPTY, p)
    ensures Paired(k, m, Run(es, EMPTY, p).proxy) <==> PairedInRun(es, p, k, m)
  {
    if es != [] {
      var front, e := es[..|es| - 1], es[|es| - 1];
      assert es == front + [e];
      RunLast(front, e, EMPTY, p);
      RunSymmetric(front, EMPTY, p);
      RunPairsIff(front, p, k, m);
      StepPairsIff(e, Run(front, EMPTY, p), p, k, m);
      PairedInLonger(front, e, p, k, m);
    }
  }

  lemma {:induction false} RegisteredShorter(es: seq<Event>, all: seq<Event>, p: Option<Params>, k: SockKey, i: nat)
    requires (p.Some? ==> Tables(p.value)) && i < |es| && |all| == |es| + 1 && all[..|es|] == es
    ensures RegisteredAt(all, i, p, k) <==>
            RegisteredAt(es, i, p, k) &&
            !Registers(all[|es|], Run(es, EMPTY, p), p, k) && !Drops(all[|es|], Run(es, EMPTY, p), p, k)
  {
    assert forall j | 0 <= j < |es| :: all[j] == es[j] && all[..j] == es[..j];
  }

  lemma {:induction false} RegisteredInLonger(es: seq<Event>, e: Event, p: Option<Params>, k: SockKey, id: nat)
    requires p.Some? ==> Tables(p.value)
    ensures var st := Run(es, EMPTY, p);
      RegisteredInRun(es + [e], p, k, id) <==>
      if Registers(e, st, p, k) then e.id == id else RegisteredInRun(es, p, k, id) && !Drops(e, st, p, k)
  {
    var all, n := es + [e], |es|;
    assert all[..n] == es && all[n] == e;
    forall i: nat | i < n
      ensures all[i] == es[i]
      ensures RegisteredAt(all, i, p, k) <==>
              RegisteredAt(es, i, p, k) && !Registers(e, Run(es, EMPTY, p), p, k) && !Drops(e, Run(es, EMPTY, p), p, k)
    {
      RegisteredShorter(es, all, p, k, i);
    }
    assert RegisteredAt(all, n, p, k) <==> Registers(e, Run(es, EMPTY, p), p, k);
  }

  /** Over every run, the socket under a key is that of the last event that registered it, unless dropped since. */
  lemma {:induction false} RunSocketsIff(es: seq<Event>, p: Option<Params>, k: SockKey, id: nat)
    requires p.Some? ==> Tables(p.value)
    ensures Get(Run(es, EMPTY, p).sockets, k) == Some(id) <==> RegisteredInRun(es, p, k, id)
  {
    if es != [] {
      var front, e := es[..|es| - 1], es[|es| - 1];
      assert es == front + [e];
      RunLast(front, e, EMPTY, p);
      RunSocketsIff(front, p, k, id);
      StepSocketsIff(e, Run(front, EMPTY, p), p, k, id);
      RegisteredInLonger(front, e, p, k, id);
    }
  }

  /**
    Whatever run of harmless events came before, a message is redirected to a
    socket exactly if the run paired the sender's key with a key under which it
    registered that socket, and parted or dropped neither since; messages of
    that end come back here.
   */
  lemma {:induction false} RunRedirectIff(es: seq<Event>, sock: Sock, id: nat, other: Sock, p: Option<Params>)
    requires (p.Some? ==> Tables(p.value)) && HarmlessRun(es, EMPTY, p)
    ensures var st, k := Run(es, EMPTY, p), EventKey(sock);
      (Redirect(sock, st) == Some(id) <==>
        exists m :: PairedInRun(es, p, k, m) && RegisteredInRun(es, p, m, id)) &&
      (PairedInRun(es, p, k, EventKey(other)) ==> Redirect(other, st) == Get(st.sockets, k))
  {
    var st, k := Run(es, EMPTY, p), EventKey(sock);
    KeyAgreement(sock);
    KeyAgreement(other);
    RunSymmetric(es, EMPTY, p);
    RunPairsIff(es, p, k, EventKey(other));
    if Redirect(sock, st) == Some(id) {
      RunPairsIff(es, p, k, st.proxy[k]);
      RunSocketsIff(es, p, st.proxy[k], id);
    }
    if m :| PairedInRun(es, p, k, m) && RegisteredInRun(es, p, m, id) {
      RunPairsIff(es, p, k, m);
      RunSocketsIff(es, p, m, id);
    }
  }

  /**
    One way to leave half a pair, on a run from the empty maps: a connects
    again on a paired key and its ids cannot be recorded.
   */
  lemma {:induction false} UnrecordedActiveUnpairs(a: Event, b: Event, p: Option<Params>)
    requires p.Some? && Tables(p.value) && a.Active? && b.Passive? && Connected(a.sock, b.sock, b.target)
    requires EventKey(a.sock) != EventKey(b.sock) && Accepted(b, EMPTY, p) && b.addOk && b.putOk && b.putBackOk
    requires a.addOk && a.own.Some? && !a.helperOk
    ensures Symmetric(Run([b], EMPTY, p).proxy) && !Symmetric(Run([b, a], EMPTY, p).proxy)
  {
    PeerIsPartner(a.sock, b.sock, b.target);
    var st1 := Step(b, EMPTY, p);
    assert [b, a][1..] == [a] && [a][1..] == [] && [b][1..] == [];
    assert Run([a], st1, p) == Run([], Step(a, st1, p), p);
    StepSymmetricIff(a, st1, p);
  }

  /** The other way: a paired key accepts from a second peer, whichever way that ends. */
  lemma {:induction false} SecondPeerUnpairs(a: Event, b: Event, p: Option<Params>)
    requires p.Some? && Tables(p.value) && a.Passive? && b.Passive?
    requires EventKey(a.sock) == EventKey(b.sock) && PeerOf(a) != PeerOf(b) && PeerOf(a) != EventKey(a.sock)
    requires Pairs(a, EMPTY, p)
    ensures Symmetric(Run([a], EMPTY, p).proxy) && !Symmetric(Run([a, b], EMPTY, p).proxy)
  {
    var st1 := Step(a, EMPTY, p);
    assert [a, b][1..] == [b] && [b][1..] == [] && [a][1..] == [];
    assert Run([b], st1, p) == Run([], Step(b, st1, p), p);
    PassivePairs(a, EMPTY, p);
    StepSymmetricIff(b, st1, p);
  }

  // ---------- the maps updated in place

  /** Cleaning two keys forgets whatever was stored under them. */
  lemma CleanForgets(key: SockKey, peer: SockKey, s: State, t: State)
    requires s.helper == t.helper && s.sockets - {key} == t.sockets - {key} && s.proxy - {key} == t.proxy - {key}
    ensures Clean(key, Clean(peer, s)) == Clean(key, Clean(peer, t))
  {
    assert s.sockets - {peer} - {key} == s.sockets - {key} - {peer};
    assert t.sockets - {peer} - {key} == t.sockets - {key} - {peer};
    assert s.proxy - {peer} - {key} == s.proxy - {key} - {peer};
    assert t.proxy - {peer} - {key} == t.proxy - {key} - {peer};
  }

  class Mesh {
    var sockets: map<SockKey, nat>
    var helper: map<SockKey, Ids>
    var proxy: map<SockKey, SockKey>
    // The filter settings, read from an array map of one entry.
    var params: Option<Params>

    ghost predicate Valid()
      reads this
    {
      params.Some? ==> Tables(params.value)
    }

    ghost function Abs(): State
      reads this
    {
      State(sockets, helper, proxy)
    }

    constructor (params: Option<Params>)
      requires params.Some? ==> Tables(params.value)
      ensures Valid() && Abs() == EMPTY && this.params == params
    {
      sockets, helper, proxy := map[], map[], map[];
      this.params := params;
    }

    method CleanOps(key: SockKey)
      modifies this`sockets, this`helper, this`proxy
      ensures Abs() == Clean(key, old(Abs()))
    {
      sockets := sockets - {key};
      helper := helper - {key};
      proxy := proxy - {key};
    }

    method ActiveOps(e: Event)
      requires e.Active?
      modifies this`sockets, this`helper, this`proxy
      ensures Abs() == ActiveStep(e, old(Abs()))
    {
      var key := EventKey(e.sock);
      if !e.addOk { return; }
      sockets := sockets[key := e.id];
      if e.own.None? { return; }
      if !e.helperOk {
        CleanOps(key);
        return;
      }
      helper := helper[key := e.own.value];
    }

    /** Applies the rules one after the other; reading the peer's ids deletes its helper entry. */
    method Filter(e: Event, key: SockKey, peer: SockKey) returns (pass: bool)
      requires Valid() && e.Passive? && !e.target.Failed? && key == EventKey(e.sock) && peer == PeerOf(e)
      modifies this`helper
      ensures pass == Accepted(e, old(Abs()), params)
      ensures helper == AfterFilter(e, old(Abs()), params)
    {
      if params.None? { return FILTER_RETURN; }
      var p := params.value;
      pass := FilterTuple(key, peer, p);
      if pass != FILTER_PASS { return; }
      if p.acceptUids.num == 0 && p.returnUids.num == 0 && p.acceptGids.num == 0 && p.returnGids.num == 0 { return; }
      if e.own.None? { return FILTER_RETURN; }
      var theirs := Get(helper, peer);
      if theirs.None? {
        assert helper - {peer} == helper;
        return FILTER_RETURN;
      }
      helper := helper - {peer};
      pass := FilterOwners(e.own.value, theirs.value, p);
    }

    method PassiveOps(e: Event)
      requires Valid() && e.Passive?
      modifies this`sockets, this`helper, this`proxy
      ensures Abs() == PassiveStep(e, old(Abs()), params)
    {
      var key, peer := EventKey(e.sock), PeerOf(e);
      var ok := !e.target.Failed?;
      if ok { ok := Filter(e, key, peer); }
      if ok && e.addOk {
        sockets := sockets[key := e.id];
        if e.putOk {
          proxy := proxy[key := peer];
          if e.putBackOk {
            proxy := proxy[peer := key];
            return;
          }
        }
      }
      CleanForgets(key, peer, Abs(), State(old(sockets), helper, old(proxy)));
      CleanOps(peer);
      CleanOps(key);
    }

    method CleanOpsMap(sock: Sock)
      modifies this`helper, this`proxy
      ensures Abs() == CloseStep(sock, old(Abs()))
    {
      var key := EventKey(sock);
      helper := helper - {key};
      var reverse := Get(proxy, key);
      proxy := proxy - {key};
      if reverse.Some? { proxy := proxy - {reverse.value}; }
    }
  }
}

/**
  The authorization decision for a connection: nested any/all/any matching with
  early exits, over the policies that apply to the destination workload.
 */
module Rbac {
  import opened Options
  import opened PolicyStore

  const SPIFFE_PREFIX: string := "spiffe://"

  datatype Identity = Identity(trustDomain: string, ns: string, serviceAccount: string)

  datatype Conn = Conn(src: Identity, srcIp: Ip, dstIp: Ip, dstPort: nat)

  /** Whether an address range contains an address; false when the range cannot be parsed. */
  type Contains = (Addr, Ip) -> bool

  function IdString(id: Identity): string {
    SPIFFE_PREFIX + id.trustDomain + "/ns/" + id.ns + "/sa/" + id.serviceAccount
  }

  predicate HasSuffix(s: string, t: string) {
    |t| <= |s| && s[|s| - |t|..] == t
  }

  function TrimPrefix(s: string, p: string): string {
    if p <= s then s[|p|..] else s
  }

  // ---------- what matching means

  predicate TextHit(s: string, m: StringMatch) {
    if |m.prefix| > 0 then m.prefix <= s
    else if |m.suffix| > 0 then HasSuffix(s, m.suffix)
    else if |m.exact| > 0 then s == m.exact
    else s == ""
  }

  /** What a pattern stands for: all texts with its prefix, or else with its suffix, or else just its text. */
  ghost predicate Denotes(m: StringMatch, s: string) {
    if m.prefix != "" then exists rest :: s == m.prefix + rest
    else if m.suffix != "" then exists front :: s == front + m.suffix
    else s == m.exact
  }

  /** The coded tests decide what the pattern stands for. */
  lemma TextHitMeans(s: string, m: StringMatch)
    ensures TextHit(s, m) <==> Denotes(m, s)
  {
    if m.prefix != "" {
      if m.prefix <= s { assert s == m.prefix + s[|m.prefix|..]; }
    } else if m.suffix != "" {
      if HasSuffix(s, m.suffix) { assert s == s[..|s| - |m.suffix|] + m.suffix; }
      if front :| s == front + m.suffix { assert s[|s| - |m.suffix|..] == m.suffix; }
    }
  }

  /** Some listed value, unless none is listed; and no excluded one. */
  ghost predicate InOut<T>(hit: T -> bool, want: Repeated<T>, reject: Repeated<T>) {
    (want == Unset || want == Values([]) || exists x :: x in want.elems && hit(x)) &&
    (reject == Unset || forall x | x in reject.elems :: !hit(x))
  }

  const NO_CONSTRAINTS: Match := Match(Unset, Unset, Unset, Unset, Unset, Unset, Unset, Unset, Unset, Unset)

  predicate IsEmpty(m: Match) {
    m.dstIps.Unset? && m.notDstIps.Unset? && m.srcIps.Unset? && m.notSrcIps.Unset? &&
    m.dstPorts.Unset? && m.notDstPorts.Unset? && m.principals.Unset? && m.notPrincipals.Unset? &&
    m.namespaces.Unset? && m.notNamespaces.Unset?
  }

  ghost predicate TextsAdmit(s: string, want: Repeated<StringMatch>, reject: Repeated<StringMatch>) {
    (want == Unset || want == Values([]) || exists t :: t in want.elems && Denotes(t, s)) &&
    (reject == Unset || forall t | t in reject.elems :: !Denotes(t, s))
  }

  /** All five aspects of the connection are admitted, and at least one is constrained. */
  ghost predicate MatchHolds(c: Conn, m: Match, net: Contains) {
    && m != NO_CONSTRAINTS
    && InOut((a: Addr) => net(a, c.dstIp), m.dstIps, m.notDstIps)
    && InOut((a: Addr) => net(a, c.srcIp), m.srcIps, m.notSrcIps)
    && InOut((p: nat) => p == c.dstPort, m.dstPorts, m.notDstPorts)
    && TextsAdmit(c.src.trustDomain + "/ns/" + c.src.ns + "/sa/" + c.src.serviceAccount, m.principals, m.notPrincipals)
    && TextsAdmit(c.src.ns, m.namespaces, m.notNamespaces)
  }

  ghost predicate ClauseHolds(c: Conn, k: Clause, net: Contains) {
    k.matches == [] || exists m :: m in k.matches && MatchHolds(c, m, net)
  }

  ghost predicate RuleHolds(c: Conn, r: Rule, net: Contains) {
    forall k | k in r.clauses :: ClauseHolds(c, k, net)
  }

  ghost predicate PolicyMatches(c: Conn, p: Policy, net: Contains) {
    exists r :: r in p.rules && RuleHolds(c, r, net)
  }

  /** Every identity string carries the prefix, so the principal test is on what follows it. */
  lemma IdentityTail(id: Identity)
    ensures SPIFFE_PREFIX <= IdString(id)
    ensures TrimPrefix(IdString(id), SPIFFE_PREFIX) == id.trustDomain + "/ns/" + id.ns + "/sa/" + id.serviceAccount
  {
    var tail := id.trustDomain + "/ns/" + id.ns + "/sa/" + id.serviceAccount;
    assert IdString(id) == SPIFFE_PREFIX + tail;
  }

  /** A pattern with no text set matches no principal at all. */
  lemma EmptyPatternMatchesNoPrincipal(id: Identity)
    ensures !TextHit(TrimPrefix(IdString(id), SPIFFE_PREFIX), StringMatch("", "", ""))
    ensures !Denotes(StringMatch("", "", ""), TrimPrefix(IdString(id), SPIFFE_PREFIX))
  {
    IdentityTail(id);
  }

  // ---------- the loops

  method AnyAddr(ip: Ip, addrs: seq<Addr>, net: Contains) returns (b: bool)
    ensures b <==> exists a :: a in addrs && net(a, ip)
  {
    for i := 0 to |addrs|
      invariant forall j | 0 <= j < i :: !net(addrs[j], ip)
    {
      if net(addrs[i], ip) { return true; }
    }
    return false;
  }

  method AnyPort(port: nat, ports: seq<nat>) returns (b: bool)
    ensures b <==> port in ports
  {
    for i := 0 to |ports|
      invariant port !in ports[..i]
    {
      if port == ports[i] { return true; }
    }
    return false;
  }

  method AnyText(s: string, pats: seq<StringMatch>) returns (b: bool)
    ensures b <==> exists t :: t in pats && Denotes(t, s)
  {
    for i := 0 to |pats|
      invariant forall j | 0 <= j < i :: !Denotes(pats[j], s)
    {
      TextHitMeans(s, pats[i]);
      if TextHit(s, pats[i]) { return true; }
    }
    return false;
  }

  method MatchIp(ip: Ip, want: Repeated<Addr>, reject: Repeated<Addr>, net: Contains) returns (b: bool)
    ensures b <==> InOut((a: Addr) => net(a, ip), want, reject)
  {
    var pm, nm := true, true;
    if |Elems(want)| != 0 { pm := AnyAddr(ip, Elems(want), net); }
    if |Elems(reject)| != 0 {
      var hit := AnyAddr(ip, Elems(reject), net);
      nm := !hit;
    }
    b := pm && nm;
  }

  method MatchPort(port: nat, want: Repeated<nat>, reject: Repeated<nat>) returns (b: bool)
    ensures b <==> InOut((p: nat) => p == port, want, reject)
  {
    var pm, nm := true, true;
    if |Elems(want)| != 0 { pm := AnyPort(port, Elems(want)); }
    if |Elems(reject)| != 0 {
      var hit := AnyPort(port, Elems(reject));
      nm := !hit;
    }
    b := pm && nm;
  }

  method MatchText(s: string, want: Repeated<StringMatch>, reject: Repeated<StringMatch>) returns (b: bool)
    ensures b <==> TextsAdmit(s, want, reject)
  {
    var pm, nm := true, true;
    if |Elems(want)| != 0 { pm := AnyText(s, Elems(want)); }
    if |Elems(reject)| != 0 {
      var hit := AnyText(s, Elems(reject));
      nm := !hit;
    }
    b := pm && nm;
  }

  method MatchPrincipal(id: string, m: Match) returns (b: bool)
    ensures b <==> SPIFFE_PREFIX <= id && TextsAdmit(TrimPrefix(id, SPIFFE_PREFIX), m.principals, m.notPrincipals)
  {
    if !(SPIFFE_PREFIX <= id) { return false; }
    b := MatchText(TrimPrefix(id, SPIFFE_PREFIX), m.principals, m.notPrincipals);
  }

  /** One match, tried aspect by aspect and given up at the first that fails. */
  method MatchOne(c: Conn, m: Match, net: Contains) returns (b: bool)
    ensures b <==> MatchHolds(c, m, net)
  {
    if IsEmpty(m) { return false; }
    IdentityTail(c.src);
    b := MatchIp(c.dstIp, m.dstIps, m.notDstIps, net);
    if !b { return; }
    b := MatchIp(c.srcIp, m.srcIps, m.notSrcIps, net);
    if !b { return; }
    b := MatchPort(c.dstPort, m.dstPorts, m.notDstPorts);
    if !b { return; }
    b := MatchPrincipal(IdString(c.src), m);
    if !b { return; }
    b := MatchText(c.src.ns, m.namespaces, m.notNamespaces);
  }

  method Matches(c: Conn, p: Policy, net: Contains) returns (b: bool)
    ensures b <==> PolicyMatches(c, p, net)
  {
    for i := 0 to |p.rules|
      invariant forall x | 0 <= x < i :: !RuleHolds(c, p.rules[x], net)
    {
      var rule := p.rules[i];
      var ruleMatch, j := true, 0;
      while j < |rule.clauses| && ruleMatch
        invariant j <= |rule.clauses|
        invariant if ruleMatch then forall x | 0 <= x < j :: ClauseHolds(c, rule.clauses[x], net)
                  else !RuleHolds(c, rule, net)
        decreases |rule.clauses| - j, ruleMatch
      {
        var clause := rule.clauses[j];
        var clauseMatch, k := false, 0;
        while k < |clause.matches| && !clauseMatch
          invariant k <= |clause.matches|
          invariant if clauseMatch then ClauseHolds(c, clause, net)
                    else forall x | 0 <= x < k :: !MatchHolds(c, clause.matches[x], net)
        {
          clauseMatch := MatchOne(c, clause.matches[k], net);
          k := k + 1;
        }
        if |clause.matches| == 0 { clauseMatch := true; }
        assert clauseMatch <==> ClauseHolds(c, clause, net);
        ruleMatch := ruleMatch && clauseMatch;
        if ruleMatch { j := j + 1; }
      }
      if ruleMatch {
        assert rule in p.rules;
        return true;
      }
    }
    return false;
  }

  // ---------- the decision

  datatype Workload = Workload(ns: string, policies: seq<string>)

  /** The stored policies of one action that the names lead to, in the order of the names. */
  function Collect(names: seq<string>, byKey: map<string, Policy>, action: Action): seq<Policy> {
    if names == [] then []
    else
      var n := names[|names| - 1];
      Collect(names[..|names| - 1], byKey, action) +
      if n in byKey && byKey[n].action == action then [byKey[n]] else []
  }

  ghost predicate NamedIn(p: Policy, names: seq<string>, byKey: map<string, Policy>, action: Action) {
    exists n :: n in names && n in byKey && byKey[n] == p && p.action == action
  }

  lemma {:induction false} Collected(names: seq<string>, byKey: map<string, Policy>, action: Action, p: Policy)
    ensures p in Collect(names, byKey, action) <==> NamedIn(p, names, byKey, action)
  {
    if names != [] {
      var last := |names| - 1;
      Collected(names[..last], byKey, action, p);
      assert names == names[..last] + [names[last]];
      if NamedIn(p, names[..last], byKey, action) {
        var n :| n in names[..last] && n in byKey && byKey[n] == p && p.action == action;
        assert n in names;
      }
    }
  }

  ghost predicate Decide(c: Conn, allow: seq<Policy>, deny: seq<Policy>, net: Contains) {
    !(exists p :: p in deny && PolicyMatches(c, p, net)) &&
    (allow == [] || exists p :: p in allow && PolicyMatches(c, p, net))
  }

  /** The outcome depends only on which names were collected, not on their order or repetition. */
  lemma DecideBySet(c: Conn, a: seq<string>, b: seq<string>, byKey: map<string, Policy>, net: Contains)
    requires forall n :: n in a <==> n in b
    ensures Decide(c, Collect(a, byKey, Allow), Collect(a, byKey, Deny), net) ==
            Decide(c, Collect(b, byKey, Allow), Collect(b, byKey, Deny), net)
  {
    SameCollected(a, b, byKey, Allow);
    SameCollected(a, b, byKey, Deny);
  }

  lemma SameCollected(a: seq<string>, b: seq<string>, byKey: map<string, Policy>, action: Action)
    requires forall n :: n in a <==> n in b
    ensures forall p :: p in Collect(a, byKey, action) <==> p in Collect(b, byKey, action)
    ensures Collect(a, byKey, action) == [] <==> Collect(b, byKey, action) == []
  {
    var x, y := Collect(a, byKey, action), Collect(b, byKey, action);
    forall p
      ensures p in x <==> p in y
    {
      Collected(a, byKey, action, p);
      Collected(b, byKey, action, p);
    }
    if x != [] { assert x[0] in x && x[0] in y; }
    if y != [] { assert y[0] in y && y[0] in x; }
  }

  /**
    The stored policies that apply to a workload: it names them, they live in
    its namespace, or they are global, by scope or by living in no namespace.
   */
  ghost function Applicable(w: Workload, ix: Index): set<string> {
    set k | k in ix.byKey && (k in w.policies || ix.byKey[k].scope == Global ||
                              (ix.byKey[k].scope == Namespace && ix.byKey[k].ns in {w.ns, ""}))
  }

  /** What the index finds: stored policies named by the workload, by its namespace's bucket or by the global one. */
  ghost function Found(w: Workload, ix: Index): set<string> {
    set k | k in ix.byKey && (k in w.policies || k in Bucket(w.ns, ix) || k in Bucket("", ix))
  }

  /** Among these policies no deny policy matches, and some allow policy does if there is any. */
  ghost predicate Verdict(c: Conn, keys: set<string>, byKey: map<string, Policy>, net: Contains)
    requires keys <= byKey.Keys
  {
    (forall k | k in keys && byKey[k].action == Deny :: !PolicyMatches(c, byKey[k], net)) &&
    ((exists k :: k in keys && byKey[k].action == Allow) ==>
      exists k :: k in keys && byKey[k].action == Allow && PolicyMatches(c, byKey[k], net))
  }

  /** The decision as documented: the workload is known, and the verdict is over the policies that apply to it. */
  ghost predicate Allowed(c: Conn, w: Option<Workload>, ix: Index, net: Contains) {
    w.Some? && Verdict(c, Applicable(w.value, ix), ix.byKey, net)
  }

  /** On every reachable index no policy that applies is overlooked. */
  lemma FindsApplicable(w: Workload, ix: Index)
    requires Complete(ix)
    ensures Applicable(w, ix) <= Found(w, ix)
    ensures Placed(ix) ==> Found(w, ix) == Applicable(w, ix)
  {
    forall k | k in ix.byKey && Home(ix.byKey[k]).Some?
      ensures k in Bucket(Home(ix.byKey[k]).value, ix)
    {
    }
  }

  /** The index finds exactly what applies, for every workload, exactly when policies are in place. */
  lemma FindsExactlyIff(ix: Index)
    requires Complete(ix)
    ensures (forall w :: Found(w, ix) == Applicable(w, ix)) <==> Placed(ix)
  {
    if Placed(ix) {
      forall w ensures Found(w, ix) == Applicable(w, ix) { FindsApplicable(w, ix); }
    }
    if forall w :: Found(w, ix) == Applicable(w, ix) {
      forall ns, k | k in ix.byKey && k in Bucket(ns, ix)
        ensures Home(ix.byKey[k]) == Some(ns) || Home(ix.byKey[k]) == Some("")
      {
        assert k in Found(Workload(ns, []), ix);
      }
    }
  }

  /** The two lists hold exactly the found policies of their action. */
  ghost predicate Holds(ps: seq<Policy>, action: Action, w: Workload, ix: Index) {
    forall p :: p in ps <==> exists k :: k in Found(w, ix) && ix.byKey[k] == p && p.action == action
  }

  lemma ListsDecide(c: Conn, allow: seq<Policy>, deny: seq<Policy>, w: Workload, ix: Index, net: Contains)
    requires Holds(allow, Allow, w, ix) && Holds(deny, Deny, w, ix)
    ensures Decide(c, allow, deny, net) <==> Verdict(c, Found(w, ix), ix.byKey, net)
  {
    forall k | k in Found(w, ix)
      ensures ix.byKey[k].action == Allow ==> ix.byKey[k] in allow
      ensures ix.byKey[k].action == Deny ==> ix.byKey[k] in deny
    {
    }
    if allow != [] { assert allow[0] in allow; }
  }

  lemma CollectHolds(names: seq<string>, w: Workload, ix: Index, action: Action)
    requires forall n :: n in names <==> n in w.policies || n in Bucket(w.ns, ix) || n in Bucket("", ix)
    ensures Holds(Collect(names, ix.byKey, action), action, w, ix)
  {
    forall p
      ensures p in Collect(names, ix.byKey, action) <==>
              exists k :: k in Found(w, ix) && ix.byKey[k] == p && p.action == action
    {
      Collected(names, ix.byKey, action, p);
      if NamedIn(p, names, ix.byKey, action) {
        var n :| n in names && n in ix.byKey && ix.byKey[n] == p && p.action == action;
        assert n in Found(w, ix);
      }
    }
  }

  method Aggregate(w: Workload, store: Store) returns (allow: seq<Policy>, deny: seq<Policy>)
    ensures Holds(allow, Allow, w, store.Abs()) && Holds(deny, Deny, w, store.Abs())
  {
    var local := store.GetByNamespace(w.ns);
    var everywhere := store.GetByNamespace("");
    var names := w.policies + local + everywhere;
    allow, deny := [], [];
    for i := 0 to |names|
      invariant allow == Collect(names[..i], store.byKey, Allow) && deny == Collect(names[..i], store.byKey, Deny)
    {
      assert names[..i + 1][..i] == names[..i];
      if names[i] in store.byKey {
        var p := store.byKey[names[i]];
        if p.action == Allow {
          allow := allow + [p];
        } else if p.action == Deny {
          deny := deny + [p];
        }
      }
    }
    assert names[..|names|] == names;
    CollectHolds(names, w, store.Abs(), Allow);
    CollectHolds(names, w, store.Abs(), Deny);
  }

  /**
    Allowed exactly when the workload is known and the verdict over what the
    index finds is positive; with policies in place that is the documented
    decision.
   */
  method DoRbac(c: Conn, w: Option<Workload>, store: Store, net: Contains) returns (ok: bool)
    ensures ok <==> w.Some? && Verdict(c, Found(w.value, store.Abs()), store.byKey, net)
    ensures Complete(store.Abs()) && Placed(store.Abs()) ==> (ok <==> Allowed(c, w, store.Abs(), net))
  {
    if w.None? { return false; }
    var allow, deny := Aggregate(w.value, store);
    ok := DecideLists(c, allow, deny, net);
    ListsDecide(c, allow, deny, w.value, store.Abs(), net);
    if Complete(store.Abs()) { FindsApplicable(w.value, store.Abs()); }
  }

  method DecideLists(c: Conn, allow: seq<Policy>, deny: seq<Policy>, net: Contains) returns (ok: bool)
    ensures ok <==> Decide(c, allow, deny, net)
  {
    for i := 0 to |deny|
      invariant forall j | 0 <= j < i :: !PolicyMatches(c, deny[j], net)
    {
      var hit := Matches(c, deny[i], net);
      if hit {
        assert deny[i] in deny;
        return false;
      }
    }
    if |allow| == 0 { return true; }
    for i := 0 to |allow|
      invariant forall j | 0 <= j < i :: !PolicyMatches(c, allow[j], net)
    {
      var hit := Matches(c, allow[i], net);
      if hit {
        assert allow[i] in allow;
        return true;
      }
    }
    return false;
  }

  /**
    A deny policy that moved out of a namespace goes on denying there, although
    it no longer applies to the workload.
   */
  lemma MovedPolicyStillDenies(p: Policy, q: Policy, c: Conn, net: Contains)
    requires ResourceName(p) == ResourceName(q) && Home(p).Some? && Home(q) != Home(p) && Home(q) != Some("")
    requires !q.scope.UnknownScope? && q.action == Deny && PolicyMatches(c, q, net)
    ensures var ix, w := Run([DoUpdate(p), DoUpdate(q)], NO_POLICIES), Workload(Home(p).value, []);
      !Verdict(c, Found(w, ix), ix.byKey, net) && Allowed(c, Some(w), ix, net)
  {
    MovedPolicyLeavesName(p, q);
    OnlyTheMovedPolicy(p, q);
    var ix, w, key := Run([DoUpdate(p), DoUpdate(q)], NO_POLICIES), Workload(Home(p).value, []), ResourceName(q);
    assert key in Found(w, ix) && ix.byKey[key] == q;
    assert Applicable(w, ix) == {};
  }

  /** The rules of a policy that is only about a principal prefix. */
  function PrefixRules(prefix: string): seq<Rule> {
    [Rule([Clause([NO_CONSTRAINTS.(principals := Values([StringMatch(prefix, "", "")]))])])]
  }

  /** A policy on one principal prefix matches exactly the connections from principals with that prefix. */
  lemma PrefixPolicyMatches(c: Conn, p: Policy, prefix: string, net: Contains)
    requires prefix != "" && p.rules == PrefixRules(prefix)
    ensures PolicyMatches(c, p, net) <==>
            prefix <= c.src.trustDomain + "/ns/" + c.src.ns + "/sa/" + c.src.serviceAccount
  {
    var who := c.src.trustDomain + "/ns/" + c.src.ns + "/sa/" + c.src.serviceAccount;
    var pattern := StringMatch(prefix, "", "");
    var m := NO_CONSTRAINTS.(principals := Values([pattern]));
    TextHitMeans(who, pattern);
    assert pattern in [pattern] && m in [m];
    assert MatchHolds(c, m, net) <==> Denotes(pattern, who);
    assert ClauseHolds(c, Clause([m]), net) <==> MatchHolds(c, m, net);
    assert Clause([m]) in [Clause([m])];
    assert RuleHolds(c, Rule([Clause([m])]), net) <==> ClauseHolds(c, Clause([m]), net);
    assert Rule([Clause([m])]) in p.rules;
  }

  /** If it applies and denies, none of them is allowed. */
  lemma PrefixPolicyDenies(c: Conn, w: Workload, ix: Index, k: string, prefix: string, net: Contains)
    requires k in Applicable(w, ix) && ix.byKey[k].action == Deny && prefix != ""
    requires ix.byKey[k].rules == PrefixRules(prefix)
    requires prefix <= c.src.trustDomain + "/ns/" + c.src.ns + "/sa/" + c.src.serviceAccount
    ensures !Allowed(c, Some(w), ix, net)
  {
    PrefixPolicyMatches(c, ix.byKey[k], prefix, net);
  }

  lemma OnlyTheMovedPolicy(p: Policy, q: Policy)
    requires ResourceName(p) == ResourceName(q) && !q.scope.UnknownScope? && !p.scope.UnknownScope?
    ensures Run([DoUpdate(p), DoUpdate(q)], NO_POLICIES).byKey == map[ResourceName(q) := q]
  {
    assert [DoUpdate(p), DoUpdate(q)][1..] == [DoUpdate(q)] && [DoUpdate(q)][1..] == [];
    var one := Updated(p, NO_POLICIES);
    assert Run([DoUpdate(q)], one) == Run([], Updated(q, one)) == Updated(q, one);
  }
}

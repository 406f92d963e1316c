/**
  Authorization policies and the store that indexes them by name and by
  namespace.
 */
module PolicyStore {
  import opened Options

  type Ip = seq<nat>

  /** An address range; whether it contains an address is left to the network library. */
  datatype Addr = Addr(bytes: Ip, length: nat)

  /** At most one of the three texts is set. */
  datatype StringMatch = StringMatch(prefix: string, suffix: string, exact: string)

  /** A repeated field: never set, or a list that may be empty. */
  datatype Repeated<+T> = Unset | Values(elems: seq<T>)

  function Elems<T>(r: Repeated<T>): seq<T> {
    if r.Unset? then [] else r.elems
  }

  datatype Match = Match(
    dstIps: Repeated<Addr>, notDstIps: Repeated<Addr>,
    srcIps: Repeated<Addr>, notSrcIps: Repeated<Addr>,
    dstPorts: Repeated<nat>, notDstPorts: Repeated<nat>,
    principals: Repeated<StringMatch>, notPrincipals: Repeated<StringMatch>,
    namespaces: Repeated<StringMatch>, notNamespaces: Repeated<StringMatch>)

  datatype Clause = Clause(matches: seq<Match>)

  datatype Rule = Rule(clauses: seq<Clause>)

  datatype Scope = Global | Namespace | WorkloadSelector | UnknownScope

  datatype Action = Allow | Deny | OtherAction

  datatype Policy = Policy(name: string, ns: string, scope: Scope, action: Action, rules: seq<Rule>)

  function ResourceName(p: Policy): string { p.ns + "/" + p.name }

  /** The bucket a policy belongs to; None for policies workloads name themselves. */
  function Home(p: Policy): Option<string> {
    match p.scope
    case Global => Some("")
    case Namespace => Some(p.ns)
    case _ => None
  }

  // ---------- the index on values

  datatype Index = Index(byKey: map<string, Policy>, byNamespace: map<string, set<string>>)

  const NO_POLICIES: Index := Index(map[], map[])

  function Bucket(ns: string, ix: Index): set<string> {
    if ns in ix.byNamespace then ix.byNamespace[ns] else {}
  }

  function Updated(p: Policy, ix: Index): Index {
    var key := ResourceName(p);
    if p.scope.UnknownScope? then ix
    else if Home(p).None? then ix.(byKey := ix.byKey[key := p])
    else Index(ix.byKey[key := p], ix.byNamespace[Home(p).value := Bucket(Home(p).value, ix) + {key}])
  }

  function Removed(key: string, ix: Index): Index {
    if key !in ix.byKey then ix
    else
      var h := Home(ix.byKey[key]);
      if h.None? || h.value !in ix.byNamespace then ix.(byKey := ix.byKey - {key})
      else
        var left := ix.byNamespace[h.value] - {key};
        Index(ix.byKey - {key}, if left == {} then ix.byNamespace - {h.value} else ix.byNamespace[h.value := left])
  }

  /** Policies are stored under their own names. */
  ghost predicate Named(ix: Index) {
    forall k | k in ix.byKey :: ResourceName(ix.byKey[k]) == k
  }

  /** No stored global or namespace policy is missing from its bucket. */
  ghost predicate Complete(ix: Index) {
    forall k | k in ix.byKey && Home(ix.byKey[k]).Some? :: k in Bucket(Home(ix.byKey[k]).value, ix)
  }

  /** Each bucket holds exactly the stored policies that belong to it. */
  ghost predicate Exact(ix: Index) {
    forall ns, k :: k in Bucket(ns, ix) <==> k in ix.byKey && Home(ix.byKey[k]) == Some(ns)
  }

  /** A stored policy is named only by its own bucket, except that a global one may be named anywhere. */
  ghost predicate Placed(ix: Index) {
    forall ns, k | k in ix.byKey && k in Bucket(ns, ix) ::
      Home(ix.byKey[k]) == Some(ns) || Home(ix.byKey[k]) == Some("")
  }

  /** No bucket is left empty. */
  ghost predicate Tidy(ix: Index) {
    forall ns | ns in ix.byNamespace :: ix.byNamespace[ns] != {}
  }

  datatype Op = DoUpdate(p: Policy) | DoRemove(key: string)

  function Apply(op: Op, ix: Index): Index {
    match op
    case DoUpdate(p) => Updated(p, ix)
    case DoRemove(key) => Removed(key, ix)
  }

  /** The update does not move a stored policy out of the bucket it is in. */
  predicate Settled(op: Op, ix: Index) {
    op.DoUpdate? && !op.p.scope.UnknownScope? && ResourceName(op.p) in ix.byKey ==>
      var was := Home(ix.byKey[ResourceName(op.p)]);
      was.Some? ==> Home(op.p) == was
  }

  /** A removal takes out the policy and its name in its own bucket, and nothing else. */
  lemma RemovedMeans(key: string, ix: Index)
    requires Tidy(ix)
    ensures var after := Removed(key, ix);
      after.byKey == ix.byKey - {key} &&
      forall ns :: Bucket(ns, after) ==
        if key in ix.byKey && Home(ix.byKey[key]) == Some(ns) then Bucket(ns, ix) - {key} else Bucket(ns, ix)
  {
    if key !in ix.byKey { assert ix.byKey - {key} == ix.byKey; }
    var after := Removed(key, ix);
    forall ns
      ensures Bucket(ns, after) ==
        if key in ix.byKey && Home(ix.byKey[key]) == Some(ns) then Bucket(ns, ix) - {key} else Bucket(ns, ix)
    {
    }
  }

  /** An update stores the policy under its name and adds the name to its bucket; one of unknown scope does nothing. */
  lemma UpdatedMeans(p: Policy, ix: Index)
    ensures p.scope == UnknownScope ==> Updated(p, ix) == ix
    ensures p.scope != UnknownScope ==> Updated(p, ix).byKey == ix.byKey[p.ns + "/" + p.name := p]
    ensures forall ns :: Bucket(ns, Updated(p, ix)) ==
              if (p.scope == Global && ns == "") || (p.scope == Namespace && ns == p.ns)
              then Bucket(ns, ix) + {p.ns + "/" + p.name} else Bucket(ns, ix)
  {
  }

  lemma FirstSlash(ns: string, name: string)
    requires '/' !in ns
    ensures var s := ns + "/" + name;
      s[|ns|] == '/' && (forall i | 0 <= i < |ns| :: s[i] != '/') && s[..|ns|] == ns && s[|ns| + 1..] == name
  {
  }

  /** Names tell policies apart, as long as no namespace has a slash in it. */
  lemma NameIdentifies(p: Policy, q: Policy)
    requires '/' !in p.ns && '/' !in q.ns
    ensures ResourceName(p) == ResourceName(q) <==> p.ns == q.ns && p.name == q.name
  {
    FirstSlash(p.ns, p.name);
    FirstSlash(q.ns, q.name);
  }

  /** Every operation keeps every stored policy findable. */
  lemma StepComplete(op: Op, ix: Index)
    requires Complete(ix)
    ensures Complete(Apply(op, ix)) && (Named(ix) ==> Named(Apply(op, ix)))
  {
  }

  lemma StepTidy(op: Op, ix: Index)
    requires Tidy(ix)
    ensures Tidy(Apply(op, ix))
  {
    if op.DoUpdate? && Home(op.p).Some? {
      assert ResourceName(op.p) in Bucket(Home(op.p).value, ix) + {ResourceName(op.p)};
    }
  }

  /** An operation keeps the index exact exactly when it is settled. */
  lemma StepExactIff(op: Op, ix: Index)
    requires Exact(ix)
    ensures Exact(Apply(op, ix)) <==> Settled(op, ix)
  {
    var after := Apply(op, ix);
    if op.DoUpdate? {
      UpdateExactIff(op.p, ix);
    } else if op.key in ix.byKey {
      var h := Home(ix.byKey[op.key]);
      forall ns, k
        ensures k in Bucket(ns, after) <==> k in after.byKey && Home(after.byKey[k]) == Some(ns)
      {
        assert op.key in Bucket(ns, ix) <==> h == Some(ns);
        assert Bucket(ns, after) == Bucket(ns, ix) - {op.key};
      }
    }
  }

  lemma UpdateExactIff(p: Policy, ix: Index)
    requires Exact(ix)
    ensures Exact(Updated(p, ix)) <==> Settled(DoUpdate(p), ix)
  {
    var key, after := ResourceName(p), Updated(p, ix);
    if !p.scope.UnknownScope? {
      forall ns
        ensures Bucket(ns, after) == if Home(p) == Some(ns) then Bucket(ns, ix) + {key} else Bucket(ns, ix)
      {
      }
      if !Settled(DoUpdate(p), ix) {
        var h := Home(ix.byKey[key]).value;
        assert key in Bucket(h, ix) && key in Bucket(h, after) && Home(after.byKey[key]) != Some(h);
      }
    }
  }

  /** The update leaves no bucket behind that names the policy, unless it becomes global. */
  ghost predicate KeepsPlace(op: Op, ix: Index) {
    op.DoUpdate? && !op.p.scope.UnknownScope? ==>
      forall ns | ResourceName(op.p) in Bucket(ns, ix) :: Home(op.p) == Some(ns) || Home(op.p) == Some("")
  }

  /** An operation keeps policies in place exactly when no bucket names the policy wrongly. */
  lemma StepPlacedIff(op: Op, ix: Index)
    requires Placed(ix)
    ensures Placed(Apply(op, ix)) <==> KeepsPlace(op, ix)
  {
    var after := Apply(op, ix);
    if op.DoUpdate? && !op.p.scope.UnknownScope? {
      var p, key := op.p, ResourceName(op.p);
      forall ns
        ensures Bucket(ns, after) == if Home(p) == Some(ns) then Bucket(ns, ix) + {key} else Bucket(ns, ix)
      {
      }
      if Placed(after) {
        forall ns | key in Bucket(ns, ix)
          ensures Home(p) == Some(ns) || Home(p) == Some("")
        {
          assert key in Bucket(ns, after) && after.byKey[key] == p;
        }
      }
    } else {
      forall ns
        ensures Bucket(ns, after) <= Bucket(ns, ix)
      {
      }
    }
  }

  function Run(ops: seq<Op>, ix: Index): Index {
    if ops == [] then ix else Run(ops[1..], Apply(ops[0], ix))
  }

  predicate SettledRun(ops: seq<Op>, ix: Index) {
    ops == [] || (Settled(ops[0], ix) && SettledRun(ops[1..], Apply(ops[0], ix)))
  }

  /** Over every run nothing stored is lost from its bucket; over a settled run the index is exact. */
  lemma {:induction false} RunIndex(ops: seq<Op>, ix: Index)
    requires Named(ix) && Complete(ix) && Tidy(ix)
    ensures Named(Run(ops, ix)) && Complete(Run(ops, ix)) && Tidy(Run(ops, ix))
    ensures Exact(ix) && SettledRun(ops, ix) ==> Exact(Run(ops, ix))
  {
    if ops != [] {
      StepComplete(ops[0], ix);
      StepTidy(ops[0], ix);
      if Exact(ix) { StepExactIff(ops[0], ix); }
      RunIndex(ops[1..], Apply(ops[0], ix));
    }
  }

  /** The i-th operation stores p under the key, and none since has stored or removed anything under it. */
  predicate StoredAt(ops: seq<Op>, i: nat, key: string, p: Policy) {
    i < |ops| && ops[i] == DoUpdate(p) && p.scope != UnknownScope && ResourceName(p) == key &&
    forall j | i < j < |ops| :: Spares(ops[j], key)
  }

  /** The operation neither stores nor removes anything under the key. */
  predicate Spares(op: Op, key: string) {
    match op
    case DoUpdate(q) => q.scope == UnknownScope || ResourceName(q) != key
    case DoRemove(k) => k != key
  }

  lemma {:induction false} RunLast(ops: seq<Op>, op: Op, ix: Index)
    ensures Run(ops + [op], ix) == Apply(op, Run(ops, ix))
  {
    if ops == [] {
      assert (ops + [op])[1..] == [];
    } else {
      RunLast(ops[1..], op, Apply(ops[0], ix));
      assert (ops + [op])[1..] == ops[1..] + [op];
    }
  }

  /**
    After every run from the empty store, a key holds a policy exactly if it is
    that of the last update of the key with a known scope, not removed since.
   */
  lemma {:induction false} RunStores(ops: seq<Op>, key: string, p: Policy)
    ensures Get(Run(ops, NO_POLICIES).byKey, key) == Some(p) <==> exists i: nat :: StoredAt(ops, i, key, p)
  {
    if ops != [] {
      var front, op, n := ops[..|ops| - 1], ops[|ops| - 1], |ops| - 1;
      assert ops == front + [op];
      RunLast(front, op, NO_POLICIES);
      RunStores(front, key, p);
      RunIndex(front, NO_POLICIES);
      if op.DoRemove? { RemovedMeans(op.key, Run(front, NO_POLICIES)); }
      forall i: nat | i < n
        ensures StoredAt(ops, i, key, p) <==> StoredAt(front, i, key, p) && Spares(op, key)
      {
        assert forall j | 0 <= j < n :: ops[j] == front[j];
      }
      assert StoredAt(ops, n, key, p) <==> op == DoUpdate(p) && p.scope != UnknownScope && ResourceName(p) == key;
      if i: nat :| StoredAt(ops, i, key, p) { assert i == n || StoredAt(front, i, key, p); }
      if i: nat :| StoredAt(front, i, key, p) { assert i < n; }
    }
  }

  ghost predicate KeepsPlaceRun(ops: seq<Op>, ix: Index) {
    ops == [] || (KeepsPlace(ops[0], ix) && KeepsPlaceRun(ops[1..], Apply(ops[0], ix)))
  }

  /** Over every run whose updates name no policy wrongly, policies stay in place. */
  lemma {:induction false} RunPlaced(ops: seq<Op>, ix: Index)
    requires Placed(ix) && KeepsPlaceRun(ops, ix)
    ensures Placed(Run(ops, ix))
  {
    if ops != [] {
      StepPlacedIff(ops[0], ix);
      RunPlaced(ops[1..], Apply(ops[0], ix));
    }
  }

  /** A policy that moves leaves its name behind in the old bucket, even after it is removed. */
  lemma MovedPolicyLeavesName(p: Policy, q: Policy)
    requires ResourceName(p) == ResourceName(q) && Home(p).Some? && Home(q) != Home(p) && !q.scope.UnknownScope?
    ensures var ix := Run([DoUpdate(p), DoUpdate(q)], NO_POLICIES);
      ResourceName(q) in Bucket(Home(p).value, ix) && Get(ix.byKey, ResourceName(q)) == Some(q) && !Exact(ix) &&
      ResourceName(q) in Bucket(Home(p).value, Removed(ResourceName(q), ix))
  {
    var one := Updated(p, NO_POLICIES);
    var two := Updated(q, one);
    assert [DoUpdate(p), DoUpdate(q)][1..] == [DoUpdate(q)] && [DoUpdate(q)][1..] == [];
    assert Run([DoUpdate(q)], one) == Run([], two);
    assert Run([], two) == two;
    assert ResourceName(q) in Bucket(Home(p).value, two) && Home(two.byKey[ResourceName(q)]) != Some(Home(p).value);
  }

  // ---------- the object

  class Store {
    var byKey: map<string, Policy>
    var byNamespace: map<string, set<string>>

    ghost function Abs(): Index
      reads this
    {
      Index(byKey, byNamespace)
    }

    constructor ()
      ensures Abs() == NO_POLICIES
    {
      byKey, byNamespace := map[], map[];
    }

    /** None is a null policy, which is ignored; a policy of unknown scope is refused. */
    method UpdatePolicy(p: Option<Policy>) returns (ok: bool)
      modifies this
      ensures ok == (p.Some? ==> !p.value.scope.UnknownScope?)
      ensures Abs() == if p.Some? then Updated(p.value, old(Abs())) else old(Abs())
    {
      if p.None? { return true; }
      var key := ResourceName(p.value);
      var ns: string;
      match p.value.scope {
        case WorkloadSelector =>
          byKey := byKey[key := p.value];
          return true;
        case Global => ns := "";
        case Namespace => ns := p.value.ns;
        case UnknownScope => return false;
      }
      if ns !in byNamespace {
        assert {} + {key} == {key};
        byNamespace := byNamespace[ns := {key}];
      } else {
        byNamespace := byNamespace[ns := byNamespace[ns] + {key}];
      }
      byKey := byKey[key := p.value];
      return true;
    }

    method RemovePolicy(key: string)
      modifies this
      ensures Abs() == Removed(key, old(Abs()))
    {
      if key !in byKey { return; }
      var p := byKey[key];
      byKey := byKey - {key};
      var ns: string;
      match p.scope {
        case Global => ns := "";
        case Namespace => ns := p.ns;
        case _ => return;
      }
      if ns in byNamespace {
        var left := byNamespace[ns] - {key};
        byNamespace := byNamespace[ns := left];
        if left == {} { byNamespace := byNamespace - {ns}; }
      }
    }

    /** The names in a bucket, each once, in no particular order. */
    method GetByNamespace(ns: string) returns (names: seq<string>)
      ensures forall n :: n in names <==> n in Bucket(ns, Abs())
    {
      names := [];
      if ns !in byNamespace { return; }
      var rest := byNamespace[ns];
      while rest != {}
        invariant rest <= byNamespace[ns]
        invariant forall n :: n in names <==> n in byNamespace[ns] && n !in rest
        decreases rest
      {
        var n :| n in rest;
        names := names + [n];
        rest := rest - {n};
      }
    }
  }
}

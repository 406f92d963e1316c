/**
  The store as its users see it: one message per root key.  Update, delete,
  lookup and restart refine that view, from every reachable state.
 */
module StoreRefinement {
  import opened OuterKey
  import opened Schema
  import opened StoreModel
  import opened StoreFrames
  import opened StoreDelete
  import opened StoreWrite

  // ---------- the operations

  function Delete(r: RootMap, key: string, s: Mem): (t: Mem)
    requires r.desc.Msg?
    ensures t.pos == s.pos
  {
    DelMap(r.desc, Root(r, key), s)
  }

  function Blank(): (buf: string)
    ensures |buf| == MAP_VAL_REPEAT_SIZE
  {
    seq(MAP_VAL_REPEAT_SIZE, _ => NUL)
  }

  /** Drops the old entry, writes the new one, and on failure deletes what was half written. */
  ghost function Update(r: RootMap, key: string, m: Message, s: Mem): Written<()>
    requires r.desc.Msg? && Conforms(r.desc, m) && |s.pos| == MAP_TYPE_MAX
  {
    var w := WriteMap(r.desc, m, Root(r, key), Delete(r, key, s).(scratch := Blank()));
    if w.ok then w else Written(false, (), Delete(r, key, w.s))
  }

  function Lookup(r: RootMap, key: string, s: Mem): Result<Val>
    requires r.desc.Msg?
  {
    ReadMap(r.desc, Root(r, key), s.data)
  }

  ghost function FilledSlots(data: Data): set<Slot> {
    set l | l in data && l.Inner? :: l.slot
  }

  /** A new process rebuilds the used bits from the slab maps; cursors restart anywhere in range. */
  ghost function Restart(pos: seq<nat>, s: Mem): Mem {
    s.(used := FilledSlots(s.data), pos := pos)
  }

  const FRESH: Mem := Mem({}, [1, 1, 1, 1], map[], "")

  // ---------- the invariant

  /** What the entry at a root key owns. */
  ghost function Owned(l: Loc, data: Data): Fp {
    if l.Root? && l.root.desc.Msg? then ReachMap(l.root.desc, l, data) else NOTHING
  }

  /** One root entry is whole: readable, and owning filled slots, each once. */
  ghost predicate Whole(l: Loc, s: Mem) {
    l.Root? ==>
      l.root.desc.Msg? && Owned(l, s.data).apart && Owned(l, s.data).slots <= s.used &&
      ReadMap(l.root.desc, l, s.data).Ok? && ReadMap(l.root.desc, l, s.data).v.Sub?
  }

  ghost predicate Disjoint(p: Loc, q: Loc, s: Mem) {
    p.Root? && q.Root? && p != q ==> Owned(p, s.data).slots !! Owned(q, s.data).slots
  }

  ghost predicate OwnedBySome(x: Slot, s: Mem) {
    exists l :: l in s.data && l.Root? && x in Owned(l, s.data).slots
  }

  /** The used bits, the filled slab entries and the disjoint union of all owned slots are one set. */
  ghost predicate Inv(s: Mem) {
    && Cursors(s.pos)
    && (forall x | x in s.used :: Allocatable(x))
    && s.used == FilledSlots(s.data)
    && (forall l | l in s.data :: Whole(l, s))
    && (forall p, q | p in s.data && q in s.data :: Disjoint(p, q, s))
    && (forall x | x in s.used :: OwnedBySome(x, s))
  }

  /** The message stored under each root key. */
  ghost function View(s: Mem): map<Loc, Message>
    requires Inv(s)
  {
    map l | l in s.data && l.Root? :: ReadMap(l.root.desc, l, s.data).v.m
  }

  lemma FilledIff(s: Mem, x: Slot)
    ensures x in FilledSlots(s.data) <==> Inner(x) in s.data
  {
    assert Inner(x) in s.data ==> Inner(x).slot in FilledSlots(s.data);
  }

  lemma InvIsClean(s: Mem)
    requires Inv(s)
    ensures Clean(s) && Ready(s.(scratch := Blank()))
    ensures forall x: Slot :: Inner(x) in s.data <==> x in s.used
  {
    forall x: Slot ensures Inner(x) in s.data <==> x in s.used { FilledIff(s, x); }
  }

  /** An entry whose slots are untouched keeps its footprint and its message. */
  lemma KeepsEntry(q: Loc, s: Mem, t: Mem)
    requires Whole(q, s) && q.Root? && Clean(s) && NoZero(t.data)
    requires q in s.data && q in t.data && s.data[q] == t.data[q]
    requires Agree(s.data, t.data, Owned(q, s.data).slots) && Owned(q, s.data).slots <= t.used
    ensures Whole(q, t) && Owned(q, t.data) == Owned(q, s.data)
    ensures ReadMap(q.root.desc, q, t.data) == ReadMap(q.root.desc, q, s.data)
  {
    FrameMap(q.root.desc, q, s.data, t.data);
  }

  /** Every root entry of t other than l is an entry of s, unchanged. */
  ghost predicate Carried(l: Loc, s: Mem, t: Mem) {
    forall q | q in t.data && q.Root? && q != l ::
      q in s.data && Whole(q, t) && Owned(q, t.data) == Owned(q, s.data) &&
      ReadMap(q.root.desc, q, t.data) == ReadMap(q.root.desc, q, s.data)
  }

  /** Carrying over the other entries, plus a whole and separate entry at l if there is one, gives Inv. */
  lemma InvFromParts(l: Loc, s: Mem, t: Mem)
    requires Inv(s) && Cursors(t.pos) && Clean(t) && l.Root? && Carried(l, s, t)
    requires forall x | x in t.used :: Allocatable(x)
    requires forall x: Slot :: Inner(x) in t.data <==> x in t.used
    requires forall q | q in s.data && q.Root? && q != l :: q in t.data
    requires l in t.data ==> Whole(l, t) && forall q | q in s.data && q.Root? && q != l ::
               Owned(q, s.data).slots !! Owned(l, t.data).slots
    requires forall x | x in t.used ::
               (l in t.data && x in Owned(l, t.data).slots) || (x in s.used && x !in Owned(l, s.data).slots)
    ensures Inv(t)
  {
    forall x: Slot ensures x in t.used <==> x in FilledSlots(t.data) { FilledIff(t, x); }
    assert t.used == FilledSlots(t.data);
    forall q | q in t.data ensures Whole(q, t) { }
    forall p, q | p in t.data && q in t.data
      ensures Disjoint(p, q, t)
    {
      if p.Root? && q.Root? && p != l && q != l { assert Disjoint(p, q, s); }
    }
    forall x | x in t.used
      ensures OwnedBySome(x, t)
    {
      if l in t.data && x in Owned(l, t.data).slots {
      } else {
        assert OwnedBySome(x, s);
        var q :| q in s.data && q.Root? && x in Owned(q, s.data).slots;
        assert q in t.data && x in Owned(q, t.data).slots;
      }
    }
  }

  // ---------- delete

  /** Deleting frees exactly the slots the entry owned, and nothing else changes. */
  lemma DeleteExact(r: RootMap, key: string, s: Mem)
    requires Inv(s) && r.desc.Msg?
    ensures Delete(r, key, s) == Remove(Root(r, key), Drop(s, Owned(Root(r, key), s.data).slots))
  {
    var l := Root(r, key);
    InvIsClean(s);
    if l in s.data { assert Whole(l, s); }
    DeleteMap(r.desc, l, s);
  }

  lemma DeleteCarries(l: Loc, s: Mem)
    requires Inv(s) && l.Root? && l.root.desc.Msg?
    ensures Carried(l, s, Remove(l, Drop(s, Owned(l, s.data).slots)))
  {
    var t := Remove(l, Drop(s, Owned(l, s.data).slots));
    InvIsClean(s);
    forall q | q in t.data && q.Root? && q != l
      ensures Whole(q, t) && Owned(q, t.data) == Owned(q, s.data)
      ensures ReadMap(q.root.desc, q, t.data) == ReadMap(q.root.desc, q, s.data)
    {
      assert Whole(q, s);
      if l in s.data { assert Disjoint(q, l, s); }
      KeepsEntry(q, s, t);
    }
  }

  lemma DeleteRefines(r: RootMap, key: string, s: Mem)
    requires Inv(s) && r.desc.Msg?
    ensures Inv(Delete(r, key, s)) && Root(r, key) !in Delete(r, key, s).data
    ensures View(Delete(r, key, s)) == View(s) - {Root(r, key)}
    ensures Carried(Root(r, key), s, Delete(r, key, s))
  {
    var l, t := Root(r, key), Delete(r, key, s);
    InvIsClean(s);
    DeleteExact(r, key, s);
    DeleteCarries(l, s);
    InvFromParts(l, s, t);
  }

  // ---------- update

  /** A failed write, deleted again, leaves used bits and maps as they were before it. */
  lemma RollbackExact(k: Kind, m: Message, l: Loc, s: Mem)
    requires k.Msg? && Conforms(k, m) && Ready(s) && l.Root? && l !in s.data
    ensures var t := DelMap(k, l, WriteMap(k, m, l, s).s);
      t.used == s.used && t.data == s.data && Cursors(t.pos)
  {
    var w := WriteMap(k, m, l, s);
    var fp := ReachMap(k, l, w.s.data);
    WriteMapSpec(k, m, l, s);
    assert Clean(w.s);
    DeleteMap(k, l, w.s);
    var t := DelMap(k, l, w.s);
    assert t.used == s.used;
    forall q ensures q in t.data <==> q in s.data { }
    assert t.data == s.data;
  }

  lemma WriteCarries(r: RootMap, key: string, m: Message, s: Mem)
    requires Inv(s) && |s.scratch| == MAP_VAL_REPEAT_SIZE && r.desc.Msg? && Conforms(r.desc, m)
    requires Root(r, key) !in s.data
    ensures Carried(Root(r, key), s, WriteMap(r.desc, m, Root(r, key), s).s)
  {
    var l, t := Root(r, key), WriteMap(r.desc, m, Root(r, key), s).s;
    InvIsClean(s);
    WriteMapSpec(r.desc, m, l, s);
    forall q | q in t.data && q.Root? && q != l
      ensures Whole(q, t) && Owned(q, t.data) == Owned(q, s.data)
      ensures ReadMap(q.root.desc, q, t.data) == ReadMap(q.root.desc, q, s.data)
    {
      assert Whole(q, s);
      KeepsEntry(q, s, t);
    }
  }

  lemma ViewStep(l: Loc, m: Message, s: Mem, t: Mem)
    requires Inv(s) && Inv(t) && l.Root? && l in t.data && l.root.desc.Msg? && Carried(l, s, t)
    requires forall q | q in s.data && q.Root? && q != l :: q in t.data
    requires ReadMap(l.root.desc, l, t.data) == Ok(Sub(m))
    ensures View(t) == View(s)[l := m]
  {
    var v, w := View(t), View(s)[l := m];
    forall q
      ensures q in v <==> q in w
      ensures q in v ==> v[q] == w[q]
    {
    }
  }

  lemma WriteInv(r: RootMap, key: string, m: Message, s: Mem)
    requires Inv(s) && |s.scratch| == MAP_VAL_REPEAT_SIZE && r.desc.Msg? && Conforms(r.desc, m)
    requires Root(r, key) !in s.data && WriteMap(r.desc, m, Root(r, key), s).ok
    ensures Inv(WriteMap(r.desc, m, Root(r, key), s).s)
  {
    var l, t := Root(r, key), WriteMap(r.desc, m, Root(r, key), s).s;
    InvIsClean(s);
    WriteMapSpec(r.desc, m, l, s);
    WriteCarries(r, key, m, s);
    forall q | q in s.data && q.Root?
      ensures q in t.data && Owned(q, s.data).slots !! Owned(l, t.data).slots
    {
      assert Whole(q, s);
    }
    InvFromParts(l, s, t);
  }

  /** A successful write into a store without the entry adds it and disturbs no other. */
  lemma WriteRefines(r: RootMap, key: string, m: Message, s: Mem)
    requires Inv(s) && |s.scratch| == MAP_VAL_REPEAT_SIZE && r.desc.Msg? && Conforms(r.desc, m)
    requires Root(r, key) !in s.data && WriteMap(r.desc, m, Root(r, key), s).ok
    ensures var t := WriteMap(r.desc, m, Root(r, key), s).s;
      Inv(t) && View(t) == View(s)[Root(r, key) := m]
  {
    var l, t := Root(r, key), WriteMap(r.desc, m, Root(r, key), s).s;
    WriteInv(r, key, m, s);
    WriteCarries(r, key, m, s);
    InvIsClean(s);
    WriteMapSpec(r.desc, m, l, s);
    ViewStep(l, m, s, t);
  }

  lemma ScratchIrrelevant(s: Mem, buf: string, pos: seq<nat>)
    requires Inv(s) && Cursors(pos)
    ensures Inv(s.(scratch := buf, pos := pos)) && View(s.(scratch := buf, pos := pos)) == View(s)
  {
    var t := s.(scratch := buf, pos := pos);
    forall q | q in t.data ensures Whole(q, t) { assert Whole(q, s); }
    forall p, q | p in t.data && q in t.data ensures Disjoint(p, q, t) { assert Disjoint(p, q, s); }
    forall x | x in t.used ensures OwnedBySome(x, t) {
      assert OwnedBySome(x, s);
      var q :| q in s.data && q.Root? && x in Owned(q, s.data).slots;
      assert q in t.data && x in Owned(q, t.data).slots;
    }
  }

  lemma RemoveThenPut<K, V>(v: map<K, V>, k: K, x: V)
    ensures (v - {k})[k := x] == v[k := x]
  {
  }

  lemma OkUpdate(r: RootMap, key: string, m: Message, s: Mem)
    requires Inv(s) && r.desc.Msg? && Conforms(r.desc, m) && Update(r, key, m, s).ok
    ensures Inv(Update(r, key, m, s).s) && View(Update(r, key, m, s).s) == View(s)[Root(r, key) := m]
  {
    var l, d := Root(r, key), Delete(r, key, s);
    DeleteRefines(r, key, s);
    ScratchIrrelevant(d, Blank(), d.pos);
    WriteRefines(r, key, m, d.(scratch := Blank()));
    RemoveThenPut(View(s), l, m);
  }

  lemma FailedUpdate(r: RootMap, key: string, m: Message, s: Mem)
    requires Inv(s) && r.desc.Msg? && Conforms(r.desc, m) && !Update(r, key, m, s).ok
    ensures var u := Update(r, key, m, s).s; var d := Delete(r, key, s);
      u.used == d.used && u.data == d.data && Inv(u) && View(u) == View(s) - {Root(r, key)}
  {
    var d, u := Delete(r, key, s), Update(r, key, m, s).s;
    DeleteRefines(r, key, s);
    InvIsClean(d);
    RollbackExact(r.desc, m, Root(r, key), d.(scratch := Blank()));
    ScratchIrrelevant(d, u.scratch, u.pos);
    assert u == d.(scratch := u.scratch, pos := u.pos);
  }

  /**
    An update that returns 0 stores exactly the message; one that fails leaves
    the store as if only the old entry had been deleted.
   */
  lemma UpdateRefines(r: RootMap, key: string, m: Message, s: Mem)
    requires Inv(s) && r.desc.Msg? && Conforms(r.desc, m)
    ensures Inv(Update(r, key, m, s).s)
    ensures var u := Update(r, key, m, s); var d := Delete(r, key, s);
      View(u.s) == (if u.ok then View(s)[Root(r, key) := m] else View(s) - {Root(r, key)}) &&
      (!u.ok ==> u.s.used == d.used && u.s.data == d.data)
  {
    if Update(r, key, m, s).ok {
      OkUpdate(r, key, m, s);
    } else {
      FailedUpdate(r, key, m, s);
    }
  }

  // ---------- lookup and restart

  /** Lookup answers from the view: the stored message, or a null pointer. */
  lemma LookupRefines(r: RootMap, key: string, s: Mem)
    requires Inv(s) && r.desc.Msg?
    ensures Lookup(r, key, s) == Ok(if Root(r, key) in View(s) then Sub(View(s)[Root(r, key)]) else Absent)
  {
    if Root(r, key) in s.data { assert Whole(Root(r, key), s); }
  }

  /** Round trip: what a successful update wrote is what the next lookup rebuilds. */
  lemma RoundTrip(r: RootMap, key: string, m: Message, s: Mem)
    requires Inv(s) && r.desc.Msg? && Conforms(r.desc, m)
    requires Update(r, key, m, s).ok
    ensures Lookup(r, key, Update(r, key, m, s).s) == Ok(Sub(m))
  {
    UpdateRefines(r, key, m, s);
    LookupRefines(r, key, Update(r, key, m, s).s);
  }

  /** Isolation: no update or delete changes what any other root key, in any root map, looks up. */
  lemma Isolation(r: RootMap, key: string, m: Message, other: RootMap, k2: string, s: Mem)
    requires Inv(s) && r.desc.Msg? && other.desc.Msg? && Conforms(r.desc, m) && Root(other, k2) != Root(r, key)
    ensures Lookup(other, k2, Delete(r, key, s)) == Lookup(other, k2, s)
    ensures Lookup(other, k2, Update(r, key, m, s).s) == Lookup(other, k2, s)
  {
    DeleteRefines(r, key, s);
    UpdateRefines(r, key, m, s);
    LookupRefines(other, k2, s);
    LookupRefines(other, k2, Delete(r, key, s));
    LookupRefines(other, k2, Update(r, key, m, s).s);
  }

  /** A restart finds exactly the slots that were in use. */
  lemma RestartRefines(pos: seq<nat>, s: Mem)
    requires Inv(s) && Cursors(pos)
    ensures Restart(pos, s).used == s.used && Inv(Restart(pos, s)) && View(Restart(pos, s)) == View(s)
  {
    ScratchIrrelevant(s, s.scratch, pos);
  }

  // ---------- runs

  datatype Op =
    | DoUpdate(r: RootMap, key: string, m: Message)
    | DoDelete(r: RootMap, key: string)
    | DoRestart(pos: seq<nat>)

  ghost predicate Legal(op: Op) {
    match op
    case DoUpdate(r, _, m) => r.desc.Msg? && Conforms(r.desc, m)
    case DoDelete(r, _) => r.desc.Msg?
    case DoRestart(pos) => Cursors(pos)
  }

  ghost function Step(op: Op, s: Mem): (r: Written<()>)
    requires Inv(s) && Legal(op)
    ensures Inv(r.s)
  {
    match op
    case DoUpdate(r, key, m) => UpdateRefines(r, key, m, s); Update(r, key, m, s)
    case DoDelete(r, key) => DeleteRefines(r, key, s); Written(true, (), Delete(r, key, s))
    case DoRestart(pos) => RestartRefines(pos, s); Written(true, (), Restart(pos, s))
  }

  ghost function Run(ops: seq<Op>, s: Mem): (t: Mem)
    requires Inv(s) && forall i | 0 <= i < |ops| :: Legal(ops[i])
    ensures Inv(t)
  {
    if ops == [] then s else Run(ops[1..], Step(ops[0], s).s)
  }

  /** What the operations mean for a plain map; ok says which updates returned 0. */
  ghost function Meaning(ops: seq<Op>, ok: seq<bool>, v: map<Loc, Message>): map<Loc, Message>
    requires |ok| == |ops|
  {
    if ops == [] then v
    else
      Meaning(ops[1..], ok[1..],
              match ops[0]
              case DoUpdate(r, key, m) => if ok[0] then v[Root(r, key) := m] else v - {Root(r, key)}
              case DoDelete(r, key) => v - {Root(r, key)}
              case DoRestart(_) => v)
  }

  ghost function Outcomes(ops: seq<Op>, s: Mem): (ok: seq<bool>)
    requires Inv(s) && forall i | 0 <= i < |ops| :: Legal(ops[i])
    ensures |ok| == |ops|
  {
    if ops == [] then [] else [Step(ops[0], s).ok] + Outcomes(ops[1..], Step(ops[0], s).s)
  }

  /** Every run of updates, deletes and restarts is a run on a plain map of messages. */
  lemma {:induction false} RunRefines(ops: seq<Op>, s: Mem)
    requires Inv(s) && forall i | 0 <= i < |ops| :: Legal(ops[i])
    ensures View(Run(ops, s)) == Meaning(ops, Outcomes(ops, s), View(s))
  {
    if ops != [] {
      var t := Step(ops[0], s);
      match ops[0] {
        case DoUpdate(r, key, m) => UpdateRefines(r, key, m, s);
        case DoDelete(r, key) => DeleteRefines(r, key, s);
        case DoRestart(pos) => RestartRefines(pos, s);
      }
      RunRefines(ops[1..], t.s);
      assert Outcomes(ops, s)[1..] == Outcomes(ops[1..], t.s);
    }
  }

  lemma FreshInv()
    ensures Inv(FRESH) && View(FRESH) == map[]
  {
    assert FilledSlots(map[]) == {};
  }

  /** Every reachable store is sound and means what its operations mean on a plain map. */
  lemma ReachableStores(ops: seq<Op>)
    requires forall i | 0 <= i < |ops| :: Legal(ops[i])
    ensures Inv(FRESH) && Inv(Run(ops, FRESH))
    ensures View(Run(ops, FRESH)) == Meaning(ops, Outcomes(ops, FRESH), map[])
  {
    FreshInv();
    RunRefines(ops, FRESH);
  }
}

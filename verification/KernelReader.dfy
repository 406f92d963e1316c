/**
  The eBPF programs read the same maps through KMESH_GET_PTR_VAL, which derives
  the slab map from the C type instead of trusting the key.  As long as every
  slot was served from its home class, that finds the tree the writer stored.
 */
module KernelReader {
  import opened Options
  import opened OuterKey
  import opened Schema
  import opened StoreModel
  import opened StoreFrames
  import opened StoreWrite
  import opened StoreRefinement
  import opened StoreAdmission

  /** The types the macro tells apart: char *, void * or void **, and a struct of some size. */
  datatype CType = CharPtr | VoidPtr | StructOf(size: nat)

  /** The slab map the macro looks in; None when it gives up. */
  function PtrClass(t: CType): Option<nat> {
    match t
    case CharPtr => Some(1)
    case VoidPtr => Some(3)
    case StructOf(size) =>
      if size == 8 then Some(0)
      else if size <= 64 then Some(0)
      else if size <= 192 then Some(1)
      else if size <= 296 then Some(2)
      else if size <= 1600 then Some(3)
      else None
  }

  /** A null pointer unless the key names the expected map and the entry exists. */
  function GetPtrVal(c: Cell, t: CType, data: Data): Option<Stored> {
    if PtrClass(t).None? || !c.Word? || KeyType(c.w) != PtrClass(t).value then None
    else
      var l := Inner(Slot(KeyType(c.w), KeyIndex(c.w)));
      if l in data then Some(data[l]) else None
  }

  function TypeOf(kind: Kind): CType {
    match kind
    case Str => CharPtr
    case Msg(size, _) => StructOf(size)
    case Scalar(_) => VoidPtr
  }

  /** The tree a kernel program sees below a record it holds. */
  function KernelFields(k: Kind, i: nat, rec: Record, data: Data): Message
    requires k.Msg?
    decreases k, 3, |rec| - i
  {
    if i >= |rec| || i >= |k.fields| then []
    else [FieldVal(rec[i].quant, KernelField(k.fields[i], rec[i], data))] + KernelFields(k, i + 1, rec, data)
  }

  function KernelField(f: Field, fc: FieldCell, data: Data): Val
    decreases f, 1, 0
  {
    if !Handled(f, fc) then
      if Selected(f, fc.quant) && !f.repeated && f.kind.Scalar? && fc.c.Word? then Num(fc.c.w) else Absent
    else if !f.repeated then KernelTarget(f.kind, fc.c, data)
    else
      match GetPtrVal(fc.c, VoidPtr, data)
      case Some(Numbers(nums)) => if f.kind.Scalar? then List(nums) else Absent
      case Some(Pointers(cells)) =>
        if f.kind.Scalar? then Absent else List(KernelElems(f.kind, cells, 0, fc.quant, data))
      case _ => Absent
  }

  function KernelTarget(kind: Kind, c: Cell, data: Data): Val
    decreases kind, 5, 0
  {
    match GetPtrVal(c, TypeOf(kind), data)
    case Some(Struct(rec)) => if kind.Msg? then Sub(KernelFields(kind, 0, rec, data)) else Absent
    case Some(Buffer(text)) => if kind.Str? then Text(CString(text)) else Absent
    case _ => Absent
  }

  function KernelElems(kind: Kind, cells: seq<Cell>, j: nat, n: nat, data: Data): seq<Val>
    decreases kind, 6, n - j
  {
    if j >= n || j >= |cells| then []
    else [KernelTarget(kind, cells[j], data)] + KernelElems(kind, cells, j + 1, n, data)
  }

  // ---------- agreement with the user-space reader

  /** The kernel finds a stored value exactly when it sits in its home class. */
  lemma KernelFindsIff(kind: Kind, x: Slot, data: Data)
    requires !kind.Scalar? && Allocatable(x) && Inner(x) in data && (kind.Msg? ==> kind.size <= MAP_VAL_REPEAT_SIZE)
    ensures GetPtrVal(Word(GenKey(x.cls, x.idx)), TypeOf(kind), data) ==
            if x.cls == HomeClass(kind) then Some(data[Inner(x)]) else None
  {
    PackUnpack(x);
  }

  ghost predicate InRange(data: Data) {
    forall x: Slot :: Inner(x) in data ==> Allocatable(x)
  }

  lemma {:induction false} FieldsAgree(k: Kind, i: nat, rec: Record, data: Data)
    requires k.Msg? && InRange(data) && ReachFields(k, i, rec, data).natural && ReadFields(k, i, rec, data).Ok?
    ensures KernelFields(k, i, rec, data) == ReadFields(k, i, rec, data).v
    decreases k, 3, |rec| - i
  {
    if i < |rec| && i < |k.fields| {
      var f, fc := k.fields[i], rec[i];
      if !ReachField(f, fc, data).0 { StoppedRead(f, fc, data); }
      FieldAgrees(f, fc, data);
      FieldsAgree(k, i + 1, rec, data);
    }
  }

  lemma {:induction false} FieldAgrees(f: Field, fc: FieldCell, data: Data)
    requires InRange(data) && ReachField(f, fc, data).1.natural && ReadField(f, fc, data).Ok?
    ensures KernelField(f, fc, data) == ReadField(f, fc, data).v
    decreases f, 1, 0
  {
    if Handled(f, fc) {
      if !f.repeated {
        TargetAgrees(f.kind, fc.c, data);
      } else {
        assert ReachField(f, fc, data) == ReachRepeated(f, fc, data);
        assert ReadField(f, fc, data) == ReadRepeated(f, fc, data);
        var x := DecodeCell(fc.c).value;
        if data[Inner(x)].Pointers? { ElemsAgree(f.kind, data[Inner(x)].cells, 0, fc.quant, data); }
      }
    }
  }

  lemma {:induction false} TargetAgrees(kind: Kind, c: Cell, data: Data)
    requires !kind.Scalar? && InRange(data) && ReachElem(kind, c, data).natural && ReadElem(kind, c, data).Ok?
    ensures KernelTarget(kind, c, data) == ReadElem(kind, c, data).v
    decreases kind, 5, 0
  {
    var d := DecodeCell(c);
    if d.None? {
      if c.Word? { assert Inner(Slot(KeyType(c.w), KeyIndex(c.w))) !in data; }
    } else {
      var x := d.value;
      assert ReadElem(kind, c, data) == ReadTarget(kind, x, data);
      assert ReachElem(kind, c, data) == ReachTarget(kind, x, data);
      if Inner(x) in data {
        assert x.cls == HomeClass(kind);
        if kind.Msg? && data[Inner(x)].Struct? && kind.size <= ValueSize(x.cls) {
          assert ReachMap(kind, Inner(x), data).natural && ReadMap(kind, Inner(x), data).Ok?;
          FieldsAgree(kind, 0, data[Inner(x)].rec, data);
          assert ReadMap(kind, Inner(x), data) == Ok(Sub(ReadFields(kind, 0, data[Inner(x)].rec, data).v));
        } else if kind.Msg? {
          assert ReadMap(kind, Inner(x), data) == Ok(Absent);
        }
      } else if kind.Msg? {
        assert ReadMap(kind, Inner(x), data) == Ok(Absent);
      }
    }
  }

  lemma {:induction false} ElemsAgree(kind: Kind, cells: seq<Cell>, j: nat, n: nat, data: Data)
    requires !kind.Scalar? && InRange(data)
    requires ReachElems(kind, cells, j, n, data).natural && ReadElems(kind, cells, j, n, data).Ok?
    ensures KernelElems(kind, cells, j, n, data) == ReadElems(kind, cells, j, n, data).v
    decreases kind, 6, n - j
  {
    if j < n && j < |cells| {
      TargetAgrees(kind, cells[j], data);
      ElemsAgree(kind, cells, j + 1, n, data);
    }
  }

  // ---------- over runs

  /** What a kernel program sees below the entry at a root key. */
  function KernelView(l: Loc, s: Mem): Val {
    if l in s.data && s.data[l].Struct? && l.Root? && l.root.desc.Msg?
    then Sub(KernelFields(l.root.desc, 0, s.data[l].rec, s.data)) else Absent
  }

  /** Every entry sits in its home classes. */
  ghost predicate Natural(s: Mem) {
    forall l | l in s.data && l.Root? :: Owned(l, s.data).natural
  }

  /** In a natural store the kernel sees at every root key what the writer stored. */
  lemma KernelSeesView(s: Mem, l: Loc)
    requires Inv(s) && Natural(s) && l in View(s)
    ensures KernelView(l, s) == Sub(View(s)[l])
  {
    InvIsClean(s);
    assert Whole(l, s);
    assert InRange(s.data);
    FieldsAgree(l.root.desc, 0, s.data[l].rec, s.data);
  }

  /** A successful update is served from home classes only; any other operation qualifies. */
  ghost predicate AtHome(op: Op, s: Mem)
    requires Inv(s) && Legal(op)
  {
    op.DoUpdate? && Step(op, s).ok ==> Supplied(op.r, op.key, op.m, s).Supply? && Supplied(op.r, op.key, op.m, s).home
  }

  /** A step keeps the store natural exactly when it is served from home classes. */
  lemma StepNaturalIff(op: Op, s: Mem)
    requires Inv(s) && Legal(op) && Natural(s)
    ensures Natural(Step(op, s).s) <==> AtHome(op, s)
  {
    match op {
      case DoRestart(pos) => RestartRefines(pos, s);
      case DoDelete(r, key) => DeleteRefines(r, key, s);
      case DoUpdate(r, key, m) => UpdateNaturalIff(r, key, m, s);
    }
  }

  lemma UpdateNaturalIff(r: RootMap, key: string, m: Message, s: Mem)
    requires Inv(s) && r.desc.Msg? && Conforms(r.desc, m) && Natural(s)
    ensures Natural(Update(r, key, m, s).s) <==> AtHome(DoUpdate(r, key, m), s)
  {
    var l, d, u := Root(r, key), Delete(r, key, s), Update(r, key, m, s);
    DeleteRefines(r, key, s);
    ScratchIrrelevant(d, Blank(), d.pos);
    var d1 := d.(scratch := Blank());
    InvIsClean(d1);
    UpdateSucceedsIff(r, key, m, s);
    if u.ok {
      WriteMapSpec(r.desc, m, l, d1);
      WriteCarries(r, key, m, d1);
    } else {
      UpdateRefines(r, key, m, s);
    }
  }

  ghost predicate HomeRun(ops: seq<Op>, s: Mem)
    requires Inv(s) && forall i | 0 <= i < |ops| :: Legal(ops[i])
  {
    ops == [] || (AtHome(ops[0], s) && HomeRun(ops[1..], Step(ops[0], s).s))
  }

  /** Over every run whose updates are served from home classes, the kernel sees the current view. */
  lemma {:induction false} RunKeepsNatural(ops: seq<Op>, s: Mem)
    requires Inv(s) && (forall i | 0 <= i < |ops| :: Legal(ops[i])) && Natural(s) && HomeRun(ops, s)
    ensures Natural(Run(ops, s))
    ensures forall l | l in View(Run(ops, s)) :: KernelView(l, Run(ops, s)) == Sub(View(Run(ops, s))[l])
  {
    if ops == [] {
      forall l | l in View(s) ensures KernelView(l, s) == Sub(View(s)[l]) { KernelSeesView(s, l); }
    } else {
      StepNaturalIff(ops[0], s);
      RunKeepsNatural(ops[1..], Step(ops[0], s).s);
    }
  }
}

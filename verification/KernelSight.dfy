/**
  What the kernel sees of an update: the message that was written exactly when
  every slot was served from its home class.  Below a slot that was not, the
  macro gives a null pointer where the message has a value.
 */
module KernelSight {
  import opened Options
  import opened OuterKey
  import opened Schema
  import opened SlabAlloc
  import opened StoreModel
  import opened StoreFrames
  import opened StoreWrite
  import opened StoreRefinement
  import opened StoreAdmission
  import opened KernelReader

  // ---------- the kernel reads only the footprint

  ghost predicate SameSlots(d: Data, e: Data, slots: set<Slot>) {
    InRange(d) && InRange(e) && Agree(d, e, slots)
  }

  lemma {:induction false} SightFields(k: Kind, i: nat, rec: Record, d: Data, e: Data)
    requires k.Msg? && SameSlots(d, e, ReachFields(k, i, rec, d).slots) && ReadFields(k, i, rec, d).Ok?
    ensures KernelFields(k, i, rec, e) == KernelFields(k, i, rec, d)
    decreases k, 3, |rec| - i
  {
    if i < |rec| && i < |k.fields| {
      if !ReachField(k.fields[i], rec[i], d).0 { StoppedRead(k.fields[i], rec[i], d); }
      SightField(k.fields[i], rec[i], d, e);
      SightFields(k, i + 1, rec, d, e);
    }
  }

  lemma {:induction false} SightField(f: Field, fc: FieldCell, d: Data, e: Data)
    requires SameSlots(d, e, ReachField(f, fc, d).1.slots) && ReadField(f, fc, d).Ok?
    ensures KernelField(f, fc, e) == KernelField(f, fc, d)
    decreases f, 1, 0
  {
    if Handled(f, fc) {
      if !f.repeated {
        SightTarget(f.kind, fc.c, d, e);
      } else {
        assert ReachField(f, fc, d) == ReachRepeated(f, fc, d) && ReadField(f, fc, d) == ReadRepeated(f, fc, d);
        var x := DecodeCell(fc.c).value;
        assert Inner(x) in e && e[Inner(x)] == d[Inner(x)];
        if !f.kind.Scalar? { SightElems(f.kind, d[Inner(x)].cells, 0, fc.quant, d, e); }
      }
    }
  }

  lemma {:induction false} SightTarget(kind: Kind, c: Cell, d: Data, e: Data)
    requires !kind.Scalar? && SameSlots(d, e, ReachElem(kind, c, d).slots) && ReadElem(kind, c, d).Ok?
    ensures KernelTarget(kind, c, e) == KernelTarget(kind, c, d)
    decreases kind, 5, 0
  {
    if DecodeCell(c).None? {
      if c.Word? {
        var l := Inner(Slot(KeyType(c.w), KeyIndex(c.w)));
        assert l !in d && l !in e;
      }
    } else {
      var x := DecodeCell(c).value;
      assert ReadElem(kind, c, d) == ReadTarget(kind, x, d) && ReachElem(kind, c, d) == ReachTarget(kind, x, d);
      assert Inner(x) in d <==> Inner(x) in e;
      if kind.Msg? && Inner(x) in d && d[Inner(x)].Struct? && kind.size <= ValueSize(x.cls) {
        assert ReachMap(kind, Inner(x), d) == ReachFields(kind, 0, d[Inner(x)].rec, d);
        assert ReadMap(kind, Inner(x), d).Ok? ==> ReadFields(kind, 0, d[Inner(x)].rec, d).Ok?;
        SightFields(kind, 0, d[Inner(x)].rec, d, e);
      }
    }
  }

  lemma {:induction false} SightElems(kind: Kind, cells: seq<Cell>, j: nat, n: nat, d: Data, e: Data)
    requires !kind.Scalar? && SameSlots(d, e, ReachElems(kind, cells, j, n, d).slots)
    requires ReadElems(kind, cells, j, n, d).Ok?
    ensures KernelElems(kind, cells, j, n, e) == KernelElems(kind, cells, j, n, d)
    decreases kind, 6, n - j
  {
    if j < n && j < |cells| {
      SightTarget(kind, cells[j], d, e);
      SightElems(kind, cells, j + 1, n, d, e);
    }
  }

  // ---------- seen exactly when at home

  ghost predicate FieldSeen(f: Field, fc: FieldCell, v: Val, d: Data) {
    KernelField(f, fc, d) == v <==> ReachField(f, fc, d).1.natural
  }

  ghost predicate FieldsSeen(k: Kind, m: Message, i: nat, rec: Record, d: Data)
    requires k.Msg? && i <= |m|
  {
    KernelFields(k, i, rec, d) == m[i..] <==> ReachFields(k, i, rec, d).natural
  }

  ghost predicate ElemSeen(kind: Kind, c: Cell, v: Val, d: Data) {
    KernelTarget(kind, c, d) == v <==> ReachElem(kind, c, d).natural
  }

  ghost predicate ElemsSeen(kind: Kind, elems: seq<Val>, j: nat, cells: seq<Cell>, d: Data)
    requires j <= |elems|
  {
    KernelElems(kind, cells, j, |elems|, d) == elems[j..] <==> ReachElems(kind, cells, j, |elems|, d).natural
  }

  lemma GrewInRange(s: Mem, t: Mem, fp: Fp, e: set<Loc>)
    requires Ready(s) && Grew(s, t, fp, e) && UsedLocs(s, e)
    ensures InRange(s.data) && InRange(t.data)
  {
    forall x: Slot | Inner(x) in t.data
      ensures Allocatable(x)
    {
      if Inner(x) !in e && Inner(x) in s.data { assert x in s.used; }
    }
  }

  /** A field that is not handled is seen as it is. */
  lemma FieldsSeenSkip(k: Kind, m: Message, i: nat, rec: Record, d: Data)
    requires k.Msg? && i < |m| == |rec| == |k.fields| && FieldConforms(k.fields[i], m[i])
    requires rec[i] == InitCell(m[i]) && !Handled(k.fields[i], rec[i]) && FieldsSeen(k, m, i + 1, rec, d)
    ensures FieldsSeen(k, m, i, rec, d)
  {
    assert m[i..] == [m[i]] + m[i + 1..];
    assert KernelField(k.fields[i], rec[i], d) == m[i].v;
    SplitEq(FieldVal(rec[i].quant, KernelField(k.fields[i], rec[i], d)), KernelFields(k, i + 1, rec, d),
            m[i], m[i + 1..]);
  }

  lemma SplitEq<T>(a: T, x: seq<T>, b: T, y: seq<T>)
    ensures [a] + x == [b] + y <==> a == b && x == y
  {
    if [a] + x == [b] + y {
      assert ([a] + x)[0] == a && ([b] + y)[0] == b;
      assert ([a] + x)[1..] == x && ([b] + y)[1..] == y;
    }
  }

  /** One more field in front of those seen after it. */
  lemma FieldsSeenJoin(k: Kind, m: Message, i: nat, rec: Record, l: Loc, s: Mem, w: Written<nat>, w2: Written<Record>)
    requires k.Msg? && i < |m| == |w2.out| == |k.fields| == |rec| && Ready(s) && UsedLocs(s, {l})
    requires w.ok && l in w2.s.data && w2.out[i] == rec[i] && rec[i].quant == m[i].quant
    requires FieldWritten(k.fields[i], rec[i], m[i].v, rec, l, s, w) && FieldsWritten(k, m, i + 1, l, w.s, w2)
    requires FieldSeen(k.fields[i], rec[i], m[i].v, w.s.data) && FieldsSeen(k, m, i + 1, w2.out, w2.s.data)
    ensures FieldsSeen(k, m, i, w2.out, w2.s.data)
  {
    var f, fp := k.fields[i], ReachField(k.fields[i], rec[i], w.s.data).1;
    var rest := ReachFields(k, i + 1, w2.out, w2.s.data);
    FieldsJoin(k, m, i, rec, l, s, w, w2);
    GrewTrans(s, w.s, w2.s, fp, rest, {l});
    GrewInRange(s, w.s, fp, {l});
    GrewInRange(s, w2.s, Join(fp, rest), {l});
    SightField(f, rec[i], w.s.data, w2.s.data);
    assert m[i..] == [m[i]] + m[i + 1..];
    SplitEq(FieldVal(rec[i].quant, KernelField(f, rec[i], w2.s.data)), KernelFields(k, i + 1, w2.out, w2.s.data),
            m[i], m[i + 1..]);
  }

  lemma {:induction false} SeesMap(k: Kind, m: Message, l: Loc, s: Mem)
    requires k.Msg? && Conforms(k, m) && Ready(s) && l !in s.data && (l.Inner? ==> l.slot in s.used)
    requires WriteMap(k, m, l, s).ok
    ensures var d := WriteMap(k, m, l, s).s.data;
      l in d && d[l].Struct? && |d[l].rec| == |m| && FieldsSeen(k, m, 0, d[l].rec, d)
    decreases k, 4, 0
  {
    var w := WriteFields(k, m, 0, InitRecord(m), l, s);
    SeesFields(k, m, 0, InitRecord(m), l, s);
    WriteFieldsSpec(k, m, 0, InitRecord(m), l, s);
    StoredSeen(k, m, l, s, w);
  }

  lemma StoredSeen(k: Kind, m: Message, l: Loc, s: Mem, w: Written<Record>)
    requires k.Msg? && Ready(s) && UsedLocs(s, {l}) && w.ok
    requires FieldsWritten(k, m, 0, l, s, w) && FieldsSeen(k, m, 0, w.out, w.s.data)
    ensures FieldsSeen(k, m, 0, w.out, Put(l, Struct(w.out), w.s).data)
  {
    var fp, d := ReachFields(k, 0, w.out, w.s.data), Put(l, Struct(w.out), w.s).data;
    GrewReady(s, w.s, fp, {l});
    GrewInRange(s, w.s, fp, {l});
    assert InRange(d);
    FrameFields(k, 0, w.out, w.s.data, d);
    SightFields(k, 0, w.out, w.s.data, d);
  }

  lemma {:induction false} SeesFields(k: Kind, m: Message, i: nat, rec: Record, l: Loc, s: Mem)
    requires k.Msg? && Conforms(k, m) && i <= |m| && Pending(m, i, rec) && Ready(s)
    requires (l in s.data ==> s.data[l] == Struct(rec)) && (l.Inner? ==> l.slot in s.used)
    requires WriteFields(k, m, i, rec, l, s).ok
    ensures var w := WriteFields(k, m, i, rec, l, s); FieldsSeen(k, m, i, w.out, w.s.data)
    decreases k, 3, |m| - i, 1
  {
    if i < |m| {
      var f := k.fields[i];
      assert FieldConforms(f, m[i]);
      if Handled(f, rec[i]) {
        var w := WriteField(f, m[i], i, rec, l, s);
        SeesField(f, m[i], i, rec, l, s);
        WriteFieldSpec(f, m[i], i, rec, l, s);
        SeesRest(k, m, i, WithKey(rec, i, w.out), l, s, w);
      } else {
        var w := WriteFields(k, m, i + 1, rec, l, s);
        SeesFields(k, m, i + 1, rec, l, s);
        FieldsSeenSkip(k, m, i, w.out, w.s.data);
      }
    }
  }

  /** Field i is seen exactly when at home; so are the fields behind it. */
  lemma {:induction false} SeesRest(k: Kind, m: Message, i: nat, rec: Record, l: Loc, s: Mem, w: Written<nat>)
    requires k.Msg? && Conforms(k, m) && i < |m| && Pending(m, i + 1, rec) && Ready(s) && UsedLocs(s, {l}) && w.ok
    requires FieldWritten(k.fields[i], rec[i], m[i].v, rec, l, s, w) && rec[i].quant == m[i].quant
    requires FieldSeen(k.fields[i], rec[i], m[i].v, w.s.data) && WriteFields(k, m, i + 1, rec, l, w.s).ok
    ensures var w2 := WriteFields(k, m, i + 1, rec, l, w.s); FieldsSeen(k, m, i, w2.out, w2.s.data)
    decreases k, 3, |m| - i, 0
  {
    GrewReady(s, w.s, ReachField(k.fields[i], rec[i], w.s.data).1, {l});
    SeesFields(k, m, i + 1, rec, l, w.s);
    WriteFieldsSpec(k, m, i + 1, rec, l, w.s);
    FieldsSeenJoin(k, m, i, rec, l, s, w, WriteFields(k, m, i + 1, rec, l, w.s));
  }

  lemma {:induction false} SeesField(f: Field, fv: FieldVal, i: nat, rec: Record, l: Loc, s: Mem)
    requires FieldConforms(f, fv) && Handled(f, InitCell(fv)) && Ready(s)
    requires i < |rec| && rec[i] == InitCell(fv) && (l.Inner? ==> l.slot in s.used)
    requires WriteField(f, fv, i, rec, l, s).ok
    ensures var w := WriteField(f, fv, i, rec, l, s);
      FieldSeen(f, WithKey(rec, i, w.out)[i], fv.v, w.s.data)
    decreases f, 1, 0
  {
    if f.repeated {
      SeesRepeated(f, fv, i, rec, l, s);
    } else {
      var size := FieldSize(f.kind, fv.v);
      var a := SeatField(size, i, rec, l, s);
      SeatSpec(f, fv, size, i, rec, l, s);
      SeesTarget(f.kind, fv.v, Decode(a.out).value, a.out, a.s);
    }
  }

  lemma {:induction false} SeesTarget(kind: Kind, v: Val, x: Slot, key: nat, s: Mem)
    requires !kind.Scalar? && ElemConforms(kind, v) && Ready(s) && Decode(key) == Some(x)
    requires x in s.used && Inner(x) !in s.data && 0 < FieldSize(kind, v) <= ValueSize(x.cls)
    requires WriteTarget(kind, v, x, s).ok
    ensures ElemSeen(kind, Word(key), v, WriteTarget(kind, v, x, s).s.data)
    decreases kind, 5, 0
  {
    var d := WriteTarget(kind, v, x, s).s.data;
    UnpackPack(key);
    assert ReachElem(kind, Word(key), d) == ReachTarget(kind, x, d);
    if kind.Str? {
      TextRoundTrip(v.s, x, s);
      KernelFindsIff(kind, x, d);
    } else {
      SeesMap(kind, v.m, Inner(x), s);
      KernelFindsIff(kind, x, d);
      assert v.m[0..] == v.m;
      assert ReachMap(kind, Inner(x), d) == ReachFields(kind, 0, d[Inner(x)].rec, d);
    }
  }

  lemma {:induction false} SeesRepeated(f: Field, fv: FieldVal, i: nat, rec: Record, l: Loc, s: Mem)
    requires FieldConforms(f, fv) && Handled(f, InitCell(fv)) && f.repeated && Ready(s)
    requires i < |rec| && rec[i] == InitCell(fv) && (l.Inner? ==> l.slot in s.used)
    requires WriteRepeated(f, fv.v.elems, i, rec, l, s).ok
    ensures var w := WriteRepeated(f, fv.v.elems, i, rec, l, s);
      FieldSeen(f, WithKey(rec, i, w.out)[i], fv.v, w.s.data)
    decreases f, 0, 0
  {
    var elems := fv.v.elems;
    var a := SeatField(MAP_VAL_REPEAT_SIZE, i, rec, l, s);
    SeatSpec(f, fv, MAP_VAL_REPEAT_SIZE, i, rec, l, s);
    var x, fc := Decode(a.out).value, WithKey(rec, i, a.out)[i];
    if f.kind.Scalar? {
      NumbersSeen(f, fc, x, elems, a.s.data);
    } else {
      SeesElems(f.kind, elems, 0, NoCells(), a.s);
      WriteElemsSpec(f.kind, elems, 0, NoCells(), a.s);
      ArraySeen(f, fc, x, elems, a.s, WriteElems(f.kind, elems, 0, NoCells(), a.s));
    }
  }

  lemma NumbersSeen(f: Field, fc: FieldCell, x: Slot, elems: seq<Val>, d: Data)
    requires Handled(f, fc) && f.repeated && f.kind.Scalar? && DecodeCell(fc.c) == Some(x) && x.idx != 0
    ensures FieldSeen(f, fc, List(elems), d[Inner(x) := Numbers(elems)])
  {
    var e := d[Inner(x) := Numbers(elems)];
    assert ReachField(f, fc, e) == ReachRepeated(f, fc, e);
  }

  lemma ArraySeen(f: Field, fc: FieldCell, x: Slot, elems: seq<Val>, s: Mem, w: Written<seq<Cell>>)
    requires Handled(f, fc) && f.repeated && !f.kind.Scalar? && DecodeCell(fc.c) == Some(x) && fc.quant == |elems|
    requires Ready(s) && x in s.used && Inner(x) !in s.data && w.ok
    requires ElemsWritten(f.kind, elems, 0, s, w) && ElemsSeen(f.kind, elems, 0, w.out, w.s.data)
    ensures FieldSeen(f, fc, List(elems), w.s.data[Inner(x) := Pointers(w.out)])
  {
    var d, fp := w.s.data[Inner(x) := Pointers(w.out)], ReachElems(f.kind, w.out, 0, |elems|, w.s.data);
    GrewReady(s, w.s, fp, {});
    GrewInRange(s, w.s, fp, {});
    assert InRange(d);
    FrameElems(f.kind, w.out, 0, |elems|, w.s.data, d);
    SightElems(f.kind, w.out, 0, |elems|, w.s.data, d);
    assert elems[0..] == elems;
    assert ReachField(f, fc, d) == ReachRepeated(f, fc, d) ==
           (true, Join(Own(x, ARRAY_CLASS), ReachElems(f.kind, w.out, 0, |elems|, d)));
  }

  lemma {:induction false} SeesElem(kind: Kind, v: Val, s: Mem)
    requires !kind.Scalar? && ElemConforms(kind, v) && Ready(s) && WriteElem(kind, v, s).ok
    ensures ElemSeen(kind, Word(WriteElem(kind, v, s).out), v, WriteElem(kind, v, s).s.data)
    decreases kind, 5, 1
  {
    var a := AllocKey(FieldSize(kind, v), s);
    AllocSpec(FieldSize(kind, v), s);
    SeesTarget(kind, v, Decode(a.out).value, a.out, a.s);
  }

  /** One more element in front of those seen after it. */
  lemma ElemsSeenJoin(kind: Kind, elems: seq<Val>, j: nat, s: Mem, w: Written<nat>, w2: Written<seq<Cell>>)
    requires !kind.Scalar? && j < |elems| <= |w2.out| && w2.out[j] == Word(w.out) && w.ok && Ready(s)
    requires ElemWritten(kind, elems[j], s, w) && ElemsWritten(kind, elems, j + 1, w.s, w2)
    requires ElemSeen(kind, Word(w.out), elems[j], w.s.data) && ElemsSeen(kind, elems, j + 1, w2.out, w2.s.data)
    ensures ElemsSeen(kind, elems, j, w2.out, w2.s.data)
  {
    var fp, rest := ReachElem(kind, Word(w.out), w.s.data), ReachElems(kind, w2.out, j + 1, |elems|, w2.s.data);
    ElemsJoin(kind, elems, j, s, w, w2);
    GrewTrans(s, w.s, w2.s, fp, rest, {});
    GrewInRange(s, w.s, fp, {});
    GrewInRange(s, w2.s, Join(fp, rest), {});
    SightTarget(kind, Word(w.out), w.s.data, w2.s.data);
    assert elems[j..] == [elems[j]] + elems[j + 1..];
    SplitEq(KernelTarget(kind, w2.out[j], w2.s.data), KernelElems(kind, w2.out, j + 1, |elems|, w2.s.data),
            elems[j], elems[j + 1..]);
  }

  lemma {:induction false} SeesElems(kind: Kind, elems: seq<Val>, j: nat, cells: seq<Cell>, s: Mem)
    requires !kind.Scalar? && AllConform(kind, elems) && j <= |elems| <= |cells| && Ready(s)
    requires forall e | j <= e < |cells| :: cells[e] == Word(0)
    requires WriteElems(kind, elems, j, cells, s).ok
    ensures var w := WriteElems(kind, elems, j, cells, s); ElemsSeen(kind, elems, j, w.out, w.s.data)
    decreases kind, 6, |elems| - j
  {
    if j < |elems| {
      var w := WriteElem(kind, elems[j], s);
      var cells1 := cells[j := Word(w.out)];
      SeesElem(kind, elems[j], s);
      WriteElemSpec(kind, elems[j], s);
      GrewReady(s, w.s, ReachElem(kind, Word(w.out), w.s.data), {});
      SeesElems(kind, elems, j + 1, cells1, w.s);
      WriteElemsSpec(kind, elems, j + 1, cells1, w.s);
      ElemsSeenJoin(kind, elems, j, s, w, WriteElems(kind, elems, j + 1, cells1, w.s));
    }
  }

  /** The kernel sees the message a successful update wrote exactly when it was served from home classes. */
  lemma UpdateSeenIff(r: RootMap, key: string, m: Message, s: Mem)
    requires Inv(s) && r.desc.Msg? && Conforms(r.desc, m) && Update(r, key, m, s).ok
    ensures Supplied(r, key, m, s).Supply? &&
            (KernelView(Root(r, key), Update(r, key, m, s).s) == Sub(m) <==> Supplied(r, key, m, s).home)
  {
    var l, d := Root(r, key), Delete(r, key, s).(scratch := Blank());
    UpdateSucceedsIff(r, key, m, s);
    DeleteRefines(r, key, s);
    InvIsClean(Delete(r, key, s));
    SeesMap(r.desc, m, l, d);
    assert m[0..] == m;
  }

  // ---------- while there is room

  /** The class the macro derives from the type of a value. */
  function HomeOf(kind: Kind): nat
    requires kind.Msg? ==> 0 < kind.size <= 1600
  {
    PtrClass(TypeOf(kind)).value
  }

  /** While it has a free slot, the allocator takes the very class the macro looks in. */
  lemma AllocWhereKernelLooks(kind: Kind, v: Val, s: Mem)
    requires Ready(s) && !kind.Scalar? && ElemConforms(kind, v) && ElemFits(kind, v) && !Full(s.used, HomeOf(kind))
    ensures var a := AllocKey(FieldSize(kind, v), s);
      a.ok && Decode(a.out).Some? && PtrClass(TypeOf(kind)) == Some(Decode(a.out).value.cls)
  {
    AllocFailsIff(FieldSize(kind, v), s);
    AllocSpec(FieldSize(kind, v), s);
  }

  lemma AllocArrayWhereKernelLooks(s: Mem)
    requires Ready(s) && !Full(s.used, PtrClass(VoidPtr).value)
    ensures var a := AllocKey(MAP_VAL_REPEAT_SIZE, s);
      a.ok && Decode(a.out).Some? && PtrClass(VoidPtr) == Some(Decode(a.out).value.cls)
  {
    AllocFailsIff(MAP_VAL_REPEAT_SIZE, s);
    AllocSpec(MAP_VAL_REPEAT_SIZE, s);
  }

  /** Each class has as many free slots as the message asks for. */
  ghost predicate Roomy(r: RootMap, key: string, m: Message, s: Mem)
    requires r.desc.Msg? && Conforms(r.desc, m)
  {
    forall c | 0 <= c < MAP_TYPE_MAX :: |Sizes(r.desc, m, 0)| <= Free(Delete(r, key, s).used)[c]
  }

  /**
    End to end: with room in every class and in the root map, a message that
    fits is stored, and the kernel sees exactly it.
   */
  lemma UpdateReachesKernel(r: RootMap, key: string, m: Message, s: Mem)
    requires Inv(s) && r.desc.Msg? && Conforms(r.desc, m) && Roomy(r, key, m, s)
    requires r.desc.size <= r.valueSize && |Others(r, key, View(s))| < r.maxEntries && MapFits(r.desc, m, 0)
    ensures Update(r, key, m, s).ok && KernelView(Root(r, key), Update(r, key, m, s).s) == Sub(m)
  {
    MapFitsIff(r.desc, m, 0);
    ServeAtHome(Free(Delete(r, key, s).used), Sizes(r.desc, m, 0));
    UpdateSucceedsIff(r, key, m, s);
    UpdateSeenIff(r, key, m, s);
  }

  /** An update that returns 0 with room in every class is seen as it was written. */
  lemma RoomyIsSeen(r: RootMap, key: string, m: Message, s: Mem)
    requires Inv(s) && r.desc.Msg? && Conforms(r.desc, m) && Roomy(r, key, m, s) && Update(r, key, m, s).ok
    ensures KernelView(Root(r, key), Update(r, key, m, s).s) == Sub(m)
  {
    UpdateSucceedsIff(r, key, m, s);
    ServeBounds(Free(Delete(r, key, s).used), Sizes(r.desc, m, 0));
    ServeAtHome(Free(Delete(r, key, s).used), Sizes(r.desc, m, 0));
    UpdateSeenIff(r, key, m, s);
  }

  ghost predicate RoomyOp(op: Op, s: Mem)
    requires Legal(op)
  {
    match op
    case DoUpdate(r, key, m) => Roomy(r, key, m, s)
    case _ => true
  }

  ghost predicate RoomyRun(ops: seq<Op>, s: Mem)
    requires Inv(s) && forall i | 0 <= i < |ops| :: Legal(ops[i])
  {
    ops == [] || (RoomyOp(ops[0], s) && RoomyRun(ops[1..], Step(ops[0], s).s))
  }

  /** Over every run whose updates find room in every class, the kernel sees the current view at every root key. */
  lemma {:induction false} RoomyRunSeen(ops: seq<Op>, s: Mem)
    requires Inv(s) && (forall i | 0 <= i < |ops| :: Legal(ops[i])) && Natural(s) && RoomyRun(ops, s)
    ensures HomeRun(ops, s)
    ensures forall l | l in View(Run(ops, s)) :: KernelView(l, Run(ops, s)) == Sub(View(Run(ops, s))[l])
  {
    if ops != [] {
      var op := ops[0];
      if op.DoUpdate? && Step(op, s).ok {
        UpdateSucceedsIff(op.r, op.key, op.m, s);
        ServeBounds(Free(Delete(op.r, op.key, s).used), Sizes(op.r.desc, op.m, 0));
        ServeAtHome(Free(Delete(op.r, op.key, s).used), Sizes(op.r.desc, op.m, 0));
      }
      StepNaturalIff(op, s);
      RoomyRunSeen(ops[1..], Step(op, s).s);
    }
    RunKeepsNatural(ops, s);
  }
}

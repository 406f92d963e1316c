/**
  When an update returns 0: exactly when the message fits the root value, the
  root map has room, and the slots it asks for, taken in order from the first
  large enough class with a free slot, can all be served.
 */
module StoreAdmission {
  import opened Options
  import opened OuterKey
  import opened Schema
  import opened SlabAlloc
  import opened StoreModel
  import opened StoreFrames
  import opened StoreWrite
  import opened StoreRefinement

  // ---------- what a message asks for

  /** The slot sizes that fields i onward of the message ask for, in the order of the walk. */
  ghost function Sizes(k: Kind, m: Message, i: nat): seq<int>
    requires k.Msg? && Conforms(k, m) && i <= |m|
    decreases k, 3, |m| - i
  {
    if i == |m| then [] else FieldSizes(k.fields[i], m[i]) + Sizes(k, m, i + 1)
  }

  ghost function FieldSizes(f: Field, fv: FieldVal): seq<int>
    requires FieldConforms(f, fv)
    decreases f, 0, 0
  {
    if !Handled(f, InitCell(fv)) then []
    else if !f.repeated then ElemSizes(f.kind, fv.v)
    else [MAP_VAL_REPEAT_SIZE] + if f.kind.Scalar? then [] else ElemsSizes(f.kind, fv.v.elems, 0)
  }

  ghost function ElemsSizes(kind: Kind, elems: seq<Val>, j: nat): seq<int>
    requires !kind.Scalar? && AllConform(kind, elems) && j <= |elems|
    decreases kind, 6, |elems| - j
  {
    if j == |elems| then [] else ElemSizes(kind, elems[j]) + ElemsSizes(kind, elems, j + 1)
  }

  /** A string that is too long asks for -1 bytes. */
  ghost function ElemSizes(kind: Kind, v: Val): seq<int>
    requires !kind.Scalar? && ElemConforms(kind, v)
    decreases kind, 5, 0
  {
    [FieldSize(kind, v)] + TargetSizes(kind, v)
  }

  /** What is asked for below a slot. */
  ghost function TargetSizes(kind: Kind, v: Val): seq<int>
    requires !kind.Scalar? && ElemConforms(kind, v)
    decreases kind, 4, 0
  {
    if kind.Str? then [] else Sizes(kind, v.m, 0)
  }

  // ---------- serving requests from counts of free slots

  /** Free slots of each class. */
  type Counts = c: seq<nat> | |c| == MAP_TYPE_MAX witness [0, 0, 0, 0]

  ghost function FreeIn(used: set<Slot>, cls: nat): set<nat> {
    set j | 0 < j < MAP_MAX_ENTRIES && Slot(cls, j) !in used
  }

  ghost function Free(used: set<Slot>): Counts {
    [|FreeIn(used, 0)|, |FreeIn(used, 1)|, |FreeIn(used, 2)|, |FreeIn(used, 3)|]
  }

  predicate CanServe(free: Counts, size: int, cls: nat)
    requires cls < MAP_TYPE_MAX
  {
    size <= ValueSize(cls) && free[cls] > 0
  }

  /** The first class that is large enough and has a free slot. */
  function Pick(free: Counts, size: int): (r: Option<nat>)
    ensures r.Some? ==> r.value < MAP_TYPE_MAX && CanServe(free, size, r.value)
  {
    if CanServe(free, size, 0) then Some(0)
    else if CanServe(free, size, 1) then Some(1)
    else if CanServe(free, size, 2) then Some(2)
    else if CanServe(free, size, 3) then Some(3)
    else None
  }

  /** What is left after serving all requests, and whether each was served from its home class. */
  datatype Supply = OutOfSlots | Supply(free: Counts, home: bool)

  function Serve(free: Counts, sizes: seq<int>): Supply
    decreases sizes
  {
    if sizes == [] then Supply(free, true)
    else if sizes[0] <= 0 || Pick(free, sizes[0]).None? then OutOfSlots
    else
      var c := Pick(free, sizes[0]).value;
      match Serve(free[c := free[c] - 1], sizes[1..])
      case OutOfSlots => OutOfSlots
      case Supply(left, home) => Supply(left, home && c == ClassFor(sizes[0]))
  }

  lemma ServeOne(free: Counts, size: int, sizes: seq<int>)
    ensures Serve(free, [size] + sizes) ==
            if size <= 0 || Pick(free, size).None? then OutOfSlots
            else
              var c := Pick(free, size).value;
              match Serve(free[c := free[c] - 1], sizes)
              case OutOfSlots => OutOfSlots
              case Supply(left, home) => Supply(left, home && c == ClassFor(size))
  {
    assert ([size] + sizes)[0] == size && ([size] + sizes)[1..] == sizes;
  }

  lemma {:induction false} ServeBoth(free: Counts, a: seq<int>, b: seq<int>)
    ensures Serve(free, a + b) ==
            match Serve(free, a)
            case OutOfSlots => OutOfSlots
            case Supply(left, home) =>
              match Serve(left, b)
              case OutOfSlots => OutOfSlots
              case Supply(last, home2) => Supply(last, home && home2)
    decreases a
  {
    if a == [] {
      assert a + b == b;
    } else {
      assert (a + b)[0] == a[0] && (a + b)[1..] == a[1..] + b;
      if a[0] > 0 && Pick(free, a[0]).Some? {
        var c := Pick(free, a[0]).value;
        ServeBoth(free[c := free[c] - 1], a[1..], b);
      }
    }
  }

  /** Every request is for 1 to 1600 bytes. */
  ghost predicate AllFit(sizes: seq<int>) {
    forall i | 0 <= i < |sizes| :: 0 < sizes[i] <= MAP_VAL_REPEAT_SIZE
  }

  /** Only such requests are ever served, and they are while the largest class has as many free slots. */
  lemma {:induction false} ServeBounds(free: Counts, sizes: seq<int>)
    ensures Serve(free, sizes).Supply? ==> AllFit(sizes)
    ensures AllFit(sizes) && |sizes| <= free[MAP_TYPE_MAX - 1] ==> Serve(free, sizes).Supply?
    decreases sizes
  {
    if sizes != [] {
      if sizes[0] > 0 && Pick(free, sizes[0]).Some? {
        var c := Pick(free, sizes[0]).value;
        ServeBounds(free[c := free[c] - 1], sizes[1..]);
        assert AllFit(sizes) <==> 0 < sizes[0] <= MAP_VAL_REPEAT_SIZE && AllFit(sizes[1..]) by {
          assert forall i | 1 <= i < |sizes| :: sizes[i] == sizes[1..][i - 1];
        }
      }
    }
  }

  // ---------- the allocator serves from these counts

  lemma FullIsZero(used: set<Slot>, cls: nat)
    ensures Full(used, cls) <==> |FreeIn(used, cls)| == 0
  {
    if Full(used, cls) { assert FreeIn(used, cls) == {}; }
    if j :| 0 < j < MAP_MAX_ENTRIES && Slot(cls, j) !in used { assert j in FreeIn(used, cls); }
  }

  lemma FreeLess(used: set<Slot>, x: Slot, cls: nat)
    requires Allocatable(x) && x !in used
    ensures |FreeIn(used + {x}, cls)| == |FreeIn(used, cls)| - if cls == x.cls then 1 else 0
  {
    if cls == x.cls {
      assert x.idx in FreeIn(used, cls);
      assert FreeIn(used + {x}, cls) == FreeIn(used, cls) - {x.idx};
    } else {
      assert FreeIn(used + {x}, cls) == FreeIn(used, cls);
    }
  }

  lemma CountsLess(used: set<Slot>, x: Slot)
    requires Allocatable(x) && x !in used
    ensures Free(used)[x.cls] > 0 && Free(used + {x}) == Free(used)[x.cls := Free(used)[x.cls] - 1]
  {
    FreeLess(used, x, 0);
    FreeLess(used, x, 1);
    FreeLess(used, x, 2);
    FreeLess(used, x, 3);
  }

  lemma ChoosePicks(used: set<Slot>, pos: seq<nat>, size: int)
    requires |pos| == MAP_TYPE_MAX
    ensures match Choose(used, pos, size, 0)
      case None => Pick(Free(used), size) == None
      case Some(x) => Pick(Free(used), size) == Some(x.cls)
  {
    var c, free := Choose(used, pos, size, 0), Free(used);
    forall i | 0 <= i < MAP_TYPE_MAX
      ensures CanServe(free, size, i) <==> size <= ValueSize(i) && !Full(used, i)
    {
      FullIsZero(used, i);
    }
  }

  /** One allocation is served as the counts say. */
  lemma AllocServes(size: int, s: Mem, a: Written<nat>)
    requires Ready(s) && a == AllocKey(size, s)
    ensures a.ok == (size > 0 && Pick(Free(s.used), size).Some?)
    ensures a.ok ==> Decode(a.out).Some? && Pick(Free(s.used), size) == Some(Decode(a.out).value.cls)
  {
    AllocSpec(size, s);
    ChoosePicks(s.used, s.pos, size);
    var c := Choose(s.used, s.pos, size, 0);
    if a.ok { PackUnpack(c.value); }
  }

  // ---------- the walk is served as the counts say

  /** A walk asking for sizes ended this way, leaving these slots used and its footprint at home or not. */
  ghost predicate Went(s: Mem, sizes: seq<int>, ok: bool, t: Mem, fp: Fp) {
    match Serve(Free(s.used), sizes)
    case OutOfSlots => !ok
    case Supply(left, home) => ok && Free(t.used) == left && fp.natural == home
  }

  lemma WentBoth(s: Mem, a: seq<int>, ok: bool, t: Mem, fp: Fp, b: seq<int>, ok2: bool, u: Mem, fp2: Fp)
    requires Went(s, a, ok, t, fp) && (ok ==> Went(t, b, ok2, u, fp2))
    ensures Went(s, a + b, ok && ok2, u, Join(fp, fp2))
  {
    ServeBoth(Free(s.used), a, b);
  }

  /** Taking slot x for one request, then serving what hangs below it. */
  lemma WentBelow(size: nat, s: Mem, a: Written<nat>, x: Slot, s2: Mem, sizes: seq<int>, ok: bool, t: Mem, below: Fp)
    requires Ready(s) && a == AllocKey(size, s) && a.ok && Decode(a.out) == Some(x)
    requires s2.used == a.s.used && Went(s2, sizes, ok, t, below)
    ensures Went(s, [size] + sizes, ok, t, Join(Own(x, ClassFor(size)), below))
  {
    AllocSpec(size, s);
    AllocServes(size, s, a);
    CountsLess(s.used, x);
    ServeOne(Free(s.used), size, sizes);
  }

  /** The first request cannot be served. */
  lemma WentNowhere(size: int, s: Mem, sizes: seq<int>, t: Mem, fp: Fp)
    requires Ready(s) && !AllocKey(size, s).ok
    ensures Went(s, [size] + sizes, false, t, fp)
  {
    AllocServes(size, s, AllocKey(size, s));
    ServeOne(Free(s.used), size, sizes);
  }

  /** Storing the record at last leaves what the fields reach as it is. */
  lemma StoredReaches(k: Kind, m: Message, l: Loc, s: Mem, w: Written<Record>)
    requires k.Msg? && Ready(s) && UsedLocs(s, {l}) && w.ok && FieldsWritten(k, m, 0, l, s, w)
    ensures ReachMap(k, l, Put(l, Struct(w.out), w.s).data) == ReachFields(k, 0, w.out, w.s.data)
  {
    GrewReady(s, w.s, ReachFields(k, 0, w.out, w.s.data), {l});
    FrameFields(k, 0, w.out, w.s.data, Put(l, Struct(w.out), w.s).data);
  }

  lemma {:induction false} ServeMap(k: Kind, m: Message, l: Loc, s: Mem)
    requires k.Msg? && Conforms(k, m) && Ready(s) && l !in s.data && (l.Inner? ==> l.slot in s.used)
    requires k.size <= LocSize(l) && CanPut(s.data, l)
    ensures var w := WriteMap(k, m, l, s); Went(s, Sizes(k, m, 0), w.ok, w.s, ReachMap(k, l, w.s.data))
    decreases k, 4, 0
  {
    var w := WriteFields(k, m, 0, InitRecord(m), l, s);
    ServeFields(k, m, 0, InitRecord(m), l, s);
    if w.ok {
      WriteFieldsSpec(k, m, 0, InitRecord(m), l, s);
      StoredReaches(k, m, l, s, w);
    }
  }

  /** How serving fields i onward ends. */
  ghost predicate FieldsServed(k: Kind, m: Message, i: nat, l: Loc, s: Mem, w: Written<Record>)
    requires k.Msg? && Conforms(k, m) && i <= |m|
  {
    Went(s, Sizes(k, m, i), w.ok, w.s, ReachFields(k, i, w.out, w.s.data)) && (w.ok ==> CanPut(w.s.data, l))
  }

  /** One more field in front of those served after it. */
  lemma FieldsWent(k: Kind, m: Message, i: nat, rec: Record, l: Loc, s: Mem, w: Written<nat>, w2: Written<Record>)
    requires k.Msg? && Conforms(k, m) && i < |m| == |w2.out| == |rec| && Ready(s) && UsedLocs(s, {l})
    requires w.ok && l in w2.s.data && w2.out[i] == rec[i] && rec[i].quant == m[i].quant
    requires FieldWritten(k.fields[i], rec[i], m[i].v, rec, l, s, w) && FieldsWritten(k, m, i + 1, l, w.s, w2)
    requires Went(s, FieldSizes(k.fields[i], m[i]), true, w.s, ReachField(k.fields[i], rec[i], w.s.data).1)
    requires FieldsServed(k, m, i + 1, l, w.s, w2)
    ensures FieldsServed(k, m, i, l, s, w2)
  {
    FieldsJoin(k, m, i, rec, l, s, w, w2);
    WentBoth(s, FieldSizes(k.fields[i], m[i]), true, w.s, ReachField(k.fields[i], rec[i], w.s.data).1,
             Sizes(k, m, i + 1), w2.ok, w2.s, ReachFields(k, i + 1, w2.out, w2.s.data));
  }

  /** A field that is not handled asks for nothing. */
  lemma FieldsWentOn(k: Kind, m: Message, i: nat, l: Loc, s: Mem, w: Written<Record>)
    requires k.Msg? && Conforms(k, m) && i < |m| == |w.out| && w.out[i] == InitCell(m[i])
    requires FieldConforms(k.fields[i], m[i]) && !Handled(k.fields[i], w.out[i]) && FieldsServed(k, m, i + 1, l, s, w)
    ensures FieldsServed(k, m, i, l, s, w)
  {
    assert Sizes(k, m, i) == [] + Sizes(k, m, i + 1) == Sizes(k, m, i + 1);
    assert ReachField(k.fields[i], w.out[i], w.s.data) == (true, NOTHING);
  }

  lemma {:induction false} ServeFields(k: Kind, m: Message, i: nat, rec: Record, l: Loc, s: Mem)
    requires k.Msg? && Conforms(k, m) && i <= |m| && Pending(m, i, rec) && Ready(s)
    requires (l in s.data ==> s.data[l] == Struct(rec)) && (l.Inner? ==> l.slot in s.used) && CanPut(s.data, l)
    ensures FieldsServed(k, m, i, l, s, WriteFields(k, m, i, rec, l, s))
    decreases k, 3, |m| - i, 1
  {
    if i < |m| {
      var f := k.fields[i];
      assert FieldConforms(f, m[i]);
      if Handled(f, rec[i]) {
        var w := WriteField(f, m[i], i, rec, l, s);
        var rec1 := WithKey(rec, i, w.out);
        ServeField(f, m[i], i, rec, l, s);
        if w.ok {
          WriteFieldSpec(f, m[i], i, rec, l, s);
          ServeRest(k, m, i, rec1, l, s, w);
        } else {
          var fp := ReachField(f, rec1[i], w.s.data).1;
          WentBoth(s, FieldSizes(f, m[i]), w.ok, w.s, fp, Sizes(k, m, i + 1), false, w.s, fp);
        }
      } else {
        ServeFields(k, m, i + 1, rec, l, s);
        FieldsWentOn(k, m, i, l, s, WriteFields(k, m, i + 1, rec, l, s));
      }
    }
  }

  /** Field i is served; so are the fields behind it. */
  lemma {:induction false} ServeRest(k: Kind, m: Message, i: nat, rec: Record, l: Loc, s: Mem, w: Written<nat>)
    requires k.Msg? && Conforms(k, m) && i < |m| && Pending(m, i + 1, rec) && Ready(s) && UsedLocs(s, {l}) && w.ok
    requires FieldWritten(k.fields[i], rec[i], m[i].v, rec, l, s, w) && rec[i].quant == m[i].quant
    requires Went(s, FieldSizes(k.fields[i], m[i]), true, w.s, ReachField(k.fields[i], rec[i], w.s.data).1)
    ensures FieldsServed(k, m, i, l, s, WriteFields(k, m, i + 1, rec, l, w.s))
    decreases k, 3, |m| - i, 0
  {
    GrewReady(s, w.s, ReachField(k.fields[i], rec[i], w.s.data).1, {l});
    ServeFields(k, m, i + 1, rec, l, w.s);
    WriteFieldsSpec(k, m, i + 1, rec, l, w.s);
    FieldsWent(k, m, i, rec, l, s, w, WriteFields(k, m, i + 1, rec, l, w.s));
  }

  lemma {:induction false} ServeField(f: Field, fv: FieldVal, i: nat, rec: Record, l: Loc, s: Mem)
    requires FieldConforms(f, fv) && Handled(f, InitCell(fv)) && Ready(s)
    requires i < |rec| && rec[i] == InitCell(fv) && (l.Inner? ==> l.slot in s.used) && CanPut(s.data, l)
    ensures var w := WriteField(f, fv, i, rec, l, s); var rec1 := WithKey(rec, i, w.out);
      Went(s, FieldSizes(f, fv), w.ok, w.s, ReachField(f, rec1[i], w.s.data).1)
    decreases f, 1, 0
  {
    if f.repeated {
      ServeRepeated(f, fv, i, rec, l, s);
    } else {
      ServeSingle(f, fv, i, rec, l, s);
    }
  }

  lemma {:induction false} ServeSingle(f: Field, fv: FieldVal, i: nat, rec: Record, l: Loc, s: Mem)
    requires FieldConforms(f, fv) && Handled(f, InitCell(fv)) && !f.repeated && Ready(s)
    requires i < |rec| && rec[i] == InitCell(fv) && (l.Inner? ==> l.slot in s.used) && CanPut(s.data, l)
    ensures var w := WriteSingle(f, fv.v, i, rec, l, s); var rec1 := WithKey(rec, i, w.out);
      Went(s, ElemSizes(f.kind, fv.v), w.ok, w.s, ReachField(f, rec1[i], w.s.data).1)
    decreases f, 0, 0
  {
    var size := FieldSize(f.kind, fv.v);
    var a := SeatField(size, i, rec, l, s);
    AllocSpec(size, s);
    SeatSpec(f, fv, size, i, rec, l, s);
    if a.ok {
      var x, rec1 := Decode(a.out).value, WithKey(rec, i, a.out);
      var w := WriteTarget(f.kind, fv.v, x, a.s);
      ServeTarget(f.kind, fv.v, x, a.s);
      WriteTargetSpec(f.kind, fv.v, x, a.s);
      SingleSeated(f, rec1[i], fv.v, rec1, l, s, a.s, x, w.ok, w.s);
      WentBelow(size, s, AllocKey(size, s), x, a.s, TargetSizes(f.kind, fv.v), w.ok, w.s, InnerFp(f.kind, x, w.s.data));
    } else {
      WentNowhere(size, s, TargetSizes(f.kind, fv.v), a.s, ReachField(f, WithKey(rec, i, a.out)[i], a.s.data).1);
    }
  }

  lemma {:induction false} ServeTarget(kind: Kind, v: Val, x: Slot, s: Mem)
    requires !kind.Scalar? && ElemConforms(kind, v) && Ready(s)
    requires x in s.used && Inner(x) !in s.data && 0 < FieldSize(kind, v) <= ValueSize(x.cls)
    ensures var w := WriteTarget(kind, v, x, s);
      Went(s, TargetSizes(kind, v), w.ok, w.s, InnerFp(kind, x, w.s.data))
    decreases kind, 5, 0
  {
    if kind.Msg? { ServeMap(kind, v.m, Inner(x), s); }
  }

  lemma {:induction false} ServeRepeated(f: Field, fv: FieldVal, i: nat, rec: Record, l: Loc, s: Mem)
    requires FieldConforms(f, fv) && Handled(f, InitCell(fv)) && f.repeated && Ready(s)
    requires i < |rec| && rec[i] == InitCell(fv) && (l.Inner? ==> l.slot in s.used) && CanPut(s.data, l)
    ensures var w := WriteRepeated(f, fv.v.elems, i, rec, l, s); var rec1 := WithKey(rec, i, w.out);
      Went(s, FieldSizes(f, fv), w.ok, w.s, ReachField(f, rec1[i], w.s.data).1)
    decreases f, 0, 0
  {
    var elems, size := fv.v.elems, MAP_VAL_REPEAT_SIZE;
    var sizes := if f.kind.Scalar? then [] else ElemsSizes(f.kind, elems, 0);
    var a := SeatField(size, i, rec, l, s);
    var rec1 := WithKey(rec, i, a.out);
    AllocSpec(size, s);
    if !a.ok {
      WentNowhere(size, s, sizes, a.s, ReachField(f, rec1[i], a.s.data).1);
    } else {
      var x := Decode(a.out).value;
      SeatSpec(f, fv, size, i, rec, l, s);
      if f.kind.Scalar? {
        NumbersWent(f, rec1[i], elems, rec1, l, s, AllocKey(size, s), a.s, x);
      } else {
        ServeElems(f.kind, elems, 0, NoCells(), a.s);
        WriteElemsSpec(f.kind, elems, 0, NoCells(), a.s);
        ArrayWent(f, rec1[i], elems, rec1, l, s, AllocKey(size, s), a.s, x,
                  WriteElems(f.kind, elems, 0, NoCells(), a.s));
      }
    }
  }

  /** A seated array of numbers. */
  lemma NumbersWent(f: Field, fc: FieldCell, elems: seq<Val>, rec: Record, l: Loc, s: Mem, a: Written<nat>, s2: Mem,
                    x: Slot)
    requires Handled(f, fc) && f.repeated && f.kind.Scalar?
    requires DecodeCell(fc.c) == Some(x) && Seated(s, s2, x, l, rec)
    requires a == AllocKey(MAP_VAL_REPEAT_SIZE, s) && a.ok && Decode(a.out) == Some(x) && s2.used == a.s.used
    ensures var t := Put(Inner(x), Numbers(elems), s2);
      Went(s, [MAP_VAL_REPEAT_SIZE] + [], true, t, ReachField(f, fc, t.data).1)
  {
    NumbersSeated(f, fc, elems, rec, l, s, s2, x);
    WentBelow(MAP_VAL_REPEAT_SIZE, s, a, x, s2, [], true, s2, NOTHING);
  }

  /** A seated array, its elements served. */
  lemma ArrayWent(f: Field, fc: FieldCell, elems: seq<Val>, rec: Record, l: Loc, s: Mem, a: Written<nat>, s2: Mem,
                  x: Slot, w: Written<seq<Cell>>)
    requires Handled(f, fc) && f.repeated && !f.kind.Scalar? && fc.quant == |elems| && AllConform(f.kind, elems)
    requires DecodeCell(fc.c) == Some(x) && Seated(s, s2, x, l, rec) && ElemsWritten(f.kind, elems, 0, s2, w)
    requires a == AllocKey(MAP_VAL_REPEAT_SIZE, s) && a.ok && Decode(a.out) == Some(x) && s2.used == a.s.used
    requires Went(s2, ElemsSizes(f.kind, elems, 0), w.ok, w.s, ReachElems(f.kind, w.out, 0, |elems|, w.s.data))
    ensures var t := Put(Inner(x), Pointers(w.out), w.s);
      Went(s, [MAP_VAL_REPEAT_SIZE] + ElemsSizes(f.kind, elems, 0), w.ok, t, ReachField(f, fc, t.data).1)
  {
    assert elems[0..] == elems;
    ArraySeated(f, fc, elems, rec, l, s, s2, x, w.ok, w.out, w.s);
    WentBelow(MAP_VAL_REPEAT_SIZE, s, a, x, s2, ElemsSizes(f.kind, elems, 0), w.ok, w.s,
              ReachElems(f.kind, w.out, 0, |elems|, w.s.data));
  }

  lemma {:induction false} ServeElem(kind: Kind, v: Val, s: Mem)
    requires !kind.Scalar? && ElemConforms(kind, v) && Ready(s)
    ensures var w := WriteElem(kind, v, s);
      Went(s, ElemSizes(kind, v), w.ok, w.s, ReachElem(kind, Word(w.out), w.s.data))
    decreases kind, 5, 1
  {
    var size := FieldSize(kind, v);
    var a := AllocKey(size, s);
    AllocSpec(size, s);
    if a.ok {
      var x := Decode(a.out).value;
      var w := WriteTarget(kind, v, x, a.s);
      ServeTarget(kind, v, x, a.s);
      WentBelow(size, s, a, x, a.s, TargetSizes(kind, v), w.ok, w.s, InnerFp(kind, x, w.s.data));
    } else {
      WentNowhere(size, s, TargetSizes(kind, v), a.s, ReachElem(kind, Word(a.out), a.s.data));
    }
  }

  /** How serving elements j onward ends. */
  ghost predicate ElemsServed(kind: Kind, elems: seq<Val>, j: nat, s: Mem, w: Written<seq<Cell>>)
    requires !kind.Scalar? && AllConform(kind, elems) && j <= |elems|
  {
    Went(s, ElemsSizes(kind, elems, j), w.ok, w.s, ReachElems(kind, w.out, j, |elems|, w.s.data))
  }

  /** One more element in front of those served after it. */
  lemma ElemsWent(kind: Kind, elems: seq<Val>, j: nat, s: Mem, w: Written<nat>, w2: Written<seq<Cell>>)
    requires !kind.Scalar? && AllConform(kind, elems) && Ready(s)
    requires j < |elems| <= |w2.out| && w2.out[j] == Word(w.out) && w.ok
    requires ElemWritten(kind, elems[j], s, w) && (w2.ok ==> ElemsWritten(kind, elems, j + 1, w.s, w2))
    requires Went(s, ElemSizes(kind, elems[j]), true, w.s, ReachElem(kind, Word(w.out), w.s.data))
    requires ElemsServed(kind, elems, j + 1, w.s, w2)
    ensures ElemsServed(kind, elems, j, s, w2)
  {
    if w2.ok { ElemsJoin(kind, elems, j, s, w, w2); }
    WentBoth(s, ElemSizes(kind, elems[j]), true, w.s, ReachElem(kind, Word(w.out), w.s.data),
             ElemsSizes(kind, elems, j + 1), w2.ok, w2.s, ReachElems(kind, w2.out, j + 1, |elems|, w2.s.data));
  }

  /** An element that is not served ends the walk. */
  lemma ElemsWentNot(kind: Kind, elems: seq<Val>, j: nat, cells: seq<Cell>, s: Mem, w: Written<nat>)
    requires !kind.Scalar? && AllConform(kind, elems) && j < |elems| && !w.ok
    requires Went(s, ElemSizes(kind, elems[j]), false, w.s, ReachElem(kind, Word(w.out), w.s.data))
    ensures ElemsServed(kind, elems, j, s, Written(false, cells, w.s))
  {
    var fp := ReachElem(kind, Word(w.out), w.s.data);
    WentBoth(s, ElemSizes(kind, elems[j]), false, w.s, fp, ElemsSizes(kind, elems, j + 1), false, w.s, fp);
  }

  lemma {:induction false} ServeElems(kind: Kind, elems: seq<Val>, j: nat, cells: seq<Cell>, s: Mem)
    requires !kind.Scalar? && AllConform(kind, elems) && j <= |elems| <= |cells| && Ready(s)
    requires forall e | j <= e < |cells| :: cells[e] == Word(0)
    ensures ElemsServed(kind, elems, j, s, WriteElems(kind, elems, j, cells, s))
    decreases kind, 6, |elems| - j
  {
    if j < |elems| {
      var w := WriteElem(kind, elems[j], s);
      var cells1 := cells[j := Word(w.out)];
      ServeElem(kind, elems[j], s);
      if w.ok {
        WriteElemSpec(kind, elems[j], s);
        GrewReady(s, w.s, ReachElem(kind, Word(w.out), w.s.data), {});
        ServeElems(kind, elems, j + 1, cells1, w.s);
        WriteElemsSpec(kind, elems, j + 1, cells1, w.s);
        ElemsWent(kind, elems, j, s, w, WriteElems(kind, elems, j + 1, cells1, w.s));
      } else {
        ElemsWentNot(kind, elems, j, cells1, s, w);
      }
    }
  }

  /** A root map that is full takes no new key. */
  lemma {:induction false} FullRootRefuses(k: Kind, m: Message, i: nat, rec: Record, l: Loc, s: Mem)
    requires k.Msg? && Conforms(k, m) && i <= |m| && Pending(m, i, rec) && |s.pos| == MAP_TYPE_MAX
    requires !CanPut(s.data, l)
    ensures var w := WriteFields(k, m, i, rec, l, s); w.ok ==> w.s == s
    decreases |m| - i
  {
    if i < |m| {
      assert FieldConforms(k.fields[i], m[i]);
      if Handled(k.fields[i], rec[i]) {
        assert !WriteField(k.fields[i], m[i], i, rec, l, s).ok by {
          assert forall size :: !SeatField(size, i, rec, l, s).ok;
        }
      } else {
        FullRootRefuses(k, m, i + 1, rec, l, s);
      }
    }
  }

  // ---------- updates

  /** The requests of an update, served from what is free once the old entry is gone. */
  ghost function Supplied(r: RootMap, key: string, m: Message, s: Mem): Supply
    requires r.desc.Msg? && Conforms(r.desc, m)
  {
    Serve(Free(Delete(r, key, s).used), Sizes(r.desc, m, 0))
  }

  /** The other keys a root map holds. */
  ghost function Others(r: RootMap, key: string, view: map<Loc, Message>): set<Loc> {
    set q | q in view && q.Root? && q.root == r && q.key != key
  }

  lemma RootRoom(r: RootMap, key: string, s: Mem)
    requires Inv(s) && r.desc.Msg?
    ensures CanPut(Delete(r, key, s).data, Root(r, key)) <==> |Others(r, key, View(s))| < r.maxEntries
  {
    DeleteRefines(r, key, s);
    var d := Delete(r, key, s);
    forall q
      ensures q in Entries(d.data, r) <==> q in Others(r, key, View(s))
    {
      assert q in View(d) <==> q in View(s) && q != Root(r, key);
    }
    assert Entries(d.data, r) == Others(r, key, View(s));
  }

  /** The message fits the root map's values, the root map has room, and the free slots serve every request. */
  ghost predicate Admitted(r: RootMap, key: string, m: Message, s: Mem)
    requires Inv(s) && r.desc.Msg? && Conforms(r.desc, m)
  {
    r.desc.size <= r.valueSize && |Others(r, key, View(s))| < r.maxEntries && Supplied(r, key, m, s).Supply?
  }

  /**
    An update returns 0 exactly when the message fits the root map's values,
    the root map has room for the key, and the free slots serve every request.
    It is then stored in its home classes exactly when each was served there.
   */
  lemma UpdateSucceedsIff(r: RootMap, key: string, m: Message, s: Mem)
    requires Inv(s) && r.desc.Msg? && Conforms(r.desc, m)
    ensures Update(r, key, m, s).ok <==> Admitted(r, key, m, s)
    ensures Update(r, key, m, s).ok ==>
              Owned(Root(r, key), Update(r, key, m, s).s.data).natural == Supplied(r, key, m, s).home
  {
    var l, d := Root(r, key), Delete(r, key, s).(scratch := Blank());
    DeleteRefines(r, key, s);
    RootRoom(r, key, s);
    ScratchIrrelevant(Delete(r, key, s), Blank(), s.pos);
    InvIsClean(d);
    if r.desc.size <= r.valueSize {
      if CanPut(d.data, l) {
        ServeMap(r.desc, m, l, d);
      } else {
        FullRootRefuses(r.desc, m, 0, InitRecord(m), l, d);
      }
    }
  }

  // ---------- what fits at all

  /** In fields i onward every text has under 192 characters and every sub-message 1 to 1600 bytes, at every depth. */
  ghost predicate MapFits(k: Kind, m: Message, i: nat)
    requires k.Msg? && Conforms(k, m) && i <= |m|
    decreases k, 3, |m| - i
  {
    i < |m| ==> FieldFits(k.fields[i], m[i]) && MapFits(k, m, i + 1)
  }

  ghost predicate FieldFits(f: Field, fv: FieldVal)
    requires FieldConforms(f, fv)
    decreases f, 0, 0
  {
    fv.v == Absent || f.kind.Scalar? ||
    if f.repeated then ElemsFit(f.kind, fv.v.elems, 0) else ElemFits(f.kind, fv.v)
  }

  ghost predicate ElemsFit(kind: Kind, elems: seq<Val>, j: nat)
    requires !kind.Scalar? && AllConform(kind, elems) && j <= |elems|
    decreases kind, 6, |elems| - j
  {
    j < |elems| ==> ElemFits(kind, elems[j]) && ElemsFit(kind, elems, j + 1)
  }

  ghost predicate ElemFits(kind: Kind, v: Val)
    requires !kind.Scalar? && ElemConforms(kind, v)
    decreases kind, 5, 0
  {
    match v
    case Text(s) => |s| < 192
    case Sub(m) => 0 < kind.size <= 1600 && MapFits(kind, m, 0)
    case _ => true
  }

  lemma FitBoth(a: seq<int>, b: seq<int>)
    ensures AllFit(a + b) <==> AllFit(a) && AllFit(b)
  {
    if AllFit(a + b) {
      forall i | 0 <= i < |a| ensures 0 < a[i] <= MAP_VAL_REPEAT_SIZE { assert (a + b)[i] == a[i]; }
      forall i | 0 <= i < |b| ensures 0 < b[i] <= MAP_VAL_REPEAT_SIZE { assert (a + b)[|a| + i] == b[i]; }
    }
  }

  /** The requests of a message can be served at all exactly when all of it fits. */
  lemma {:induction false} MapFitsIff(k: Kind, m: Message, i: nat)
    requires k.Msg? && Conforms(k, m) && i <= |m|
    ensures AllFit(Sizes(k, m, i)) <==> MapFits(k, m, i)
    decreases k, 3, |m| - i
  {
    if i < |m| {
      assert FieldConforms(k.fields[i], m[i]);
      FieldFitsIff(k.fields[i], m[i]);
      MapFitsIff(k, m, i + 1);
      FitBoth(FieldSizes(k.fields[i], m[i]), Sizes(k, m, i + 1));
    }
  }

  lemma {:induction false} FieldFitsIff(f: Field, fv: FieldVal)
    requires FieldConforms(f, fv)
    ensures AllFit(FieldSizes(f, fv)) <==> FieldFits(f, fv)
    decreases f, 0, 0
  {
    if Handled(f, InitCell(fv)) {
      if !f.repeated {
        ElemFitsIff(f.kind, fv.v);
      } else if !f.kind.Scalar? {
        ElemsFitIff(f.kind, fv.v.elems, 0);
        FitBoth([MAP_VAL_REPEAT_SIZE], ElemsSizes(f.kind, fv.v.elems, 0));
      }
    }
  }

  lemma {:induction false} ElemsFitIff(kind: Kind, elems: seq<Val>, j: nat)
    requires !kind.Scalar? && AllConform(kind, elems) && j <= |elems|
    ensures AllFit(ElemsSizes(kind, elems, j)) <==> ElemsFit(kind, elems, j)
    decreases kind, 6, |elems| - j
  {
    if j < |elems| {
      ElemFitsIff(kind, elems[j]);
      ElemsFitIff(kind, elems, j + 1);
      FitBoth(ElemSizes(kind, elems[j]), ElemsSizes(kind, elems, j + 1));
    }
  }

  lemma {:induction false} ElemFitsIff(kind: Kind, v: Val)
    requires !kind.Scalar? && ElemConforms(kind, v)
    ensures AllFit(ElemSizes(kind, v)) <==> ElemFits(kind, v)
    decreases kind, 5, 0
  {
    FitBoth([FieldSize(kind, v)], TargetSizes(kind, v));
    assert AllFit([FieldSize(kind, v)]) <==> 0 < [FieldSize(kind, v)][0] <= MAP_VAL_REPEAT_SIZE;
    if kind.Msg? { MapFitsIff(kind, v.m, 0); }
  }

  /** With as many large slots as requests, an update succeeds exactly when all of the message fits. */
  lemma UpdateFitsIff(r: RootMap, key: string, m: Message, s: Mem)
    requires Inv(s) && r.desc.Msg? && Conforms(r.desc, m)
    requires |Sizes(r.desc, m, 0)| <= Free(Delete(r, key, s).used)[MAP_TYPE_MAX - 1]
    ensures Update(r, key, m, s).ok <==>
            r.desc.size <= r.valueSize && |Others(r, key, View(s))| < r.maxEntries && MapFits(r.desc, m, 0)
  {
    UpdateSucceedsIff(r, key, m, s);
    MapFitsIff(r.desc, m, 0);
    ServeBounds(Free(Delete(r, key, s).used), Sizes(r.desc, m, 0));
  }

  /** While every class has as many free slots as there are requests, each is served from its home class. */
  lemma {:induction false} ServeAtHome(free: Counts, sizes: seq<int>)
    requires AllFit(sizes) && forall c | 0 <= c < MAP_TYPE_MAX :: |sizes| <= free[c]
    ensures Serve(free, sizes).Supply? && Serve(free, sizes).home
    decreases sizes
  {
    if sizes != [] {
      var c := Pick(free, sizes[0]).value;
      var left := free[c := free[c] - 1];
      assert forall i | 0 <= i < |sizes| - 1 :: sizes[1..][i] == sizes[i + 1];
      assert forall i | 0 <= i < MAP_TYPE_MAX :: |sizes[1..]| <= left[i];
      ServeAtHome(left, sizes[1..]);
    }
  }

  lemma SubsetCount<T>(a: set<T>, b: set<T>)
    requires a <= b
    ensures |a| <= |b|
  {
    assert b == a + (b - a);
    assert |b| == |a| + |b - a|;
  }

  /** No root map holds more entries than it may. */
  ghost predicate Bounded(s: Mem) {
    forall r: RootMap :: |Entries(s.data, r)| <= r.maxEntries
  }

  /** No run ever overfills a root map. */
  lemma {:induction false} RunBounded(ops: seq<Op>, s: Mem)
    requires Inv(s) && (forall i | 0 <= i < |ops| :: Legal(ops[i])) && Bounded(s)
    ensures Bounded(Run(ops, s))
  {
    if ops != [] {
      var t := Step(ops[0], s).s;
      match ops[0] {
        case DoRestart(_) =>
        case DoDelete(r, key) =>
          DeleteRefines(r, key, s);
          BoundedBelow(s, t, {});
        case DoUpdate(r, key, m) => UpdateBounded(r, key, m, s);
      }
      RunBounded(ops[1..], t);
    }
  }

  /** Entries of t that s does not have are only those in added, for which there was room. */
  lemma BoundedBelow(s: Mem, t: Mem, added: set<Loc>)
    requires Bounded(s) && (forall q | q in t.data && q.Root? :: q in s.data || q in added)
    requires forall p, q | p in added && q in added :: p == q
    requires forall q | q in added :: q.Root? && |Entries(s.data, q.root)| < q.root.maxEntries
    ensures Bounded(t)
  {
    forall r: RootMap
      ensures |Entries(t.data, r)| <= r.maxEntries
    {
      if q :| q in added && q.root == r {
        SubsetCount(Entries(t.data, r), Entries(s.data, r) + {q});
      } else {
        SubsetCount(Entries(t.data, r), Entries(s.data, r));
      }
    }
  }

  lemma UpdateBounded(r: RootMap, key: string, m: Message, s: Mem)
    requires Inv(s) && r.desc.Msg? && Conforms(r.desc, m) && Bounded(s)
    ensures Bounded(Update(r, key, m, s).s)
  {
    var l, d, u := Root(r, key), Delete(r, key, s), Update(r, key, m, s);
    DeleteRefines(r, key, s);
    BoundedBelow(s, d, {});
    if u.ok {
      var d1 := d.(scratch := Blank());
      InvIsClean(d);
      WriteMapSpec(r.desc, m, l, d1);
      if !CanPut(d1.data, l) { FullRootRefuses(r.desc, m, 0, InitRecord(m), l, d1); }
      BoundedBelow(d, u.s, {l});
    } else {
      FailedUpdate(r, key, m, s);
    }
  }

  // ---------- slab maps never refuse

  ghost function SlotsUpTo(cls: nat, n: nat): set<Slot> {
    set j | 0 < j <= n :: Slot(cls, j)
  }

  lemma {:induction false} SlotsCount(cls: nat, n: nat)
    ensures |SlotsUpTo(cls, n)| == n
  {
    if n == 0 {
      assert SlotsUpTo(cls, 0) == {};
    } else {
      SlotsCount(cls, n - 1);
      assert Slot(cls, n) in SlotsUpTo(cls, n);
      assert SlotsUpTo(cls, n) == SlotsUpTo(cls, n - 1) + {Slot(cls, n)};
    }
  }

  /** A slab map with entries at real slots only holds at most MAP_MAX_ENTRIES - 1, so it never refuses one. */
  lemma ClassFits(d: Data, cls: nat)
    requires forall x: Slot :: Inner(x) in d ==> Allocatable(x)
    ensures |set x | x in FilledSlots(d) && x.cls == cls| <= MAP_MAX_ENTRIES - 1
  {
    var all := set x | x in FilledSlots(d) && x.cls == cls;
    forall x | x in all ensures Allocatable(x) { assert Inner(x) in d; }
    SlotsCount(cls, MAP_MAX_ENTRIES - 1);
    SubsetCount(all, SlotsUpTo(cls, MAP_MAX_ENTRIES - 1));
  }

  /** Whichever way a walk from a ready store ends, no slab map is over that limit. */
  lemma SlabNeverFull(s: Mem, t: Mem, fp: Fp, e: set<Loc>, cls: nat)
    requires Ready(s) && Grew(s, t, fp, e) && UsedLocs(s, e)
    ensures |set x | x in FilledSlots(t.data) && x.cls == cls| <= MAP_MAX_ENTRIES - 1
  {
    forall x: Slot | Inner(x) in t.data
      ensures Allocatable(x)
    {
      if Inner(x) !in e && Inner(x) in s.data { assert x in s.used; }
    }
    ClassFits(t.data, cls);
  }
}

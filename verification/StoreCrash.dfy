/**
  A crash in the middle of an update.  The maps survive, the used bits do not,
  and the next process rebuilds them from the maps.  Stated for every prefix of
  the map operations the update performs.
 */
module StoreCrash {
  import opened Options
  import opened OuterKey
  import opened Schema
  import opened SlabAlloc
  import opened StoreModel
  import opened StoreFrames
  import opened StoreDelete
  import opened StoreWrite
  import opened StoreRefinement
  import opened StoreAdmission

  /** An array whose elements are being written; it is stored after the last of them. */
  datatype Open = Open(kind: Kind, cells: seq<Cell>, n: nat)

  /** The maps at some point, and the arrays open then, the outermost last. */
  datatype Snap = Snap(data: Data, open: seq<Open>)

  // ---------- the map writes of the write walk

  ghost function TraceMap(k: Kind, m: Message, l: Loc, s: Mem): seq<Snap>
    requires k.Msg? && Conforms(k, m) && |s.pos| == MAP_TYPE_MAX
    decreases k, 4, 0
  {
    if k.size > LocSize(l) then []
    else
      TraceFields(k, m, 0, InitRecord(m), l, s) +
      if WriteMap(k, m, l, s).ok then [Snap(WriteMap(k, m, l, s).s.data, [])] else []
  }

  ghost function TraceFields(k: Kind, m: Message, i: nat, rec: Record, l: Loc, s: Mem): seq<Snap>
    requires k.Msg? && Conforms(k, m) && i <= |m| && Pending(m, i, rec) && |s.pos| == MAP_TYPE_MAX
    decreases k, 3, |m| - i
  {
    if i == |m| then []
    else if !Handled(k.fields[i], rec[i]) then TraceFields(k, m, i + 1, rec, l, s)
    else
      var w := WriteField(k.fields[i], m[i], i, rec, l, s);
      TraceField(k.fields[i], m[i], i, rec, l, s) +
      if w.ok then TraceFields(k, m, i + 1, WithKey(rec, i, w.out), l, w.s) else []
  }

  /** Storing the record comes first, then whatever hangs below the slot. */
  ghost function TraceField(f: Field, fv: FieldVal, i: nat, rec: Record, l: Loc, s: Mem): seq<Snap>
    requires FieldConforms(f, fv) && Handled(f, InitCell(fv)) && i < |rec| && |s.pos| == MAP_TYPE_MAX
    decreases f, 1, 0
  {
    var a := SeatField(if f.repeated then MAP_VAL_REPEAT_SIZE else FieldSize(f.kind, fv.v), i, rec, l, s);
    if !CanPut(s.data, l) then []
    else [Snap(a.s.data, [])] + if a.ok then TraceBelow(f, fv, Decode(a.out).value, a.s) else []
  }

  ghost function TraceBelow(f: Field, fv: FieldVal, x: Slot, s: Mem): seq<Snap>
    requires FieldConforms(f, fv) && Handled(f, InitCell(fv)) && |s.pos| == MAP_TYPE_MAX
    decreases f, 0, 0
  {
    if !f.repeated then TraceTarget(f.kind, fv.v, x, s)
    else if f.kind.Scalar? then [Snap(s.data[Inner(x) := Numbers(fv.v.elems)], [])]
    else
      var w := WriteElems(f.kind, fv.v.elems, 0, NoCells(), s);
      TraceElems(f.kind, fv.v.elems, 0, NoCells(), s) + [Snap(w.s.data[Inner(x) := Pointers(w.out)], [])]
  }

  ghost function TraceTarget(kind: Kind, v: Val, x: Slot, s: Mem): seq<Snap>
    requires !kind.Scalar? && ElemConforms(kind, v) && |s.pos| == MAP_TYPE_MAX
    decreases kind, 5, 0
  {
    if kind.Str? then [Snap(PutText(v.s, x, s).data, [])] else TraceMap(kind, v.m, Inner(x), s)
  }

  ghost function TraceElems(kind: Kind, elems: seq<Val>, j: nat, cells: seq<Cell>, s: Mem): seq<Snap>
    requires !kind.Scalar? && AllConform(kind, elems) && j <= |elems| <= |cells| && |s.pos| == MAP_TYPE_MAX
    decreases kind, 6, |elems| - j
  {
    if j == |elems| then []
    else
      var a, w := AllocKey(FieldSize(kind, elems[j]), s), WriteElem(kind, elems[j], s);
      var cells1 := cells[j := Word(w.out)];
      (if Decode(a.out).None? then []
       else Within(TraceTarget(kind, elems[j], Decode(a.out).value, a.s), Open(kind, cells1, |elems|))) +
      if w.ok then TraceElems(kind, elems, j + 1, cells1, w.s) else []
  }

  /** The same points, inside one more open array. */
  ghost function Within(t: seq<Snap>, o: Open): (r: seq<Snap>)
    ensures |r| == |t| && forall i | 0 <= i < |t| :: r[i] == Snap(t[i].data, t[i].open + [o])
  {
    seq(|t|, i requires 0 <= i < |t| => Snap(t[i].data, t[i].open + [o]))
  }

  // ---------- the trace is the walk, one map operation at a time

  ghost predicate OneWrite(d: Data, e: Data) {
    exists l :: l in e && e == d[l := e[l]]
  }

  /** The points lead from d to e, one map write each. */
  ghost predicate Writes(d: Data, t: seq<Snap>, e: Data)
    decreases t
  {
    if t == [] then d == e else OneWrite(d, t[0].data) && Writes(t[0].data, t[1..], e)
  }

  lemma {:induction false} WritesJoin(d: Data, a: seq<Snap>, e: Data, b: seq<Snap>, f: Data)
    requires Writes(d, a, e) && Writes(e, b, f)
    ensures Writes(d, a + b, f)
    decreases a
  {
    if a == [] {
      assert a + b == b;
    } else {
      WritesJoin(a[0].data, a[1..], e, b, f);
      assert (a + b)[1..] == a[1..] + b;
    }
  }

  lemma WritesOne(d: Data, l: Loc, v: Stored, open: seq<Open>)
    ensures Writes(d, [Snap(d[l := v], open)], d[l := v])
  {
    assert l in d[l := v] && d[l := v] == d[l := d[l := v][l]];
    assert [Snap(d[l := v], open)][1..] == [];
  }

  lemma {:induction false} WritesWithin(d: Data, t: seq<Snap>, e: Data, o: Open)
    requires Writes(d, t, e)
    ensures Writes(d, Within(t, o), e)
    decreases t
  {
    if t != [] {
      WritesWithin(t[0].data, t[1..], e, o);
      assert Within(t, o)[1..] == Within(t[1..], o);
    }
  }

  lemma {:induction false} MapWrites(k: Kind, m: Message, l: Loc, s: Mem)
    requires k.Msg? && Conforms(k, m) && |s.pos| == MAP_TYPE_MAX
    ensures Writes(s.data, TraceMap(k, m, l, s), WriteMap(k, m, l, s).s.data)
    decreases k, 4, 0
  {
    if k.size <= LocSize(l) {
      var t, w := TraceFields(k, m, 0, InitRecord(m), l, s), WriteFields(k, m, 0, InitRecord(m), l, s);
      FieldsWrites(k, m, 0, InitRecord(m), l, s);
      if WriteMap(k, m, l, s).ok {
        WritesOne(w.s.data, l, Struct(w.out), []);
        WritesJoin(s.data, t, w.s.data, [Snap(WriteMap(k, m, l, s).s.data, [])], WriteMap(k, m, l, s).s.data);
      } else {
        assert t + [] == t;
      }
    }
  }

  lemma {:induction false} FieldsWrites(k: Kind, m: Message, i: nat, rec: Record, l: Loc, s: Mem)
    requires k.Msg? && Conforms(k, m) && i <= |m| && Pending(m, i, rec) && |s.pos| == MAP_TYPE_MAX
    ensures Writes(s.data, TraceFields(k, m, i, rec, l, s), WriteFields(k, m, i, rec, l, s).s.data)
    decreases k, 3, |m| - i
  {
    if i < |m| {
      var f := k.fields[i];
      assert FieldConforms(f, m[i]);
      if Handled(f, rec[i]) {
        var t, w := TraceField(f, m[i], i, rec, l, s), WriteField(f, m[i], i, rec, l, s);
        FieldWrites(f, m[i], i, rec, l, s);
        if w.ok {
          var rec1 := WithKey(rec, i, w.out);
          FieldsWrites(k, m, i + 1, rec1, l, w.s);
          WritesJoin(s.data, t, w.s.data, TraceFields(k, m, i + 1, rec1, l, w.s),
                     WriteFields(k, m, i + 1, rec1, l, w.s).s.data);
        } else {
          assert t + [] == t;
        }
      } else {
        FieldsWrites(k, m, i + 1, rec, l, s);
      }
    }
  }

  lemma {:induction false} FieldWrites(f: Field, fv: FieldVal, i: nat, rec: Record, l: Loc, s: Mem)
    requires FieldConforms(f, fv) && Handled(f, InitCell(fv)) && i < |rec| && |s.pos| == MAP_TYPE_MAX
    ensures Writes(s.data, TraceField(f, fv, i, rec, l, s), WriteField(f, fv, i, rec, l, s).s.data)
    decreases f, 1, 0
  {
    var a := SeatField(if f.repeated then MAP_VAL_REPEAT_SIZE else FieldSize(f.kind, fv.v), i, rec, l, s);
    if CanPut(s.data, l) {
      WritesOne(s.data, l, Struct(WithKey(rec, i, a.out)), []);
      if a.ok {
        var x := Decode(a.out).value;
        BelowWrites(f, fv, x, a.s);
        assert Below(f, fv, x, a.s) == WriteField(f, fv, i, rec, l, s).s.data;
        WritesJoin(s.data, [Snap(a.s.data, [])], a.s.data, TraceBelow(f, fv, x, a.s),
                   WriteField(f, fv, i, rec, l, s).s.data);
      } else {
        assert [Snap(a.s.data, [])] + [] == [Snap(a.s.data, [])];
      }
    }
  }

  /** The maps once everything below the slot is written. */
  ghost function Below(f: Field, fv: FieldVal, x: Slot, s: Mem): Data
    requires FieldConforms(f, fv) && Handled(f, InitCell(fv)) && |s.pos| == MAP_TYPE_MAX
  {
    if !f.repeated then WriteTarget(f.kind, fv.v, x, s).s.data
    else if f.kind.Scalar? then s.data[Inner(x) := Numbers(fv.v.elems)]
    else
      var w := WriteElems(f.kind, fv.v.elems, 0, NoCells(), s);
      w.s.data[Inner(x) := Pointers(w.out)]
  }

  lemma {:induction false} BelowWrites(f: Field, fv: FieldVal, x: Slot, s: Mem)
    requires FieldConforms(f, fv) && Handled(f, InitCell(fv)) && |s.pos| == MAP_TYPE_MAX
    ensures Writes(s.data, TraceBelow(f, fv, x, s), Below(f, fv, x, s))
    decreases f, 0, 0
  {
    if !f.repeated {
      TargetWrites(f.kind, fv.v, x, s);
    } else if f.kind.Scalar? {
      WritesOne(s.data, Inner(x), Numbers(fv.v.elems), []);
    } else {
      var w := WriteElems(f.kind, fv.v.elems, 0, NoCells(), s);
      ElemsWrites(f.kind, fv.v.elems, 0, NoCells(), s);
      WritesOne(w.s.data, Inner(x), Pointers(w.out), []);
      WritesJoin(s.data, TraceElems(f.kind, fv.v.elems, 0, NoCells(), s), w.s.data,
                 [Snap(Below(f, fv, x, s), [])], Below(f, fv, x, s));
    }
  }

  lemma {:induction false} TargetWrites(kind: Kind, v: Val, x: Slot, s: Mem)
    requires !kind.Scalar? && ElemConforms(kind, v) && |s.pos| == MAP_TYPE_MAX
    ensures Writes(s.data, TraceTarget(kind, v, x, s), WriteTarget(kind, v, x, s).s.data)
    decreases kind, 5, 0
  {
    if kind.Str? {
      WritesOne(s.data, Inner(x), PutText(v.s, x, s).data[Inner(x)], []);
    } else {
      MapWrites(kind, v.m, Inner(x), s);
    }
  }

  lemma {:induction false} ElemsWrites(kind: Kind, elems: seq<Val>, j: nat, cells: seq<Cell>, s: Mem)
    requires !kind.Scalar? && AllConform(kind, elems) && j <= |elems| <= |cells| && |s.pos| == MAP_TYPE_MAX
    ensures Writes(s.data, TraceElems(kind, elems, j, cells, s), WriteElems(kind, elems, j, cells, s).s.data)
    decreases kind, 6, |elems| - j
  {
    if j < |elems| {
      var a, w := AllocKey(FieldSize(kind, elems[j]), s), WriteElem(kind, elems[j], s);
      var cells1 := cells[j := Word(w.out)];
      var o := Open(kind, cells1, |elems|);
      if Decode(a.out).Some? {
        var x := Decode(a.out).value;
        var t := TraceTarget(kind, elems[j], x, a.s);
        TargetWrites(kind, elems[j], x, a.s);
        WritesWithin(s.data, t, w.s.data, o);
        if w.ok {
          ElemsWrites(kind, elems, j + 1, cells1, w.s);
          WritesJoin(s.data, Within(t, o), w.s.data, TraceElems(kind, elems, j + 1, cells1, w.s),
                     WriteElems(kind, elems, j + 1, cells1, w.s).s.data);
        } else {
          assert Within(t, o) + [] == Within(t, o);
        }
      }
    }
  }

  // ---------- what every point of the write walk looks like

  /** The slots of the elements of open arrays, which nothing stored leads to yet. */
  ghost function Loose(open: seq<Open>, d: Data): set<Slot> {
    if open == [] then {}
    else
      var o := open[|open| - 1];
      Loose(open[..|open| - 1], d) + ReachElems(o.kind, o.cells, 0, o.n, d).slots
  }

  ghost predicate SomeFilled(slots: set<Slot>, d: Data) {
    exists x :: x in slots && Inner(x) in d
  }

  /**
    Since s only entries of e and new slots were written.  The slots of fp and
    of open arrays were free, no slot occurs twice, every new slot is one of
    these, and an open array has something written below it.
   */
  ghost predicate Partial(s: Mem, p: Snap, e: set<Loc>, fp: Fp) {
    && fp.apart && fp.slots !! s.used && (forall x | x in fp.slots :: Allocatable(x))
    && Loose(p.open, p.data) !! s.used + fp.slots && (p.open != [] ==> SomeFilled(Loose(p.open, p.data), p.data))
    && (forall q | q in s.data && q !in e :: q in p.data && p.data[q] == s.data[q])
    && (forall q | q in p.data && q !in e && q !in s.data ::
          q.Inner? && Allocatable(q.slot) && (q.slot in fp.slots || q.slot in Loose(p.open, p.data)))
  }

  lemma GrewPartial(s: Mem, t: Mem, fp: Fp, e: set<Loc>)
    requires Grew(s, t, fp, e)
    ensures Partial(s, Snap(t.data, []), e, fp)
  {
  }

  /** First all of a was added, then the walk went on to point p. */
  lemma PartialThen(s: Mem, t: Mem, a: Fp, e: set<Loc>, p: Snap, b: Fp)
    requires Ready(s) && UsedLocs(s, e) && Grew(s, t, a, e) && Filled(s, t, a) && Partial(t, p, e, b)
    ensures Partial(s, p, e, Join(a, b))
    ensures Framed(t.data, p.data, a.slots)
  {
    GrewReady(s, t, a, e);
    forall x | x in a.slots
      ensures Inner(x) in t.data && Inner(x) in p.data && t.data[Inner(x)] == p.data[Inner(x)]
    {
      assert Inner(x) !in e;
    }
    forall x: Slot | Inner(x) in p.data
      ensures x.idx != 0
    {
      if Inner(x) !in e && Inner(x) in t.data { assert x in t.used; }
    }
  }

  /** Slot x was taken and the record stored at l, then the walk below x went on to point p. */
  lemma PartialBelow(s: Mem, s2: Mem, x: Slot, home: nat, l: Loc, rec: Record, p: Snap, below: Fp)
    requires Seated(s, s2, x, l, rec) && Partial(s2, p, {Inner(x)}, below)
    ensures Partial(s, p, {l}, Join(Own(x, home), below)) && l in p.data && p.data[l] == Struct(rec)
  {
    assert Inner(x) !in s.data && l != Inner(x);
  }

  lemma {:induction false} MapPoints(k: Kind, m: Message, l: Loc, s: Mem, p: Snap)
    requires k.Msg? && Conforms(k, m) && Ready(s) && l !in s.data && (l.Inner? ==> l.slot in s.used)
    requires p in TraceMap(k, m, l, s)
    ensures Partial(s, p, {l}, ReachMap(k, l, p.data)) && l in p.data
    decreases k, 4, 0
  {
    if p in TraceFields(k, m, 0, InitRecord(m), l, s) {
      FieldsPoints(k, m, 0, InitRecord(m), l, s, p);
    } else {
      WriteMapSpec(k, m, l, s);
      GrewPartial(s, WriteMap(k, m, l, s).s, ReachMap(k, l, p.data), {l});
    }
  }

  /** The record is stored at l, with the cells before i as they were. */
  ghost predicate FieldsPoint(k: Kind, i: nat, rec: Record, l: Loc, s: Mem, p: Snap)
    requires k.Msg?
  {
    l in p.data && p.data[l].Struct? &&
    var now := p.data[l].rec;
    |now| == |rec| && (forall j | 0 <= j < i && j < |rec| :: now[j] == rec[j]) &&
    Partial(s, p, {l}, ReachFields(k, i, now, p.data))
  }

  /** The record is stored at l, and what the field reaches covers what was written. */
  ghost predicate FieldPoint(f: Field, fc: FieldCell, rec: Record, l: Loc, s: Mem, p: Snap) {
    l in p.data && p.data[l] == Struct(rec) && Partial(s, p, {l}, ReachField(f, fc, p.data).1)
  }

  lemma {:induction false} FieldsPoints(k: Kind, m: Message, i: nat, rec: Record, l: Loc, s: Mem, p: Snap)
    requires k.Msg? && Conforms(k, m) && i <= |m| && Pending(m, i, rec) && Ready(s)
    requires (l in s.data ==> s.data[l] == Struct(rec)) && (l.Inner? ==> l.slot in s.used)
    requires p in TraceFields(k, m, i, rec, l, s)
    ensures FieldsPoint(k, i, rec, l, s, p)
    decreases k, 3, |m| - i, 1
  {
    var f := k.fields[i];
    assert FieldConforms(f, m[i]);
    if Handled(f, rec[i]) {
      var w := WriteField(f, m[i], i, rec, l, s);
      var rec1 := WithKey(rec, i, w.out);
      if p in TraceField(f, m[i], i, rec, l, s) {
        FieldPoints(f, m[i], i, rec, l, s, p);
        FieldsFirst(k, m, i, rec1, l, s, p);
      } else {
        WriteFieldSpec(f, m[i], i, rec, l, s);
        FieldsAfter(k, m, i, rec1, l, s, w, p);
      }
      FieldsFront(k, i, rec, rec1, l, s, p);
    } else {
      FieldsPoints(k, m, i + 1, rec, l, s, p);
      FieldsSkipped(k, i, rec, l, s, p);
    }
  }

  lemma {:induction false} FieldsAfter(k: Kind, m: Message, i: nat, rec: Record, l: Loc, s: Mem,
                                       w: Written<nat>, p: Snap)
    requires k.Msg? && Conforms(k, m) && i < |m| && Pending(m, i + 1, rec) && Ready(s) && UsedLocs(s, {l}) && w.ok
    requires FieldWritten(k.fields[i], rec[i], m[i].v, rec, l, s, w) && |w.s.pos| == MAP_TYPE_MAX
    requires p in TraceFields(k, m, i + 1, rec, l, w.s)
    ensures FieldsPoint(k, i, rec, l, s, p)
    decreases k, 3, |m| - i, 0
  {
    GrewReady(s, w.s, ReachField(k.fields[i], rec[i], w.s.data).1, {l});
    FieldsPoints(k, m, i + 1, rec, l, w.s, p);
    FieldsThen(k, m, i, rec, l, s, w, p);
  }

  lemma FieldsFront(k: Kind, i: nat, rec: Record, rec1: Record, l: Loc, s: Mem, p: Snap)
    requires k.Msg? && i <= |rec| == |rec1| && FieldsPoint(k, i, rec1, l, s, p)
    requires forall j | 0 <= j < i :: rec1[j] == rec[j]
    ensures FieldsPoint(k, i, rec, l, s, p)
  {
  }

  lemma FieldsSkipped(k: Kind, i: nat, rec: Record, l: Loc, s: Mem, p: Snap)
    requires k.Msg? && i < |rec| == |k.fields| && !Handled(k.fields[i], rec[i]) && FieldsPoint(k, i + 1, rec, l, s, p)
    ensures FieldsPoint(k, i, rec, l, s, p)
  {
    assert ReachField(k.fields[i], p.data[l].rec[i], p.data) == (true, NOTHING);
    var rest := ReachFields(k, i + 1, p.data[l].rec, p.data);
    assert Join(NOTHING, rest) == rest;
  }

  /** Nothing is written yet for the fields behind. */
  lemma FieldsFirst(k: Kind, m: Message, i: nat, rec: Record, l: Loc, s: Mem, p: Snap)
    requires k.Msg? && Conforms(k, m) && i < |m| && Pending(m, i + 1, rec)
    requires FieldPoint(k.fields[i], rec[i], rec, l, s, p)
    ensures FieldsPoint(k, i, rec, l, s, p)
  {
    PendingOwnsNothing(k, m, i + 1, rec, p.data);
    var fp := ReachField(k.fields[i], rec[i], p.data).1;
    assert Join(fp, NOTHING) == fp;
  }

  /** A field in front of the walk's current point. */
  lemma FieldsThen(k: Kind, m: Message, i: nat, rec: Record, l: Loc, s: Mem, w: Written<nat>, p: Snap)
    requires k.Msg? && i < |m| == |rec| == |k.fields| && Ready(s) && UsedLocs(s, {l}) && w.ok
    requires FieldWritten(k.fields[i], rec[i], m[i].v, rec, l, s, w) && FieldsPoint(k, i + 1, rec, l, w.s, p)
    ensures FieldsPoint(k, i, rec, l, s, p)
  {
    var now, fp := p.data[l].rec, ReachField(k.fields[i], rec[i], w.s.data).1;
    PartialThen(s, w.s, fp, {l}, p, ReachFields(k, i + 1, now, p.data));
    FrameField(k.fields[i], rec[i], w.s.data, p.data);
  }

  ghost function Home(f: Field): nat {
    if f.repeated then ARRAY_CLASS else HomeClass(f.kind)
  }

  /** What a field reaches below its slot. */
  ghost function BelowFp(f: Field, fc: FieldCell, x: Slot, d: Data): Fp {
    if !f.repeated then InnerFp(f.kind, x, d)
    else if f.kind.Scalar? || Inner(x) !in d || !d[Inner(x)].Pointers? then NOTHING
    else ReachElems(f.kind, d[Inner(x)].cells, 0, fc.quant, d)
  }

  lemma FieldReaches(f: Field, fc: FieldCell, x: Slot, d: Data)
    requires Handled(f, fc) && DecodeCell(fc.c) == Some(x) && x.idx != 0
    ensures ReachField(f, fc, d).1 == Join(Own(x, Home(f)), BelowFp(f, fc, x, d))
  {
    assert Join(Own(x, Home(f)), NOTHING) == Own(x, Home(f));
    if f.repeated { assert ReachField(f, fc, d) == ReachRepeated(f, fc, d); }
  }

  /** Right after the record was stored. */
  lemma SeatPoint(f: Field, fc: FieldCell, rec: Record, l: Loc, s: Mem, a: Written<nat>)
    requires Handled(f, fc) && Ready(s) && UsedLocs(s, {l}) && fc.c == Word(a.out)
    requires a.s.data == s.data[l := Struct(rec)]
    requires Decode(a.out).Some? ==> Allocatable(Decode(a.out).value) && Decode(a.out).value !in s.used
    ensures FieldPoint(f, fc, rec, l, s, Snap(a.s.data, []))
  {
    if Decode(a.out).Some? {
      var x := Decode(a.out).value;
      assert Inner(x) !in a.s.data;
      FieldReaches(f, fc, x, a.s.data);
      if !f.repeated { assert InnerFp(f.kind, x, a.s.data) == NOTHING; }
    } else {
      assert ReachField(f, fc, a.s.data).1 == NOTHING;
    }
  }

  lemma FieldOut(f: Field, fv: FieldVal, i: nat, rec: Record, l: Loc, s: Mem, size: int)
    requires FieldConforms(f, fv) && Handled(f, InitCell(fv)) && i < |rec| && |s.pos| == MAP_TYPE_MAX
    requires size == if f.repeated then MAP_VAL_REPEAT_SIZE else FieldSize(f.kind, fv.v)
    ensures WriteField(f, fv, i, rec, l, s).out == SeatField(size, i, rec, l, s).out
  {
  }

  lemma {:induction false} FieldPoints(f: Field, fv: FieldVal, i: nat, rec: Record, l: Loc, s: Mem, p: Snap)
    requires FieldConforms(f, fv) && Handled(f, InitCell(fv)) && Ready(s)
    requires i < |rec| && rec[i] == InitCell(fv) && (l.Inner? ==> l.slot in s.used)
    requires p in TraceField(f, fv, i, rec, l, s)
    ensures var rec1 := WithKey(rec, i, WriteField(f, fv, i, rec, l, s).out);
      FieldPoint(f, rec1[i], rec1, l, s, p)
    decreases f, 1, 0
  {
    var size := if f.repeated then MAP_VAL_REPEAT_SIZE else FieldSize(f.kind, fv.v);
    var a := SeatField(size, i, rec, l, s);
    var rec1 := WithKey(rec, i, a.out);
    FieldOut(f, fv, i, rec, l, s, size);
    AllocSpec(size, s);
    SeatSpec(f, fv, size, i, rec, l, s);
    if p == Snap(a.s.data, []) {
      SeatPoint(f, rec1[i], rec1, l, s, a);
    } else {
      var x := Decode(a.out).value;
      BelowPoints(f, fv, rec1[i], x, a.s, p);
      SeatedPoint(f, rec1[i], rec1, x, l, s, a.s, p);
    }
  }

  lemma SeatedPoint(f: Field, fc: FieldCell, rec: Record, x: Slot, l: Loc, s: Mem, s2: Mem, p: Snap)
    requires Handled(f, fc) && DecodeCell(fc.c) == Some(x) && Seated(s, s2, x, l, rec)
    requires Partial(s2, p, {Inner(x)}, BelowFp(f, fc, x, p.data))
    ensures FieldPoint(f, fc, rec, l, s, p)
  {
    FieldReaches(f, fc, x, p.data);
    PartialBelow(s, s2, x, Home(f), l, rec, p, BelowFp(f, fc, x, p.data));
  }

  lemma {:induction false} BelowPoints(f: Field, fv: FieldVal, fc: FieldCell, x: Slot, s: Mem, p: Snap)
    requires FieldConforms(f, fv) && Handled(f, InitCell(fv)) && Ready(s) && x in s.used && Inner(x) !in s.data
    requires Handled(f, fc) && DecodeCell(fc.c) == Some(x) && fc.quant == fv.quant
    requires !f.repeated ==> 0 < FieldSize(f.kind, fv.v) <= ValueSize(x.cls)
    requires p in TraceBelow(f, fv, x, s)
    ensures Partial(s, p, {Inner(x)}, BelowFp(f, fc, x, p.data))
    decreases f, 0, 0
  {
    if !f.repeated {
      TargetPoints(f.kind, fv.v, x, s, p);
    } else if !f.kind.Scalar? {
      var elems := fv.v.elems;
      if p in TraceElems(f.kind, elems, 0, NoCells(), s) {
        ElemsPoints(f.kind, elems, 0, NoCells(), s, p);
        ArrayOpen(f, fc, x, |elems|, NoCells(), s, p);
      } else {
        WriteElemsSpec(f.kind, elems, 0, NoCells(), s);
        ArrayStored(f, fc, x, elems, s, WriteElems(f.kind, elems, 0, NoCells(), s));
      }
    }
  }

  /** While its elements are written, the array owns nothing yet. */
  lemma ArrayOpen(f: Field, fc: FieldCell, x: Slot, n: nat, cells: seq<Cell>, s: Mem, p: Snap)
    requires f.repeated && !f.kind.Scalar? && x in s.used && Inner(x) !in s.data
    requires ElemsPoint(f.kind, n, 0, cells, s, p)
    ensures Partial(s, p, {Inner(x)}, BelowFp(f, fc, x, p.data))
  {
    assert Inner(x) !in p.data;
    var o := p.open[|p.open| - 1];
    var y :| y in ReachElems(f.kind, o.cells, 0, n, p.data).slots && Inner(y) in p.data;
    assert y in Loose(p.open, p.data);
  }

  /** Once it is stored, it owns its elements. */
  lemma ArrayStored(f: Field, fc: FieldCell, x: Slot, elems: seq<Val>, s: Mem, w: Written<seq<Cell>>)
    requires f.repeated && !f.kind.Scalar? && fc.quant == |elems| && Ready(s) && x in s.used && Inner(x) !in s.data
    requires ElemsWritten(f.kind, elems, 0, s, w)
    ensures var p := Snap(w.s.data[Inner(x) := Pointers(w.out)], []);
      Partial(s, p, {Inner(x)}, BelowFp(f, fc, x, p.data))
  {
    var d, fp := w.s.data[Inner(x) := Pointers(w.out)], ReachElems(f.kind, w.out, 0, |elems|, w.s.data);
    assert Framed(w.s.data, d, fp.slots);
    FrameElems(f.kind, w.out, 0, |elems|, w.s.data, d);
  }

  lemma {:induction false} TargetPoints(kind: Kind, v: Val, x: Slot, s: Mem, p: Snap)
    requires !kind.Scalar? && ElemConforms(kind, v) && Ready(s)
    requires x in s.used && Inner(x) !in s.data && 0 < FieldSize(kind, v) <= ValueSize(x.cls)
    requires p in TraceTarget(kind, v, x, s)
    ensures Partial(s, p, {Inner(x)}, InnerFp(kind, x, p.data)) && Inner(x) in p.data
    decreases kind, 5, 0
  {
    if kind.Msg? { MapPoints(kind, v.m, Inner(x), s, p); }
  }

  /** The outermost open array is this one, and its elements from j on cover what was written. */
  ghost predicate ElemsPoint(kind: Kind, n: nat, j: nat, cells: seq<Cell>, s: Mem, p: Snap) {
    p.open != [] &&
    var last := |p.open| - 1; var o := p.open[last];
    o.kind == kind && o.n == n &&
    |o.cells| == |cells| && (forall e | 0 <= e < j && e < |cells| :: o.cells[e] == cells[e]) &&
    Partial(s, Snap(p.data, p.open[..last]), {}, ReachElems(kind, o.cells, j, n, p.data)) &&
    SomeFilled(ReachElems(kind, o.cells, j, n, p.data).slots, p.data)
  }

  lemma SameFront(kind: Kind, n: nat, j: nat, cells: seq<Cell>, cells1: seq<Cell>, s: Mem, p: Snap)
    requires ElemsPoint(kind, n, j, cells1, s, p) && j <= |cells| == |cells1| && cells[..j] == cells1[..j]
    ensures ElemsPoint(kind, n, j, cells, s, p)
  {
    forall e | 0 <= e < j ensures cells[e] == cells1[e] { assert cells[..j][e] == cells1[..j][e]; }
  }

  lemma {:induction false} ElemsPoints(kind: Kind, elems: seq<Val>, j: nat, cells: seq<Cell>, s: Mem, p: Snap)
    requires !kind.Scalar? && AllConform(kind, elems) && j <= |elems| <= |cells| && Ready(s)
    requires forall e | j <= e < |cells| :: cells[e] == Word(0)
    requires p in TraceElems(kind, elems, j, cells, s)
    ensures ElemsPoint(kind, |elems|, j, cells, s, p)
    decreases kind, 6, |elems| - j, 1
  {
    var a, w := AllocKey(FieldSize(kind, elems[j]), s), WriteElem(kind, elems[j], s);
    var cells1 := cells[j := Word(w.out)];
    if Decode(a.out).Some? &&
       p in Within(TraceTarget(kind, elems[j], Decode(a.out).value, a.s), Open(kind, cells1, |elems|)) {
      ElemPoints(kind, elems, j, cells1, s, a, p);
    } else {
      WriteElemSpec(kind, elems[j], s);
      ElemsAfter(kind, elems, j, cells1, s, w, p);
    }
    SameFront(kind, |elems|, j, cells, cells1, s, p);
  }

  lemma {:induction false} ElemsAfter(kind: Kind, elems: seq<Val>, j: nat, cells: seq<Cell>, s: Mem,
                                      w: Written<nat>, p: Snap)
    requires !kind.Scalar? && AllConform(kind, elems) && j < |elems| <= |cells| && Ready(s) && w.ok
    requires cells[j] == Word(w.out) && (forall e | j < e < |cells| :: cells[e] == Word(0))
    requires ElemWritten(kind, elems[j], s, w) && |w.s.pos| == MAP_TYPE_MAX
    requires p in TraceElems(kind, elems, j + 1, cells, w.s)
    ensures ElemsPoint(kind, |elems|, j, cells, s, p)
    decreases kind, 6, |elems| - j, 0
  {
    GrewReady(s, w.s, ReachElem(kind, Word(w.out), w.s.data), {});
    ElemsPoints(kind, elems, j + 1, cells, w.s, p);
    ElemsThen(kind, elems, j, cells, s, w, p);
  }

  lemma {:induction false} ElemPoints(kind: Kind, elems: seq<Val>, j: nat, cells: seq<Cell>, s: Mem,
                                      a: Written<nat>, p: Snap)
    requires !kind.Scalar? && AllConform(kind, elems) && j < |elems| <= |cells| && Ready(s)
    requires a == AllocKey(FieldSize(kind, elems[j]), s) && cells[j] == Word(a.out) && Decode(a.out).Some?
    requires forall e | j < e < |cells| :: cells[e] == Word(0)
    requires p in Within(TraceTarget(kind, elems[j], Decode(a.out).value, a.s), Open(kind, cells, |elems|))
    ensures ElemsPoint(kind, |elems|, j, cells, s, p)
    decreases kind, 5, 1
  {
    var x := Decode(a.out).value;
    AllocSpec(FieldSize(kind, elems[j]), s);
    var q := Inside(TraceTarget(kind, elems[j], x, a.s), Open(kind, cells, |elems|), p);
    TargetPoints(kind, elems[j], x, a.s, q);
    ElemPoint(kind, |elems|, j, cells, x, s, a.s, q);
  }

  lemma Inside(t: seq<Snap>, o: Open, p: Snap) returns (q: Snap)
    requires p in Within(t, o)
    ensures q in t && p == Snap(q.data, q.open + [o])
  {
    var i :| 0 <= i < |t| && Within(t, o)[i] == p;
    q := t[i];
  }

  /** A point below element j, with nothing written for the elements behind it. */
  lemma ElemPoint(kind: Kind, n: nat, j: nat, cells: seq<Cell>, x: Slot, s: Mem, s2: Mem, q: Snap)
    requires j < n && j < |cells| && (forall e | j < e < |cells| :: cells[e] == Word(0)) && !kind.Scalar?
    requires DecodeCell(cells[j]) == Some(x) && Allocatable(x) && Ready(s) && x !in s.used
    requires s2.used == s.used + {x} && s2.data == s.data && Partial(s2, q, {Inner(x)}, InnerFp(kind, x, q.data))
    requires Inner(x) in q.data
    ensures ElemsPoint(kind, n, j, cells, s, Snap(q.data, q.open + [Open(kind, cells, n)]))
  {
    assert (q.open + [Open(kind, cells, n)])[..|q.open|] == q.open;
    assert Inner(x) !in s.data;
    ZeroElemsOwnNothing(kind, cells, j + 1, n, q.data);
    var fp := ReachTarget(kind, x, q.data);
    assert ReachElem(kind, cells[j], q.data) == fp == Join(Own(x, HomeClass(kind)), InnerFp(kind, x, q.data));
    assert Join(fp, NOTHING) == fp;
    assert x in fp.slots;
  }

  /** An element in front of the walk's current point. */
  lemma ElemsThen(kind: Kind, elems: seq<Val>, j: nat, cells: seq<Cell>, s: Mem, w: Written<nat>, p: Snap)
    requires j < |elems| <= |cells| && cells[j] == Word(w.out) && w.ok && Ready(s)
    requires ElemWritten(kind, elems[j], s, w) && ElemsPoint(kind, |elems|, j + 1, cells, w.s, p)
    ensures ElemsPoint(kind, |elems|, j, cells, s, p)
  {
    var last := |p.open| - 1;
    var o, fp := p.open[last], ReachElem(kind, Word(w.out), w.s.data);
    PartialThen(s, w.s, fp, {}, Snap(p.data, p.open[..last]), ReachElems(kind, o.cells, j + 1, |elems|, p.data));
    FrameElem(kind, Word(w.out), w.s.data, p.data);
    assert o.cells[j] == Word(w.out);
    var x :| x in ReachElems(kind, o.cells, j + 1, |elems|, p.data).slots && Inner(x) in p.data;
    assert x in ReachElems(kind, o.cells, j, |elems|, p.data).slots;
  }

  /** At every point of a write each slab map is below its limit, so no write to one is ever refused. */
  lemma SlabNeverFullAt(k: Kind, m: Message, l: Loc, s: Mem, p: Snap, cls: nat)
    requires k.Msg? && Conforms(k, m) && Ready(s) && l !in s.data && (l.Inner? ==> l.slot in s.used)
    requires p in TraceMap(k, m, l, s)
    ensures |set x | x in FilledSlots(p.data) && x.cls == cls| <= MAP_MAX_ENTRIES - 1
  {
    MapPoints(k, m, l, s, p);
    forall x: Slot | Inner(x) in p.data
      ensures Allocatable(x)
    {
      if Inner(x) != l && Inner(x) in s.data { assert x in s.used; }
    }
    ClassFits(p.data, cls);
  }

  // ---------- the map removals of the delete walk

  ghost function TraceDelMap(k: Kind, l: Loc, s: Mem): seq<Data>
    requires k.Msg?
    decreases k, 4, 0
  {
    if l !in s.data then []
    else (if s.data[l].Struct? then TraceDelFields(k, 0, s.data[l].rec, l, s) else []) + [DelMap(k, l, s).data]
  }

  ghost function TraceDelFields(k: Kind, i: nat, buf: Record, l: Loc, s: Mem): seq<Data>
    requires k.Msg?
    decreases k, 3, |buf| - i
  {
    if i >= |buf| || i >= |k.fields| then []
    else
      var f := k.fields[i];
      if !Handled(f, buf[i]) then TraceDelFields(k, i + 1, buf, l, s)
      else if f.repeated then
        var (ok, s1) := DelRepeated(f, buf[i], s);
        TraceDelRepeated(f, buf[i], s) + if ok then TraceDelFields(k, i + 1, WithKey(buf, i, 0), l, s1) else []
      else if l !in s.data || !s.data[l].Struct? || |s.data[l].rec| != |buf| then []
      else
        var buf1 := s.data[l].rec;
        match DecodeCell(buf1[i].c)
        case None => []
        case Some(x) =>
          TraceDelTarget(f.kind, x, s) + TraceDelFields(k, i + 1, WithKey(buf1, i, 0), l, DelTarget(f.kind, x, s))
  }

  ghost function TraceDelTarget(kind: Kind, x: Slot, s: Mem): seq<Data>
    decreases kind, 5, 0
  {
    if kind.Msg? then TraceDelMap(kind, Inner(x), s.(used := s.used - {x})) else [s.data - {Inner(x)}]
  }

  ghost function TraceDelRepeated(f: Field, fc: FieldCell, s: Mem): seq<Data>
    decreases f, 0, 0
  {
    match DecodeCell(fc.c)
    case None => []
    case Some(x) =>
      var s1 := s.(used := s.used - {x});
      (if f.kind.Scalar? || Inner(x) !in s1.data || !s1.data[Inner(x)].Pointers? then []
       else TraceDelElems(f.kind, s1.data[Inner(x)].cells, 0, fc.quant, s1)) + [DelRepeated(f, fc, s).1.data]
  }

  ghost function TraceDelElems(kind: Kind, cells: seq<Cell>, j: nat, n: nat, s: Mem): seq<Data>
    decreases kind, 6, n - j
  {
    if j >= n || j >= |cells| then []
    else
      var d := DecodeCell(cells[j]);
      if d.None? then TraceDelElems(kind, cells, j + 1, n, s)
      else TraceDelTarget(kind, d.value, s) + TraceDelElems(kind, cells, j + 1, n, DelTarget(kind, d.value, s))
  }

  function Without(d: Data, l: Loc): Data { d - {l} }

  ghost predicate OneRemoval(d: Data, e: Data) {
    exists l :: e == Without(d, l)
  }

  /** The points lead from d to e, one removal each. */
  ghost predicate Removals(d: Data, t: seq<Data>, e: Data)
    decreases t
  {
    if t == [] then d == e else OneRemoval(d, t[0]) && Removals(t[0], t[1..], e)
  }

  lemma {:induction false} RemovalsJoin(d: Data, a: seq<Data>, e: Data, b: seq<Data>, f: Data)
    requires Removals(d, a, e) && Removals(e, b, f)
    ensures Removals(d, a + b, f)
    decreases a
  {
    if a == [] {
      assert a + b == b;
    } else {
      RemovalsJoin(a[0], a[1..], e, b, f);
      assert (a + b)[1..] == a[1..] + b;
    }
  }

  lemma RemovalsOne(d: Data, l: Loc)
    ensures Removals(d, [d - {l}], d - {l})
  {
    assert d - {l} == Without(d, l);
    assert [d - {l}][1..] == [];
  }

  lemma {:induction false} MapRemovals(k: Kind, l: Loc, s: Mem)
    requires k.Msg?
    ensures Removals(s.data, TraceDelMap(k, l, s), DelMap(k, l, s).data)
    decreases k, 4, 0
  {
    if l in s.data {
      if s.data[l].Struct? {
        var s1 := DelFields(k, 0, s.data[l].rec, l, s);
        FieldsRemovals(k, 0, s.data[l].rec, l, s);
        RemovalsOne(s1.data, l);
        RemovalsJoin(s.data, TraceDelFields(k, 0, s.data[l].rec, l, s), s1.data, [s1.data - {l}], s1.data - {l});
      } else {
        RemovalsOne(s.data, l);
        assert [] + [s.data - {l}] == [s.data - {l}];
      }
    }
  }

  lemma {:induction false} FieldsRemovals(k: Kind, i: nat, buf: Record, l: Loc, s: Mem)
    requires k.Msg?
    ensures Removals(s.data, TraceDelFields(k, i, buf, l, s), DelFields(k, i, buf, l, s).data)
    decreases k, 3, |buf| - i
  {
    if i < |buf| && i < |k.fields| {
      var f := k.fields[i];
      if !Handled(f, buf[i]) {
        FieldsRemovals(k, i + 1, buf, l, s);
      } else if f.repeated {
        var (ok, s1) := DelRepeated(f, buf[i], s);
        var t := TraceDelRepeated(f, buf[i], s);
        RepeatedRemovals(f, buf[i], s);
        if ok {
          var buf1 := WithKey(buf, i, 0);
          FieldsRemovals(k, i + 1, buf1, l, s1);
          RemovalsJoin(s.data, t, s1.data,
                       TraceDelFields(k, i + 1, buf1, l, s1), DelFields(k, i + 1, buf1, l, s1).data);
        } else {
          assert t + [] == t;
        }
      } else if l in s.data && s.data[l].Struct? && |s.data[l].rec| == |buf| {
        var now := s.data[l].rec;
        if DecodeCell(now[i].c).Some? {
          var x, buf1 := DecodeCell(now[i].c).value, WithKey(now, i, 0);
          var s1 := DelTarget(f.kind, x, s);
          TargetRemovals(f.kind, x, s);
          FieldsRemovals(k, i + 1, buf1, l, s1);
          RemovalsJoin(s.data, TraceDelTarget(f.kind, x, s), s1.data,
                       TraceDelFields(k, i + 1, buf1, l, s1), DelFields(k, i + 1, buf1, l, s1).data);
        }
      }
    }
  }

  lemma {:induction false} TargetRemovals(kind: Kind, x: Slot, s: Mem)
    ensures Removals(s.data, TraceDelTarget(kind, x, s), DelTarget(kind, x, s).data)
    decreases kind, 5, 0
  {
    if kind.Msg? { MapRemovals(kind, Inner(x), s.(used := s.used - {x})); } else { RemovalsOne(s.data, Inner(x)); }
  }

  lemma {:induction false} RepeatedRemovals(f: Field, fc: FieldCell, s: Mem)
    ensures Removals(s.data, TraceDelRepeated(f, fc, s), DelRepeated(f, fc, s).1.data)
    decreases f, 0, 0
  {
    if DecodeCell(fc.c).Some? {
      var x := DecodeCell(fc.c).value;
      var s1 := s.(used := s.used - {x});
      if f.kind.Scalar? || Inner(x) !in s1.data || !s1.data[Inner(x)].Pointers? {
        RemovalsOne(s.data, Inner(x));
        assert [] + [s.data - {Inner(x)}] == [s.data - {Inner(x)}];
      } else {
        var cells := s1.data[Inner(x)].cells;
        var s2 := DelElems(f.kind, cells, 0, fc.quant, s1);
        ElemsRemovals(f.kind, cells, 0, fc.quant, s1);
        RemovalsOne(s2.data, Inner(x));
        RemovalsJoin(s.data, TraceDelElems(f.kind, cells, 0, fc.quant, s1), s2.data,
                     [s2.data - {Inner(x)}], s2.data - {Inner(x)});
      }
    }
  }

  lemma {:induction false} ElemsRemovals(kind: Kind, cells: seq<Cell>, j: nat, n: nat, s: Mem)
    ensures Removals(s.data, TraceDelElems(kind, cells, j, n, s), DelElems(kind, cells, j, n, s).data)
    decreases kind, 6, n - j
  {
    if j < n && j < |cells| {
      var d := DecodeCell(cells[j]);
      if d.None? {
        ElemsRemovals(kind, cells, j + 1, n, s);
      } else {
        var s1 := DelTarget(kind, d.value, s);
        TargetRemovals(kind, d.value, s);
        ElemsRemovals(kind, cells, j + 1, n, s1);
        RemovalsJoin(s.data, TraceDelTarget(kind, d.value, s), s1.data,
                     TraceDelElems(kind, cells, j + 1, n, s1), DelElems(kind, cells, j + 1, n, s1).data);
      }
    }
  }

  ghost predicate PartOf(d: Data, e: Data) {
    forall q | q in d :: q in e && d[q] == e[q]
  }

  /** Every point of a delete walk lies between its end and its start. */
  lemma {:induction false} Between(d: Data, t: seq<Data>, e: Data, p: Data)
    requires Removals(d, t, e)
    ensures PartOf(e, d) && (p in t ==> PartOf(e, p) && PartOf(p, d))
    decreases t
  {
    if t != [] {
      var l :| t[0] == Without(d, l);
      Between(t[0], t[1..], e, p);
    }
  }

  // ---------- crashes

  /** The maps at some point of the update: dropping the old entry, writing, or undoing a failed write. */
  ghost predicate CrashPoint(r: RootMap, key: string, m: Message, s: Mem, d: Data)
    requires r.desc.Msg? && Conforms(r.desc, m) && |s.pos| == MAP_TYPE_MAX
  {
    var l, clear := Root(r, key), Delete(r, key, s).(scratch := Blank());
    var w := WriteMap(r.desc, m, l, clear);
    d in TraceDelMap(r.desc, l, s) ||
    (exists p :: p in TraceMap(r.desc, m, l, clear) && p.data == d) ||
    (!w.ok && d in TraceDelMap(r.desc, l, w.s))
  }

  /** The store without the entry at l is all there, and so are no other root keys. */
  ghost predicate Around(l: Loc, base: Data, d: Data) {
    (forall q | q in base && q != l :: q in d && d[q] == base[q]) &&
    (forall q | q in d && q.Root? && q != l :: q in base) && NoZero(d)
  }

  lemma CrashAround(r: RootMap, key: string, m: Message, s: Mem, d: Data)
    requires Inv(s) && r.desc.Msg? && Conforms(r.desc, m) && CrashPoint(r, key, m, s, d)
    ensures Around(Root(r, key), Delete(r, key, s).data, d)
  {
    var l, clear := Root(r, key), Delete(r, key, s).(scratch := Blank());
    InvIsClean(s);
    DeleteRefines(r, key, s);
    InvIsClean(Delete(r, key, s));
    if d in TraceDelMap(r.desc, l, s) {
      MapRemovals(r.desc, l, s);
      Between(s.data, TraceDelMap(r.desc, l, s), clear.data, d);
      DeleteAround(l, s, d);
    } else if p :| p in TraceMap(r.desc, m, l, clear) && p.data == d {
      MapPoints(r.desc, m, l, clear, p);
    } else {
      RollbackAround(r.desc, m, l, clear, d);
    }
  }

  lemma RollbackAround(k: Kind, m: Message, l: Loc, s: Mem, d: Data)
    requires k.Msg? && Conforms(k, m) && Ready(s) && l.Root? && l !in s.data
    requires d in TraceDelMap(k, l, WriteMap(k, m, l, s).s)
    ensures Around(l, s.data, d)
  {
    var w := WriteMap(k, m, l, s);
    WriteMapSpec(k, m, l, s);
    RollbackExact(k, m, l, s);
    MapRemovals(k, l, w.s);
    Between(w.s.data, TraceDelMap(k, l, w.s), s.data, d);
  }

  lemma DeleteAround(l: Loc, s: Mem, d: Data)
    requires l.Root? && l.root.desc.Msg? && Inv(s) && Clean(s)
    requires PartOf(Delete(l.root, l.key, s).data, d) && PartOf(d, s.data)
    ensures Around(l, Delete(l.root, l.key, s).data, d)
  {
    DeleteExact(l.root, l.key, s);
  }

  /** Entries around l keep footprint and message. */
  lemma AroundKeeps(l: Loc, b: Mem, d: Data, q: Loc)
    requires Inv(b) && l !in b.data && Around(l, b.data, d) && q != l && q.Root? && q.root.desc.Msg?
    ensures ReadMap(q.root.desc, q, d) == ReadMap(q.root.desc, q, b.data)
    ensures q in b.data ==> q in d && Owned(q, d) == Owned(q, b.data)
  {
    InvIsClean(b);
    if q in b.data {
      assert Whole(q, b);
      FrameMap(q.root.desc, q, b.data, d);
    }
  }

  /** Wherever an update is cut off, every other key of every root map looks up as before, after the restart. */
  lemma CrashIsolation(r: RootMap, key: string, m: Message, s: Mem, d: Data, pos: seq<nat>, other: RootMap, k2: string)
    requires Inv(s) && r.desc.Msg? && Conforms(r.desc, m) && CrashPoint(r, key, m, s, d)
    requires other.desc.Msg? && Root(other, k2) != Root(r, key)
    ensures Lookup(other, k2, Restart(pos, s.(data := d))) == Lookup(other, k2, s)
  {
    DeleteRefines(r, key, s);
    CrashAround(r, key, m, s, d);
    AroundKeeps(Root(r, key), Delete(r, key, s), d, Root(other, k2));
    Isolation(r, key, m, other, k2, s);
  }

  ghost predicate OwnedByOther(x: Slot, l: Loc, d: Data) {
    exists q :: q in d && q.Root? && q != l && x in Owned(q, d).slots
  }

  lemma OtherOwner(l: Loc, b: Mem, d: Data, x: Slot)
    requires Inv(b) && l !in b.data && Around(l, b.data, d) && x in b.used
    ensures OwnedByOther(x, l, d)
  {
    assert OwnedBySome(x, b);
    var q :| q in b.data && q.Root? && x in Owned(q, b.data).slots;
    assert Whole(q, b);
    AroundKeeps(l, b, d, q);
  }

  /**
    Cut off while writing, the slots the restart marks are those of the other
    entries, those reached from the new one, and elements of arrays that were
    not stored yet: only the last are lost, and none when no array was open.
   */
  lemma CrashInWrite(r: RootMap, key: string, m: Message, s: Mem, p: Snap, x: Slot)
    requires Inv(s) && r.desc.Msg? && Conforms(r.desc, m)
    requires p in TraceMap(r.desc, m, Root(r, key), Delete(r, key, s).(scratch := Blank())) && Inner(x) in p.data
    ensures OwnedByOther(x, Root(r, key), p.data) || x in Owned(Root(r, key), p.data).slots ||
            x in Loose(p.open, p.data)
  {
    var l, b := Root(r, key), Delete(r, key, s);
    DeleteRefines(r, key, s);
    InvIsClean(b);
    MapPoints(r.desc, m, l, b.(scratch := Blank()), p);
    CrashAround(r, key, m, s, p.data);
    if Inner(x) in b.data { OtherOwner(l, b, p.data, x); }
  }

  /** Cut off while deleting, all other slots left are of the entry being deleted. */
  lemma CrashInDelete(r: RootMap, key: string, s: Mem, d: Data, x: Slot)
    requires Inv(s) && r.desc.Msg? && d in TraceDelMap(r.desc, Root(r, key), s) && Inner(x) in d
    ensures OwnedByOther(x, Root(r, key), d) || x in Owned(Root(r, key), s.data).slots
  {
    var l, b := Root(r, key), Delete(r, key, s);
    InvIsClean(s);
    DeleteRefines(r, key, s);
    InvIsClean(b);
    DeleteExact(r, key, s);
    MapRemovals(r.desc, l, s);
    Between(s.data, TraceDelMap(r.desc, l, s), b.data, d);
    DeleteAround(l, s, d);
    if x !in Owned(l, s.data).slots { OtherOwner(l, b, d, x); }
  }

  /** Cut off while undoing a failed write, they are of the half-written entry. */
  lemma CrashInRollback(r: RootMap, key: string, m: Message, s: Mem, w: Written<()>, d: Data, x: Slot)
    requires Inv(s) && r.desc.Msg? && Conforms(r.desc, m)
    requires w == WriteMap(r.desc, m, Root(r, key), Delete(r, key, s).(scratch := Blank())) && !w.ok
    requires d in TraceDelMap(r.desc, Root(r, key), w.s) && Inner(x) in d
    ensures OwnedByOther(x, Root(r, key), d) || x in Owned(Root(r, key), w.s.data).slots
  {
    var l, b := Root(r, key), Delete(r, key, s);
    DeleteRefines(r, key, s);
    InvIsClean(b);
    CrashAround(r, key, m, s, d);
    WriteMapSpec(r.desc, m, l, b.(scratch := Blank()));
    MapRemovals(r.desc, l, w.s);
    Between(w.s.data, TraceDelMap(r.desc, l, w.s), DelMap(r.desc, l, w.s).data, d);
    if x !in Owned(l, w.s.data).slots { OtherOwner(l, b, d, x); }
  }

  /**
    Recovery after a crash while writing: deleting the key after the restart, as
    the next update of it does first, leaves the store without the old entry and
    at most the lost elements besides; it is exactly that store, and sound, if
    and only if no array was open.
   */
  lemma CrashRecovery(r: RootMap, key: string, m: Message, s: Mem, p: Snap, pos: seq<nat>)
    requires Inv(s) && r.desc.Msg? && Conforms(r.desc, m) && Cursors(pos)
    requires p in TraceMap(r.desc, m, Root(r, key), Delete(r, key, s).(scratch := Blank()))
    ensures var b, u := Delete(r, key, s), Delete(r, key, Restart(pos, s.(data := p.data)));
      PartOf(b.data, u.data) &&
      (forall q | q in u.data && q !in b.data :: q.Inner? && q.slot in Loose(p.open, p.data)) &&
      (p.open == [] <==> u.data == b.data) &&
      (p.open == [] ==> Inv(u) && View(u) == View(s) - {Root(r, key)})
  {
    var l, b, t := Root(r, key), Delete(r, key, s), Restart(pos, s.(data := p.data));
    var fp, u := Owned(l, p.data), Delete(r, key, t);
    DeleteRefines(r, key, s);
    InvIsClean(b);
    MapPoints(r.desc, m, l, b.(scratch := Blank()), p);
    CrashAround(r, key, m, s, p.data);
    DeleteMap(r.desc, l, t);
    RecoveredData(l, b, p, fp, u.data);
    if p.open == [] {
      RecoveredUsed(b, u, fp, p.data);
      ScratchIrrelevant(b, s.scratch, pos);
      assert u == b.(scratch := s.scratch, pos := pos);
    }
  }

  lemma RecoveredData(l: Loc, b: Mem, p: Snap, fp: Fp, d: Data)
    requires l.Root? && l !in b.data && Partial(b, p, {l}, fp) && (forall x: Slot :: Inner(x) in b.data ==> x in b.used)
    requires d == p.data - Locs(fp.slots) - {l}
    ensures PartOf(b.data, d) && forall q | q in d && q !in b.data :: q.Inner? && q.slot in Loose(p.open, p.data)
    ensures p.open == [] <==> d == b.data
  {
    forall q | q in p.data && q.Inner? && q.slot in fp.slots ensures q in Locs(fp.slots) { }
    if p.open != [] {
      var x :| x in Loose(p.open, p.data) && Inner(x) in p.data;
      assert Inner(x) in d && Inner(x) !in b.data;
    }
  }

  lemma RecoveredUsed(b: Mem, u: Mem, fp: Fp, d: Data)
    requires b.used == FilledSlots(b.data) && u.used == FilledSlots(d) - fp.slots && fp.slots !! b.used
    requires u.data == b.data && PartOf(b.data, d)
    requires forall q | q in d && q.Inner? && q !in b.data :: q.slot in fp.slots
    ensures u.used == b.used
  {
    forall x: Slot
      ensures x in u.used <==> x in b.used
    {
      FilledIff(u.(data := d), x);
      FilledIff(b, x);
    }
  }

  /** The field is an array that begins with a short string. */
  predicate ShortStrings(f: Field, fv: FieldVal) {
    f.repeated && f.kind.Str? && Handled(f, InitCell(fv)) && fv.v.List? && fv.v.elems != [] &&
    fv.v.elems[0].Text? && |fv.v.elems[0].s| < MAP_VAL_STR_SIZE
  }

  lemma OpenElement(f: Field, fv: FieldVal, x: Slot, s: Mem)
    requires FieldConforms(f, fv) && ShortStrings(f, fv) && Ready(s) && !Full(s.used, HomeClass(Str))
    ensures exists p :: p in TraceBelow(f, fv, x, s) && p.open != []
  {
    var elems := fv.v.elems;
    var a, w := AllocKey(MAP_VAL_STR_SIZE, s), WriteElem(Str, elems[0], s);
    AllocFailsIff(MAP_VAL_STR_SIZE, s);
    AllocSpec(MAP_VAL_STR_SIZE, s);
    var o, t := Open(Str, NoCells()[0 := Word(w.out)], |elems|), TraceTarget(Str, elems[0], Decode(a.out).value, a.s);
    assert Within(t, o)[0] in Within(t, o) && Within(t, o)[0].open == t[0].open + [o];
    assert Within(t, o)[0] in TraceElems(Str, elems, 0, NoCells(), s);
  }

  lemma OpenField(f: Field, fv: FieldVal, i: nat, rec: Record, l: Loc, s: Mem)
    requires FieldConforms(f, fv) && ShortStrings(f, fv) && Ready(s) && i < |rec| && rec[i] == InitCell(fv)
    requires UsedLocs(s, {l}) && CanPut(s.data, l) && !Full(s.used, HomeClass(Str)) && !Full(s.used, ARRAY_CLASS)
    ensures exists p :: p in TraceField(f, fv, i, rec, l, s) && p.open != []
  {
    var a, c := SeatField(MAP_VAL_REPEAT_SIZE, i, rec, l, s), HomeClass(Str);
    AllocFailsIff(MAP_VAL_REPEAT_SIZE, s);
    AllocSpec(MAP_VAL_REPEAT_SIZE, s);
    SeatSpec(f, fv, MAP_VAL_REPEAT_SIZE, i, rec, l, s);
    var x := Decode(a.out).value;
    var j :| 0 < j < MAP_MAX_ENTRIES && Slot(c, j) !in s.used;
    assert Slot(c, j) !in a.s.used;
    OpenElement(f, fv, x, a.s);
    var p :| p in TraceBelow(f, fv, x, a.s) && p.open != [];
    assert p in TraceField(f, fv, i, rec, l, s);
  }

  /** Such a crash is possible in every update whose message begins with an array of short strings. */
  lemma OpenArrayPoint(k: Kind, m: Message, l: Loc, s: Mem)
    requires k.Msg? && Conforms(k, m) && Ready(s) && UsedLocs(s, {l}) && k.size <= LocSize(l) && CanPut(s.data, l)
    requires m != [] && ShortStrings(k.fields[0], m[0])
    requires !Full(s.used, HomeClass(Str)) && !Full(s.used, ARRAY_CLASS)
    ensures exists p :: p in TraceMap(k, m, l, s) && p.open != []
  {
    assert FieldConforms(k.fields[0], m[0]);
    OpenField(k.fields[0], m[0], 0, InitRecord(m), l, s);
    var p :| p in TraceField(k.fields[0], m[0], 0, InitRecord(m), l, s) && p.open != [];
    assert p in TraceFields(k, m, 0, InitRecord(m), l, s);
  }
}

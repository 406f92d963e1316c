/**
  The write walk: whether or not it returns 0, everything it added is the
  footprint the delete walk would find; when it returns 0, reading gives the
  message back.
 */
module StoreWrite {
  import opened Options
  import opened OuterKey
  import opened Schema
  import opened SlabAlloc
  import opened StoreModel
  import opened StoreFrames

  ghost predicate Cursors(pos: seq<nat>) {
    |pos| == MAP_TYPE_MAX && forall c | 0 <= c < MAP_TYPE_MAX :: pos[c] < MAP_MAX_ENTRIES
  }

  /** A store a write may start from: only real slots are used, and only used slots are filled. */
  ghost predicate Ready(s: Mem) {
    Cursors(s.pos) && |s.scratch| == MAP_VAL_REPEAT_SIZE &&
    (forall x | x in s.used :: Allocatable(x)) &&
    (forall x: Slot :: Inner(x) in s.data ==> x in s.used)
  }

  /**
    From s to t only slots of fp were added, all of them free in s, and only
    entries at those slots and in e changed.
   */
  ghost predicate Grew(s: Mem, t: Mem, fp: Fp, e: set<Loc>) {
    && fp.apart && fp.slots !! s.used
    && (forall x | x in fp.slots :: Allocatable(x))
    && s.used <= t.used <= s.used + fp.slots
    && (forall q | q in s.data && q !in e :: q in t.data && t.data[q] == s.data[q])
    && (forall q | q in t.data && q !in e :: q in s.data || (q.Inner? && q.slot in fp.slots))
    && |t.scratch| == |s.scratch| && Cursors(t.pos)
  }

  /** All of fp is marked used and filled. */
  ghost predicate Filled(s: Mem, t: Mem, fp: Fp) {
    t.used == s.used + fp.slots && forall x | x in fp.slots :: Inner(x) in t.data
  }

  ghost predicate UsedLocs(s: Mem, e: set<Loc>) {
    forall q | q in e && q.Inner? :: q.slot in s.used
  }

  // ---------- composing steps

  lemma GrewReady(s: Mem, t: Mem, fp: Fp, e: set<Loc>)
    requires Ready(s) && Grew(s, t, fp, e) && Filled(s, t, fp) && UsedLocs(s, e)
    ensures Ready(t)
  {
    forall x: Slot | Inner(x) in t.data
      ensures x in t.used
    {
      if Inner(x) !in e && Inner(x) in s.data { assert x in s.used; }
    }
  }

  lemma GrewTrans(s: Mem, t: Mem, u: Mem, a: Fp, b: Fp, e: set<Loc>)
    requires Ready(s) && UsedLocs(s, e)
    requires Grew(s, t, a, e) && Filled(s, t, a) && Grew(t, u, b, e)
    ensures Grew(s, u, Join(a, b), e)
    ensures Filled(t, u, b) ==> Filled(s, u, Join(a, b))
    ensures Framed(t.data, u.data, a.slots)
  {
    forall x | x in a.slots
      ensures Inner(x) in t.data && Inner(x) in u.data && t.data[Inner(x)] == u.data[Inner(x)]
    {
      assert Inner(x) !in e;
    }
    GrewReady(s, t, a, e);
    forall x: Slot | Inner(x) in u.data
      ensures x.idx != 0
    {
      if Inner(x) !in e && Inner(x) in t.data { assert x in t.used; }
    }
  }

  // ---------- allocation

  /** Allocation fails and changes nothing, or takes a free slot of the first large enough class that is not full. */
  lemma AllocSpec(size: int, s: Mem)
    requires Ready(s)
    ensures var a := AllocKey(size, s);
      if a.ok then
        Decode(a.out).Some? && var x := Decode(a.out).value;
        Allocatable(x) && x !in s.used && 0 < size <= ValueSize(x.cls) &&
        (forall c | 0 <= c < x.cls :: size > ValueSize(c) || Full(s.used, c)) &&
        a.s == s.(used := s.used + {x}, pos := a.s.pos) && Ready(a.s) && a.out != 0
      else a.out == NO_KEY && Decode(a.out).None? && a.s == s
  {
    var c := Choose(s.used, s.pos, size, 0);
    if size > 0 && c.Some? { PackUnpack(c.value); }
  }

  /** Allocation fails exactly when the size is not positive or every class large enough is full. */
  lemma AllocFailsIff(size: int, s: Mem)
    requires Ready(s)
    ensures AllocKey(size, s).out == NO_KEY <==>
            size <= 0 || forall c | 0 <= c < MAP_TYPE_MAX :: size > ValueSize(c) || Full(s.used, c)
  {
    AllocSpec(size, s);
    var c := Choose(s.used, s.pos, size, 0);
    if size > 0 && c.Some? { assert !Full(s.used, c.value.cls) && size <= ValueSize(c.value.cls); }
  }

  /**
    The cursor roves: whatever was taken or freed since, a later request that
    comes to the same class gets the slot behind the last one, if it is free.
   */
  lemma NextAllocFollows(size: int, s: Mem, x: Slot, size2: int, t: Mem)
    requires Ready(s) && Decode(AllocKey(size, s).out) == Some(x)
    requires Ready(t) && t.pos == AllocKey(size, s).s.pos && Slot(x.cls, NextPos(x.idx)) !in t.used
    requires 0 < size2 <= ValueSize(x.cls) && forall c | 0 <= c < x.cls :: size2 > ValueSize(c) || Full(t.used, c)
    ensures Decode(AllocKey(size2, t).out) == Some(Slot(x.cls, NextPos(x.idx)))
  {
    AllocSpec(size, s);
    PackUnpack(Choose(s.used, s.pos, size, 0).value);
    var y := Slot(x.cls, NextPos(x.idx));
    CursorTaken(t.used, t.pos, size2, 0, y);
    PackUnpack(y);
  }

  /** The first class that fits and is not full gives out its cursor when that is free. */
  lemma {:induction false} CursorTaken(used: set<Slot>, pos: seq<nat>, size: int, cls: nat, y: Slot)
    requires |pos| == MAP_TYPE_MAX && cls <= y.cls && Allocatable(y) && y !in used && pos[y.cls] == y.idx
    requires size <= ValueSize(y.cls) && forall c | cls <= c < y.cls :: size > ValueSize(c) || Full(used, c)
    ensures Choose(used, pos, size, cls) == Some(y)
    decreases MAP_TYPE_MAX - cls
  {
    if cls < y.cls { CursorTaken(used, pos, size, cls + 1, y); }
  }

  /** Taking slot x and then growing by what hangs below it grows by both, even if x is given back. */
  lemma SeatGrew(s: Mem, s2: Mem, t: Mem, x: Slot, home: nat, below: Fp, e: set<Loc>)
    requires Ready(s) && UsedLocs(s, e) && Allocatable(x) && x !in s.used
    requires s2.used == s.used + {x} && |s2.scratch| == |s.scratch|
    requires forall q | q !in e :: (q in s.data <==> q in s2.data) && (q in s.data ==> s.data[q] == s2.data[q])
    requires Grew(s2, t, below, {Inner(x)})
    ensures var fp := Join(Own(x, home), below);
      Grew(s, t, fp, e) && Grew(s, t.(used := t.used - {x}), fp, e) &&
      (Filled(s2, t, below) && Inner(x) in t.data ==> Filled(s, t, fp))
    ensures forall q | q in e && q in s2.data :: q in t.data && t.data[q] == s2.data[q]
  {
    assert Inner(x) !in e;
    assert Inner(x) !in s.data;
  }

  // ---------- strings

  lemma {:induction false} CStringOf(text: string, rest: string)
    requires NUL !in text
    ensures CString(text + [NUL] + rest) == text
  {
    var all := text + [NUL] + rest;
    if text != [] {
      assert all[1..] == text[1..] + [NUL] + rest;
      CStringOf(text[1..], rest);
    }
  }

  /** Reusing the scratch buffer leaves stale bytes only behind the terminator. */
  lemma TextRoundTrip(text: string, x: Slot, s: Mem)
    requires NUL !in text && |text| < ValueSize(x.cls) <= |s.scratch|
    ensures CString(PutText(text, x, s).data[Inner(x)].text) == text
    ensures |PutText(text, x, s).scratch| == |s.scratch|
  {
    var size := ValueSize(x.cls);
    var buf := CopyString(s.scratch, text, size);
    var rest := s.scratch[|text| + 1..];
    assert buf == text + [NUL] + rest;
    assert buf[..size] == text + [NUL] + rest[..size - |text| - 1];
    CStringOf(text, rest[..size - |text| - 1]);
  }

  // ---------- untouched cells own nothing

  lemma {:induction false} PendingOwnsNothing(k: Kind, m: Message, i: nat, rec: Record, d: Data)
    requires k.Msg? && Conforms(k, m) && i <= |m| && Pending(m, i, rec)
    ensures ReachFields(k, i, rec, d) == NOTHING
    decreases |m| - i
  {
    if i < |m| {
      assert FieldConforms(k.fields[i], m[i]);
      assert ReachField(k.fields[i], rec[i], d).1 == NOTHING;
      PendingOwnsNothing(k, m, i + 1, rec, d);
    }
  }

  lemma {:induction false} ZeroElemsOwnNothing(kind: Kind, cells: seq<Cell>, j: nat, n: nat, d: Data)
    requires j <= |cells| && forall e | j <= e < |cells| :: cells[e] == Word(0)
    ensures ReachElems(kind, cells, j, n, d) == NOTHING
    decreases |cells| - j
  {
    if j < n && j < |cells| {
      assert ReachElem(kind, cells[j], d) == NOTHING;
      ZeroElemsOwnNothing(kind, cells, j + 1, n, d);
    }
  }

  // ---------- the walk

  ghost function InnerFp(kind: Kind, x: Slot, d: Data): Fp {
    if kind.Msg? then ReachMap(kind, Inner(x), d) else NOTHING
  }

  lemma {:induction false} WriteTargetSpec(kind: Kind, v: Val, x: Slot, s: Mem)
    requires !kind.Scalar? && ElemConforms(kind, v) && Ready(s)
    requires x in s.used && Inner(x) !in s.data && 0 < FieldSize(kind, v) <= ValueSize(x.cls)
    ensures var w, fp := WriteTarget(kind, v, x, s), InnerFp(kind, x, WriteTarget(kind, v, x, s).s.data);
      Grew(s, w.s, fp, {Inner(x)}) &&
      (w.ok ==> Filled(s, w.s, fp) && Inner(x) in w.s.data && ReadTarget(kind, x, w.s.data) == Ok(v))
    decreases kind, 5, 0
  {
    if kind.Str? {
      TextRoundTrip(v.s, x, s);
    } else {
      WriteMapSpec(kind, v.m, Inner(x), s);
    }
  }

  lemma {:induction false} WriteMapSpec(k: Kind, m: Message, l: Loc, s: Mem)
    requires k.Msg? && Conforms(k, m) && Ready(s) && l !in s.data && (l.Inner? ==> l.slot in s.used)
    ensures var w, fp := WriteMap(k, m, l, s), ReachMap(k, l, WriteMap(k, m, l, s).s.data);
      Grew(s, w.s, fp, {l}) &&
      (w.ok ==> Filled(s, w.s, fp) && l in w.s.data && ReadMap(k, l, w.s.data) == Ok(Sub(m)))
    decreases k, 4, 0
  {
    if k.size <= LocSize(l) {
      var w := WriteFields(k, m, 0, InitRecord(m), l, s);
      WriteFieldsSpec(k, m, 0, InitRecord(m), l, s);
      var fp := ReachFields(k, 0, w.out, w.s.data);
      if w.ok && CanPut(w.s.data, l) {
        var t := Put(l, Struct(w.out), w.s);
        GrewReady(s, w.s, fp, {l});
        assert Framed(w.s.data, t.data, fp.slots);
        FrameFields(k, 0, w.out, w.s.data, t.data);
        assert m[0..] == m;
      }
    }
  }

  /** How handling one pointer field ends: fc is the cell it leaves, rec the record stored at l. */
  ghost predicate FieldWritten(f: Field, fc: FieldCell, v: Val, rec: Record, l: Loc, s: Mem, w: Written<nat>) {
    var (more, fp) := ReachField(f, fc, w.s.data);
    && Grew(s, w.s, fp, {l})
    && (if l in w.s.data then w.s.data[l] == Struct(rec)
        else l !in s.data && w.s.used == s.used && w.s.data == s.data)
    && (w.ok ==> l in w.s.data && more && Filled(s, w.s, fp) && ReadField(f, fc, w.s.data) == Ok(v))
  }

  /** How writing fields i onward ends. */
  ghost predicate FieldsWritten(k: Kind, m: Message, i: nat, l: Loc, s: Mem, w: Written<Record>)
    requires k.Msg? && i <= |m|
  {
    var fp := ReachFields(k, i, w.out, w.s.data);
    && Grew(s, w.s, fp, {l})
    && (if l in w.s.data then w.s.data[l] == Struct(w.out) else w.s.used == s.used && w.s.data == s.data)
    && (w.ok ==> Filled(s, w.s, fp) && ReadFields(k, i, w.out, w.s.data) == Ok(m[i..]))
  }

  /** A field that is not handled reads back as it is and owns nothing. */
  lemma FieldsSkip(k: Kind, m: Message, i: nat, l: Loc, s: Mem, w: Written<Record>)
    requires k.Msg? && i < |m| == |w.out| == |k.fields| && FieldConforms(k.fields[i], m[i])
    requires w.out[i] == InitCell(m[i]) && !Handled(k.fields[i], w.out[i]) && FieldsWritten(k, m, i + 1, l, s, w)
    ensures FieldsWritten(k, m, i, l, s, w)
  {
    assert m[i..] == [m[i]] + m[i + 1..];
    var rest := ReachFields(k, i + 1, w.out, w.s.data);
    assert Join(NOTHING, rest) == rest;
  }

  /** A field that fails ends the walk; the fields behind it own nothing. */
  lemma FieldsStop(k: Kind, m: Message, i: nat, rec: Record, l: Loc, s: Mem, w: Written<nat>)
    requires k.Msg? && Conforms(k, m) && i < |m| && Pending(m, i + 1, rec) && !w.ok
    requires FieldWritten(k.fields[i], rec[i], m[i].v, rec, l, s, w)
    ensures FieldsWritten(k, m, i, l, s, Written(false, rec, w.s))
  {
    PendingOwnsNothing(k, m, i + 1, rec, w.s.data);
    var fp := ReachField(k.fields[i], rec[i], w.s.data).1;
    assert Join(fp, NOTHING) == fp;
  }

  /** One more field in front of those written after it. */
  lemma FieldsJoin(k: Kind, m: Message, i: nat, rec: Record, l: Loc, s: Mem, w: Written<nat>, w2: Written<Record>)
    requires k.Msg? && i < |m| == |w2.out| == |k.fields| == |rec| && Ready(s) && UsedLocs(s, {l})
    requires w.ok && l in w2.s.data
    requires w2.out[i] == rec[i] && rec[i].quant == m[i].quant
    requires FieldWritten(k.fields[i], rec[i], m[i].v, rec, l, s, w) && FieldsWritten(k, m, i + 1, l, w.s, w2)
    ensures FieldsWritten(k, m, i, l, s, w2)
    ensures ReachFields(k, i, w2.out, w2.s.data) ==
            Join(ReachField(k.fields[i], rec[i], w.s.data).1, ReachFields(k, i + 1, w2.out, w2.s.data))
  {
    assert m[i..] == [m[i]] + m[i + 1..];
    GrewTrans(s, w.s, w2.s, ReachField(k.fields[i], rec[i], w.s.data).1, ReachFields(k, i + 1, w2.out, w2.s.data), {l});
    FrameField(k.fields[i], rec[i], w.s.data, w2.s.data);
  }

  lemma {:induction false} WriteFieldsSpec(k: Kind, m: Message, i: nat, rec: Record, l: Loc, s: Mem)
    requires k.Msg? && Conforms(k, m) && i <= |m| && Pending(m, i, rec) && Ready(s)
    requires (l in s.data ==> s.data[l] == Struct(rec)) && (l.Inner? ==> l.slot in s.used)
    ensures FieldsWritten(k, m, i, l, s, WriteFields(k, m, i, rec, l, s))
    ensures l in s.data ==> l in WriteFields(k, m, i, rec, l, s).s.data
    decreases k, 3, |m| - i, 1
  {
    if i == |m| {
      assert m[i..] == [];
    } else {
      assert FieldConforms(k.fields[i], m[i]);
      if Handled(k.fields[i], rec[i]) {
        WriteFieldsStep(k, m, i, rec, l, s);
      } else {
        WriteFieldsSpec(k, m, i + 1, rec, l, s);
        FieldsSkip(k, m, i, l, s, WriteFields(k, m, i + 1, rec, l, s));
      }
    }
  }

  lemma {:induction false} WriteFieldsStep(k: Kind, m: Message, i: nat, rec: Record, l: Loc, s: Mem)
    requires k.Msg? && Conforms(k, m) && i < |m| && Pending(m, i, rec) && Ready(s)
    requires (l in s.data ==> s.data[l] == Struct(rec)) && (l.Inner? ==> l.slot in s.used)
    requires FieldConforms(k.fields[i], m[i]) && Handled(k.fields[i], rec[i])
    ensures FieldsWritten(k, m, i, l, s, WriteFields(k, m, i, rec, l, s))
    ensures l in s.data ==> l in WriteFields(k, m, i, rec, l, s).s.data
    decreases k, 3, |m| - i, 0
  {
    var w := WriteField(k.fields[i], m[i], i, rec, l, s);
    WriteFieldSpec(k.fields[i], m[i], i, rec, l, s);
    var rec1 := WithKey(rec, i, w.out);
    if w.ok {
      GrewReady(s, w.s, ReachField(k.fields[i], rec1[i], w.s.data).1, {l});
      WriteFieldsSpec(k, m, i + 1, rec1, l, w.s);
      FieldsJoin(k, m, i, rec1, l, s, w, WriteFields(k, m, i + 1, rec1, l, w.s));
    } else {
      FieldsStop(k, m, i, rec1, l, s, w);
    }
  }

  /** One pointer field, whichever way it ends. */
  lemma {:induction false} WriteFieldSpec(f: Field, fv: FieldVal, i: nat, rec: Record, l: Loc, s: Mem)
    requires FieldConforms(f, fv) && Handled(f, InitCell(fv)) && Ready(s)
    requires i < |rec| && rec[i] == InitCell(fv) && (l.Inner? ==> l.slot in s.used)
    ensures var w := WriteField(f, fv, i, rec, l, s); var rec1 := WithKey(rec, i, w.out);
      FieldWritten(f, rec1[i], fv.v, rec1, l, s, w)
    decreases f, 1, 0
  {
    if f.repeated {
      WriteRepeatedSpec(f, fv, i, rec, l, s);
    } else {
      WriteSingleSpec(f, fv, i, rec, l, s);
    }
  }

  /** Slot x was taken and the record stored at l; nothing else changed. */
  ghost predicate Seated(s: Mem, s2: Mem, x: Slot, l: Loc, rec: Record) {
    && Ready(s) && UsedLocs(s, {l}) && Allocatable(x) && x !in s.used
    && s2 == s.(used := s.used + {x}, pos := s2.pos, data := s.data[l := Struct(rec)]) && Cursors(s2.pos)
  }

  /** The record could not be stored: the slot, if any, is given back. */
  lemma NotStored(f: Field, fc: FieldCell, v: Val, rec: Record, l: Loc, s: Mem, a: Written<nat>)
    requires Handled(f, fc) && Ready(s) && UsedLocs(s, {l}) && l !in s.data && fc.c == Word(a.out)
    requires if a.ok then
               Decode(a.out).Some? && Allocatable(Decode(a.out).value) && Decode(a.out).value !in s.used &&
               a.s == s.(used := s.used + {Decode(a.out).value}, pos := a.s.pos) && Cursors(a.s.pos)
             else Decode(a.out).None? && a.s == s
    ensures FieldWritten(f, fc, v, rec, l, s, Written(false, a.out, FreeKey(a.out, a.s)))
  {
    if a.ok {
      var x := Decode(a.out).value;
      assert Inner(x) !in s.data;
      SeatGrew(s, a.s, a.s, x, x.cls, NOTHING, {l});
      if f.repeated {
        assert ReachField(f, fc, s.data) == ReachRepeated(f, fc, s.data);
      } else {
        assert ReachTarget(f.kind, x, s.data) == Join(Own(x, HomeClass(f.kind)), NOTHING);
      }
    } else {
      assert ReachField(f, fc, s.data) == (false, NOTHING);
    }
  }

  /** No slot was found, and the failure word was stored. */
  lemma NoSlot(f: Field, fc: FieldCell, v: Val, rec: Record, l: Loc, s: Mem)
    requires Handled(f, fc) && Ready(s) && UsedLocs(s, {l}) && DecodeCell(fc.c).None? && fc.c.Word?
    ensures FieldWritten(f, fc, v, rec, l, s, Written(false, fc.c.w, Put(l, Struct(rec), s)))
  {
    assert ReachField(f, fc, Put(l, Struct(rec), s).data) == (false, NOTHING);
  }

  /** A seated single field: key in the cell, target written below slot x, slot given back on failure. */
  lemma SingleSeated(f: Field, fc: FieldCell, v: Val, rec: Record, l: Loc, s: Mem, s2: Mem, x: Slot, ok: bool, t: Mem)
    requires Handled(f, fc) && !f.repeated && DecodeCell(fc.c) == Some(x) && Seated(s, s2, x, l, rec)
    requires Grew(s2, t, InnerFp(f.kind, x, t.data), {Inner(x)})
    requires ok ==> Filled(s2, t, InnerFp(f.kind, x, t.data)) && Inner(x) in t.data &&
                    ReadTarget(f.kind, x, t.data) == Ok(v)
    ensures FieldWritten(f, fc, v, rec, l, s, Written(ok, fc.c.w, if ok then t else t.(used := t.used - {x})))
    ensures ReachField(f, fc, t.data).1 == Join(Own(x, HomeClass(f.kind)), InnerFp(f.kind, x, t.data))
  {
    SeatGrew(s, s2, t, x, HomeClass(f.kind), InnerFp(f.kind, x, t.data), {l});
    assert ReachField(f, fc, t.data) == (true, Join(Own(x, HomeClass(f.kind)), InnerFp(f.kind, x, t.data)));
  }

  /** Taking a slot and storing the record: either seated, or the field has failed cleanly. */
  lemma SeatSpec(f: Field, fv: FieldVal, size: int, i: nat, rec: Record, l: Loc, s: Mem)
    requires Handled(f, InitCell(fv)) && Ready(s) && UsedLocs(s, {l}) && i < |rec| && rec[i] == InitCell(fv)
    ensures var a := SeatField(size, i, rec, l, s); var rec1 := WithKey(rec, i, a.out);
      if a.ok then
        Handled(f, rec1[i]) && Seated(s, a.s, Decode(a.out).value, l, rec1) &&
        0 < size <= ValueSize(Decode(a.out).value.cls) && Ready(a.s) && Inner(Decode(a.out).value) !in a.s.data
      else FieldWritten(f, rec1[i], fv.v, rec1, l, s, a)
  {
    var a := AllocKey(size, s);
    AllocSpec(size, s);
    var rec1 := WithKey(rec, i, a.out);
    if !CanPut(a.s.data, l) {
      NotStored(f, rec1[i], fv.v, rec1, l, s, a);
    } else if !a.ok {
      NoSlot(f, rec1[i], fv.v, rec1, l, s);
    }
  }

  lemma {:induction false} WriteSingleSpec(f: Field, fv: FieldVal, i: nat, rec: Record, l: Loc, s: Mem)
    requires FieldConforms(f, fv) && Handled(f, InitCell(fv)) && !f.repeated && Ready(s)
    requires i < |rec| && rec[i] == InitCell(fv) && (l.Inner? ==> l.slot in s.used)
    ensures var w := WriteSingle(f, fv.v, i, rec, l, s); var rec1 := WithKey(rec, i, w.out);
      FieldWritten(f, rec1[i], fv.v, rec1, l, s, w)
    decreases f, 0, 0
  {
    var size := FieldSize(f.kind, fv.v);
    SeatSpec(f, fv, size, i, rec, l, s);
    var a := SeatField(size, i, rec, l, s);
    if a.ok {
      var x, rec1 := Decode(a.out).value, WithKey(rec, i, a.out);
      WriteTargetSpec(f.kind, fv.v, x, a.s);
      var w := WriteTarget(f.kind, fv.v, x, a.s);
      SingleSeated(f, rec1[i], fv.v, rec1, l, s, a.s, x, w.ok, w.s);
    }
  }

  /** A seated array: its slot filled last, after the elements. */
  lemma ArraySeated(f: Field, fc: FieldCell, elems: seq<Val>, rec: Record, l: Loc, s: Mem, s2: Mem, x: Slot,
                    ok: bool, cells: seq<Cell>, t: Mem)
    requires Handled(f, fc) && f.repeated && !f.kind.Scalar? && fc.quant == |elems|
    requires DecodeCell(fc.c) == Some(x) && Seated(s, s2, x, l, rec)
    requires Grew(s2, t, ReachElems(f.kind, cells, 0, |elems|, t.data), {})
    requires ok ==> Filled(s2, t, ReachElems(f.kind, cells, 0, |elems|, t.data)) &&
                    ReadElems(f.kind, cells, 0, |elems|, t.data) == Ok(elems)
    ensures FieldWritten(f, fc, List(elems), rec, l, s, Written(ok, fc.c.w, Put(Inner(x), Pointers(cells), t)))
    ensures ReachField(f, fc, Put(Inner(x), Pointers(cells), t).data).1 ==
            Join(Own(x, ARRAY_CLASS), ReachElems(f.kind, cells, 0, |elems|, t.data))
  {
    var u := Put(Inner(x), Pointers(cells), t);
    var fp := ReachElems(f.kind, cells, 0, |elems|, t.data);
    assert NoZero(t.data);
    assert Framed(t.data, u.data, fp.slots);
    FrameElems(f.kind, cells, 0, |elems|, t.data, u.data);
    SeatGrew(s, s2, u, x, ARRAY_CLASS, fp, {l});
    assert ReachField(f, fc, u.data) == ReachRepeated(f, fc, u.data) == (true, Join(Own(x, ARRAY_CLASS), fp));
  }

  /** A seated array of numbers. */
  lemma NumbersSeated(f: Field, fc: FieldCell, elems: seq<Val>, rec: Record, l: Loc, s: Mem, s2: Mem, x: Slot)
    requires Handled(f, fc) && f.repeated && f.kind.Scalar?
    requires DecodeCell(fc.c) == Some(x) && Seated(s, s2, x, l, rec)
    ensures FieldWritten(f, fc, List(elems), rec, l, s, Written(true, fc.c.w, Put(Inner(x), Numbers(elems), s2)))
    ensures ReachField(f, fc, Put(Inner(x), Numbers(elems), s2).data).1 == Own(x, ARRAY_CLASS)
  {
    var u := Put(Inner(x), Numbers(elems), s2);
    var own := Own(x, ARRAY_CLASS);
    SeatGrew(s, s2, u, x, ARRAY_CLASS, NOTHING, {l});
    assert ReachField(f, fc, u.data) == ReachRepeated(f, fc, u.data) == (true, own);
    assert Join(own, NOTHING) == own;
  }

  lemma {:induction false} WriteRepeatedSpec(f: Field, fv: FieldVal, i: nat, rec: Record, l: Loc, s: Mem)
    requires FieldConforms(f, fv) && Handled(f, InitCell(fv)) && f.repeated && Ready(s)
    requires i < |rec| && rec[i] == InitCell(fv) && (l.Inner? ==> l.slot in s.used)
    ensures var w := WriteRepeated(f, fv.v.elems, i, rec, l, s); var rec1 := WithKey(rec, i, w.out);
      FieldWritten(f, rec1[i], fv.v, rec1, l, s, w)
    decreases f, 0, 0
  {
    var elems := fv.v.elems;
    SeatSpec(f, fv, MAP_VAL_REPEAT_SIZE, i, rec, l, s);
    var a := SeatField(MAP_VAL_REPEAT_SIZE, i, rec, l, s);
    if a.ok {
      var x, rec1 := Decode(a.out).value, WithKey(rec, i, a.out);
      if f.kind.Scalar? {
        NumbersSeated(f, rec1[i], elems, rec1, l, s, a.s, x);
      } else {
        WriteElemsSpec(f.kind, elems, 0, NoCells(), a.s);
        var w := WriteElems(f.kind, elems, 0, NoCells(), a.s);
        assert elems[0..] == elems;
        ArraySeated(f, rec1[i], elems, rec1, l, s, a.s, x, w.ok, w.out, w.s);
      }
    }
  }

  /** How writing one array element ends. */
  ghost predicate ElemWritten(kind: Kind, v: Val, s: Mem, w: Written<nat>) {
    var fp := ReachElem(kind, Word(w.out), w.s.data);
    Grew(s, w.s, fp, {}) && (w.ok ==> Filled(s, w.s, fp) && ReadElem(kind, Word(w.out), w.s.data) == Ok(v))
  }

  /** How writing elements j onward ends. */
  ghost predicate ElemsWritten(kind: Kind, elems: seq<Val>, j: nat, s: Mem, w: Written<seq<Cell>>)
    requires j <= |elems|
  {
    var fp := ReachElems(kind, w.out, j, |elems|, w.s.data);
    Grew(s, w.s, fp, {}) &&
    (w.ok ==> Filled(s, w.s, fp) && ReadElems(kind, w.out, j, |elems|, w.s.data) == Ok(elems[j..]))
  }

  lemma {:induction false} WriteElemSpec(kind: Kind, v: Val, s: Mem)
    requires !kind.Scalar? && ElemConforms(kind, v) && Ready(s)
    ensures ElemWritten(kind, v, s, WriteElem(kind, v, s))
    decreases kind, 5, 1
  {
    var size := FieldSize(kind, v);
    var a := AllocKey(size, s);
    AllocSpec(size, s);
    if a.ok {
      var x := Decode(a.out).value;
      WriteTargetSpec(kind, v, x, a.s);
      var w := WriteTarget(kind, v, x, a.s);
      SeatGrew(s, a.s, w.s, x, HomeClass(kind), InnerFp(kind, x, w.s.data), {});
    }
  }

  /** An element that fails ends the walk; the zero words behind it own nothing. */
  lemma ElemsStop(kind: Kind, elems: seq<Val>, j: nat, cells: seq<Cell>, s: Mem, w: Written<nat>)
    requires j < |elems| <= |cells| && cells[j] == Word(w.out) && !w.ok && ElemWritten(kind, elems[j], s, w)
    requires forall e | j < e < |cells| :: cells[e] == Word(0)
    ensures ElemsWritten(kind, elems, j, s, Written(false, cells, w.s))
  {
    ZeroElemsOwnNothing(kind, cells, j + 1, |elems|, w.s.data);
    var fp := ReachElem(kind, cells[j], w.s.data);
    assert Join(fp, NOTHING) == fp;
  }

  /** One more element in front of those written after it. */
  lemma ElemsJoin(kind: Kind, elems: seq<Val>, j: nat, s: Mem, w: Written<nat>, w2: Written<seq<Cell>>)
    requires j < |elems| <= |w2.out| && w2.out[j] == Word(w.out) && w.ok && Ready(s)
    requires ElemWritten(kind, elems[j], s, w) && ElemsWritten(kind, elems, j + 1, w.s, w2)
    ensures ElemsWritten(kind, elems, j, s, w2)
    ensures ReachElems(kind, w2.out, j, |elems|, w2.s.data) ==
            Join(ReachElem(kind, Word(w.out), w.s.data), ReachElems(kind, w2.out, j + 1, |elems|, w2.s.data))
  {
    assert elems[j..] == [elems[j]] + elems[j + 1..];
    var a, b := ReachElem(kind, Word(w.out), w.s.data), ReachElems(kind, w2.out, j + 1, |elems|, w2.s.data);
    GrewTrans(s, w.s, w2.s, a, b, {});
    FrameElem(kind, Word(w.out), w.s.data, w2.s.data);
  }

  lemma {:induction false} WriteElemsSpec(kind: Kind, elems: seq<Val>, j: nat, cells: seq<Cell>, s: Mem)
    requires !kind.Scalar? && AllConform(kind, elems) && j <= |elems| <= |cells| && Ready(s)
    requires forall e | j <= e < |cells| :: cells[e] == Word(0)
    ensures ElemsWritten(kind, elems, j, s, WriteElems(kind, elems, j, cells, s))
    decreases kind, 6, |elems| - j
  {
    if j == |elems| {
      assert elems[j..] == [];
    } else {
      var w := WriteElem(kind, elems[j], s);
      WriteElemSpec(kind, elems[j], s);
      var cells1 := cells[j := Word(w.out)];
      if w.ok {
        GrewReady(s, w.s, ReachElem(kind, Word(w.out), w.s.data), {});
        WriteElemsSpec(kind, elems, j + 1, cells1, w.s);
        ElemsJoin(kind, elems, j, s, w, WriteElems(kind, elems, j + 1, cells1, w.s));
      } else {
        ElemsStop(kind, elems, j, cells1, s, w);
      }
    }
  }
}

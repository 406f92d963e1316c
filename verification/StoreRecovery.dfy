/**
  A crash in the middle of a delete, the first step of an update or the undoing
  of a failed one.  Deleting the key once more after the restart finishes the
  job unless the walk meets an array that is already gone: it stops there, and
  whatever later fields still hold is lost.
 */
module StoreRecovery {
  import opened Options
  import opened OuterKey
  import opened Schema
  import opened StoreModel
  import opened StoreFrames
  import opened StoreDelete
  import opened StoreWrite
  import opened StoreRefinement
  import opened StoreCrash

  ghost predicate Gone(slots: set<Slot>, d: Data) {
    forall x | x in slots :: Inner(x) !in d
  }

  /** Of these slots, those still filled are among the others. */
  ghost predicate Covered(slots: set<Slot>, others: set<Slot>, d: Data) {
    forall x | x in slots && Inner(x) in d :: x in others
  }

  // ---------- the guard

  /**
    e are the maps before the delete, d those it left behind.  No message on the
    way has an array that is gone and, in a later field, a slot still filled.
   */
  ghost predicate PassMap(k: Kind, l: Loc, e: Data, d: Data)
    requires k.Msg?
    decreases k, 4, 0
  {
    l in d && d[l].Struct? ==> PassFields(k, 0, d[l].rec, e, d)
  }

  ghost predicate PassFields(k: Kind, i: nat, rec: Record, e: Data, d: Data)
    requires k.Msg?
    decreases k, 3, |rec| - i
  {
    i < |rec| && i < |k.fields| ==>
      var f, fc := k.fields[i], rec[i];
      PassField(f, fc, e, d) &&
      (ReachField(f, fc, e).0 ==>
        if ReachField(f, fc, d).0 then PassFields(k, i + 1, rec, e, d)
        else Gone(ReachFields(k, i + 1, rec, e).slots, d))
  }

  ghost predicate PassField(f: Field, fc: FieldCell, e: Data, d: Data)
    decreases f, 1, 0
  {
    Handled(f, fc) && DecodeCell(fc.c).Some? ==>
      var x := DecodeCell(fc.c).value;
      if !f.repeated then PassTarget(f.kind, x, e, d)
      else !f.kind.Scalar? && Inner(x) in d && d[Inner(x)].Pointers? ==>
             PassElems(f.kind, d[Inner(x)].cells, 0, fc.quant, e, d)
  }

  ghost predicate PassTarget(kind: Kind, x: Slot, e: Data, d: Data)
    decreases kind, 5, 0
  {
    kind.Msg? ==> PassMap(kind, Inner(x), e, d)
  }

  ghost predicate PassElems(kind: Kind, cells: seq<Cell>, j: nat, n: nat, e: Data, d: Data)
    decreases kind, 6, n - j
  {
    j < n && j < |cells| ==>
      (DecodeCell(cells[j]).Some? ==> PassTarget(kind, DecodeCell(cells[j]).value, e, d)) &&
      PassElems(kind, cells, j + 1, n, e, d)
  }

  // ---------- fewer entries, smaller footprints

  /** a is part of b, and apart when b is. */
  ghost predicate Smaller(a: Fp, b: Fp) {
    a.slots <= b.slots && (b.apart ==> a.apart)
  }

  lemma {:induction false} SmallerMap(k: Kind, l: Loc, d: Data, e: Data)
    requires k.Msg? && PartOf(d, e)
    ensures Smaller(ReachMap(k, l, d), ReachMap(k, l, e))
    decreases k, 4, 0
  {
    if l in d && d[l].Struct? { SmallerFields(k, 0, d[l].rec, d, e); }
  }

  lemma {:induction false} SmallerFields(k: Kind, i: nat, rec: Record, d: Data, e: Data)
    requires k.Msg? && PartOf(d, e)
    ensures Smaller(ReachFields(k, i, rec, d), ReachFields(k, i, rec, e))
    decreases k, 3, |rec| - i
  {
    if i < |rec| && i < |k.fields| {
      SmallerField(k.fields[i], rec[i], d, e);
      SmallerFields(k, i + 1, rec, d, e);
    }
  }

  lemma {:induction false} SmallerField(f: Field, fc: FieldCell, d: Data, e: Data)
    requires PartOf(d, e)
    ensures Smaller(ReachField(f, fc, d).1, ReachField(f, fc, e).1)
    ensures ReachField(f, fc, d).0 ==> ReachField(f, fc, e).0
    decreases f, 1, 0
  {
    if Handled(f, fc) && DecodeCell(fc.c).Some? {
      var x := DecodeCell(fc.c).value;
      if !f.repeated {
        SmallerTarget(f.kind, x, d, e);
      } else if !f.kind.Scalar? && Inner(x) in d && d[Inner(x)].Pointers? {
        SmallerElems(f.kind, d[Inner(x)].cells, 0, fc.quant, d, e);
      }
    }
  }

  lemma {:induction false} SmallerTarget(kind: Kind, x: Slot, d: Data, e: Data)
    requires PartOf(d, e)
    ensures Smaller(ReachTarget(kind, x, d), ReachTarget(kind, x, e))
    decreases kind, 5, 0
  {
    if kind.Msg? { SmallerMap(kind, Inner(x), d, e); }
  }

  lemma {:induction false} SmallerElems(kind: Kind, cells: seq<Cell>, j: nat, n: nat, d: Data, e: Data)
    requires PartOf(d, e)
    ensures Smaller(ReachElems(kind, cells, j, n, d), ReachElems(kind, cells, j, n, e))
    decreases kind, 6, n - j
  {
    if j < n && j < |cells| {
      if DecodeCell(cells[j]).Some? { SmallerTarget(kind, DecodeCell(cells[j]).value, d, e); }
      SmallerElems(kind, cells, j + 1, n, d, e);
    }
  }

  // ---------- nothing is in the way where nothing was removed

  lemma {:induction false} SameMap(k: Kind, l: Loc, e: Data, d: Data)
    requires k.Msg? && Framed(e, d, ReachMap(k, l, e).slots) && (l in d ==> l in e && d[l] == e[l])
    ensures PassMap(k, l, e, d)
    decreases k, 4, 0
  {
    if l in d && d[l].Struct? { SameFields(k, 0, d[l].rec, e, d); }
  }

  lemma {:induction false} SameFields(k: Kind, i: nat, rec: Record, e: Data, d: Data)
    requires k.Msg? && Framed(e, d, ReachFields(k, i, rec, e).slots)
    ensures PassFields(k, i, rec, e, d)
    decreases k, 3, |rec| - i
  {
    if i < |rec| && i < |k.fields| {
      FrameField(k.fields[i], rec[i], e, d);
      SameField(k.fields[i], rec[i], e, d);
      if ReachField(k.fields[i], rec[i], e).0 { SameFields(k, i + 1, rec, e, d); }
    }
  }

  lemma {:induction false} SameField(f: Field, fc: FieldCell, e: Data, d: Data)
    requires Framed(e, d, ReachField(f, fc, e).1.slots)
    ensures PassField(f, fc, e, d)
    decreases f, 1, 0
  {
    if Handled(f, fc) && DecodeCell(fc.c).Some? {
      var x := DecodeCell(fc.c).value;
      if !f.repeated {
        SameTarget(f.kind, x, e, d);
      } else if !f.kind.Scalar? && Inner(x) in d && d[Inner(x)].Pointers? {
        assert ReachField(f, fc, e) == ReachRepeated(f, fc, e) && x in ReachField(f, fc, e).1.slots;
        SameElems(f.kind, d[Inner(x)].cells, 0, fc.quant, e, d);
      }
    }
  }

  lemma {:induction false} SameTarget(kind: Kind, x: Slot, e: Data, d: Data)
    requires Framed(e, d, ReachTarget(kind, x, e).slots)
    ensures PassTarget(kind, x, e, d)
    decreases kind, 5, 0
  {
    if kind.Msg? && Inner(x) in d {
      assert x in ReachTarget(kind, x, e).slots;
      SameMap(kind, Inner(x), e, d);
    }
  }

  lemma {:induction false} SameElems(kind: Kind, cells: seq<Cell>, j: nat, n: nat, e: Data, d: Data)
    requires Framed(e, d, ReachElems(kind, cells, j, n, e).slots)
    ensures PassElems(kind, cells, j, n, e, d)
    decreases kind, 6, n - j
  {
    if j < n && j < |cells| {
      assert DecodeCell(cells[j]).Some? ==>
               ReachElem(kind, cells[j], e) == ReachTarget(kind, DecodeCell(cells[j]).value, e);
      if DecodeCell(cells[j]).Some? { SameTarget(kind, DecodeCell(cells[j]).value, e, d); }
      SameElems(kind, cells, j + 1, n, e, d);
    }
  }

  // ---------- points of the delete walk

  /** From s to p only entries at these slots were removed. */
  ghost predicate Removed(s: Mem, slots: set<Slot>, p: Data) {
    PartOf(p, s.data) && forall q | q in s.data && !(q.Inner? && q.slot in slots) :: q in p && p[q] == s.data[q]
  }

  lemma BetweenDrops(s: Mem, slots: set<Slot>, t: seq<Data>, p: Data)
    requires Removals(s.data, t, Drop(s, slots).data) && p in t
    ensures Removed(s, slots, p)
  {
    Between(s.data, t, Drop(s, slots).data, p);
  }

  lemma FieldsRemoved(k: Kind, i: nat, buf: Record, rec: Record, l: Loc, s: Mem, p: Data)
    requires k.Msg? && Clean(s) && l in s.data && s.data[l] == Struct(rec)
    requires |buf| == |rec| && forall j | i <= j < |rec| :: buf[j] == rec[j]
    requires ReachFields(k, i, rec, s.data).apart
    requires l.Inner? ==> l.slot !in ReachFields(k, i, rec, s.data).slots
    requires p in TraceDelFields(k, i, buf, l, s)
    ensures Removed(s, ReachFields(k, i, rec, s.data).slots, p) && l in p && p[l] == Struct(rec)
  {
    DeleteFields(k, i, buf, rec, l, s);
    FieldsRemovals(k, i, buf, l, s);
    BetweenDrops(s, ReachFields(k, i, rec, s.data).slots, TraceDelFields(k, i, buf, l, s), p);
  }

  lemma TargetRemoved(kind: Kind, x: Slot, s: Mem, p: Data)
    requires Clean(s) && ReachTarget(kind, x, s.data).apart && p in TraceDelTarget(kind, x, s)
    ensures Removed(s, ReachTarget(kind, x, s.data).slots, p)
  {
    DeleteTarget(kind, x, s);
    TargetRemovals(kind, x, s);
    BetweenDrops(s, ReachTarget(kind, x, s.data).slots, TraceDelTarget(kind, x, s), p);
  }

  lemma RepeatedRemoved(f: Field, fc: FieldCell, s: Mem, p: Data)
    requires Clean(s) && ReachRepeated(f, fc, s.data).1.apart && p in TraceDelRepeated(f, fc, s)
    ensures Removed(s, ReachRepeated(f, fc, s.data).1.slots, p)
  {
    DeleteRepeated(f, fc, s);
    RepeatedRemovals(f, fc, s);
    BetweenDrops(s, ReachRepeated(f, fc, s.data).1.slots, TraceDelRepeated(f, fc, s), p);
  }

  lemma ElemsRemoved(kind: Kind, cells: seq<Cell>, j: nat, n: nat, s: Mem, p: Data)
    requires Clean(s) && ReachElems(kind, cells, j, n, s.data).apart && p in TraceDelElems(kind, cells, j, n, s)
    ensures Removed(s, ReachElems(kind, cells, j, n, s.data).slots, p)
  {
    DeleteElems(kind, cells, j, n, s);
    ElemsRemovals(kind, cells, j, n, s);
    BetweenDrops(s, ReachElems(kind, cells, j, n, s.data).slots, TraceDelElems(kind, cells, j, n, s), p);
  }

  // ---------- at every point the guard decides what a second delete reaches

  /** What fields i onward still hold is reached exactly when nothing is in the way. */
  ghost predicate FieldsCut(k: Kind, i: nat, rec: Record, e: Data, p: Data)
    requires k.Msg?
  {
    Covered(ReachFields(k, i, rec, e).slots, ReachFields(k, i, rec, p).slots, p) <==> PassFields(k, i, rec, e, p)
  }

  /** The same for one target; an entry that is gone has nothing left below it. */
  ghost predicate TargetCut(kind: Kind, x: Slot, e: Data, p: Data) {
    if Inner(x) in p
    then Covered(ReachTarget(kind, x, e).slots, ReachTarget(kind, x, p).slots, p) <==> PassTarget(kind, x, e, p)
    else Gone(ReachTarget(kind, x, e).slots, p)
  }

  ghost predicate FieldCut(f: Field, fc: FieldCell, e: Data, p: Data) {
    DecodeCell(fc.c).Some? &&
    var (_, was) := ReachField(f, fc, e);
    if Inner(DecodeCell(fc.c).value) in p
    then Covered(was.slots, ReachField(f, fc, p).1.slots, p) <==> PassField(f, fc, e, p)
    else Gone(was.slots, p)
  }

  ghost predicate ElemsCut(kind: Kind, cells: seq<Cell>, j: nat, n: nat, e: Data, p: Data) {
    Covered(ReachElems(kind, cells, j, n, e).slots, ReachElems(kind, cells, j, n, p).slots, p) <==>
    PassElems(kind, cells, j, n, e, p)
  }

  lemma CoverBoth(a: set<Slot>, b: set<Slot>, a2: set<Slot>, b2: set<Slot>, d: Data)
    requires a !! b && a2 <= a && b2 <= b
    ensures Covered(a + b, a2 + b2, d) <==> Covered(a, a2, d) && Covered(b, b2, d)
    ensures Covered(a + b, a2, d) <==> Covered(a, a2, d) && Gone(b, d)
  {
    if Covered(a + b, a2 + b2, d) {
      forall x | x in a && Inner(x) in d ensures x in a2 { assert x in a + b; }
      forall x | x in b && Inner(x) in d ensures x in b2 { assert x in a + b; }
    }
    if Covered(a + b, a2, d) {
      forall x | x in a && Inner(x) in d ensures x in a2 { assert x in a + b; }
      forall x | x in b ensures Inner(x) !in d { assert x in a + b; }
    }
  }

  /** Below an entry that is gone nothing is in the way. */
  lemma GoneTargetPasses(kind: Kind, x: Slot, e: Data, p: Data)
    requires Inner(x) !in p
    ensures PassTarget(kind, x, e, p)
  {
    if kind.Msg? { assert PassMap(kind, Inner(x), e, p); }
  }

  lemma GoneFieldPasses(f: Field, fc: FieldCell, e: Data, p: Data)
    requires DecodeCell(fc.c).Some? && Inner(DecodeCell(fc.c).value) !in p
    ensures PassField(f, fc, e, p)
  {
    GoneTargetPasses(f.kind, DecodeCell(fc.c).value, e, p);
  }

  lemma FieldsCompose(k: Kind, i: nat, rec: Record, e: Data, p: Data)
    requires k.Msg? && i < |rec| && i < |k.fields| && PartOf(p, e) && ReachFields(k, i, rec, e).apart
    requires Handled(k.fields[i], rec[i]) && FieldCut(k.fields[i], rec[i], e, p)
    requires ReachField(k.fields[i], rec[i], e).0 ==> FieldsCut(k, i + 1, rec, e, p)
    ensures FieldsCut(k, i, rec, e, p)
  {
    var f, fc := k.fields[i], rec[i];
    var (moreE, was) := ReachField(f, fc, e);
    var (moreP, now) := ReachField(f, fc, p);
    var rest, left := ReachFields(k, i + 1, rec, e), ReachFields(k, i + 1, rec, p);
    SmallerField(f, fc, p, e);
    SmallerFields(k, i + 1, rec, p, e);
    if Inner(DecodeCell(fc.c).value) !in p { GoneFieldPasses(f, fc, e, p); }
    assert Covered(was.slots, now.slots, p) <==> PassField(f, fc, e, p);
    if moreE { CoverBoth(was.slots, rest.slots, now.slots, left.slots, p); }
  }

  lemma ElemsCompose(kind: Kind, cells: seq<Cell>, j: nat, n: nat, e: Data, p: Data)
    requires j < n && j < |cells| && DecodeCell(cells[j]).Some? && PartOf(p, e)
    requires ReachElems(kind, cells, j, n, e).apart
    requires TargetCut(kind, DecodeCell(cells[j]).value, e, p) && ElemsCut(kind, cells, j + 1, n, e, p)
    ensures ElemsCut(kind, cells, j, n, e, p)
  {
    var x := DecodeCell(cells[j]).value;
    assert ReachElem(kind, cells[j], e) == ReachTarget(kind, x, e);
    assert ReachElem(kind, cells[j], p) == ReachTarget(kind, x, p);
    SmallerTarget(kind, x, p, e);
    SmallerElems(kind, cells, j + 1, n, p, e);
    if Inner(x) !in p { GoneTargetPasses(kind, x, e, p); }
    assert Covered(ReachTarget(kind, x, e).slots, ReachTarget(kind, x, p).slots, p) <==> PassTarget(kind, x, e, p);
    CoverBoth(ReachTarget(kind, x, e).slots, ReachElems(kind, cells, j + 1, n, e).slots,
              ReachTarget(kind, x, p).slots, ReachElems(kind, cells, j + 1, n, p).slots, p);
  }

  /** The walk is at field i; the fields behind it are as they were. */
  lemma CutHere(k: Kind, i: nat, rec: Record, e: Data, s: Mem, p: Data)
    requires k.Msg? && i < |rec| && i < |k.fields| && PartOf(s.data, e) && ReachFields(k, i, rec, e).apart
    requires Framed(e, s.data, ReachFields(k, i, rec, e).slots)
    requires Removed(s, ReachField(k.fields[i], rec[i], e).1.slots, p)
    requires Handled(k.fields[i], rec[i]) && FieldCut(k.fields[i], rec[i], e, p)
    ensures FieldsCut(k, i, rec, e, p)
  {
    if ReachField(k.fields[i], rec[i], e).0 {
      var rest := ReachFields(k, i + 1, rec, e).slots;
      assert Framed(e, p, rest);
      FrameFields(k, i + 1, rec, e, p);
      SameFields(k, i + 1, rec, e, p);
    }
    FieldsCompose(k, i, rec, e, p);
  }

  /** The walk is behind field i, whose slots are gone. */
  lemma CutLater(k: Kind, i: nat, rec: Record, e: Data, d: Data, p: Data)
    requires k.Msg? && i < |rec| && i < |k.fields| && PartOf(p, d) && PartOf(d, e) && ReachFields(k, i, rec, e).apart
    requires Handled(k.fields[i], rec[i]) && DecodeCell(rec[i].c).Some?
    requires Inner(DecodeCell(rec[i].c).value) !in d && Gone(ReachField(k.fields[i], rec[i], e).1.slots, d)
    requires FieldsCut(k, i + 1, rec, e, p)
    ensures FieldsCut(k, i, rec, e, p)
  {
    FieldsCompose(k, i, rec, e, p);
  }

  /** A field without a target is passed over. */
  lemma CutSkip(k: Kind, i: nat, rec: Record, e: Data, p: Data)
    requires k.Msg? && i < |rec| && i < |k.fields| && !Handled(k.fields[i], rec[i]) && FieldsCut(k, i + 1, rec, e, p)
    ensures FieldsCut(k, i, rec, e, p)
  {
  }

  /** The current store s has lost nothing of this footprint yet, and nothing was added since e. */
  ghost predicate Intact(e: Data, s: Mem, fp: Fp) {
    fp.apart && Clean(s) && PartOf(s.data, e) && Framed(e, s.data, fp.slots)
  }

  /** Dropping one part leaves a separate part intact. */
  lemma IntactRest(e: Data, s: Mem, a: Fp, b: Fp)
    requires Intact(e, s, Join(a, b))
    ensures Intact(e, Drop(s, a.slots), b) && Intact(e, s, a) && Intact(e, s, b) && Gone(a.slots, Drop(s, a.slots).data)
  {
    DropDrop(s, a.slots, b.slots);
  }

  ghost function TraceDelField(f: Field, fc: FieldCell, s: Mem): seq<Data> {
    if f.repeated then TraceDelRepeated(f, fc, s)
    else if DecodeCell(fc.c).None? then [] else TraceDelTarget(f.kind, DecodeCell(fc.c).value, s)
  }

  /** The record the walk holds once it is past field i. */
  function Passed(f: Field, i: nat, buf: Record, rec: Record): Record
    requires i < |buf| == |rec|
  {
    WithKey(if f.repeated then buf else rec, i, 0)
  }

  /** A point of the walk is at field i or behind it. */
  lemma FieldsSplit(k: Kind, i: nat, buf: Record, rec: Record, l: Loc, e: Data, s: Mem, p: Data)
    requires k.Msg? && i < |buf| == |rec| && i < |k.fields| && buf[i] == rec[i] && Handled(k.fields[i], rec[i])
    requires Intact(e, s, ReachField(k.fields[i], rec[i], e).1) && l in s.data && s.data[l] == Struct(rec)
    requires p in TraceDelFields(k, i, buf, l, s)
    ensures var f := k.fields[i]; var (more, was) := ReachField(f, rec[i], e);
      DecodeCell(rec[i].c).Some? &&
      (p in TraceDelField(f, rec[i], s) ||
       (more && p in TraceDelFields(k, i + 1, Passed(f, i, buf, rec), l, Drop(s, was.slots))))
  {
    FrameField(k.fields[i], rec[i], e, s.data);
    DeleteField(k.fields[i], rec[i], s);
  }

  lemma {:induction false} FieldsCuts(k: Kind, i: nat, buf: Record, rec: Record, l: Loc, e: Data, s: Mem, p: Data)
    requires k.Msg? && Intact(e, s, ReachFields(k, i, rec, e)) && l in s.data && s.data[l] == Struct(rec)
    requires |buf| == |rec| && forall j | i <= j < |rec| :: buf[j] == rec[j]
    requires l.Inner? ==> l.slot !in ReachFields(k, i, rec, e).slots
    requires p in TraceDelFields(k, i, buf, l, s)
    ensures FieldsCut(k, i, rec, e, p)
    decreases k, 3, |rec| - i, 1
  {
    var f, fc := k.fields[i], rec[i];
    if !Handled(f, fc) {
      assert ReachFields(k, i, rec, e).slots == ReachFields(k, i + 1, rec, e).slots;
      FieldsCuts(k, i + 1, buf, rec, l, e, s, p);
      CutSkip(k, i, rec, e, p);
    } else {
      FieldsSplit(k, i, buf, rec, l, e, s, p);
      if p in TraceDelField(f, fc, s) {
        FieldCuts(f, fc, e, s, p);
        CutHere(k, i, rec, e, s, p);
      } else {
        RestCuts(k, i, Passed(f, i, buf, rec), rec, l, e, s, p);
      }
    }
  }

  /** Field i is deleted and the walk went on. */
  lemma {:induction false} RestCuts(k: Kind, i: nat, buf: Record, rec: Record, l: Loc, e: Data, s: Mem, p: Data)
    requires k.Msg? && i < |rec| && i < |k.fields| && Intact(e, s, ReachFields(k, i, rec, e))
    requires Handled(k.fields[i], rec[i]) && DecodeCell(rec[i].c).Some? && ReachField(k.fields[i], rec[i], e).0
    requires l in s.data && s.data[l] == Struct(rec) && |buf| == |rec| && forall j | i < j < |rec| :: buf[j] == rec[j]
    requires l.Inner? ==> l.slot !in ReachFields(k, i, rec, e).slots
    requires p in TraceDelFields(k, i + 1, buf, l, Drop(s, ReachField(k.fields[i], rec[i], e).1.slots))
    ensures FieldsCut(k, i, rec, e, p)
    decreases k, 3, |rec| - i, 0
  {
    var was, rest := ReachField(k.fields[i], rec[i], e).1, ReachFields(k, i + 1, rec, e);
    var s1 := Drop(s, was.slots);
    IntactRest(e, s, was, rest);
    FrameFields(k, i + 1, rec, e, s1.data);
    FieldsRemoved(k, i + 1, buf, rec, l, s1, p);
    FieldsCuts(k, i + 1, buf, rec, l, e, s1, p);
    CutLater(k, i, rec, e, s1.data, p);
  }

  lemma {:induction false} FieldCuts(f: Field, fc: FieldCell, e: Data, s: Mem, p: Data)
    requires Handled(f, fc) && DecodeCell(fc.c).Some? && Intact(e, s, ReachField(f, fc, e).1)
    requires p in TraceDelField(f, fc, s)
    ensures FieldCut(f, fc, e, p) && Removed(s, ReachField(f, fc, e).1.slots, p)
    decreases f, 1, 0
  {
    FrameField(f, fc, e, s.data);
    if f.repeated {
      RepeatedCuts(f, fc, DecodeCell(fc.c).value, e, s, p);
      RepeatedRemoved(f, fc, s, p);
    } else {
      TargetCuts(f.kind, DecodeCell(fc.c).value, e, s, p);
      TargetRemoved(f.kind, DecodeCell(fc.c).value, s, p);
    }
  }

  lemma {:induction false} TargetCuts(kind: Kind, x: Slot, e: Data, s: Mem, p: Data)
    requires Intact(e, s, ReachTarget(kind, x, e)) && p in TraceDelTarget(kind, x, s)
    ensures TargetCut(kind, x, e, p)
    decreases kind, 5, 0
  {
    var s1 := s.(used := s.used - {x});
    FrameTarget(kind, x, e, s.data);
    DeleteTarget(kind, x, s);
    if kind.Msg? && s.data[Inner(x)].Struct? {
      var rec := s.data[Inner(x)].rec;
      if p in TraceDelFields(kind, 0, rec, Inner(x), s1) {
        FieldsCuts(kind, 0, rec, rec, Inner(x), e, s1, p);
        FieldsRemoved(kind, 0, rec, rec, Inner(x), s1, p);
        StoredCut(kind, x, rec, e, p);
      }
    }
  }

  lemma StoredCut(kind: Kind, x: Slot, rec: Record, e: Data, p: Data)
    requires kind.Msg? && x.idx != 0 && PartOf(p, e) && Inner(x) in p && p[Inner(x)] == Struct(rec)
    requires ReachTarget(kind, x, e).apart && FieldsCut(kind, 0, rec, e, p)
    ensures TargetCut(kind, x, e, p)
  {
    SmallerFields(kind, 0, rec, p, e);
    CoverBoth({x}, ReachFields(kind, 0, rec, e).slots, {x}, ReachFields(kind, 0, rec, p).slots, p);
    assert ReachMap(kind, Inner(x), e) == ReachFields(kind, 0, rec, e);
    assert ReachMap(kind, Inner(x), p) == ReachFields(kind, 0, rec, p);
  }

  lemma {:induction false} RepeatedCuts(f: Field, fc: FieldCell, x: Slot, e: Data, s: Mem, p: Data)
    requires Handled(f, fc) && f.repeated && DecodeCell(fc.c) == Some(x) && Intact(e, s, ReachField(f, fc, e).1)
    requires p in TraceDelRepeated(f, fc, s)
    ensures FieldCut(f, fc, e, p)
    decreases f, 0, 0
  {
    var s1 := s.(used := s.used - {x});
    FrameRepeated(f, fc, x, e, s.data);
    DeleteRepeated(f, fc, s);
    if !f.kind.Scalar? && Inner(x) in s.data && s.data[Inner(x)].Pointers? {
      var cells := s.data[Inner(x)].cells;
      if p in TraceDelElems(f.kind, cells, 0, fc.quant, s1) {
        FrameElems(f.kind, cells, 0, fc.quant, e, s1.data);
        ElemsCuts(f.kind, cells, 0, fc.quant, e, s1, p);
        ElemsRemoved(f.kind, cells, 0, fc.quant, s1, p);
        ArrayCut(f, fc, x, cells, e, p);
      }
    }
  }

  lemma ArrayCut(f: Field, fc: FieldCell, x: Slot, cells: seq<Cell>, e: Data, p: Data)
    requires Handled(f, fc) && f.repeated && !f.kind.Scalar? && DecodeCell(fc.c) == Some(x) && x.idx != 0
    requires PartOf(p, e) && Inner(x) in p && p[Inner(x)] == Pointers(cells) && ReachField(f, fc, e).1.apart
    requires ElemsCut(f.kind, cells, 0, fc.quant, e, p)
    ensures FieldCut(f, fc, e, p)
  {
    assert ReachField(f, fc, e) == ReachRepeated(f, fc, e) && ReachField(f, fc, p) == ReachRepeated(f, fc, p);
    SmallerElems(f.kind, cells, 0, fc.quant, p, e);
    CoverBoth({x}, ReachElems(f.kind, cells, 0, fc.quant, e).slots,
              {x}, ReachElems(f.kind, cells, 0, fc.quant, p).slots, p);
  }

  lemma {:induction false} ElemsCuts(kind: Kind, cells: seq<Cell>, j: nat, n: nat, e: Data, s: Mem, p: Data)
    requires Intact(e, s, ReachElems(kind, cells, j, n, e)) && p in TraceDelElems(kind, cells, j, n, s)
    ensures ElemsCut(kind, cells, j, n, e, p)
    decreases kind, 6, n - j
  {
    if DecodeCell(cells[j]).None? {
      ElemsCuts(kind, cells, j + 1, n, e, s, p);
    } else {
      var x := DecodeCell(cells[j]).value;
      var was, rest := ReachTarget(kind, x, e), ReachElems(kind, cells, j + 1, n, e);
      var s1 := Drop(s, was.slots);
      assert ReachElem(kind, cells[j], e) == was;
      IntactRest(e, s, was, rest);
      FrameTarget(kind, x, e, s.data);
      DeleteTarget(kind, x, s);
      if p in TraceDelTarget(kind, x, s) {
        TargetCuts(kind, x, e, s, p);
        TargetRemoved(kind, x, s, p);
        FrameElems(kind, cells, j + 1, n, e, p);
        SameElems(kind, cells, j + 1, n, e, p);
      } else {
        FrameElems(kind, cells, j + 1, n, e, s1.data);
        ElemsRemoved(kind, cells, j + 1, n, s1, p);
        ElemsCuts(kind, cells, j + 1, n, e, s1, p);
      }
      ElemsCompose(kind, cells, j, n, e, p);
    }
  }

  // ---------- recovery

  /** Deleting again from any point of a delete ends where that would have ended, exactly when nothing is in the way. */
  lemma DeleteAgainIff(k: Kind, l: Loc, s: Mem, d: Data, pos: seq<nat>)
    requires k.Msg? && l.Root? && Clean(s) && ReachMap(k, l, s.data).apart && d in TraceDelMap(k, l, s)
    ensures var again := DelMap(k, l, Restart(pos, s.(data := d)));
      PartOf(DelMap(k, l, s).data, again.data) &&
      (again.data == DelMap(k, l, s).data <==> PassMap(k, l, s.data, d))
  {
    var was, now, t := ReachMap(k, l, s.data), ReachMap(k, l, d), Restart(pos, s.(data := d));
    DeleteMap(k, l, s);
    MapRemovals(k, l, s);
    Between(s.data, TraceDelMap(k, l, s), DelMap(k, l, s).data, d);
    SmallerMap(k, l, d, s.data);
    DeleteMap(k, l, t);
    AgainData(was.slots, now.slots, l, s.data, d);
    if s.data[l].Struct? && d in TraceDelFields(k, 0, s.data[l].rec, l, s) {
      var rec := s.data[l].rec;
      FieldsCuts(k, 0, rec, rec, l, s.data, s, d);
      FieldsRemoved(k, 0, rec, rec, l, s, d);
    }
  }

  lemma AgainData(was: set<Slot>, now: set<Slot>, l: Loc, e: Data, d: Data)
    requires l.Root? && PartOf(e - Locs(was) - {l}, d) && PartOf(d, e) && now <= was
    ensures PartOf(e - Locs(was) - {l}, d - Locs(now) - {l})
    ensures d - Locs(now) - {l} == e - Locs(was) - {l} <==> Covered(was, now, d)
  {
    var a, b := d - Locs(now) - {l}, e - Locs(was) - {l};
    if Covered(was, now, d) {
      forall q | q in a ensures q in b && a[q] == b[q] { }
    } else {
      var x :| x in was && Inner(x) in d && x !in now;
      assert Inner(x) in a && Inner(x) !in b;
    }
  }

  /** When the data come out as in b, so do the used bits. */
  lemma AgainUsed(k: Kind, l: Loc, b: Mem, d: Data, t: Mem)
    requires k.Msg? && l.Root? && Clean(t) && t.data == d && t.used == FilledSlots(d) && ReachMap(k, l, d).apart
    requires b.used == FilledSlots(b.data) && DelMap(k, l, t).data == b.data && PartOf(b.data, d)
    ensures DelMap(k, l, t).used == b.used
  {
    var now := ReachMap(k, l, d).slots;
    DeleteMap(k, l, t);
    forall x: Slot
      ensures x in DelMap(k, l, t).used <==> x in b.used
    {
      FilledIff(t, x);
      FilledIff(b, x);
      assert Inner(x) in Locs(now) <==> x in now;
    }
  }

  /** The store a second delete leaves: the one without the entry, sound again, if and only if nothing is in the way. */
  ghost predicate Recovers(r: RootMap, key: string, s: Mem, e: Data, d: Data, pos: seq<nat>)
    requires r.desc.Msg? && Inv(s)
  {
    var b, again := Delete(r, key, s), Delete(r, key, Restart(pos, s.(data := d)));
    PartOf(b.data, again.data) &&
    (again.data == b.data <==> PassMap(r.desc, Root(r, key), e, d)) &&
    (again.data == b.data ==> Inv(again) && View(again) == View(s) - {Root(r, key)})
  }

  lemma RecoversFrom(r: RootMap, key: string, s: Mem, t: Mem, d: Data, pos: seq<nat>)
    requires r.desc.Msg? && Inv(s) && Cursors(pos) && Clean(t) && ReachMap(r.desc, Root(r, key), t.data).apart
    requires d in TraceDelMap(r.desc, Root(r, key), t) && Delete(r, key, t).data == Delete(r, key, s).data
    ensures Recovers(r, key, s, t.data, d, pos)
  {
    var l, b, t1 := Root(r, key), Delete(r, key, s), Restart(pos, s.(data := d));
    var again := Delete(r, key, t1);
    DeleteAgainIff(r.desc, l, t, d, pos);
    MapRemovals(r.desc, l, t);
    Between(t.data, TraceDelMap(r.desc, l, t), b.data, d);
    SmallerMap(r.desc, l, d, t.data);
    assert NoZero(d);
    DelReadsData(r.desc, l, Restart(pos, t.(data := d)), t1);
    if again.data == b.data {
      DeleteRefines(r, key, s);
      AgainUsed(r.desc, l, b, d, t1);
      ScratchIrrelevant(b, s.scratch, pos);
      DeleteMap(r.desc, l, t1);
      assert again == b.(scratch := s.scratch, pos := pos);
    }
  }

  /** What a delete does to the maps depends on nothing but the maps. */
  lemma DelReadsData(k: Kind, l: Loc, s: Mem, t: Mem)
    requires k.Msg? && l.Root? && Clean(s) && Clean(t) && s.data == t.data && ReachMap(k, l, s.data).apart
    ensures DelMap(k, l, s).data == DelMap(k, l, t).data
  {
    DeleteMap(k, l, s);
    DeleteMap(k, l, t);
  }

  /** Recovery after a crash while the old entry was being deleted. */
  lemma DeleteRecovery(r: RootMap, key: string, s: Mem, d: Data, pos: seq<nat>)
    requires Inv(s) && r.desc.Msg? && Cursors(pos) && d in TraceDelMap(r.desc, Root(r, key), s)
    ensures Recovers(r, key, s, s.data, d, pos)
  {
    InvIsClean(s);
    assert Whole(Root(r, key), s);
    RecoversFrom(r, key, s, s, d, pos);
  }

  /** Recovery after a crash while a failed write was being undone. */
  lemma RollbackRecovery(r: RootMap, key: string, m: Message, s: Mem, w: Written<()>, d: Data, pos: seq<nat>)
    requires Inv(s) && r.desc.Msg? && Conforms(r.desc, m) && Cursors(pos)
    requires w == WriteMap(r.desc, m, Root(r, key), Delete(r, key, s).(scratch := Blank())) && !w.ok
    requires d in TraceDelMap(r.desc, Root(r, key), w.s)
    ensures Recovers(r, key, s, w.s.data, d, pos)
  {
    var l, b := Root(r, key), Delete(r, key, s).(scratch := Blank());
    DeleteRefines(r, key, s);
    InvIsClean(Delete(r, key, s));
    WriteMapSpec(r.desc, m, l, b);
    RollbackExact(r.desc, m, l, b);
    assert Clean(w.s);
    RecoversFrom(r, key, s, w.s, d, pos);
  }

  /** The record begins with an array of pointers, stored as the key in its cell says. */
  ghost predicate ArrayFirst(k: Kind, l: Loc, rec: Record, d: Data)
    requires k.Msg?
  {
    l in d && d[l] == Struct(rec) && rec != [] && k.fields != [] && Handled(k.fields[0], rec[0]) &&
    k.fields[0].repeated && !k.fields[0].kind.Scalar? && ReachField(k.fields[0], rec[0], d).0
  }

  /** One of the points of the delete is right after the array is gone. */
  lemma ArrayGonePoint(k: Kind, l: Loc, rec: Record, s: Mem)
    requires k.Msg? && Clean(s) && ArrayFirst(k, l, rec, s.data) && ReachField(k.fields[0], rec[0], s.data).1.apart
    ensures Drop(s, ReachField(k.fields[0], rec[0], s.data).1.slots).data in TraceDelMap(k, l, s)
  {
    var t := TraceDelRepeated(k.fields[0], rec[0], s);
    DeleteRepeated(k.fields[0], rec[0], s);
    assert t[|t| - 1] in t;
    assert t[|t| - 1] in TraceDelFields(k, 0, rec, l, s);
  }

  /** There a second delete stops at once. */
  lemma StopsAtArray(k: Kind, l: Loc, rec: Record, d: Data)
    requires k.Msg? && l in d && d[l] == Struct(rec) && rec != [] && k.fields != [] && Handled(k.fields[0], rec[0])
    requires k.fields[0].repeated && !k.fields[0].kind.Scalar?
    requires DecodeCell(rec[0].c).Some? && Inner(DecodeCell(rec[0].c).value) !in d
    ensures ReachMap(k, l, d).slots <= {DecodeCell(rec[0].c).value} && ReachMap(k, l, d).apart
  {
    assert ReachField(k.fields[0], rec[0], d) == ReachRepeated(k.fields[0], rec[0], d);
  }

  /**
    Recovery does fail, for every entry that begins with an array and owns a
    filled slot behind it, whether the entry is being dropped or a half-written
    one is undone: cut off right after the array is gone, the slot is lost.
   */
  lemma GoneArrayLoses(k: Kind, l: Loc, rec: Record, s: Mem, x: Slot, pos: seq<nat>)
    requires k.Msg? && l.Root? && Clean(s) && ReachMap(k, l, s.data).apart && ArrayFirst(k, l, rec, s.data)
    requires x in ReachFields(k, 1, rec, s.data).slots && Inner(x) in s.data
    ensures exists d :: d in TraceDelMap(k, l, s) &&
                        Inner(x) in DelMap(k, l, Restart(pos, s.(data := d))).data && Inner(x) !in DelMap(k, l, s).data
  {
    var was := ReachField(k.fields[0], rec[0], s.data).1;
    var d := Drop(s, was.slots).data;
    assert ReachMap(k, l, s.data) == ReachFields(k, 0, rec, s.data);
    assert ReachFields(k, 0, rec, s.data) == Join(was, ReachFields(k, 1, rec, s.data));
    DeleteMap(k, l, s);
    ArrayGonePoint(k, l, rec, s);
    StopsAtArray(k, l, rec, d);
    assert Inner(x) in d;
    DeleteMap(k, l, Restart(pos, s.(data := d)));
  }
}

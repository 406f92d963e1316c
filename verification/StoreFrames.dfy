/**
  Framing: what a walk reads is its entry and its footprint, and the delete
  walk removes exactly the footprint when no slot occurs in it twice.
 */
module StoreFrames {
  import opened Options
  import opened OuterKey
  import opened Schema
  import opened StoreModel

  /** No slab map holds an entry at index 0. */
  ghost predicate NoZero(data: Data) {
    forall x: Slot :: Inner(x) in data ==> x.idx != 0
  }

  /** The two stores hold the same entries at the slots of r. */
  ghost predicate Agree(d: Data, e: Data, r: set<Slot>) {
    forall x | x in r ::
      (Inner(x) in d <==> Inner(x) in e) && (Inner(x) in d ==> d[Inner(x)] == e[Inner(x)])
  }

  ghost predicate Framed(d: Data, e: Data, r: set<Slot>) {
    NoZero(d) && NoZero(e) && Agree(d, e, r)
  }

  /** A member of a oneof counts exactly while the case word holds its id; otherwise no walk looks at it. */
  lemma OneofCounts(f: Field, fc: FieldCell, d: Data)
    ensures f.oneof && fc.quant != f.id ==>
              !Handled(f, fc) && ReadField(f, fc, d) == Ok(Absent) && ReachField(f, fc, d) == (true, NOTHING)
    ensures (!f.oneof || fc.quant == f.id) && (f.repeated || !f.kind.Scalar?) && fc.c != Word(0) ==> Handled(f, fc)
    ensures (!f.oneof || fc.quant == f.id) && !f.repeated && f.kind.Scalar? && fc.c.Word? ==>
              ReadField(f, fc, d) == Ok(Num(fc.c.w))
  {
  }

  /** Pointer arrays may have as many elements as the entry of an array has cells. */
  lemma ArraysFit(kind: Kind, n: nat)
    requires !kind.Scalar?
    ensures Fits(kind, n) <==> n <= |NoCells()|
  {
  }

  lemma {:induction false} FrameMap(k: Kind, l: Loc, d: Data, e: Data)
    requires k.Msg? && Framed(d, e, ReachMap(k, l, d).slots)
    requires (l in d <==> l in e) && (l in d ==> d[l] == e[l])
    ensures ReachMap(k, l, e) == ReachMap(k, l, d)
    ensures ReadMap(k, l, e) == ReadMap(k, l, d)
    decreases k, 4, 0
  {
    if l in d && d[l].Struct? { FrameFields(k, 0, d[l].rec, d, e); }
  }

  lemma {:induction false} FrameFields(k: Kind, i: nat, rec: Record, d: Data, e: Data)
    requires k.Msg? && Framed(d, e, ReachFields(k, i, rec, d).slots)
    ensures ReachFields(k, i, rec, e) == ReachFields(k, i, rec, d)
    ensures ReadFields(k, i, rec, e) == ReadFields(k, i, rec, d)
    decreases k, 3, |rec| - i
  {
    if i < |rec| && i < |k.fields| {
      FrameField(k.fields[i], rec[i], d, e);
      if ReachField(k.fields[i], rec[i], d).0 {
        FrameFields(k, i + 1, rec, d, e);
      } else {
        StoppedRead(k.fields[i], rec[i], d);
      }
    }
  }

  /** Where the delete walk stops, the read walk fails. */
  lemma StoppedRead(f: Field, fc: FieldCell, d: Data)
    requires !ReachField(f, fc, d).0
    ensures ReadField(f, fc, d) == Err
  {
  }

  lemma {:induction false} FrameField(f: Field, fc: FieldCell, d: Data, e: Data)
    requires Framed(d, e, ReachField(f, fc, d).1.slots)
    ensures ReachField(f, fc, e) == ReachField(f, fc, d)
    ensures ReadField(f, fc, e) == ReadField(f, fc, d)
    decreases f, 1, 0
  {
    if Handled(f, fc) && DecodeCell(fc.c).Some? {
      var x := DecodeCell(fc.c).value;
      if f.repeated { FrameRepeated(f, fc, x, d, e); } else { FrameTarget(f.kind, x, d, e); }
    }
  }

  lemma {:induction false} FrameRepeated(f: Field, fc: FieldCell, x: Slot, d: Data, e: Data)
    requires DecodeCell(fc.c) == Some(x) && Framed(d, e, ReachRepeated(f, fc, d).1.slots)
    ensures ReachRepeated(f, fc, e) == ReachRepeated(f, fc, d)
    ensures ReadRepeated(f, fc, e) == ReadRepeated(f, fc, d)
    decreases f, 0, 0
  {
    assert Inner(x) in d <==> Inner(x) in e;
    if !f.kind.Scalar? && Inner(x) in d && d[Inner(x)].Pointers? {
      FrameElems(f.kind, d[Inner(x)].cells, 0, fc.quant, d, e);
    }
  }

  lemma {:induction false} FrameTarget(kind: Kind, x: Slot, d: Data, e: Data)
    requires Framed(d, e, ReachTarget(kind, x, d).slots)
    ensures ReachTarget(kind, x, e) == ReachTarget(kind, x, d)
    ensures ReadTarget(kind, x, e) == ReadTarget(kind, x, d)
    decreases kind, 5, 0
  {
    assert Inner(x) in d <==> Inner(x) in e;
    if kind.Msg? { FrameMap(kind, Inner(x), d, e); }
  }

  lemma {:induction false} FrameElems(kind: Kind, cells: seq<Cell>, j: nat, n: nat, d: Data, e: Data)
    requires Framed(d, e, ReachElems(kind, cells, j, n, d).slots)
    ensures ReachElems(kind, cells, j, n, e) == ReachElems(kind, cells, j, n, d)
    ensures ReadElems(kind, cells, j, n, e) == ReadElems(kind, cells, j, n, d)
    decreases kind, 6, n - j
  {
    if j < n && j < |cells| {
      FrameElem(kind, cells[j], d, e);
      FrameElems(kind, cells, j + 1, n, d, e);
    }
  }

  lemma {:induction false} FrameElem(kind: Kind, c: Cell, d: Data, e: Data)
    requires Framed(d, e, ReachElem(kind, c, d).slots)
    ensures ReachElem(kind, c, e) == ReachElem(kind, c, d)
    ensures ReadElem(kind, c, e) == ReadElem(kind, c, d)
    decreases kind, 5, 1
  {
    if DecodeCell(c).Some? { FrameTarget(kind, DecodeCell(c).value, d, e); }
  }
}

/**
  The delete walk, although it frees as it goes and re-reads its record from
  the map, removes exactly the footprint of the entry it started from.
 */
module StoreDelete {
  import opened OuterKey
  import opened Schema
  import opened StoreModel
  import opened StoreFrames

  ghost function Locs(r: set<Slot>): set<Loc> {
    set x | x in r :: Inner(x)
  }

  /** The store without the slots of r: bits cleared, entries gone. */
  ghost function Drop(s: Mem, r: set<Slot>): Mem {
    s.(used := s.used - r, data := s.data - Locs(r))
  }

  /** Index 0 is neither marked used nor filled. */
  ghost predicate Clean(s: Mem) {
    NoZero(s.data) && forall x | x in s.used :: x.idx != 0
  }

  lemma DropDrop(s: Mem, a: set<Slot>, b: set<Slot>)
    ensures Drop(Drop(s, a), b) == Drop(s, a + b)
    ensures Drop(s, {}) == s
    ensures Clean(s) ==> Clean(Drop(s, a))
    ensures a !! b ==> Agree(s.data, Drop(s, a).data, b)
  {
    assert Locs(a) + Locs(b) == Locs(a + b);
    assert s.data - Locs(a) - Locs(b) == s.data - Locs(a + b);
    assert s.used - a - b == s.used - (a + b);
    assert Locs({}) == {};
  }

  lemma {:induction false} DeleteMap(k: Kind, l: Loc, s: Mem)
    requires k.Msg? && Clean(s) && ReachMap(k, l, s.data).apart
    requires l.Inner? ==> l.slot !in ReachMap(k, l, s.data).slots
    ensures DelMap(k, l, s) == Remove(l, Drop(s, ReachMap(k, l, s.data).slots))
    decreases k, 4, 0
  {
    DropDrop(s, {}, {});
    if l !in s.data {
      assert s.data - {l} == s.data;
    } else if s.data[l].Struct? {
      DeleteFields(k, 0, s.data[l].rec, s.data[l].rec, l, s);
    }
  }

  lemma {:induction false} DeleteFields(k: Kind, i: nat, buf: Record, rec: Record, l: Loc, s: Mem)
    requires k.Msg? && Clean(s) && l in s.data && s.data[l] == Struct(rec)
    requires |buf| == |rec| && forall j | i <= j < |rec| :: buf[j] == rec[j]
    requires ReachFields(k, i, rec, s.data).apart
    requires l.Inner? ==> l.slot !in ReachFields(k, i, rec, s.data).slots
    ensures DelFields(k, i, buf, l, s) == Drop(s, ReachFields(k, i, rec, s.data).slots)
    decreases k, 3, |rec| - i
  {
    DropDrop(s, {}, {});
    if i < |rec| && i < |k.fields| {
      var f, fc := k.fields[i], rec[i];
      var (more, fp) := ReachField(f, fc, s.data);
      DeleteField(f, fc, s);
      if more {
        var s1 := Drop(s, fp.slots);
        var rest := ReachFields(k, i + 1, rec, s.data);
        DropDrop(s, fp.slots, rest.slots);
        FrameFields(k, i + 1, rec, s.data, s1.data);
        assert l in s1.data;
        var buf1 := if !Handled(f, fc) then buf else if f.repeated then WithKey(buf, i, 0) else WithKey(rec, i, 0);
        DeleteFields(k, i + 1, buf1, rec, l, s1);
      }
    }
  }

  /** One field: its footprint goes, and the walk goes on exactly when ReachField says so. */
  lemma {:induction false} DeleteField(f: Field, fc: FieldCell, s: Mem)
    requires Clean(s) && ReachField(f, fc, s.data).1.apart
    ensures !Handled(f, fc) ==> Drop(s, ReachField(f, fc, s.data).1.slots) == s
    ensures Handled(f, fc) && f.repeated ==>
              DelRepeated(f, fc, s) == (ReachField(f, fc, s.data).0, Drop(s, ReachField(f, fc, s.data).1.slots))
    ensures Handled(f, fc) && !f.repeated && DecodeCell(fc.c).Some? ==>
              DelTarget(f.kind, DecodeCell(fc.c).value, s) == Drop(s, ReachField(f, fc, s.data).1.slots)
    decreases f, 1, 0
  {
    DropDrop(s, {}, {});
    if Handled(f, fc) && f.repeated {
      DeleteRepeated(f, fc, s);
    } else if Handled(f, fc) && DecodeCell(fc.c).Some? {
      DeleteTarget(f.kind, DecodeCell(fc.c).value, s);
    }
  }

  lemma {:induction false} DeleteTarget(kind: Kind, x: Slot, s: Mem)
    requires Clean(s) && ReachTarget(kind, x, s.data).apart
    ensures DelTarget(kind, x, s) == Drop(s, ReachTarget(kind, x, s.data).slots)
    decreases kind, 5, 0
  {
    var s1 := s.(used := s.used - {x});
    var fp := ReachTarget(kind, x, s.data);
    DropDrop(s, {}, {});
    if x.idx == 0 {
      assert Inner(x) !in s.data && s.used - {x} == s.used;
      assert s.data - {Inner(x)} == s.data;
    } else if kind.Msg? {
      var inner := ReachMap(kind, Inner(x), s.data);
      DeleteMap(kind, Inner(x), s1);
      assert s1.used - inner.slots == s.used - fp.slots;
      assert s.data - Locs(inner.slots) - {Inner(x)} == s.data - Locs(fp.slots);
    } else {
      assert Locs({x}) == {Inner(x)};
    }
  }

  lemma {:induction false} DeleteRepeated(f: Field, fc: FieldCell, s: Mem)
    requires Clean(s) && ReachRepeated(f, fc, s.data).1.apart
    ensures DelRepeated(f, fc, s) ==
            (ReachRepeated(f, fc, s.data).0, Drop(s, ReachRepeated(f, fc, s.data).1.slots))
    decreases f, 0, 0
  {
    DropDrop(s, {}, {});
    if DecodeCell(fc.c).Some? {
      var x := DecodeCell(fc.c).value;
      var s1 := s.(used := s.used - {x});
      var fp := ReachRepeated(f, fc, s.data).1;
      if x.idx == 0 {
        assert Inner(x) !in s.data && s1 == s;
        assert s.data - {Inner(x)} == s.data;
      } else {
        assert Locs({x}) == {Inner(x)};
        if !f.kind.Scalar? && Inner(x) in s.data && s.data[Inner(x)].Pointers? {
          var cells := s.data[Inner(x)].cells;
          var elems := ReachElems(f.kind, cells, 0, fc.quant, s.data);
          DeleteElems(f.kind, cells, 0, fc.quant, s1);
          assert s1.used - elems.slots == s.used - fp.slots;
          assert s.data - Locs(elems.slots) - {Inner(x)} == s.data - Locs(fp.slots);
        }
      }
    }
  }

  lemma {:induction false} DeleteElems(kind: Kind, cells: seq<Cell>, j: nat, n: nat, s: Mem)
    requires Clean(s) && ReachElems(kind, cells, j, n, s.data).apart
    ensures DelElems(kind, cells, j, n, s) == Drop(s, ReachElems(kind, cells, j, n, s.data).slots)
    decreases kind, 6, n - j
  {
    DropDrop(s, {}, {});
    if j < n && j < |cells| {
      var d := DecodeCell(cells[j]);
      var fp := if d.Some? then ReachTarget(kind, d.value, s.data) else NOTHING;
      var rest := ReachElems(kind, cells, j + 1, n, s.data);
      if d.Some? { DeleteTarget(kind, d.value, s); }
      var s1 := Drop(s, fp.slots);
      DropDrop(s, fp.slots, rest.slots);
      FrameElems(kind, cells, j + 1, n, s.data, s1.data);
      DeleteElems(kind, cells, j + 1, n, s1);
    }
  }
}

/**
  The store as it runs: packed bitmaps and cursors updated in place, walks that
  loop over fields and recurse into sub-messages.  Each method is tied to the
  function of StoreModel it refines.
 */
module MapStore {
  import opened Options
  import opened OuterKey
  import opened Schema
  import opened SlabAlloc
  import opened SlotBitmap
  import opened StoreModel
  import opened StoreRefinement
  import opened StoreAdmission

  const BITMAP_SIZE: nat := MAP_MAX_ENTRIES / 8

  class Manager {
    const bitmap: array2<bv8>
    const startPos: array<nat>
    // Every root map and slab map, keyed by location.
    var data: Data
    // The scratch buffer shared by the string copies of one update.
    var scratch: string

    ghost predicate Valid()
      reads startPos
    {
      bitmap.Length0 == MAP_TYPE_MAX && bitmap.Length1 == BITMAP_SIZE &&
      startPos.Length == MAP_TYPE_MAX && forall c | 0 <= c < MAP_TYPE_MAX :: startPos[c] < MAP_MAX_ENTRIES
    }

    ghost predicate BitAt(cls: nat, idx: nat)
      requires bitmap.Length0 == MAP_TYPE_MAX && bitmap.Length1 == BITMAP_SIZE
      requires cls < MAP_TYPE_MAX && idx < MAP_MAX_ENTRIES
      reads bitmap
    {
      IsSet(bitmap[cls, idx / 8], idx % 8)
    }

    ghost function Used(): set<Slot>
      requires bitmap.Length0 == MAP_TYPE_MAX && bitmap.Length1 == BITMAP_SIZE
      reads bitmap
    {
      set c, i | 0 <= c < MAP_TYPE_MAX && 0 <= i < MAP_MAX_ENTRIES && BitAt(c, i) :: Slot(c, i)
    }

    /** The store these fields stand for. */
    ghost function Abs(): Mem
      requires Valid()
      reads this, bitmap, startPos
    {
      Mem(Used(), startPos[..], data, scratch)
    }

    // ---------- bits

    /** Slots whose bit is the given one in the current bitmap. */
    lemma InUsed(x: Slot)
      requires Valid()
      ensures x in Used() <==> x.cls < MAP_TYPE_MAX && x.idx < MAP_MAX_ENTRIES && BitAt(x.cls, x.idx)
    {
    }

    method SetUsed(cls: nat, n: nat)
      requires Valid() && cls < MAP_TYPE_MAX && n < MAP_MAX_ENTRIES
      modifies bitmap
      ensures Used() == old(Used()) + {Slot(cls, n)}
    {
      ghost var b := bitmap[cls, n / 8];
      bitmap[cls, n / 8] := SetBit(bitmap[cls, n / 8], n % 8);
      forall x: Slot
        ensures x in Used() <==> x in old(Used()) + {Slot(cls, n)}
      {
        if x.cls == cls && x.idx / 8 == n / 8 { OneBit(b, n % 8, x.idx % 8); }
      }
    }

    method ClearUsed(cls: nat, n: nat)
      requires Valid() && cls < MAP_TYPE_MAX && n < MAP_MAX_ENTRIES
      modifies bitmap
      ensures Used() == old(Used()) - {Slot(cls, n)}
    {
      ghost var b := bitmap[cls, n / 8];
      bitmap[cls, n / 8] := ClearBit(bitmap[cls, n / 8], n % 8);
      forall x: Slot
        ensures x in Used() <==> x in old(Used()) - {Slot(cls, n)}
      {
        if x.cls == cls && x.idx / 8 == n / 8 { OneBit(b, n % 8, x.idx % 8); }
      }
    }

    // ---------- allocation

    /** The packed scan: the cursor if its bit is clear, otherwise the first clear bit after bit 0. */
    method FindFirstClear(cls: nat) returns (j: nat)
      requires Valid() && cls < MAP_TYPE_MAX
      modifies startPos
      ensures Valid()
      ensures if Full(Used(), cls) then j == NO_KEY && startPos[..] == old(startPos[..])
              else j == Offer(Used(), cls, old(startPos[cls])) &&
                   startPos[..] == old(startPos[..])[cls := NextPos(j)]
    {
      var i := startPos[cls];
      InUsed(Slot(cls, i));
      if i != 0 && !IsSet(bitmap[cls, i / 8], i % 8) {
        startPos[cls] := NextPos(i);
        return i;
      }
      ghost var pos := i;
      i := 0;
      while i < BITMAP_SIZE
        invariant i <= BITMAP_SIZE && startPos[..] == old(startPos[..])
        invariant forall n | 0 < n < i * 8 :: Slot(cls, n) in Used()
      {
        var bmp := bitmap[cls, i];
        var b := 0;
        while b < 8
          invariant b <= 8 && startPos[..] == old(startPos[..])
          invariant forall n | 0 < n < i * 8 + b :: Slot(cls, n) in Used()
        {
          InUsed(Slot(cls, i * 8 + b));
          assert (i * 8 + b) / 8 == i && (i * 8 + b) % 8 == b;
          if !(i == 0 && b == 0) && !IsSet(bmp, b) {
            LeastFreeUnique(Used(), cls, pos, i * 8 + b);
            startPos[cls] := NextPos(i * 8 + b);
            return i * 8 + b;
          }
          b := b + 1;
        }
        i := i + 1;
      }
      return NO_KEY;
    }

    method AllocOuterKey(size: int) returns (key: nat)
      requires Valid()
      modifies bitmap, startPos
      ensures Valid() && Abs() == AllocKey(size, old(Abs())).s && key == AllocKey(size, old(Abs())).out
    {
      if size <= 0 { return NO_KEY; }
      ghost var s := Abs();
      var i, j := 0, 0;
      while i < MAP_TYPE_MAX
        invariant i <= MAP_TYPE_MAX && Valid() && Abs() == s
        invariant Choose(s.used, s.pos, size, 0) == Choose(s.used, s.pos, size, i)
      {
        if size <= ValueSize(i) {
          j := FindFirstClear(i);
          if 0 < j < MAP_MAX_ENTRIES {
            SetUsed(i, j);
            return GenKey(i, j);
          }
        }
        i := i + 1;
      }
      return NO_KEY;
    }

    method FreeOuterKey(key: nat)
      requires Valid()
      modifies bitmap
      ensures Valid() && Abs() == FreeKey(key, old(Abs()))
    {
      if KeyType(key) >= MAP_TYPE_MAX || KeyIndex(key) >= MAP_MAX_ENTRIES { return; }
      ClearUsed(KeyType(key), KeyIndex(key));
    }

    // ---------- writing

    /** One map update; a full root map refuses a new key. */
    method PutElem(l: Loc, v: Stored) returns (ok: bool)
      modifies this`data
      ensures ok == CanPut(old(data), l) && data == if ok then old(data)[l := v] else old(data)
    {
      ok := CanPut(data, l);
      if ok { data := data[l := v]; }
    }

    method UpdateBpfMap(k: Kind, m: Message, l: Loc) returns (ok: bool)
      requires Valid() && k.Msg? && Conforms(k, m)
      modifies this, bitmap, startPos
      ensures Valid() && Written(ok, (), Abs()) == WriteMap(k, m, l, old(Abs()))
      decreases k, 4, 0
    {
      if k.size > LocSize(l) { return false; }
      var rec, i := InitRecord(m), 0;
      ghost var all := WriteFields(k, m, 0, rec, l, Abs());
      while i < |m|
        invariant i <= |m| && Valid() && Pending(m, i, rec)
        invariant all == WriteFields(k, m, i, rec, l, Abs())
      {
        var f := k.fields[i];
        assert FieldConforms(f, m[i]);
        if Handled(f, rec[i]) {
          var key: nat;
          ok, key := AnyFieldHandle(f, m[i], i, rec, l);
          rec := WithKey(rec, i, key);
          if !ok { return; }
        }
        i := i + 1;
      }
      ok := PutElem(l, Struct(rec));
    }

    /** Dispatch on the label of the field. */
    method AnyFieldHandle(f: Field, fv: FieldVal, i: nat, rec: Record, l: Loc) returns (ok: bool, key: nat)
      requires Valid() && FieldConforms(f, fv) && Handled(f, InitCell(fv)) && i < |rec|
      modifies this, bitmap, startPos
      ensures Valid() && Written(ok, key, Abs()) == WriteField(f, fv, i, rec, l, old(Abs()))
      decreases f, 1, 0
    {
      if f.repeated {
        ok, key := RepeatFieldHandle(f, fv.v.elems, i, rec, l);
      } else {
        ok, key := FieldHandle(f, fv.v, i, rec, l);
      }
    }

    method FieldHandle(f: Field, v: Val, i: nat, rec: Record, l: Loc) returns (ok: bool, key: nat)
      requires Valid() && !f.kind.Scalar? && ElemConforms(f.kind, v) && i < |rec|
      modifies this, bitmap, startPos
      ensures Valid() && Written(ok, key, Abs()) == WriteSingle(f, v, i, rec, l, old(Abs()))
      decreases f, 0, 0
    {
      key := AllocOuterKey(FieldSize(f.kind, v));
      ok := PutElem(l, Struct(WithKey(rec, i, key)));
      if ok {
        var x := Decode(key);
        ok := x.Some?;
        if ok { ok := CopyTarget(f.kind, v, x.value); }
      }
      if !ok { FreeOuterKey(key); }
    }

    /** Writes what a pointer pointed to into the slot that replaces it. */
    method CopyTarget(kind: Kind, v: Val, x: Slot) returns (ok: bool)
      requires Valid() && !kind.Scalar? && ElemConforms(kind, v)
      modifies this, bitmap, startPos
      ensures Valid() && Written(ok, (), Abs()) == WriteTarget(kind, v, x, old(Abs()))
      decreases kind, 5, 0
    {
      if kind.Str? {
        scratch := CopyString(scratch, v.s, ValueSize(x.cls));
        ok := PutElem(Inner(x), Buffer(Take(scratch, ValueSize(x.cls))));
      } else {
        ok := UpdateBpfMap(kind, v.m, Inner(x));
      }
    }

    method RepeatFieldHandle(f: Field, elems: seq<Val>, i: nat, rec: Record, l: Loc) returns (ok: bool, key: nat)
      requires Valid() && Fits(f.kind, |elems|) && AllConform(f.kind, elems) && i < |rec|
      modifies this, bitmap, startPos
      ensures Valid() && Written(ok, key, Abs()) == WriteRepeated(f, elems, i, rec, l, old(Abs()))
      decreases f, 0, 0
    {
      key := AllocOuterKey(MAP_VAL_REPEAT_SIZE);
      ok := PutElem(l, Struct(WithKey(rec, i, key)));
      if !ok {
        FreeOuterKey(key);
        return;
      }
      var x := Decode(key);
      if x.None? { return false, key; }
      if f.kind.Scalar? {
        ok := PutElem(Inner(x.value), Numbers(elems));
        return;
      }
      var cells: seq<Cell>;
      ok, cells := CopyElems(f.kind, elems);
      var stored := PutElem(Inner(x.value), Pointers(cells));
    }

    /** Writes the elements one by one, stopping at the first failure, into a zeroed array of keys. */
    method CopyElems(kind: Kind, elems: seq<Val>) returns (ok: bool, cells: seq<Cell>)
      requires Valid() && !kind.Scalar? && AllConform(kind, elems) && Fits(kind, |elems|)
      modifies this, bitmap, startPos
      ensures Valid() && Written(ok, cells, Abs()) == WriteElems(kind, elems, 0, NoCells(), old(Abs()))
      decreases kind, 6, 0
    {
      cells := NoCells();
      ghost var all := WriteElems(kind, elems, 0, cells, Abs());
      var j := 0;
      while j < |elems|
        invariant j <= |elems| <= |cells| && Valid()
        invariant all == WriteElems(kind, elems, j, cells, Abs())
      {
        var key: nat;
        ok, key := CopyElem(kind, elems[j]);
        cells := cells[j := Word(key)];
        if !ok { return; }
        j := j + 1;
      }
      ok := true;
    }

    method CopyElem(kind: Kind, v: Val) returns (ok: bool, key: nat)
      requires Valid() && !kind.Scalar? && ElemConforms(kind, v)
      modifies this, bitmap, startPos
      ensures Valid() && Written(ok, key, Abs()) == WriteElem(kind, v, old(Abs()))
      decreases kind, 5, 1
    {
      key := AllocOuterKey(FieldSize(kind, v));
      var x := Decode(key);
      ok := x.Some?;
      if ok { ok := CopyTarget(kind, v, x.value); }
    }

    // ---------- deleting

    method DelBpfMap(k: Kind, l: Loc) returns (found: bool)
      requires Valid() && k.Msg?
      modifies this, bitmap
      ensures Valid() && Abs() == DelMap(k, l, old(Abs())) && found == (l in old(data))
      decreases k, 4, 0
    {
      found := l in data;
      if !found { return; }
      if data[l].Struct? {
        var buf, i, go := data[l].rec, 0, true;
        ghost var all := DelFields(k, 0, buf, l, Abs());
        while i < |buf| && i < |k.fields| && go
          invariant Valid()
          invariant all == if go then DelFields(k, i, buf, l, Abs()) else Abs()
          decreases |k.fields| - i, go
        {
          var f := k.fields[i];
          if Handled(f, buf[i]) {
            if f.repeated {
              go := RepeatFieldDel(f, buf[i]);
              buf := WithKey(buf, i, 0);
            } else {
              go, buf := FieldDel(f, i, buf, l);
            }
          }
          if go { i := i + 1; }
        }
      }
      data := data - {l};
    }

    /** Re-reads the record, then frees what the field points to. */
    method FieldDel(f: Field, i: nat, buf: Record, l: Loc) returns (ok: bool, out: Record)
      requires Valid() && i < |buf|
      modifies this, bitmap
      ensures Valid()
      ensures var s := old(Abs());
        if l !in s.data || !s.data[l].Struct? || |s.data[l].rec| != |buf| || DecodeCell(s.data[l].rec[i].c).None?
        then !ok && Abs() == s
        else ok && out == WithKey(s.data[l].rec, i, 0) &&
             Abs() == DelTarget(f.kind, DecodeCell(s.data[l].rec[i].c).value, s)
      decreases f, 0, 0
    {
      out := buf;
      ok := l in data && data[l].Struct? && |data[l].rec| == |buf|;
      if ok {
        out := data[l].rec;
        var x := DecodeCell(out[i].c);
        ok := x.Some?;
        if ok {
          out := WithKey(out, i, 0);
          TargetDel(f.kind, x.value);
        }
      }
    }

    /** Clears the slot's bit and removes the string or the message tree stored there. */
    method TargetDel(kind: Kind, x: Slot)
      requires Valid() && x.cls < MAP_TYPE_MAX && x.idx < MAP_MAX_ENTRIES
      modifies this, bitmap
      ensures Valid() && Abs() == DelTarget(kind, x, old(Abs()))
      decreases kind, 5, 0
    {
      ClearUsed(x.cls, x.idx);
      if kind.Msg? {
        var found := DelBpfMap(kind, Inner(x));
      } else {
        data := data - {Inner(x)};
      }
    }

    method RepeatFieldDel(f: Field, fc: FieldCell) returns (ok: bool)
      requires Valid()
      modifies this, bitmap
      ensures Valid() && (ok, Abs()) == DelRepeated(f, fc, old(Abs()))
      decreases f, 0, 0
    {
      var x := DecodeCell(fc.c);
      if x.None? { return false; }
      ClearUsed(x.value.cls, x.value.idx);
      ok := true;
      if !f.kind.Scalar? {
        ok := Inner(x.value) in data && data[Inner(x.value)].Pointers?;
        if ok {
          var cells, j := data[Inner(x.value)].cells, 0;
          ghost var all := DelElems(f.kind, cells, 0, fc.quant, Abs());
          while j < fc.quant && j < |cells|
            invariant Valid()
            invariant all == DelElems(f.kind, cells, j, fc.quant, Abs())
          {
            var y := DecodeCell(cells[j]);
            if y.Some? { TargetDel(f.kind, y.value); }
            j := j + 1;
          }
        }
      }
      data := data - {Inner(x.value)};
    }

    // ---------- reading

    method CreateStruct(k: Kind, l: Loc) returns (r: Result<Val>)
      requires k.Msg?
      ensures r == ReadMap(k, l, data)
      decreases k, 4, 0
    {
      if k.size > LocSize(l) || l !in data || !data[l].Struct? { return Ok(Absent); }
      var rec, m, i := data[l].rec, [], 0;
      ghost var all := ReadFields(k, 0, rec, data);
      while i < |rec| && i < |k.fields|
        invariant all == After(m, ReadFields(k, i, rec, data))
      {
        var v := FieldQuery(k.fields[i], rec[i]);
        if v.Err? { return Err; }
        var fv := FieldVal(rec[i].quant, v.v);
        AfterOne(m, fv, ReadFields(k, i + 1, rec, data));
        m := m + [fv];
        i := i + 1;
      }
      return Ok(Sub(m));
    }

    method FieldQuery(f: Field, fc: FieldCell) returns (r: Result<Val>)
      ensures r == ReadField(f, fc, data)
      decreases f, 1, 0
    {
      if !Handled(f, fc) {
        return Ok(if Selected(f, fc.quant) && !f.repeated && f.kind.Scalar? && fc.c.Word? then Num(fc.c.w) else Absent);
      }
      var x := DecodeCell(fc.c);
      if x.None? { return Err; }
      if f.repeated {
        r := RepeatFieldQuery(f, fc, x.value);
      } else {
        r := TargetQuery(f.kind, x.value);
      }
    }

    method TargetQuery(kind: Kind, x: Slot) returns (r: Result<Val>)
      ensures r == ReadTarget(kind, x, data)
      decreases kind, 5, 0
    {
      if kind.Msg? {
        r := CreateStruct(kind, Inner(x));
      } else if Inner(x) in data && data[Inner(x)].Buffer? {
        r := Ok(Text(CString(data[Inner(x)].text)));
      } else {
        r := Err;
      }
    }

    method RepeatFieldQuery(f: Field, fc: FieldCell, x: Slot) returns (r: Result<Val>)
      requires DecodeCell(fc.c) == Some(x)
      ensures r == ReadRepeated(f, fc, data)
      decreases f, 0, 0
    {
      if Inner(x) !in data { return Err; }
      if f.kind.Scalar? {
        return if data[Inner(x)].Numbers? then Ok(List(data[Inner(x)].nums)) else Err;
      }
      if !data[Inner(x)].Pointers? { return Err; }
      var vs := ElemsQuery(f.kind, data[Inner(x)].cells, fc.quant);
      r := if vs.Ok? then Ok(List(vs.v)) else Err;
    }

    /** A key that does not decode gives a null element, without an error. */
    method ElemQuery(kind: Kind, c: Cell) returns (r: Result<Val>)
      ensures r == ReadElem(kind, c, data)
      decreases kind, 5, 1
    {
      var x := DecodeCell(c);
      if x.None? { return Ok(Absent); }
      r := TargetQuery(kind, x.value);
    }

    method ElemsQuery(kind: Kind, cells: seq<Cell>, n: nat) returns (r: Result<seq<Val>>)
      ensures r == ReadElems(kind, cells, 0, n, data)
      decreases kind, 6, 0
    {
      ghost var all := ReadElems(kind, cells, 0, n, data);
      var vs, j := [], 0;
      while j < n && j < |cells|
        invariant all == After(vs, ReadElems(kind, cells, j, n, data))
      {
        var v := ElemQuery(kind, cells[j]);
        if v.Err? { return Err; }
        AfterOne(vs, v.v, ReadElems(kind, cells, j + 1, n, data));
        vs := vs + [v.v];
        j := j + 1;
      }
      return Ok(vs);
    }

    // ---------- the public operations

    method UpdateElem(r: RootMap, key: string, m: Message) returns (ok: bool)
      requires Valid() && Inv(Abs()) && r.desc.Msg? && Conforms(r.desc, m)
      modifies this, bitmap, startPos
      ensures Valid() && Written(ok, (), Abs()) == Update(r, key, m, old(Abs()))
      ensures Inv(Abs()) && ok == old(Admitted(r, key, m, Abs()))
      ensures View(Abs()) == if ok then old(View(Abs()))[Root(r, key) := m] else old(View(Abs())) - {Root(r, key)}
    {
      UpdateRefines(r, key, m, Abs());
      UpdateSucceedsIff(r, key, m, Abs());
      var found := DelBpfMap(r.desc, Root(r, key));
      scratch := Blank();
      ok := UpdateBpfMap(r.desc, m, Root(r, key));
      if !ok { found := DelBpfMap(r.desc, Root(r, key)); }
    }

    method LookupElem(r: RootMap, key: string) returns (v: Result<Val>)
      requires Valid() && Inv(Abs()) && r.desc.Msg?
      ensures v == Ok(if Root(r, key) in View(Abs()) then Sub(View(Abs())[Root(r, key)]) else Absent)
    {
      LookupRefines(r, key, Abs());
      v := CreateStruct(r.desc, Root(r, key));
    }

    method DeleteElem(r: RootMap, key: string) returns (found: bool)
      requires Valid() && Inv(Abs()) && r.desc.Msg?
      modifies this, bitmap
      ensures Valid() && Abs() == Delete(r, key, old(Abs())) && Inv(Abs())
      ensures found == (Root(r, key) in old(View(Abs()))) && View(Abs()) == old(View(Abs())) - {Root(r, key)}
    {
      DeleteRefines(r, key, Abs());
      found := DelBpfMap(r.desc, Root(r, key));
    }

    // ---------- starting up

    /** A new process over existing maps: no bit set yet. */
    constructor (data: Data)
      ensures Valid() && Used() == {} && this.data == data && fresh(bitmap) && fresh(startPos)
    {
      bitmap := new bv8[MAP_TYPE_MAX, BITMAP_SIZE]((_, _) => 0);
      startPos := new nat[MAP_TYPE_MAX](_ => 0);
      this.data := data;
      scratch := "";
    }

    /**
      Sets the bits of one slab map from its keys, in whatever order the map
      yields them.  Only the low three bytes of a key are tested, but the whole
      key is the bit number, so a key that passes the test must not have more.
     */
    method MapRestore(cls: nat, keys: seq<nat>) returns (ok: bool)
      requires Valid() && cls < MAP_TYPE_MAX
      requires forall i | 0 <= i < |keys| :: KeyIndex(keys[i]) < MAP_MAX_ENTRIES ==> keys[i] < MAP_MAX_ENTRIES
      modifies bitmap, startPos
      ensures Valid() && (ok <==> forall i | 0 <= i < |keys| :: KeyIndex(keys[i]) < MAP_MAX_ENTRIES)
      ensures ok ==> Used() == old(Used()) + set i | 0 <= i < |keys| :: Slot(cls, keys[i])
      ensures startPos[..] == if !ok then old(startPos[..])
                              else old(startPos[..])[cls := NextPos(if keys == [] then 0 else keys[|keys| - 1])]
    {
      var key: nat, n := 0, 0;
      while n < |keys|
        invariant n <= |keys| && Valid() && key < MAP_MAX_ENTRIES && key == (if n == 0 then 0 else keys[n - 1])
        invariant startPos[..] == old(startPos[..])
        invariant forall i | 0 <= i < n :: KeyIndex(keys[i]) < MAP_MAX_ENTRIES
        invariant Used() == old(Used()) + set i | 0 <= i < n :: Slot(cls, keys[i])
      {
        if KeyIndex(keys[n]) >= MAP_MAX_ENTRIES { return false; }
        key := keys[n];
        SetUsed(cls, key);
        n := n + 1;
      }
      startPos[cls] := NextPos(key);
      return true;
    }

    /** Restores all four slab maps: the used bits become exactly the filled slots. */
    method MapsRestore(keys: seq<seq<nat>>) returns (ok: bool)
      requires Valid() && Used() == {} && Inv(Mem(FilledSlots(data), startPos[..], data, scratch))
      requires |keys| == MAP_TYPE_MAX
      requires forall c | 0 <= c < MAP_TYPE_MAX :: Enumerates(keys[c], c, data)
      modifies bitmap, startPos
      ensures ok && Valid() && Inv(Abs()) && Used() == FilledSlots(data)
      ensures forall s: Mem | Inv(s) && s.data == data && s.scratch == scratch ::
                Abs() == Restart(Abs().pos, s) && View(Abs()) == View(s)
    {
      ghost var m := Mem(FilledSlots(data), startPos[..], data, scratch);
      InvIsClean(m);
      var c := 0;
      ok := true;
      while c < MAP_TYPE_MAX
        invariant c <= MAP_TYPE_MAX && ok && Valid()
        invariant Used() == set x | x in FilledSlots(data) && x.cls < c
      {
        forall i | 0 <= i < |keys[c]|
          ensures keys[c][i] < MAP_MAX_ENTRIES
        {
          assert Inner(Slot(c, keys[c][i])) in data;
        }
        ok := MapRestore(c, keys[c]);
        forall x: Slot
          ensures x in Used() <==> x in FilledSlots(data) && x.cls < c + 1
        {
          FilledIff(m, x);
        }
        c := c + 1;
      }
      assert Used() == FilledSlots(data);
      RestartRefines(startPos[..], m);
      forall s: Mem | Inv(s) && s.data == data && s.scratch == scratch
        ensures Abs() == Restart(Abs().pos, s) && View(Abs()) == View(s)
      {
        RestartRefines(startPos[..], s);
      }
    }
  }

  /** keys lists the indexes filled in one slab map, each of them, in some order. */
  ghost predicate Enumerates(keys: seq<nat>, cls: nat, data: Data) {
    (forall i | 0 <= i < |keys| :: Inner(Slot(cls, keys[i])) in data) &&
    (forall x: Slot | Inner(x) in data && x.cls == cls :: x.idx in keys)
  }

  /** Values already read, in front of those still to come. */
  ghost function After<T>(done: seq<T>, r: Result<seq<T>>): (all: Result<seq<T>>)
    ensures done == [] ==> all == r
    ensures r == Ok([]) ==> all == Ok(done)
  {
    if r.Ok? then assert [] + r.v == r.v && done + [] == done; Ok(done + r.v) else Err
  }

  lemma AfterOne<T>(done: seq<T>, x: T, rest: Result<seq<T>>)
    ensures After(done, if rest.Ok? then Ok([x] + rest.v) else Err) == After(done + [x], rest)
  {
    if rest.Ok? { assert done + ([x] + rest.v) == (done + [x]) + rest.v; }
  }
}

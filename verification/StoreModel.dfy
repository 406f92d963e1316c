/**
  The tree store as functions on values: the write, read and delete walks over
  the root maps and the four slab maps, and the footprint each entry owns.
 */
module StoreModel {
  import opened Options
  import opened OuterKey
  import opened Schema
  import opened SlabAlloc

  /** A root map is named after the descriptor of the messages it holds. */
  datatype RootMap = RootMap(name: string, desc: Kind, valueSize: nat, maxEntries: nat)

  /** Where a value is stored: under a key of a root map, or in a slab slot. */
  datatype Loc = Root(root: RootMap, key: string) | Inner(slot: Slot)

  /** A stored word: a value or outer key, or a pointer not yet replaced, which never decodes as a key. */
  datatype Cell = Word(w: nat) | Raw

  datatype FieldCell = FieldCell(quant: nat, c: Cell)

  type Record = seq<FieldCell>

  datatype Stored =
    | Struct(rec: Record)
    | Buffer(text: string)
    | Pointers(cells: seq<Cell>)
    | Numbers(nums: seq<Val>)

  type Data = map<Loc, Stored>

  /** The whole store: used bits, cursors, all maps, and the scratch buffer strings pass through. */
  datatype Mem = Mem(used: set<Slot>, pos: seq<nat>, data: Data, scratch: string)

  // ---------- words and cells

  function DecodeCell(c: Cell): Option<Slot> {
    if c.Word? then Decode(c.w) else None
  }

  /** Fields a walk acts on: selected, non-null, and holding a pointer. */
  predicate Handled(f: Field, fc: FieldCell) {
    Selected(f, fc.quant) &&
    (f.repeated || !f.kind.Scalar?) &&
    fc.c != Word(0)
  }

  function InitCell(fv: FieldVal): FieldCell {
    FieldCell(fv.quant,
              match fv.v
              case Absent => Word(0)
              case Num(n) => Word(n)
              case _ => Raw)
  }

  function InitRecord(m: Message): (rec: Record)
    ensures |rec| == |m| && forall j | 0 <= j < |m| :: rec[j] == InitCell(m[j])
  {
    seq(|m|, j requires 0 <= j < |m| => InitCell(m[j]))
  }

  function LocSize(l: Loc): nat {
    if l.Root? then l.root.valueSize else ValueSize(l.slot.cls)
  }

  // ---------- allocation and map updates

  /** What a step of the write walk gives back: success, its result and the new store. */
  datatype Written<T> = Written(ok: bool, out: T, s: Mem)

  ghost function AllocKey(size: int, s: Mem): (r: Written<nat>)
    requires |s.pos| == MAP_TYPE_MAX
    ensures |r.s.pos| == MAP_TYPE_MAX
  {
    if size <= 0 then Written(false, NO_KEY, s)
    else
      match Choose(s.used, s.pos, size, 0)
      case None => Written(false, NO_KEY, s)
      case Some(x) =>
        Written(true, GenKey(x.cls, x.idx),
                s.(used := s.used + {x}, pos := s.pos[x.cls := NextPos(x.idx)]))
  }

  function FreeKey(key: nat, s: Mem): Mem {
    match Decode(key)
    case None => s
    case Some(x) => s.(used := s.used - {x})
  }

  function Entries(data: Data, r: RootMap): set<Loc> {
    set l | l in data && l.Root? && l.root == r
  }

  /** A root map refuses a new key once it is full; slab maps never fill up (SlabNeverFull). */
  predicate CanPut(data: Data, l: Loc) {
    l in data || l.Inner? || |Entries(data, l.root)| < l.root.maxEntries
  }

  function Put(l: Loc, v: Stored, s: Mem): Mem {
    s.(data := s.data[l := v])
  }

  // ---------- strings

  /** What the scratch buffer holds after a bounded string copy. */
  function CopyString(scratch: string, text: string, size: nat): string {
    if |text| < size <= |scratch| then text + [NUL] + scratch[|text| + 1..] else scratch
  }

  function Take(text: string, size: nat): string {
    if size <= |text| then text[..size] else text
  }

  /** The C string at the start of a buffer. */
  function CString(buf: string): string {
    if buf == [] || buf[0] == NUL then [] else [buf[0]] + CString(buf[1..])
  }

  function PutText(text: string, x: Slot, s: Mem): Mem {
    var scratch := CopyString(s.scratch, text, ValueSize(x.cls));
    Put(Inner(x), Buffer(Take(scratch, ValueSize(x.cls))), s.(scratch := scratch))
  }

  /** Requested slot size of a value; -1 for a string that does not fit. */
  function FieldSize(kind: Kind, v: Val): int {
    match kind
    case Str => if v.Text? && |v.s| + 1 <= MAP_VAL_STR_SIZE then MAP_VAL_STR_SIZE else -1
    case Msg(size, _) => size
    case Scalar(_) => -1
  }

  // ---------- the write walk

  ghost predicate Pending(m: Message, i: nat, rec: Record) {
    |rec| == |m| && forall j | i <= j < |m| :: rec[j] == InitCell(m[j])
  }

  /** Writes message m at l; ok says whether the walk returned 0. */
  ghost function WriteMap(k: Kind, m: Message, l: Loc, s: Mem): (r: Written<()>)
    requires k.Msg? && Conforms(k, m) && |s.pos| == MAP_TYPE_MAX
    ensures |r.s.pos| == MAP_TYPE_MAX
    decreases k, 4, 0
  {
    if k.size > LocSize(l) then Written(false, (), s)
    else
      var w := WriteFields(k, m, 0, InitRecord(m), l, s);
      if !w.ok || !CanPut(w.s.data, l) then Written(false, (), w.s)
      else Written(true, (), Put(l, Struct(w.out), w.s))
  }

  ghost function WriteFields(k: Kind, m: Message, i: nat, rec: Record, l: Loc, s: Mem): (r: Written<Record>)
    requires k.Msg? && Conforms(k, m) && i <= |m| && Pending(m, i, rec) && |s.pos| == MAP_TYPE_MAX
    ensures |r.out| == |rec| && (forall j | 0 <= j < i :: r.out[j] == rec[j])
    ensures |r.s.pos| == MAP_TYPE_MAX
    decreases k, 3, |m| - i
  {
    if i == |m| then Written(true, rec, s)
    else if !Handled(k.fields[i], rec[i]) then WriteFields(k, m, i + 1, rec, l, s)
    else
      var w := WriteField(k.fields[i], m[i], i, rec, l, s);
      var rec1 := WithKey(rec, i, w.out);
      if !w.ok then Written(false, rec1, w.s) else WriteFields(k, m, i + 1, rec1, l, w.s)
  }

  function WithKey(rec: Record, i: nat, key: nat): Record
    requires i < |rec|
  {
    rec[i := rec[i].(c := Word(key))]
  }

  /** Handles one pointer field; returns the key stored in its cell. */
  ghost function WriteField(f: Field, fv: FieldVal, i: nat, rec: Record, l: Loc, s: Mem): (r: Written<nat>)
    requires FieldConforms(f, fv) && Handled(f, InitCell(fv)) && i < |rec| && |s.pos| == MAP_TYPE_MAX
    ensures |r.s.pos| == MAP_TYPE_MAX
    decreases f, 1, 0
  {
    if f.repeated then WriteRepeated(f, fv.v.elems, i, rec, l, s) else WriteSingle(f, fv.v, i, rec, l, s)
  }

  /** Takes a slot for field i and stores the record with its key; ok only if both worked out. */
  ghost function SeatField(size: int, i: nat, rec: Record, l: Loc, s: Mem): (r: Written<nat>)
    requires i < |rec| && |s.pos| == MAP_TYPE_MAX
    ensures |r.s.pos| == MAP_TYPE_MAX && (r.ok ==> Decode(r.out).Some?)
  {
    var a := AllocKey(size, s);
    if !CanPut(a.s.data, l) then Written(false, a.out, FreeKey(a.out, a.s))
    else Written(Decode(a.out).Some?, a.out, Put(l, Struct(WithKey(rec, i, a.out)), a.s))
  }

  ghost function WriteSingle(f: Field, v: Val, i: nat, rec: Record, l: Loc, s: Mem): (r: Written<nat>)
    requires !f.kind.Scalar? && ElemConforms(f.kind, v) && i < |rec| && |s.pos| == MAP_TYPE_MAX
    ensures |r.s.pos| == MAP_TYPE_MAX
    decreases f, 0, 0
  {
    var a := SeatField(FieldSize(f.kind, v), i, rec, l, s);
    if !a.ok then a
    else
      var w := WriteTarget(f.kind, v, Decode(a.out).value, a.s);
      Written(w.ok, a.out, if w.ok then w.s else FreeKey(a.out, w.s))
  }

  ghost function WriteTarget(kind: Kind, v: Val, x: Slot, s: Mem): (r: Written<()>)
    requires !kind.Scalar? && ElemConforms(kind, v) && |s.pos| == MAP_TYPE_MAX
    ensures |r.s.pos| == MAP_TYPE_MAX
    decreases kind, 5, 0
  {
    if kind.Str? then Written(true, (), PutText(v.s, x, s)) else WriteMap(kind, v.m, Inner(x), s)
  }

  /** A zeroed pointer array. */
  function NoCells(): (cells: seq<Cell>)
    ensures |cells| == MAP_VAL_REPEAT_SIZE / 8 && forall j | 0 <= j < |cells| :: cells[j] == Word(0)
  {
    seq(MAP_VAL_REPEAT_SIZE / 8, _ => Word(0))
  }

  ghost predicate AllConform(kind: Kind, elems: seq<Val>) {
    forall e | 0 <= e < |elems| :: ElemConforms(kind, elems[e])
  }

  ghost function WriteRepeated(f: Field, elems: seq<Val>, i: nat, rec: Record, l: Loc, s: Mem): (r: Written<nat>)
    requires Fits(f.kind, |elems|) && AllConform(f.kind, elems) && i < |rec| && |s.pos| == MAP_TYPE_MAX
    ensures |r.s.pos| == MAP_TYPE_MAX
    decreases f, 0, 0
  {
    var a := SeatField(MAP_VAL_REPEAT_SIZE, i, rec, l, s);
    if !a.ok then a
    else
      var x := Decode(a.out).value;
      if f.kind.Scalar? then Written(true, a.out, Put(Inner(x), Numbers(elems), a.s))
      else
        var w := WriteElems(f.kind, elems, 0, NoCells(), a.s);
        Written(w.ok, a.out, Put(Inner(x), Pointers(w.out), w.s))
  }

  ghost function WriteElems(kind: Kind, elems: seq<Val>, j: nat, cells: seq<Cell>, s: Mem): (r: Written<seq<Cell>>)
    requires !kind.Scalar? && AllConform(kind, elems) && j <= |elems| <= |cells| && |s.pos| == MAP_TYPE_MAX
    ensures |r.out| == |cells| && (forall e | 0 <= e < j :: r.out[e] == cells[e])
    ensures |r.s.pos| == MAP_TYPE_MAX
    decreases kind, 6, |elems| - j
  {
    if j == |elems| then Written(true, cells, s)
    else
      var w := WriteElem(kind, elems[j], s);
      var cells1 := cells[j := Word(w.out)];
      if !w.ok then Written(false, cells1, w.s) else WriteElems(kind, elems, j + 1, cells1, w.s)
  }

  /** One array element; its slot stays taken when writing it fails. */
  ghost function WriteElem(kind: Kind, v: Val, s: Mem): (r: Written<nat>)
    requires !kind.Scalar? && ElemConforms(kind, v) && |s.pos| == MAP_TYPE_MAX
    ensures |r.s.pos| == MAP_TYPE_MAX
    decreases kind, 5, 1
  {
    var a := AllocKey(FieldSize(kind, v), s);
    if Decode(a.out).None? then Written(false, a.out, a.s)
    else
      var w := WriteTarget(kind, v, Decode(a.out).value, a.s);
      Written(w.ok, a.out, w.s)
  }

  // ---------- the delete walk

  function Remove(l: Loc, s: Mem): Mem {
    s.(data := s.data - {l})
  }

  function DelMap(k: Kind, l: Loc, s: Mem): (r: Mem)
    requires k.Msg?
    ensures r.pos == s.pos
    decreases k, 4, 0
  {
    if l !in s.data then s
    else Remove(l, if s.data[l].Struct? then DelFields(k, 0, s.data[l].rec, l, s) else s)
  }

  /** buf is the walk's own copy of the record; single fields refresh it from the map. */
  function DelFields(k: Kind, i: nat, buf: Record, l: Loc, s: Mem): (r: Mem)
    requires k.Msg?
    ensures r.pos == s.pos
    decreases k, 3, |buf| - i
  {
    if i >= |buf| || i >= |k.fields| then s
    else
      var f := k.fields[i];
      if !Handled(f, buf[i]) then DelFields(k, i + 1, buf, l, s)
      else if f.repeated then
        var (ok, s1) := DelRepeated(f, buf[i], s);
        if !ok then s1 else DelFields(k, i + 1, WithKey(buf, i, 0), l, s1)
      else if l !in s.data || !s.data[l].Struct? || |s.data[l].rec| != |buf| then s
      else
        var buf1 := s.data[l].rec;
        match DecodeCell(buf1[i].c)
        case None => s
        case Some(x) => DelFields(k, i + 1, WithKey(buf1, i, 0), l, DelTarget(f.kind, x, s))
  }

  function DelTarget(kind: Kind, x: Slot, s: Mem): (r: Mem)
    ensures r.pos == s.pos
    decreases kind, 5, 0
  {
    var s1 := s.(used := s.used - {x});
    if kind.Msg? then DelMap(kind, Inner(x), s1) else Remove(Inner(x), s1)
  }

  function DelRepeated(f: Field, fc: FieldCell, s: Mem): (r: (bool, Mem))
    ensures r.1.pos == s.pos
    decreases f, 0, 0
  {
    match DecodeCell(fc.c)
    case None => (false, s)
    case Some(x) =>
      var s1 := s.(used := s.used - {x});
      if f.kind.Scalar? then (true, Remove(Inner(x), s1))
      else if Inner(x) !in s1.data || !s1.data[Inner(x)].Pointers? then (false, Remove(Inner(x), s1))
      else (true, Remove(Inner(x), DelElems(f.kind, s1.data[Inner(x)].cells, 0, fc.quant, s1)))
  }

  function DelElems(kind: Kind, cells: seq<Cell>, j: nat, n: nat, s: Mem): (r: Mem)
    ensures r.pos == s.pos
    decreases kind, 6, n - j
  {
    if j >= n || j >= |cells| then s
    else
      var d := DecodeCell(cells[j]);
      DelElems(kind, cells, j + 1, n, if d.Some? then DelTarget(kind, d.value, s) else s)
  }

  // ---------- the read walk

  datatype Result<+T> = Ok(v: T) | Err

  /** Ok(Absent) is a null pointer returned without an error. */
  function ReadMap(k: Kind, l: Loc, data: Data): Result<Val>
    requires k.Msg?
    decreases k, 4, 0
  {
    if k.size > LocSize(l) || l !in data || !data[l].Struct? then Ok(Absent)
    else
      match ReadFields(k, 0, data[l].rec, data)
      case Ok(m) => Ok(Sub(m))
      case Err => Err
  }

  function ReadFields(k: Kind, i: nat, rec: Record, data: Data): Result<Message>
    requires k.Msg?
    decreases k, 3, |rec| - i
  {
    if i >= |rec| || i >= |k.fields| then Ok([])
    else
      var f := k.fields[i];
      match ReadField(f, rec[i], data)
      case Err => Err
      case Ok(v) =>
        match ReadFields(k, i + 1, rec, data)
        case Err => Err
        case Ok(rest) => Ok([FieldVal(rec[i].quant, v)] + rest)
  }

  function ReadField(f: Field, fc: FieldCell, data: Data): Result<Val>
    decreases f, 1, 0
  {
    if !Handled(f, fc) then
      Ok(if Selected(f, fc.quant) && !f.repeated && f.kind.Scalar? && fc.c.Word? then Num(fc.c.w) else Absent)
    else if f.repeated then ReadRepeated(f, fc, data)
    else
      match DecodeCell(fc.c)
      case None => Err
      case Some(x) => ReadTarget(f.kind, x, data)
  }

  function ReadTarget(kind: Kind, x: Slot, data: Data): Result<Val>
    decreases kind, 5, 0
  {
    if kind.Msg? then ReadMap(kind, Inner(x), data)
    else if Inner(x) in data && data[Inner(x)].Buffer? then Ok(Text(CString(data[Inner(x)].text)))
    else Err
  }

  function ReadRepeated(f: Field, fc: FieldCell, data: Data): Result<Val>
    decreases f, 0, 0
  {
    match DecodeCell(fc.c)
    case None => Err
    case Some(x) =>
      if Inner(x) !in data then Err
      else if f.kind.Scalar? then
        if data[Inner(x)].Numbers? then Ok(List(data[Inner(x)].nums)) else Err
      else if !data[Inner(x)].Pointers? then Err
      else
        match ReadElems(f.kind, data[Inner(x)].cells, 0, fc.quant, data)
        case Ok(vs) => Ok(List(vs))
        case Err => Err
  }

  function ReadElems(kind: Kind, cells: seq<Cell>, j: nat, n: nat, data: Data): Result<seq<Val>>
    decreases kind, 6, n - j
  {
    if j >= n || j >= |cells| then Ok([])
    else
      match ReadElem(kind, cells[j], data)
      case Err => Err
      case Ok(v) =>
        match ReadElems(kind, cells, j + 1, n, data)
        case Err => Err
        case Ok(rest) => Ok([v] + rest)
  }

  function ReadElem(kind: Kind, c: Cell, data: Data): Result<Val>
    decreases kind, 5, 1
  {
    if DecodeCell(c).Some? then ReadTarget(kind, DecodeCell(c).value, data) else Ok(Absent)
  }

  // ---------- footprints

  /**
    The slots a walk visits.  apart says no slot is visited twice, natural that
    each lies in the smallest size class that fits what it holds.
   */
  datatype Fp = Fp(slots: set<Slot>, apart: bool, natural: bool)

  const NOTHING: Fp := Fp({}, true, true)

  function Join(a: Fp, b: Fp): Fp {
    Fp(a.slots + b.slots, a.apart && b.apart && a.slots !! b.slots, a.natural && b.natural)
  }

  /** Smallest size class whose values hold size bytes. */
  function ClassFor(size: nat): nat {
    if size <= 64 then 0 else if size <= 192 then 1 else if size <= 296 then 2 else 3
  }

  /** The class a value of this kind is meant to be stored in. */
  function HomeClass(kind: Kind): nat {
    match kind
    case Str => ClassFor(MAP_VAL_STR_SIZE)
    case Msg(size, _) => ClassFor(size)
    case Scalar(_) => ARRAY_CLASS
  }

  /** The class arrays are stored in. */
  const ARRAY_CLASS: nat := ClassFor(MAP_VAL_REPEAT_SIZE)

  function Own(x: Slot, cls: nat): Fp {
    Fp({x}, true, x.cls == cls)
  }

  function ReachMap(k: Kind, l: Loc, data: Data): Fp
    requires k.Msg?
    decreases k, 4, 0
  {
    if l in data && data[l].Struct? then ReachFields(k, 0, data[l].rec, data) else NOTHING
  }

  function ReachFields(k: Kind, i: nat, rec: Record, data: Data): Fp
    requires k.Msg?
    decreases k, 3, |rec| - i
  {
    if i >= |rec| || i >= |k.fields| then NOTHING
    else
      var (more, fp) := ReachField(k.fields[i], rec[i], data);
      if more then Join(fp, ReachFields(k, i + 1, rec, data)) else fp
  }

  /** The footprint of one field, and whether the delete walk goes on after it. */
  function ReachField(f: Field, fc: FieldCell, data: Data): (bool, Fp)
    decreases f, 1, 0
  {
    if !Handled(f, fc) then (true, NOTHING)
    else if f.repeated then ReachRepeated(f, fc, data)
    else
      match DecodeCell(fc.c)
      case None => (false, NOTHING)
      case Some(x) => (true, ReachTarget(f.kind, x, data))
  }

  /** Index 0 is never handed out, so zero words own nothing. */
  function ReachTarget(kind: Kind, x: Slot, data: Data): Fp
    decreases kind, 5, 0
  {
    if x.idx == 0 then NOTHING
    else Join(Own(x, HomeClass(kind)), if kind.Msg? then ReachMap(kind, Inner(x), data) else NOTHING)
  }

  function ReachRepeated(f: Field, fc: FieldCell, data: Data): (bool, Fp)
    decreases f, 0, 0
  {
    match DecodeCell(fc.c)
    case None => (false, NOTHING)
    case Some(x) =>
      var own := if x.idx == 0 then NOTHING else Own(x, ARRAY_CLASS);
      if f.kind.Scalar? then (true, own)
      else if Inner(x) !in data || !data[Inner(x)].Pointers? then (false, own)
      else (true, Join(own, ReachElems(f.kind, data[Inner(x)].cells, 0, fc.quant, data)))
  }

  function ReachElems(kind: Kind, cells: seq<Cell>, j: nat, n: nat, data: Data): Fp
    decreases kind, 6, n - j
  {
    if j >= n || j >= |cells| then NOTHING
    else
      Join(ReachElem(kind, cells[j], data), ReachElems(kind, cells, j + 1, n, data))
  }

  function ReachElem(kind: Kind, c: Cell, data: Data): Fp
    decreases kind, 5, 1
  {
    if DecodeCell(c).Some? then ReachTarget(kind, DecodeCell(c).value, data) else NOTHING
  }
}

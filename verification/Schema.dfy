/**
  Message descriptors and the message trees they describe.  Nesting a
  descriptor inside its parent makes every schema acyclic.
 */
module Schema {
  import opened OuterKey

  datatype Kind =
    | Scalar(width: nat)
    | Str
    | Msg(size: nat, fields: seq<Field>)

  datatype Field = Field(kind: Kind, repeated: bool, oneof: bool, id: nat)

  datatype Val =
    | Absent
    | Num(n: nat)
    | Text(s: string)
    | Sub(m: seq<FieldVal>)
    | List(elems: seq<Val>)

  /** A field of a message: its quantifier (element count, or oneof case) and its value. */
  datatype FieldVal = FieldVal(quant: nat, v: Val)

  type Message = seq<FieldVal>

  const NUL: char := '\0'

  /** A oneof member counts only while the case word holds its id. */
  predicate Selected(f: Field, quant: nat) {
    f.oneof ==> f.id == quant
  }

  /** Repeated values must fit the slab entry that holds the array. */
  predicate Fits(kind: Kind, n: nat) {
    match kind
    case Scalar(w) => n * w <= MAP_VAL_REPEAT_SIZE
    case _ => n * 8 <= MAP_VAL_REPEAT_SIZE
  }

  ghost predicate Conforms(k: Kind, m: Message)
    requires k.Msg?
    decreases k, 0
  {
    |m| == |k.fields| && forall i | 0 <= i < |m| :: FieldConforms(k.fields[i], m[i])
  }

  ghost predicate FieldConforms(f: Field, fv: FieldVal)
    decreases f, 0
  {
    if !Selected(f, fv.quant) then fv.v == Absent
    else if f.repeated then
      fv.v == Absent ||
      (fv.v.List? && fv.quant == |fv.v.elems| && Fits(f.kind, fv.quant) &&
       forall j | 0 <= j < fv.quant :: ElemConforms(f.kind, fv.v.elems[j]))
    else
      (fv.v == Absent && !f.kind.Scalar?) || ElemConforms(f.kind, fv.v)
  }

  ghost predicate ElemConforms(kind: Kind, v: Val)
    decreases kind, 1
  {
    match kind
    case Scalar(_) => v.Num?
    case Str => v.Text? && NUL !in v.s
    case Msg(_, _) => v.Sub? && Conforms(kind, v.m)
  }
}

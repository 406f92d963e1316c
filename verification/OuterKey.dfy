/**
  Outer keys: the 32-bit word that replaces a pointer once its target lives in
  a slab map.  One byte of size class, three bytes of slot index.
 */
module OuterKey {
  import opened Options

  const MAP_TYPE_MAX: nat := 4
  const MAP_MAX_ENTRIES: nat := 1000000
  const MAP_VAL_STR_SIZE: nat := 192
  const MAP_VAL_REPEAT_SIZE: nat := 1600

  // What a failed allocation returns: (unsigned int)-1.
  const NO_KEY: nat := 0xFFFF_FFFF

  /** A slot of one of the four slab maps. */
  datatype Slot = Slot(cls: nat, idx: nat)

  /** Value size of a slab map. */
  function ValueSize(cls: nat): nat {
    if cls == 0 then 64 else if cls == 1 then 192 else if cls == 2 then 296 else 1600
  }

  function KeyType(w: nat): nat { w / 0x100_0000 }

  function KeyIndex(w: nat): nat { w % 0x100_0000 }

  function GenKey(cls: nat, pos: nat): nat {
    (cls % 0x100) * 0x100_0000 + pos % 0x100_0000
  }

  /** The slot an outer key names, if class and index are both in range. */
  function Decode(w: nat): Option<Slot> {
    if KeyType(w) >= MAP_TYPE_MAX || KeyIndex(w) >= MAP_MAX_ENTRIES then None
    else Some(Slot(KeyType(w), KeyIndex(w)))
  }

  /** Slots the allocator may hand out: index 0 of every class stays unused. */
  predicate Allocatable(x: Slot) {
    x.cls < MAP_TYPE_MAX && 0 < x.idx < MAP_MAX_ENTRIES
  }

  /** The class is the top byte of the key, the index the other three. */
  lemma KeyLayout(x: Slot)
    requires x.cls < MAP_TYPE_MAX && x.idx < MAP_MAX_ENTRIES
    ensures GenKey(x.cls, x.idx) == x.cls * 0x100_0000 + x.idx
  {
  }

  /** Unpacking undoes packing on every slot, and no slot handed out packs to zero. */
  lemma PackUnpack(x: Slot)
    requires x.cls < MAP_TYPE_MAX && x.idx < MAP_MAX_ENTRIES
    ensures Decode(GenKey(x.cls, x.idx)) == Some(x)
    ensures Allocatable(x) ==> GenKey(x.cls, x.idx) != 0
  {
    var w := GenKey(x.cls, x.idx);
    assert x.cls % 0x100 == x.cls && x.idx % 0x100_0000 == x.idx;
    assert w == x.cls * 0x100_0000 + x.idx;
    assert w / 0x100_0000 == x.cls;
  }

  /** Packing undoes unpacking on every key the decoder accepts. */
  lemma UnpackPack(w: nat)
    requires Decode(w).Some?
    ensures GenKey(Decode(w).value.cls, Decode(w).value.idx) == w
  {
  }
}

/**
  The slot allocator over sets of used slots: a roving cursor per size class,
  then the least free index, then the next larger class.
 */
module SlabAlloc {
  import opened Options
  import opened OuterKey

  ghost predicate Full(used: set<Slot>, cls: nat) {
    forall j | 0 < j < MAP_MAX_ENTRIES :: Slot(cls, j) in used
  }

  /** j is the lowest free index of the class, index 0 aside. */
  ghost predicate IsLeastFree(used: set<Slot>, cls: nat, j: nat) {
    0 < j < MAP_MAX_ENTRIES && Slot(cls, j) !in used &&
    forall i | 0 < i < j :: Slot(cls, i) in used
  }

  lemma LeastFreeExists(used: set<Slot>, cls: nat)
    requires !Full(used, cls)
    ensures exists j :: IsLeastFree(used, cls, j)
  {
    var j := 1;
    while Slot(cls, j) in used
      invariant 0 < j < MAP_MAX_ENTRIES
      invariant forall i | 0 < i < j :: Slot(cls, i) in used
      decreases MAP_MAX_ENTRIES - j
    {
      j := j + 1;
    }
    assert IsLeastFree(used, cls, j);
  }

  /** The index the class offers: the cursor when it is free, otherwise the lowest free index. */
  ghost function Offer(used: set<Slot>, cls: nat, pos: nat): (r: nat)
    requires !Full(used, cls)
    ensures 0 < r < MAP_MAX_ENTRIES && Slot(cls, r) !in used
  {
    if 0 < pos < MAP_MAX_ENTRIES && Slot(cls, pos) !in used then pos
    else
      LeastFreeExists(used, cls);
      var j :| IsLeastFree(used, cls, j); j
  }

  lemma LeastFreeUnique(used: set<Slot>, cls: nat, pos: nat, j: nat)
    requires IsLeastFree(used, cls, j) && !(0 < pos < MAP_MAX_ENTRIES && Slot(cls, pos) !in used)
    ensures !Full(used, cls) && Offer(used, cls, pos) == j
  {
  }

  /** Where the cursor goes after handing out j. */
  function NextPos(j: nat): (r: nat)
    ensures j < MAP_MAX_ENTRIES - 1 ==> r == j + 1
    ensures j == MAP_MAX_ENTRIES - 1 ==> r == 1
  {
    if (j + 1) % MAP_MAX_ENTRIES == 0 then 1 else (j + 1) % MAP_MAX_ENTRIES
  }

  /** The first class from cls on that is large enough and not full. */
  ghost function Choose(used: set<Slot>, pos: seq<nat>, size: int, cls: nat): (r: Option<Slot>)
    requires |pos| == MAP_TYPE_MAX && cls <= MAP_TYPE_MAX
    ensures r.Some? ==> Allocatable(r.value) && r.value !in used && size <= ValueSize(r.value.cls)
    ensures r.Some? ==> cls <= r.value.cls
    ensures r.Some? ==> forall c | cls <= c < r.value.cls :: size > ValueSize(c) || Full(used, c)
    ensures r.None? ==> forall c | cls <= c < MAP_TYPE_MAX :: size > ValueSize(c) || Full(used, c)
    decreases MAP_TYPE_MAX - cls
  {
    if cls == MAP_TYPE_MAX then None
    else if size > ValueSize(cls) || Full(used, cls) then Choose(used, pos, size, cls + 1)
    else Some(Slot(cls, Offer(used, cls, pos[cls])))
  }
}

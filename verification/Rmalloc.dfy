/** The slab allocator itself, with the fixed alignment of 64 that `rdma_allocator` asks for, run by one thread. */
module Rmalloc {
  import opened MachineWords
  import opened SlabClasses
  import opened SlabArena

  const ALIGNMENT_BIT: bv8 := 64

  /** The entries of a freelist: every block was freed with the same alignment. */
  function Entries(list: seq<nat>): (entries: seq<(nat, nat)>) {
    seq(|list|, j requires 0 <= j < |list| => (ALIGNMENT, list[j]))
  }

  lemma EntriesPush(list: seq<nat>, p: nat)
    ensures Entries(list + [p]) == Entries(list) + [(ALIGNMENT, p)]
  {
  }

  lemma EntriesPop(list: seq<nat>)
    ensures list == [] <==> Entries(list) == []
    ensures list != [] ==> Entries(list)[0] == (ALIGNMENT, list[0]) && Entries(list[1..]) == Entries(list)[1..]
  {
  }

  class RdmaMemoryResource {
    const raw: nat
    const capacity: nat
    var memory: nat -> byte
    var head: nat
    const alignments: array<bv8>
    const freelists: array<seq<(nat, nat)>>
    ghost var arena: Arena

    ghost predicate Valid()
      reads this, alignments, freelists
    {
      && alignments.Length == freelists.Length == NUM_SLAB_CLASSES
      && Inv(arena)
      && arena.lo == raw && arena.hi == raw + capacity && arena.head == head
      && alignments as object != freelists as object
      && |arena.lists| == NUM_SLAB_CLASSES
      && (forall i | 0 <= i < NUM_SLAB_CLASSES :: freelists[i] == Entries(arena.lists[i]))
      && (forall i | 0 <= i < NUM_SLAB_CLASSES :: alignments[i] & ALIGNMENT_BIT != 0 <==> freelists[i] != [])
    }

    constructor (raw: nat, bytes: nat, contents: nat -> byte)
      ensures Valid() && fresh(alignments) && fresh(freelists)
      ensures this.raw == raw && capacity == bytes && memory == contents
      ensures arena == Arena(raw, raw + bytes, raw + bytes, seq(NUM_SLAB_CLASSES, _ => []), map[], map[], map[])
    {
      this.raw, capacity, memory, head := raw, bytes, contents, raw + bytes;
      alignments := new bv8[NUM_SLAB_CLASSES](_ => 0);
      freelists := new seq<(nat, nat)>[NUM_SLAB_CLASSES](_ => []);
      arena := Arena(raw, raw + bytes, raw + bytes, seq(NUM_SLAB_CLASSES, _ => []), map[], map[], map[]);
    }

    /** Takes the first block of the class if its bit is set and clears it, or carves a new one below `head`. */
    method Allocate(bytes: nat) returns (r: Reply)
      requires Valid() && bytes < TWO_TO_THE_32
      modifies this, alignments, freelists
      ensures Valid()
      ensures (arena, r) == Alloc(old(arena), bytes)
      ensures var i := ClassIndex(Widen(bytes));
              && (r.Ok? && old(arena).lists[i] != [] ==>
                    forall a: nat :: memory(a) == if r.ptr <= a < r.ptr + BlockBytes(i) then 0 else old(memory)(a))
              && (!(r.Ok? && old(arena).lists[i] != []) ==> memory == old(memory))
    {
      hide Inv, CeilLog, UpperLog2, Pow2, Entries;
      var n := if ALIGNMENT > bytes then ALIGNMENT else bytes;
      var slabclass := UpperLog2(n);
      UpperLog2IsCeilLog(n);
      ClassRange(n);
      slabclass := if MIN_SLAB_CLASS < slabclass then slabclass else MIN_SLAB_CLASS;
      var i := slabclass - MIN_SLAB_CLASS;
      AllocKeepsInv(arena, bytes);
      if i >= NUM_SLAB_CLASSES {
        return Aborted;
      }
      EntriesPop(arena.lists[i]);
      if alignments[i] & ALIGNMENT_BIT != 0 {
        for f := 0 to |freelists[i]|
          invariant f == 0
        {
          if freelists[i][f].0 >= ALIGNMENT {
            var p := freelists[i][f].1;
            freelists[i] := freelists[i][..f] + freelists[i][f + 1..];
            if f == |freelists[i]| {
              alignments[i] := alignments[i] & !ALIGNMENT_BIT;
            }
            var before, size := memory, Pow2(slabclass);
            memory := (a: nat) => if p <= a < p + size then 0 else before(a);
            arena := Alloc(arena, bytes).0;
            return Ok(p);
          }
        }
      }
      var e := head;
      var d := e - e % ALIGNMENT - n;
      if d < raw {
        return OutOfMemory;
      }
      head := d;
      arena := Alloc(arena, bytes).0;
      return Ok(d);
    }

    /** Appends the block to the list of the class of its size. */
    method Deallocate(p: nat, bytes: nat)
      requires Valid() && p in arena.live && arena.live[p] == bytes && bytes > 0
      modifies this`arena, alignments, freelists
      ensures Valid()
      ensures ClassIndex(bytes) < NUM_SLAB_CLASSES && arena == Free(old(arena), p, bytes)
    {
      hide Inv, CeilLog, UpperLog2, Pow2;
      var slabclass := UpperLog2(bytes);
      UpperLog2IsCeilLog(bytes);
      FreeKeepsInv(arena, p, bytes);
      slabclass := if MIN_SLAB_CLASS < slabclass then slabclass else MIN_SLAB_CLASS;
      var i := slabclass - MIN_SLAB_CLASS;
      alignments[i] := alignments[i] | ALIGNMENT_BIT;
      freelists[i] := freelists[i] + [(ALIGNMENT, p)];
      EntriesPush(arena.lists[i], p);
      arena := Free(arena, p, bytes);
    }
  }
}

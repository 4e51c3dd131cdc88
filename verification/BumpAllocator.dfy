/**
 The bump allocator: blocks are cut off the front of the free part of the newest
 chunk, and older chunks stay where they are.
 */
module BumpAllocator {
  import opened Bits
  import opened Modular

  /** Addresses and sizes are 64 bits wide. */
  const SPACE := 0x1_0000_0000_0000_0000
  const HEADER := 24

  /** `base` is where the data after the header begins. */
  datatype Chunk = Chunk(base: nat, capacity: nat, used: nat)

  /** A returned block, and which chunk it was cut from. */
  datatype Block = Block(addr: nat, size: nat, align: nat, home: nat)

  predicate Apart(a: int, n: nat, b: int, m: nat) {
    a + n <= b || b + m <= a
  }

  // ----- Rounding up to an alignment -----

  function AlignUp(x: nat, align: nat): nat
    requires 0 < align <= SPACE
  {
    BitAnd((x + align - 1) % SPACE, SPACE - align)
  }

  lemma SpaceIsPower()
    ensures IsPowerOfTwo(SPACE)
  {
    hide IsPowerOfTwo;
    BytesArePowers();
    PowerTimes(0x100, 0x100);
    PowerTimes(0x1_0000, 0x1_0000);
    PowerTimes(0x1_0000_0000, 0x1_0000_0000);
  }

  lemma BytesArePowers()
    ensures IsPowerOfTwo(0x100)
  {
    assert IsPowerOfTwo(0x10);
  }

  /** The mask gives a multiple of the alignment, less than one alignment above `x`. */
  lemma AlignUpIs(x: nat, align: nat)
    requires IsPowerOfTwo(align) && align <= SPACE && x + align - 1 < SPACE
    ensures AlignUp(x, align) % align == 0
    ensures x <= AlignUp(x, align) < x + align
  {
    hide IsPowerOfTwo, BitAnd;
    SpaceIsPower();
    PowerPositive(align);
    var top := x + align - 1;
    ModUnique(top, SPACE, 0, top);
    ClearLow(top, align, SPACE);
    RoundedDown(top, align);
  }

  lemma RoundedDown(a: nat, m: nat)
    requires m > 0
    ensures (a - a % m) % m == 0
  {
    assert a - a % m == (a / m) * m + 0;
    ModUnique(a - a % m, m, a / m, 0);
  }

  /** No lower address that is not below `x` is aligned. */
  lemma AlignUpIsLeast(x: nat, align: nat, y: nat)
    requires IsPowerOfTwo(align) && align <= SPACE && x + align - 1 < SPACE
    requires x <= y && y % align == 0
    ensures AlignUp(x, align) <= y
  {
    hide IsPowerOfTwo, AlignUp;
    AlignUpIs(x, align);
    if y < AlignUp(x, align) {
      MultiplesApart(y, AlignUp(x, align), align);
    }
  }

  // ----- Chunks and blocks -----

  /** Chunks, headers included, do not overlap and lie in the address space. */
  ghost predicate Placed(chunks: seq<Chunk>) {
    && (forall i :: 0 <= i < |chunks| ==>
          && HEADER <= chunks[i].base && chunks[i].used <= chunks[i].capacity
          && chunks[i].base + chunks[i].capacity < SPACE)
    && (forall i, j :: 0 <= i < j < |chunks| ==>
          Apart(chunks[j].base - HEADER, HEADER + chunks[j].capacity, chunks[i].base - HEADER, HEADER + chunks[i].capacity))
  }

  /** Every block is aligned as asked and lies in the used part of one chunk. */
  ghost predicate Held(chunks: seq<Chunk>, blocks: seq<Block>) {
    forall k :: 0 <= k < |blocks| ==>
      var b := blocks[k];
      && b.home < |chunks| && b.align > 0 && b.addr % b.align == 0
      && chunks[b.home].base <= b.addr && b.addr + b.size <= chunks[b.home].base + chunks[b.home].used
  }

  ghost predicate Disjoint(blocks: seq<Block>) {
    forall j, k :: 0 <= j < k < |blocks| ==> Apart(blocks[k].addr, blocks[k].size, blocks[j].addr, blocks[j].size)
  }

  /** The free part of the newest chunk meets no block, in whatever chunk it is. */
  lemma BehindFree(chunks: seq<Chunk>, blocks: seq<Block>, addr: nat, size: nat)
    requires chunks != [] && Placed(chunks) && Held(chunks, blocks)
    requires var c := chunks[|chunks| - 1]; c.base + c.used <= addr && addr + size <= c.base + c.capacity
    ensures forall i :: 0 <= i < |blocks| ==> Apart(addr, size, blocks[i].addr, blocks[i].size)
  {
    var last := |chunks| - 1;
    forall i | 0 <= i < |blocks|
      ensures Apart(addr, size, blocks[i].addr, blocks[i].size)
    {
      var h := blocks[i].home;
      if h < last {
        assert Apart(chunks[last].base - HEADER, HEADER + chunks[last].capacity, chunks[h].base - HEADER, HEADER + chunks[h].capacity);
      }
    }
  }

  // ----- The allocator -----

  class Bump {
    /** In order of age; the last one is allocated from. */
    var chunks: seq<Chunk>
    /** Every block returned so far. */
    ghost var blocks: seq<Block>

    ghost predicate Valid()
      reads this
    {
      chunks != [] && Placed(chunks) && Held(chunks, blocks) && Disjoint(blocks)
    }

    constructor (capacity: nat, at: nat)
      requires 64 <= capacity && at + HEADER + capacity < SPACE
      ensures Valid() && blocks == []
      ensures chunks == [Chunk(at + HEADER, capacity, 0)]
    {
      chunks, blocks := [Chunk(at + HEADER, capacity, 0)], [];
    }

    ghost function Current(): Chunk
      requires chunks != []
      reads this
    {
      chunks[|chunks| - 1]
    }

    /** The rest of the current chunk has room for the block and the padding before it. */
    ghost predicate Fits(size: nat, align: nat)
      requires chunks != [] && 0 < align <= SPACE
      reads this
    {
      var c := Current();
      AlignUp(c.base + c.used, align) + size <= c.base + c.capacity
    }

    /** What a new chunk would hold. */
    function NextCapacity(size: nat, align: nat): nat
      requires chunks != []
      reads this
    {
      var twice := chunks[|chunks| - 1].capacity * 2;
      if twice < size + align then size + align else twice
    }

    /** A chunk obtained at `at` would lie in the address space and apart from every chunk. */
    ghost predicate Available(at: nat, capacity: nat)
      reads this
    {
      && at + HEADER + capacity < SPACE
      && forall i :: 0 <= i < |chunks| ==>
           Apart(at, HEADER + capacity, chunks[i].base - HEADER, HEADER + chunks[i].capacity)
    }

    /**
     Returns an aligned block of `size` bytes, from the current chunk when it fits
     and otherwise from a new one, which the system places at `at`.
     */
    method AllocBytes(size: nat, align: nat, at: nat) returns (addr: nat)
      requires Valid() && IsPowerOfTwo(align) && Current().base + Current().capacity + size + align < SPACE
      requires Fits(size, align) || Available(at, NextCapacity(size, align))
      modifies this
      ensures Valid()
      ensures addr % align == 0
      ensures blocks == old(blocks) + [Block(addr, size, align, |chunks| - 1)]
      ensures forall i :: 0 <= i < |old(blocks)| ==> Apart(addr, size, old(blocks)[i].addr, old(blocks)[i].size)
      ensures Current().base <= addr && addr + size == Current().base + Current().used <= Current().base + Current().capacity
      ensures old(Fits(size, align)) ==>
                && |chunks| == |old(chunks)|
                && addr == AlignUp(old(Current().base + Current().used), align)
      ensures !old(Fits(size, align)) ==>
                && |chunks| == |old(chunks)| + 1 && chunks[|chunks| - 2] == old(Current())
                && Current().base == at + 24 && Current().capacity == old(NextCapacity(size, align))
                && Current().capacity == (if 2 * old(Current()).capacity < size + align then size + align else 2 * old(Current()).capacity)
      ensures forall i :: 0 <= i < |old(chunks)| - 1 ==> chunks[i] == old(chunks)[i]
    {
      hide IsPowerOfTwo, AlignUp;
      PowerPositive(align);
      var last := |chunks| - 1;
      var base := chunks[last].base + chunks[last].used;
      AlignUpIs(base, align);
      addr := AlignUp(base, align);
      var padding := addr - base;
      if chunks[last].used + (padding + size) > chunks[last].capacity {
        AddChunk(NextCapacity(size, align), at);
        last := last + 1;
        base := chunks[last].base;
        AlignUpIs(base, align);
        addr := AlignUp(base, align);
        padding := addr - base;
      }
      Cut(addr, size, align, padding + size);
    }

    method AddChunk(capacity: nat, at: nat)
      requires Valid() && Available(at, capacity)
      modifies this
      ensures Valid() && blocks == old(blocks)
      ensures chunks == old(chunks) + [Chunk(at + HEADER, capacity, 0)]
    {
      chunks := chunks + [Chunk(at + HEADER, capacity, 0)];
    }

    /** Takes `total` bytes off the front of the free part; the block is the end of them. */
    method Cut(addr: nat, size: nat, align: nat, total: nat)
      requires Valid() && align > 0 && addr % align == 0 && size <= total
      requires Current().used + total <= Current().capacity
      requires addr + size == Current().base + Current().used + total
      modifies this
      ensures Valid()
      ensures blocks == old(blocks) + [Block(addr, size, align, |chunks| - 1)]
      ensures forall i :: 0 <= i < |old(blocks)| ==> Apart(addr, size, old(blocks)[i].addr, old(blocks)[i].size)
      ensures |chunks| == |old(chunks)|
      ensures chunks == old(chunks)[|chunks| - 1 := old(Current()).(used := old(Current().used) + total)]
    {
      var last := |chunks| - 1;
      BehindFree(chunks, blocks, addr, size);
      chunks := chunks[last := chunks[last].(used := chunks[last].used + total)];
      blocks := blocks + [Block(addr, size, align, last)];
    }
  }
}

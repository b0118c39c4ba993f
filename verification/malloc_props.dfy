/** Properties of the allocator that relate several calls: reuse after free,
    monotone growth, search hits, the kernel window and the exhaustion rule. */
module MallocProps {
  import opened Wrappers
  import opened MemBlock
  import opened Allocator

  /** Blocks are never removed, moved or resized; the sentinel stays first and
      only the returned block may change state. */
  lemma AllocOnlyGrows(h: Heap, arena: Arena, align: nat, size: nat)
    requires Valid(h) && ValidAlign(align)
    ensures AlignedAlloc(h, arena, align, size).Success? ==>
            var a := AlignedAlloc(h, arena, align, size).value;
              && |h.blocks| <= |a.heap.blocks|
              && (forall i :: 0 <= i < |h.blocks| ==>
                    && a.heap.blocks[i].addr == h.blocks[i].addr
                    && Magnitude(a.heap.blocks[i].size) == Magnitude(h.blocks[i].size))
              && (forall i :: 0 <= i < |h.blocks| && i != a.index ==> a.heap.blocks[i] == h.blocks[i])
              && a.heap.blocks[0].size == SentinelWord
              && (Initialized(h) ==> a.heap.blocks[0] == h.blocks[0])
  {
    var rounded := AlignTo(size, MinAlign);
    var h1 := Setup(h, arena, align).0;
    if AlignedAlloc(h, arena, align, size).Success? && FindBlock(h1, rounded, align).None? {
      var h2 := NewBlock(h1, rounded, align);
      assert h2.blocks[..|h1.blocks|] == h1.blocks;
      assert forall i :: 0 <= i < |h1.blocks| ==> h2.blocks[i] == h1.blocks[i];
    }
  }

  /** A search hit adds no block and does not move `top`; the found block was
      free before and is used now. */
  lemma AllocHitAddsNoBlock(h: Heap, arena: Arena, align: nat, size: nat)
    requires Valid(h) && ValidAlign(align)
    requires FindBlock(Setup(h, arena, align).0, AlignTo(size, MinAlign), align).Some?
    ensures AlignedAlloc(h, arena, align, size).Success?
    ensures var h1 := Setup(h, arena, align).0;
            var a := AlignedAlloc(h, arena, align, size).value;
              && |a.heap.blocks| == |h1.blocks|
              && TopEnd(a.heap) == TopEnd(h1)
              && a.arena == Setup(h, arena, align).1
              && !IsUsed(h1.blocks[a.index].size)
              && IsUsed(a.heap.blocks[a.index].size)
  {
    var h1 := Setup(h, arena, align).0;
    var i := FindBlock(h1, AlignTo(size, MinAlign), align).value;
    SentinelNeverFits(h1.blocks[0], AlignTo(size, MinAlign), align);
    var a := AlignedAlloc(h, arena, align, size).value;
    FootprintIgnoresFlag(h1.blocks[i]);
    if i < |h1.blocks| - 1 {
      assert Top(a.heap) == Top(h1);
    }
  }

  /** The returned pointer may be passed to free. */
  lemma AllocReturnsAllocated(h: Heap, arena: Arena, align: nat, size: nat)
    requires Valid(h) && ValidAlign(align)
    ensures AlignedAlloc(h, arena, align, size).Success? ==>
            var a := AlignedAlloc(h, arena, align, size).value;
              Allocated(a.heap, a.ptr)
  {
    if AlignedAlloc(h, arena, align, size).Success? {
      var a := AlignedAlloc(h, arena, align, size).value;
      assert 1 <= a.index < |a.heap.blocks| && Payload(a.heap.blocks[a.index]) == a.ptr;
    }
  }

  /** Allocate, free, allocate again with the same request: first fit finds
      the freed block before anything else, and the heap is back to the state
      after the first allocation (no growth, same pointer). */
  lemma {:induction false} FreeThenAllocReuses(h: Heap, arena: Arena, align: nat, size: nat)
    requires Valid(h) && ValidAlign(align)
    ensures AlignedAlloc(h, arena, align, size).Success? ==>
            var a := AlignedAlloc(h, arena, align, size).value;
              && Allocated(a.heap, a.ptr)
              && AlignedAlloc(Free(a.heap, a.ptr), a.arena, align, size) == Success(a)
  {
    if AlignedAlloc(h, arena, align, size).Success? {
      var a := AlignedAlloc(h, arena, align, size).value;
      AllocReturnsAllocated(h, arena, align, size);
      ReuseAfterFree(a, align, size);
    }
  }

  /** The step behind FreeThenAllocReuses, for any allocation that is the
      first fit of its request. */
  lemma ReuseAfterFree(a: Allocation, align: nat, size: nat)
    requires Valid(a.heap) && ValidAlign(align)
    requires 1 <= a.index < |a.heap.blocks| && a.ptr == Payload(a.heap.blocks[a.index])
    requires a.ptr % align == 0 && IsUsed(a.heap.blocks[a.index].size)
    requires Magnitude(a.heap.blocks[a.index].size) >= AlignTo(size, MinAlign)
    requires forall j :: 0 <= j < a.index ==> !Fits(a.heap.blocks[j], AlignTo(size, MinAlign), align)
    ensures Allocated(a.heap, a.ptr)
    ensures AlignedAlloc(Free(a.heap, a.ptr), a.arena, align, size) == Success(a)
  {
    var rounded := AlignTo(size, MinAlign);
    var k := a.index;
    assert Allocated(a.heap, a.ptr);
    var f := Free(a.heap, a.ptr);
    FreedIsFirstFit(a.heap, f, a.ptr, k, rounded, align);
    FindBlockIsFirstFit(f, rounded, align, k);
    assert Setup(f, a.arena, align) == (f, a.arena);
    var r := Reuse(f, a.arena, k);
    assert AlignedAlloc(f, a.arena, align, size) == Success(r);
    forall j | 0 <= j < |a.heap.blocks|
      ensures r.heap.blocks[j] == a.heap.blocks[j]
    {
      if j == k {
        UnpackPack(r.heap.blocks[k].size);
        UnpackPack(a.heap.blocks[k].size);
      } else if j < k {
        OrderedPairwise(a.heap.blocks, j, k);
      } else {
        OrderedPairwise(a.heap.blocks, k, j);
      }
    }
    assert r.heap.blocks == a.heap.blocks;
  }

  /** After freeing the first fit of a request, it is again the first fit. */
  lemma FreedIsFirstFit(h: Heap, f: Heap, p: nat, k: nat, size: nat, align: nat)
    requires Valid(h) && Allocated(h, p) && f == Free(h, p) && align > 0
    requires 1 <= k < |h.blocks| && p == Payload(h.blocks[k])
    requires p % align == 0 && Magnitude(h.blocks[k].size) >= size
    requires forall j :: 0 <= j < k ==> !Fits(h.blocks[j], size, align)
    ensures k < |f.blocks| && Fits(f.blocks[k], size, align)
    ensures forall j :: 0 <= j < k ==> !Fits(f.blocks[j], size, align)
  {
    forall j | 0 <= j < k
      ensures !Fits(f.blocks[j], size, align)
    {
      OrderedPairwise(h.blocks, j, k);
      assert f.blocks[j] == h.blocks[j];
    }
    FitsMeansFreeLargeAligned(f.blocks[k], size, align);
  }

  /** Exhaustion in the kernel: allocation aborts exactly when no block fits
      and the payload of the block that would be created ends past the window;
      a request that fits is never refused. */
  lemma KernelOutOfMemoryIff(h: Heap, begin: nat, ceiling: nat, align: nat, size: nat)
    requires Valid(h) && ValidAlign(align)
    ensures var h1 := Setup(h, Kernel(begin, ceiling), align).0;
            var rounded := AlignTo(size, MinAlign);
              AlignedAlloc(h, Kernel(begin, ceiling), align, size).Failure? <==>
                && FindBlock(h1, rounded, align).None?
                && FirstSlot(TopEnd(h1), align) + HeaderSize + rounded > ceiling
  {
  }

  /** The heap stays inside the address space the arena grants: kernel
      payloads lie inside the window, user payloads below the break, and the
      break never moves down. */
  lemma AllocStaysInArena(h: Heap, arena: Arena, align: nat, size: nat)
    requires Valid(h) && ValidAlign(align) && Resides(h, arena)
    ensures AlignedAlloc(h, arena, align, size).Success? ==>
            var a := AlignedAlloc(h, arena, align, size).value;
              && Resides(a.heap, a.arena)
              && (arena.Kernel? ==> a.arena == arena && arena.begin <= a.ptr && a.ptr + size <= arena.ceiling)
              && (arena.User? ==> arena.brk <= a.arena.brk && a.ptr + size <= a.arena.brk)
  {
    var rounded := AlignTo(size, MinAlign);
    var (h1, arena1) := Setup(h, arena, align);
    match FindBlock(h1, rounded, align)
    case Some(k) =>
      SentinelNeverFits(h1.blocks[0], rounded, align);
      ReuseStaysInArena(h1, arena1, k);
    case None =>
      GrowStaysInArena(h1, arena1, rounded, align);
  }

  /** A search hit reuses a block that already lay inside the arena. */
  lemma ReuseStaysInArena(h: Heap, arena: Arena, k: nat)
    requires Valid(h) && 1 <= k < |h.blocks| && Resides(h, arena)
    ensures var a := Reuse(h, arena, k);
              && Resides(a.heap, arena)
              && (arena.Kernel? ==> arena.begin <= a.ptr && PayloadEnd(a.heap.blocks[k]) <= arena.ceiling)
              && (arena.User? ==> PayloadEnd(a.heap.blocks[k]) <= arena.brk)
  {
    var a := Reuse(h, arena, k);
    assert forall i :: 0 <= i < |h.blocks| ==> PayloadEnd(a.heap.blocks[i]) == PayloadEnd(h.blocks[i]);
    OrderedPairwise(h.blocks, 0, k);
  }

  /** A new block is only created once the arena covers its payload. */
  lemma GrowStaysInArena(h: Heap, arena: Arena, size: nat, align: nat)
    requires Valid(h) && Initialized(h) && Resides(h, arena)
    requires ValidAlign(align) && size % MinAlign == 0
    requires forall j :: 0 <= j < |h.blocks| ==> !Fits(h.blocks[j], size, align)
    ensures Grow(h, arena, size, align).Success? ==>
            var a := Grow(h, arena, size, align).value;
              && Resides(a.heap, a.arena)
              && (arena.Kernel? ==> a.arena == arena && arena.begin <= a.ptr && a.ptr + size <= arena.ceiling)
              && (arena.User? ==> arena.brk <= a.arena.brk && a.ptr + size <= a.arena.brk)
  {
    if Grow(h, arena, size, align).Success? {
      var a := Grow(h, arena, size, align).value;
      NewBlockPayloadEnds(h, size, align);
      GrownResides(h, arena, a, size, FirstSlot(TopEnd(h), align) + HeaderSize + size);
    }
  }

  /** The arena facts behind GrowStaysInArena, for any heap extended by
      blocks whose payloads end at or before the checked `end`. */
  lemma GrownResides(h: Heap, arena: Arena, a: Allocation, size: nat, end: nat)
    requires Valid(h) && Initialized(h) && Resides(h, arena)
    requires |h.blocks| <= |a.heap.blocks|
    requires forall i :: 0 <= i < |h.blocks| ==> a.heap.blocks[i] == h.blocks[i]
    requires forall i :: |h.blocks| <= i < |a.heap.blocks| ==> PayloadEnd(a.heap.blocks[i]) <= end
    requires a.ptr + size == end
    requires arena.Kernel? ==> a.arena == arena && end <= arena.ceiling
    requires arena.User? ==> a.arena.User? && arena.brk <= a.arena.brk && end <= a.arena.brk
    requires TopEnd(h) + HeaderSize <= a.ptr
    ensures Resides(a.heap, a.arena)
    ensures arena.Kernel? ==> arena.begin <= a.ptr && a.ptr + size <= arena.ceiling
    ensures arena.User? ==> a.ptr + size <= a.arena.brk
  {
    assert a.heap.blocks[0] == h.blocks[0];
    match arena
    case Kernel(begin, ceiling) =>
      ExtendBelow(h, a.heap, ceiling, 1);
      if |h.blocks| > 1 {
        OrderedPairwise(h.blocks, 0, |h.blocks| - 1);
      }
    case User(brk) =>
      ExtendBelow(h, a.heap, a.arena.brk, 0);
  }

  /** A heap that extends `h` keeps a bound on payload ends when the blocks
      it adds respect it too. */
  lemma ExtendBelow(h: Heap, r: Heap, end: nat, from: nat)
    requires |h.blocks| <= |r.blocks|
    requires forall i :: 0 <= i < |h.blocks| ==> r.blocks[i] == h.blocks[i]
    requires forall i :: |h.blocks| <= i < |r.blocks| ==> PayloadEnd(r.blocks[i]) <= end
    requires forall i :: from <= i < |h.blocks| ==> PayloadEnd(h.blocks[i]) <= end
    ensures forall i :: from <= i < |r.blocks| ==> PayloadEnd(r.blocks[i]) <= end
  {
    forall i | from <= i < |r.blocks|
      ensures PayloadEnd(r.blocks[i]) <= end
    {
      if i < |h.blocks| {
        assert r.blocks[i] == h.blocks[i];
      }
    }
  }

  /** Every block mem_new_block adds has its payload end at or before the
      `end` aligned_alloc checks, and the new block's payload ends exactly
      there. */
  lemma NewBlockPayloadEnds(h: Heap, size: nat, align: nat)
    requires Valid(h) && Initialized(h)
    requires ValidAlign(align) && size % MinAlign == 0
    ensures var r := NewBlock(h, size, align);
            var end := FirstSlot(TopEnd(h), align) + HeaderSize + size;
              && Payload(Top(r)) + size == end
              && (forall i :: 0 <= i < |h.blocks| ==> r.blocks[i] == h.blocks[i])
              && (forall i :: |h.blocks| <= i < |r.blocks| ==> PayloadEnd(r.blocks[i]) <= end)
  {
    var r := NewBlock(h, size, align);
    FillerPlacement(h, size, align);
    assert r.blocks[..|h.blocks|] == h.blocks;
  }

  /** malloc never hands out the same payload twice while it is in use: a
      successful call returns a block that was free or did not exist. */
  lemma AllocReturnsFreshBlock(h: Heap, arena: Arena, align: nat, size: nat, j: nat)
    requires Valid(h) && ValidAlign(align)
    requires j < |h.blocks| && IsUsed(h.blocks[j].size)
    ensures AlignedAlloc(h, arena, align, size).Success? ==>
              Payload(h.blocks[j]) != AlignedAlloc(h, arena, align, size).value.ptr
  {
    if AlignedAlloc(h, arena, align, size).Success? {
      var a := AlignedAlloc(h, arena, align, size).value;
      AllocOnlyGrows(h, arena, align, size);
      if j < a.index {
        OrderedPairwise(a.heap.blocks, j, a.index);
      } else if j > a.index {
        OrderedPairwise(a.heap.blocks, a.index, j);
      }
    }
  }
}

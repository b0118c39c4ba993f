/** The first-fit allocator: block search, block creation with an alignment
    filler, `aligned_alloc`/`malloc` with the growth capability abstracted as
    an arena, and `free`. */
module Allocator {
  import opened Wrappers
  import opened MemBlock

  /** Where fresh address space comes from. In the kernel the heap is the fixed
      window starting at `begin` whose payloads may not pass `ceiling`
      (KERNEL_HEAP_BEGIN + KERNEL_HEAP_SIZE); in user space `brk` is the
      program break, which `sbrk` raises on demand. */
  datatype Arena = Kernel(begin: nat, ceiling: nat) | User(brk: nat)

  datatype AllocError = OutOfMemory

  /** The state after a successful allocation: the heap, the arena, the
      position of the returned block in the list and the payload address. */
  datatype Allocation = Allocation(heap: Heap, arena: Arena, index: nat, ptr: nat)

  /** The alignments the allocator handles: positive multiples of MIN_ALIGN.
      Other values can break the code: 0 makes `align_to` divide by zero;
      1, 2 and 4 make the filler test subtract past zero whenever `top` ends
      at 4 modulo 8, as it does while payloads are 8-aligned; any other value
      can return a payload that is not 8-aligned. */
  predicate ValidAlign(align: nat) {
    align > 0 && align % MinAlign == 0
  }

  /** Every payload handed out lies inside the address space the arena has
      granted; in the kernel the sentinel is not below the window. */
  predicate Resides(h: Heap, arena: Arena) {
    var bs := h.blocks;
    match arena
    case Kernel(begin, ceiling) =>
      && (|bs| > 0 ==> bs[0].addr >= begin)
      && forall i :: 1 <= i < |bs| ==> PayloadEnd(bs[i]) <= ceiling
    case User(brk) =>
      forall i :: 0 <= i < |bs| ==> PayloadEnd(bs[i]) <= brk
  }

  /** Lazy setup on the first allocation: a used, zero-size sentinel becomes
      both `bottom` and `top`. In the kernel it sits at the first slot of the
      window; in user space at the old break returned by `sbrk(header_size)`. */
  function Setup(h: Heap, arena: Arena, align: nat): (r: (Heap, Arena))
    requires Valid(h) && align > 0
    ensures Initialized(r.0) && Valid(r.0)
    ensures r.0.blocks[0].size == SentinelWord
    ensures Initialized(h) ==> r == (h, arena)
    ensures !Initialized(h) ==> |r.0.blocks| == 1
    ensures !Initialized(h) ==>
              r.0.blocks[0].addr == (match arena
                                     case Kernel(begin, _) => FirstSlot(begin, align)
                                     case User(brk) => brk)
    ensures !Initialized(h) && arena.User? ==> r.1 == User(arena.brk + HeaderSize)
    ensures Resides(h, arena) ==> Resides(r.0, r.1)
    ensures r.1.Kernel? <==> arena.Kernel?
    ensures arena.Kernel? ==> r.1 == arena
    ensures arena.User? ==> r.1.brk >= arena.brk
  {
    if Initialized(h) then (h, arena)
    else
      match arena
      case Kernel(begin, _) => (Heap([Block(FirstSlot(begin, align), SentinelWord)]), arena)
      case User(brk) => (Heap([Block(brk, SentinelWord)]), User(brk + HeaderSize))
  }

  /** The loop test of mem_find_block, on the raw size word: the block is
      taken unless `size < request`, the used bit is set or the payload is
      misaligned. */
  predicate Fits(b: Block, size: nat, align: nat)
    requires align > 0
  {
    !(b.size < size || b.size % 2 == 1 || !PayloadAligned(b.addr, align))
  }

  /** Comparing the raw word is sound: a block fits exactly when it is free,
      its magnitude covers the request and its payload is aligned. */
  lemma FitsMeansFreeLargeAligned(b: Block, size: nat, align: nat)
    requires align > 0
    ensures Fits(b, size, align) <==>
              !IsUsed(b.size) && Magnitude(b.size) >= size && PayloadAligned(b.addr, align)
  {
  }

  /** The sentinel never satisfies a search. */
  lemma SentinelNeverFits(b: Block, size: nat, align: nat)
    requires align > 0 && b.size == SentinelWord
    ensures !Fits(b, size, align)
  {
  }

  /** The walk from position `i` along the `next` links. */
  function FindFrom(bs: seq<Block>, size: nat, align: nat, i: nat): (r: Option<nat>)
    requires align > 0 && i <= |bs|
    ensures r.Some? ==> i <= r.value < |bs| && Fits(bs[r.value], size, align)
    ensures r.Some? ==> forall j :: i <= j < r.value ==> !Fits(bs[j], size, align)
    ensures r.None? ==> forall j :: i <= j < |bs| ==> !Fits(bs[j], size, align)
    decreases |bs| - i
  {
    if i == |bs| then None
    else if Fits(bs[i], size, align) then Some(i)
    else FindFrom(bs, size, align, i + 1)
  }

  /** mem_find_block: the first block in list order that fits; None when the
      heap is empty or no block fits. */
  function FindBlock(h: Heap, size: nat, align: nat): (r: Option<nat>)
    requires align > 0
    ensures r.Some? ==> r.value < |h.blocks| && Fits(h.blocks[r.value], size, align)
    ensures r.Some? ==> forall j :: 0 <= j < r.value ==> !Fits(h.blocks[j], size, align)
    ensures r.None? <==> forall j :: 0 <= j < |h.blocks| ==> !Fits(h.blocks[j], size, align)
  {
    FindFrom(h.blocks, size, align, 0)
  }

  /** First fit is determined: the block that fits with nothing fitting before
      it is the one the search returns. */
  lemma FindBlockIsFirstFit(h: Heap, size: nat, align: nat, k: nat)
    requires align > 0 && k < |h.blocks|
    requires Fits(h.blocks[k], size, align)
    requires forall j :: 0 <= j < k ==> !Fits(h.blocks[j], size, align)
    ensures FindBlock(h, size, align) == Some(k)
  {
  }

  /** The gap between the first 8-aligned slot and the new block's slot is a
      multiple of MIN_ALIGN, so a filler spanning it has a magnitude that is
      4 more than a multiple of 8: even, but not a multiple of MIN_ALIGN. */
  lemma SlotGap(next: nat, align: nat)
    requires ValidAlign(align)
    ensures next <= FirstSlot(next, MinAlign) <= FirstSlot(next, align)
    ensures PayloadAligned(FirstSlot(next, MinAlign), MinAlign)
    ensures PayloadAligned(FirstSlot(next, align), MinAlign)
    ensures (FirstSlot(next, align) - FirstSlot(next, MinAlign)) % MinAlign == 0
    ensures FirstSlot(next, align) - FirstSlot(next, MinAlign) >= BlockSize ==>
              && (FirstSlot(next, align) - FirstSlot(next, MinAlign) - BlockSize) % MinAlign == 4
              && (FirstSlot(next, align) - FirstSlot(next, MinAlign) - BlockSize) % 2 == 0
  {
    FirstSlotCoarser(next, align);
    GapArith(FirstSlot(next, align), FirstSlot(next, MinAlign));
  }

  lemma GapArith(s: nat, f: nat)
    requires (s + 8) % 8 == 0 && (f + 8) % 8 == 0 && f <= s
    ensures (s - f) % 8 == 0
    ensures s - f >= 12 ==> (s - f - 12) % 8 == 4 && (s - f - 12) % 2 == 0
  {
    var qs, qf := (s + 8) / 8, (f + 8) / 8;
    assert s + 8 == 8 * qs && f + 8 == 8 * qf;
    DivModUnique(s - f, 8, qs - qf, 0);
    if s - f >= 12 {
      DivModUnique(s - f - 12, 8, qs - qf - 2, 4);
      DivModUnique(s - f - 12, 2, 4 * (qs - qf - 2) + 2, 0);
    }
  }

  /** Appending a block past `top` with an 8-aligned payload keeps the heap
      valid and makes that block the new `top`. */
  lemma AppendValid(h: Heap, b: Block)
    requires Valid(h) && Initialized(h)
    requires TopEnd(h) <= b.addr && PayloadAligned(b.addr, MinAlign)
    ensures Valid(Heap(h.blocks + [b]))
  {
    OrderedAppend(h.blocks, b);
    var bs := h.blocks + [b];
    assert bs[0] == h.blocks[0];
    forall i | 1 <= i < |bs|
      ensures PayloadAligned(bs[i].addr, MinAlign)
    {
      if i < |h.blocks| {
        assert bs[i] == h.blocks[i];
      }
    }
  }

  /** mem_new_block: append a used block of magnitude `size` at the first
      slot after `top` whose payload is a multiple of `align`, preceded by a
      free filler covering the alignment gap when that gap is larger than
      `sizeof(mem_block_t) + MIN_ALIGN`. */
  function NewBlock(h: Heap, size: nat, align: nat): (r: Heap)
    requires Valid(h) && Initialized(h)
    requires ValidAlign(align) && size % MinAlign == 0
    ensures Valid(r)
    ensures |h.blocks| < |r.blocks| <= |h.blocks| + 2
    ensures r.blocks[..|h.blocks|] == h.blocks
    ensures Top(r).addr == FirstSlot(TopEnd(h), align)
    ensures IsUsed(Top(r).size) && Magnitude(Top(r).size) == size
  {
    NewTailFacts(h, size, align);
    Heap(h.blocks + NewTail(h, size, align))
  }

  /** The blocks mem_new_block links after `top`: the optional filler, then
      the new block. */
  function NewTail(h: Heap, size: nat, align: nat): seq<Block>
    requires Initialized(h) && ValidAlign(align) && size % MinAlign == 0
  {
    var next := TopEnd(h);
    var nextAligned := FirstSlot(next, align);
    SlotGap(next, align);
    MultipleTransitive(size, MinAlign, 2);
    var block := Block(nextAligned, Pack(size, true));
    var fill := FirstSlot(next, MinAlign);
    if nextAligned - fill > BlockSize + MinAlign then
      [Block(fill, Pack(nextAligned - fill - BlockSize, false)), block]
    else
      [block]
  }

  lemma NewTailFacts(h: Heap, size: nat, align: nat)
    requires Valid(h) && Initialized(h)
    requires ValidAlign(align) && size % MinAlign == 0
    ensures var t := NewTail(h, size, align);
              && 1 <= |t| <= 2
              && Valid(Heap(h.blocks + t))
              && t[|t| - 1].addr == FirstSlot(TopEnd(h), align)
              && IsUsed(t[|t| - 1].size) && Magnitude(t[|t| - 1].size) == size
  {
    var next := TopEnd(h);
    SlotGap(next, align);
    var t := NewTail(h, size, align);
    if |t| == 2 {
      AppendTwoValid(h, t[0], t[1]);
    } else {
      AppendValid(h, t[0]);
    }
  }

  /** The filler and the new block appended together keep the heap valid. */
  lemma AppendTwoValid(h: Heap, f: Block, b: Block)
    requires Valid(h) && Initialized(h)
    requires TopEnd(h) <= f.addr && PayloadAligned(f.addr, MinAlign)
    requires End(f) <= b.addr && PayloadAligned(b.addr, MinAlign)
    ensures Valid(Heap(h.blocks + [f, b]))
  {
    AppendValid(h, f);
    AppendValid(Heap(h.blocks + [f]), b);
    assert h.blocks + [f] + [b] == h.blocks + [f, b];
  }

  /** The filler of mem_new_block: present exactly when the gap between the
      first 8-aligned slot after `top` and the new block exceeds
      `sizeof(mem_block_t) + MIN_ALIGN`; it is free, starts at that slot, has
      an 8-aligned payload, and its footprint ends exactly where the new block
      begins. Its magnitude is 4 more than a multiple of 8. */
  lemma FillerPlacement(h: Heap, size: nat, align: nat)
    requires Valid(h) && Initialized(h)
    requires ValidAlign(align) && size % MinAlign == 0
    ensures var r := NewBlock(h, size, align);
              |r.blocks| == |h.blocks| + 2 <==>
                FirstSlot(TopEnd(h), align) - FirstSlot(TopEnd(h), MinAlign) > BlockSize + MinAlign
    ensures var r := NewBlock(h, size, align);
              |r.blocks| == |h.blocks| + 2 ==>
                var f := r.blocks[|h.blocks|];
                && f.addr == FirstSlot(TopEnd(h), MinAlign)
                && !IsUsed(f.size)
                && PayloadAligned(f.addr, MinAlign)
                && Magnitude(f.size) % MinAlign == 4
                && End(f) == Top(r).addr
  {
    SlotGap(TopEnd(h), align);
  }

  /** A search hit: only the found block's used bit is set. */
  function Reuse(h: Heap, arena: Arena, i: nat): (r: Allocation)
    requires Valid(h) && 1 <= i < |h.blocks|
    ensures Valid(r.heap)
    ensures r.index == i && r.arena == arena
    ensures |r.heap.blocks| == |h.blocks|
    ensures forall j :: 0 <= j < |h.blocks| && j != i ==> r.heap.blocks[j] == h.blocks[j]
    ensures r.heap.blocks[i].addr == h.blocks[i].addr && IsUsed(r.heap.blocks[i].size)
    ensures Magnitude(r.heap.blocks[i].size) == Magnitude(h.blocks[i].size)
    ensures r.ptr == Payload(h.blocks[i])
  {
    var b := h.blocks[i];
    var bs := h.blocks[i := Block(b.addr, MarkUsed(b.size))];
    SameLayoutValid(h, bs);
    Allocation(Heap(bs), arena, i, Payload(b))
  }

  /** The miss path of aligned_alloc: check the growth bound for the payload
      end of the block about to be created, then create it. */
  function Grow(h: Heap, arena: Arena, size: nat, align: nat): (r: Result<Allocation, AllocError>)
    requires Valid(h) && Initialized(h)
    requires ValidAlign(align) && size % MinAlign == 0
    requires forall j :: 0 <= j < |h.blocks| ==> !Fits(h.blocks[j], size, align)
    ensures r.Failure? <==> arena.Kernel? && FirstSlot(TopEnd(h), align) + HeaderSize + size > arena.ceiling
    ensures r.Success? ==>
              var a := r.value;
              && a.heap == NewBlock(h, size, align)
              && a.index == |a.heap.blocks| - 1
              && a.ptr == Payload(Top(a.heap))
              && a.ptr == FirstSlot(TopEnd(h), align) + HeaderSize
              && (arena.Kernel? ==> a.arena == arena)
              && (arena.User? ==> a.arena.User? && arena.brk <= a.arena.brk && a.ptr + size <= a.arena.brk)
              && (forall j :: 0 <= j < a.index ==> !Fits(a.heap.blocks[j], size, align))
  {
    var end := AlignTo(TopEnd(h) + HeaderSize, align) + size;
    if arena.Kernel? && end > arena.ceiling then Failure(OutOfMemory)
    else
      var arena2 := if arena.User? && end > arena.brk then User(end) else arena;
      var h2 := NewBlock(h, size, align);
      var last := |h2.blocks| - 1;
      assert forall j :: 0 <= j < |h.blocks| ==> h2.blocks[j] == h.blocks[j] by {
        assert h2.blocks[..|h.blocks|] == h.blocks;
      }
      forall j | |h.blocks| <= j < last
        ensures !Fits(h2.blocks[j], size, align)
      {
        assert TopEnd(h) <= h2.blocks[j].addr < FirstSlot(TopEnd(h), align);
      }
      Success(Allocation(h2, arena2, last, Payload(Top(h2))))
  }

  /** aligned_alloc: round the size up to MIN_ALIGN, set the heap up on first
      use, reuse the first fitting block or else grow the heap by a new block.
      The kernel aborts (OutOfMemory) when the new payload would end past the
      window; user space raises the break to cover it. */
  function AlignedAlloc(h: Heap, arena: Arena, align: nat, size: nat): (r: Result<Allocation, AllocError>)
    requires Valid(h) && ValidAlign(align)
    ensures r.Failure? ==> arena.Kernel?
    ensures r.Success? ==>
              var a := r.value;
              && Valid(a.heap)
              && 1 <= a.index < |a.heap.blocks|
              && a.ptr == Payload(a.heap.blocks[a.index])
              && a.ptr % align == 0
              && IsUsed(a.heap.blocks[a.index].size)
              && Magnitude(a.heap.blocks[a.index].size) >= AlignTo(size, MinAlign) >= size
              && (forall j :: 0 <= j < a.index ==> !Fits(a.heap.blocks[j], AlignTo(size, MinAlign), align))
              && (a.arena.Kernel? <==> arena.Kernel?)
  {
    var rounded := AlignTo(size, MinAlign);
    var (h1, arena1) := Setup(h, arena, align);
    match FindBlock(h1, rounded, align)
    case Some(i) =>
      SentinelNeverFits(h1.blocks[0], rounded, align);
      Success(Reuse(h1, arena1, i))
    case None =>
      Grow(h1, arena1, rounded, align)
  }

  /** malloc: aligned_alloc with MIN_ALIGN. */
  function Malloc(h: Heap, arena: Arena, size: nat): (r: Result<Allocation, AllocError>)
    requires Valid(h)
    ensures r.Failure? ==> arena.Kernel?
    ensures r.Success? ==>
              && Valid(r.value.heap)
              && 1 <= r.value.index < |r.value.heap.blocks|
              && r.value.ptr == Payload(r.value.heap.blocks[r.value.index])
              && r.value.ptr % MinAlign == 0
              && IsUsed(r.value.heap.blocks[r.value.index].size)
              && Magnitude(r.value.heap.blocks[r.value.index].size) >= size
  {
    AlignedAlloc(h, arena, MinAlign, size)
  }

  /** The pointer is the payload of a block other than the sentinel, as
      every pointer returned by `malloc` is. */
  predicate Allocated(h: Heap, p: nat) {
    exists i :: 1 <= i < |h.blocks| && Payload(h.blocks[i]) == p
  }

  /** Clear the used bit of the block at address `a`, leaving the rest. */
  function ClearAt(bs: seq<Block>, a: nat): (r: seq<Block>)
    ensures |r| == |bs|
    ensures forall i :: 0 <= i < |bs| && bs[i].addr != a ==> r[i] == bs[i]
    ensures forall i :: 0 <= i < |bs| && bs[i].addr == a ==> r[i] == Block(a, MarkFree(bs[i].size))
  {
    if |bs| == 0 then []
    else
      var b := if bs[0].addr == a then Block(a, MarkFree(bs[0].size)) else bs[0];
      [b] + ClearAt(bs[1..], a)
  }

  /** free: recover the block with mem_get_block and clear its used bit.
      Magnitudes, addresses and the list itself are unchanged. */
  function Free(h: Heap, p: nat): (r: Heap)
    requires Valid(h) && Allocated(h, p)
    ensures Valid(r)
    ensures |r.blocks| == |h.blocks|
    ensures forall i :: 0 <= i < |h.blocks| ==>
              && r.blocks[i].addr == h.blocks[i].addr
              && Magnitude(r.blocks[i].size) == Magnitude(h.blocks[i].size)
    ensures forall i :: 0 <= i < |h.blocks| && Payload(h.blocks[i]) == p ==> !IsUsed(r.blocks[i].size)
    ensures forall i :: 0 <= i < |h.blocks| && Payload(h.blocks[i]) != p ==> r.blocks[i] == h.blocks[i]
  {
    FreeKeepsValid(h, p);
    Heap(ClearAt(h.blocks, GetBlock(p)))
  }

  /** Clearing a flag moves no block and spares the sentinel. */
  lemma FreeKeepsValid(h: Heap, p: nat)
    requires Valid(h) && Allocated(h, p)
    ensures p >= HeaderSize
    ensures Valid(Heap(ClearAt(h.blocks, GetBlock(p))))
  {
    var k :| 1 <= k < |h.blocks| && Payload(h.blocks[k]) == p;
    var bs := ClearAt(h.blocks, GetBlock(p));
    OrderedPairwise(h.blocks, 0, k);
    SameLayoutValid(h, bs);
  }

  /** Changing only used flags, and not the sentinel's, keeps a heap valid. */
  lemma SameLayoutValid(h: Heap, bs: seq<Block>)
    requires Valid(h) && |bs| == |h.blocks|
    requires |bs| > 0 ==> bs[0] == h.blocks[0]
    requires forall i :: 0 <= i < |bs| ==>
               bs[i].addr == h.blocks[i].addr && Magnitude(bs[i].size) == Magnitude(h.blocks[i].size)
    ensures Valid(Heap(bs))
  {
    forall i | 0 <= i < |bs| - 1
      ensures End(bs[i]) <= bs[i + 1].addr
    {
      assert End(bs[i]) == End(h.blocks[i]);
    }
  }
}

/** The allocator's arithmetic as written on 32-bit unsigned integers, and the
    inputs on which it departs from what the code evidently intends. The rest
    of the model uses the intended, non-wrapping arithmetic of MemBlock and
    Allocator; the lemmas here show that model refusing the same inputs. */
module MallocFindings {
  import opened Wrappers
  import opened MemBlock
  import opened Allocator
  import opened MallocProps
  import MallocScenarios

  /** 2^32: every `uint32_t` and `uintptr_t` computation is taken modulo it. */
  const Word: nat := 0x1_0000_0000

  /** align_to as compiled: the addition wraps modulo 2^32. */
  function AlignTo32(n: nat, align: nat): (r: nat)
    requires 0 < align < Word && n < Word
    ensures r < Word
    ensures r == AlignTo(n, align) % Word
    ensures AlignTo(n, align) < Word ==> r == AlignTo(n, align)
  {
    if n % align == 0 then n else (n + (align - n % align)) % Word
  }

  /** Rounding the request at the top of aligned_alloc wraps to zero for the
      largest sizes, so a request of almost 4 GiB becomes a request for
      nothing, while the intended rounding leaves 32 bits. */
  lemma RoundingWrapsToZero()
    ensures AlignTo32(0xFFFF_FFF9, MinAlign) == 0
    ensures AlignTo(0xFFFF_FFF9, MinAlign) == Word
  {
  }

  /** The kernel's bound check as written: `end` is computed modulo 2^32
      before it is compared with the end of the window. Whenever nothing
      wraps it is the intended check on the new block's payload end. */
  function KernelCheckPasses32(topEnd: nat, align: nat, size: nat, ceiling: nat): (ok: bool)
    requires 0 < align < Word && topEnd + HeaderSize < Word && size < Word
    ensures AlignTo(topEnd + HeaderSize, align) + size < Word ==>
              (ok <==> FirstSlot(topEnd, align) + HeaderSize + size <= ceiling)
  {
    var end := (AlignTo32(topEnd + HeaderSize, align) + size) % Word;
    !(end > ceiling)
  }

  /** With a 4096-byte window at 0x1000 and only the sentinel in it, a
      request of 0xFFFF_F000 bytes passes the check as written: its payload
      end 0x1_0000_0018 wraps to 0x18. */
  lemma EndWrapsPastCheck()
    ensures KernelCheckPasses32(0x100C, MinAlign, 0xFFFF_F000, 0x2000)
    ensures AlignTo(0x100C + HeaderSize, MinAlign) + 0xFFFF_F000 > 0x2000
  {
    assert AlignTo32(0x1014, MinAlign) == 0x1018;
  }

  /** aligned_alloc as written with the shadowing local of line 194: the
      search (line 186) uses the requested `align`, but the bound check
      (line 195) and mem_new_block (line 210) read a fresh, uninitialised
      `align`, modelled as an arbitrary value `stale`. When `stale` happens
      to equal the request this is the intended AlignedAlloc. */
  function AlignedAllocStale(h: Heap, arena: Arena, align: nat, stale: nat, size: nat)
    : (r: Result<Allocation, AllocError>)
    requires Valid(h) && ValidAlign(align) && ValidAlign(stale)
    ensures r.Failure? ==> arena.Kernel?
    ensures r.Success? ==>
              && Valid(r.value.heap)
              && r.value.index < |r.value.heap.blocks|
              && r.value.ptr == Payload(r.value.heap.blocks[r.value.index])
    ensures stale == align ==> r == AlignedAlloc(h, arena, align, size)
  {
    var rounded := AlignTo(size, MinAlign);
    var (h1, arena1) := Setup(h, arena, align);
    match FindBlock(h1, rounded, align)
    case Some(i) =>
      SentinelNeverFits(h1.blocks[0], rounded, align);
      Success(Reuse(h1, arena1, i))
    case None =>
      GrowStaleAgrees(h1, arena1, rounded, align);
      GrowStale(h1, arena1, rounded, stale)
  }

  /** Lines 192-210 with the stale value in both the bound check and the
      call to mem_new_block. */
  function GrowStale(h: Heap, arena: Arena, size: nat, stale: nat): (r: Result<Allocation, AllocError>)
    requires Valid(h) && Initialized(h)
    requires ValidAlign(stale) && size % MinAlign == 0
    ensures r.Failure? ==> arena.Kernel?
    ensures r.Success? ==>
              && Valid(r.value.heap)
              && r.value.index < |r.value.heap.blocks|
              && r.value.ptr == Payload(r.value.heap.blocks[r.value.index])
              && r.value.ptr % stale == 0
  {
    var end := AlignTo(TopEnd(h) + HeaderSize, stale) + size;
    if arena.Kernel? && end > arena.ceiling then Failure(OutOfMemory)
    else
      var arena2 := if arena.User? && end > arena.brk then User(end) else arena;
      var h2 := NewBlock(h, size, stale);
      Success(Allocation(h2, arena2, |h2.blocks| - 1, Payload(Top(h2))))
  }

  /** When the stale value is the requested alignment, the miss path as
      written is the intended one. */
  lemma GrowStaleAgrees(h: Heap, arena: Arena, size: nat, align: nat)
    requires Valid(h) && Initialized(h)
    requires ValidAlign(align) && size % MinAlign == 0
    requires forall j :: 0 <= j < |h.blocks| ==> !Fits(h.blocks[j], size, align)
    ensures GrowStale(h, arena, size, align) == Grow(h, arena, size, align)
  {
  }

  /** The heap `malloc(8)` leaves behind in a fresh window at 0x1000: the
      sentinel and one used 8-byte block at 0x1010. */
  const AfterMalloc8: Heap := Heap([Block(0x1000, SentinelWord), Block(0x1010, 9)])

  /** With a stale value of 8, `aligned_alloc(4096, 8)` after a first
      `malloc(8)` passes the check and returns 0x1030, which is not a
      multiple of the requested 4096. */
  lemma StaleAlignMisaligns()
    ensures Malloc(Heap([]), MallocScenarios.Window, 8)
              == Success(Allocation(AfterMalloc8, MallocScenarios.Window, 1, 0x1018))
    ensures Valid(AfterMalloc8)
    ensures AlignedAllocStale(AfterMalloc8, MallocScenarios.Window, 4096, 8, 8)
              == Success(Allocation(Heap(AfterMalloc8.blocks + [Block(0x1028, 9)]),
                                    MallocScenarios.Window, 2, 0x1030))
    ensures 0x1030 % 4096 != 0
  {
    MallocScenarios.FirstAllocation(8, 8, 9);
    var h := AfterMalloc8;
    assert FindBlock(h, 8, 4096) == None;
    assert TopEnd(h) == 0x1024;
    assert AlignTo(0x102C, 8) == 0x1030;
    assert FirstSlot(0x1024, MinAlign) == 0x1028;
    assert NewBlock(h, 8, 8) == Heap(h.blocks + [Block(0x1028, 9)]);
  }

  /** The intended behaviour, proved of the model: in the kernel, a request
      that cannot fit between the first payload and the end of the window is
      refused, whatever the heap holds. The two wrapping inputs above are
      such requests. */
  lemma OversizedRequestFails(h: Heap, begin: nat, ceiling: nat, align: nat, size: nat)
    requires Valid(h) && ValidAlign(align) && Resides(h, Kernel(begin, ceiling))
    requires begin + size > ceiling
    ensures AlignedAlloc(h, Kernel(begin, ceiling), align, size) == Failure(OutOfMemory)
  {
    if AlignedAlloc(h, Kernel(begin, ceiling), align, size).Success? {
      AllocStaysInArena(h, Kernel(begin, ceiling), align, size);
    }
  }

  /** The intended allocator uses the requested alignment throughout: the
      8-byte, 4096-aligned request of StaleAlignMisaligns would need a payload
      at 0x2000, whose end the window cannot hold, so it is refused. */
  lemma RequestedAlignIsChecked()
    ensures Valid(AfterMalloc8)
    ensures AlignedAlloc(AfterMalloc8, MallocScenarios.Window, 4096, 8) == Failure(OutOfMemory)
  {
    var h := AfterMalloc8;
    assert FindBlock(h, 8, 4096) == None;
    assert TopEnd(h) == 0x1024;
    assert AlignTo(0x102C, 4096) == 0x2000;
  }

  /** The intended check refuses both wrapping requests of the findings in a
      window of 4096 bytes at 0x1000. */
  lemma WrappingRequestsRefused(h: Heap, align: nat)
    requires Valid(h) && ValidAlign(align) && Resides(h, Kernel(0x1000, 0x2000))
    ensures AlignedAlloc(h, Kernel(0x1000, 0x2000), align, 0xFFFF_FFF9) == Failure(OutOfMemory)
    ensures AlignedAlloc(h, Kernel(0x1000, 0x2000), align, 0xFFFF_F000) == Failure(OutOfMemory)
  {
    OversizedRequestFails(h, 0x1000, 0x2000, align, 0xFFFF_FFF9);
    OversizedRequestFails(h, 0x1000, 0x2000, align, 0xFFFF_F000);
  }
}

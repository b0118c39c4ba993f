/** The block layout of the SnowflakeOS allocator on i386: address arithmetic,
    the packed size word and the invariants of the address-ordered block list.
    Addresses are natural numbers; a block is identified by its header address. */
module MemBlock {

  /** MIN_ALIGN: the alignment of every payload handed out by `malloc`. */
  const MinAlign: nat := 8
  /** offsetof(mem_block_t, data): the payload sits after the `next` and `size` words. */
  const HeaderSize: nat := 8
  /** sizeof(mem_block_t): two 4-byte words plus `data[1]`, padded to 12 bytes. */
  const BlockSize: nat := 12
  /** The size word of the sentinel block: used, magnitude 0. */
  const SentinelWord: nat := 1

  /** The smallest multiple of `align` that is at least `n` (align_to). */
  function AlignTo(n: nat, align: nat): (r: nat)
    requires align > 0
    ensures r % align == 0
    ensures n <= r < n + align
    ensures n % align == 0 ==> r == n
  {
    if n % align == 0 then n
    else
      var q := n / align;
      assert n == align * q + n % align;
      assert align * (q + 1) == align * q + align;
      DivModUnique(n + (align - n % align), align, q + 1, 0);
      n + (align - n % align)
  }

  /** No multiple of `align` lies between `n` and AlignTo(n, align). */
  lemma AlignToMinimal(n: nat, align: nat, m: nat)
    requires align > 0 && m % align == 0 && n <= m
    ensures AlignTo(n, align) <= m
  {
    var r := AlignTo(n, align);
    var q1, q2 := r / align, m / align;
    assert r == align * q1 + r % align;
    assert m == align * q2 + m % align;
    assert align * (q1 - q2) == align * q1 - align * q2;
    assert align * (q2 - q1) == align * q2 - align * q1;
    if q1 > q2 {
      MulAtLeast(align, q1 - q2);
    } else if q1 < q2 {
      MulAtLeast(align, q2 - q1);
    }
  }

  lemma MulAtLeast(a: int, d: int)
    requires a > 0 && d >= 1
    ensures a * d >= a
  {
    if d > 1 {
      MulAtLeast(a, d - 1);
      assert a * d == a * (d - 1) + a;
    }
  }

  /** Euclidean division is determined by quotient and remainder. */
  lemma DivModUnique(n: int, a: int, q: int, r: int)
    requires a > 0 && 0 <= r < a && n == a * q + r
    ensures n % a == r && n / a == q
  {
    var q', r' := n / a, n % a;
    assert n == a * q' + r';
    assert a * (q - q') == a * q - a * q';
    assert a * (q' - q) == a * q' - a * q;
    if q > q' {
      MulAtLeast(a, q - q');
    } else if q < q' {
      MulAtLeast(a, q' - q);
    }
  }

  /** A multiple of a multiple of `b` is a multiple of `b`. */
  lemma MultipleTransitive(m: nat, a: nat, b: nat)
    requires a > 0 && b > 0 && m % a == 0 && a % b == 0
    ensures m % b == 0
  {
    var k, j := m / a, a / b;
    assert m == a * k + m % a;
    assert a == b * j + a % b;
    assert m == b * (j * k) by {
      assert m == (b * j) * k;
    }
    DivModUnique(m, b, j * k, 0);
  }

  /** Whether a block at header address `addr` has its payload on a multiple of
      `align` (mem_is_aligned). */
  predicate PayloadAligned(addr: nat, align: nat)
    requires align > 0
  {
    (addr + HeaderSize) % align == 0
  }

  /** The lowest header address at or after `from` whose payload is a multiple
      of `align`: `align_to(from + header_size, align) - header_size`. */
  function FirstSlot(from: nat, align: nat): (r: nat)
    requires align > 0
    ensures from <= r < from + align
    ensures PayloadAligned(r, align)
    ensures forall a :: from <= a < r ==> !PayloadAligned(a, align)
  {
    var r := AlignTo(from + HeaderSize, align) - HeaderSize;
    forall a | from <= a < r
      ensures !PayloadAligned(a, align)
    {
      if PayloadAligned(a, align) {
        AlignToMinimal(from + HeaderSize, align, a + HeaderSize);
      }
    }
    r
  }

  /** With a coarser alignment the first slot can only move further out. */
  lemma FirstSlotCoarser(from: nat, align: nat)
    requires align > 0 && align % MinAlign == 0
    ensures FirstSlot(from, MinAlign) <= FirstSlot(from, align)
    ensures PayloadAligned(FirstSlot(from, align), MinAlign)
  {
    var s := FirstSlot(from, align);
    MultipleTransitive(s + HeaderSize, align, MinAlign);
    assert PayloadAligned(s, MinAlign);
  }

  // ---------------------------------------------------------------------
  // The packed size word: magnitude in the upper bits, `used` in bit 0.
  // ---------------------------------------------------------------------

  /** `size & ~1`: the byte length of the payload. */
  function Magnitude(w: nat): nat {
    w - w % 2
  }

  /** `size & 1`: the used flag. */
  predicate IsUsed(w: nat) {
    w % 2 == 1
  }

  /** The word written for a block of the given magnitude and state
      (`size | 1` for a used block). The magnitude must be even, otherwise
      the flag would corrupt it. */
  function Pack(magnitude: nat, used: bool): (w: nat)
    requires magnitude % 2 == 0
    ensures Magnitude(w) == magnitude
    ensures IsUsed(w) == used
  {
    if used then magnitude + 1 else magnitude
  }

  /** Every word is the packing of its own magnitude and flag. */
  lemma UnpackPack(w: nat)
    ensures Magnitude(w) % 2 == 0
    ensures Pack(Magnitude(w), IsUsed(w)) == w
  {
  }

  /** `size |= 1`. */
  function MarkUsed(w: nat): (r: nat)
    ensures IsUsed(r)
    ensures Magnitude(r) == Magnitude(w)
    ensures IsUsed(w) ==> r == w
  {
    Pack(Magnitude(w), true)
  }

  /** `size &= ~1`. */
  function MarkFree(w: nat): (r: nat)
    ensures !IsUsed(r)
    ensures Magnitude(r) == Magnitude(w)
    ensures MarkUsed(r) == MarkUsed(w)
  {
    Pack(Magnitude(w), false)
  }

  // ---------------------------------------------------------------------
  // Blocks
  // ---------------------------------------------------------------------

  /** A block header: its address and its raw size word. The `next` link is
      the position in the heap's sequence. */
  datatype Block = Block(addr: nat, size: nat)

  /** mem_block_size: header plus payload, the flag masked off. */
  function Footprint(b: Block): nat {
    BlockSize + Magnitude(b.size)
  }

  /** The first address after the block's footprint. */
  function End(b: Block): nat {
    b.addr + Footprint(b)
  }

  /** `block->data`: the address handed to callers. */
  function Payload(b: Block): nat {
    b.addr + HeaderSize
  }

  /** The first address after the payload bytes a caller may use. */
  function PayloadEnd(b: Block): nat {
    Payload(b) + Magnitude(b.size)
  }

  /** mem_get_block: `addr - sizeof(mem_block_t) + 4`. */
  function GetBlock(p: nat): nat
    requires p >= HeaderSize
  {
    p - BlockSize + 4
  }

  /** mem_get_block recovers a block from its payload... */
  lemma GetBlockOfPayload(b: Block)
    ensures GetBlock(Payload(b)) == b.addr
  {
  }

  /** ...and a payload address from its block. */
  lemma PayloadOfGetBlock(p: nat, w: nat)
    requires p >= HeaderSize
    ensures Payload(Block(GetBlock(p), w)) == p
  {
  }

  /** The used flag never enters a block's footprint. */
  lemma FootprintIgnoresFlag(b: Block)
    ensures Footprint(Block(b.addr, MarkUsed(b.size))) == Footprint(b)
    ensures Footprint(Block(b.addr, MarkFree(b.size))) == Footprint(b)
    ensures Footprint(b) >= BlockSize
  {
  }

  // ---------------------------------------------------------------------
  // The heap: the list from `bottom` to `top`
  // ---------------------------------------------------------------------

  /** `bottom` is blocks[0] and `top` is the last block; no blocks means the
      heap has not been set up yet (`top == NULL`). */
  datatype Heap = Heap(blocks: seq<Block>)

  predicate Initialized(h: Heap) {
    |h.blocks| > 0
  }

  function Top(h: Heap): Block
    requires Initialized(h)
  {
    h.blocks[|h.blocks| - 1]
  }

  /** `(uintptr_t) top + mem_block_size(top)`: where the next block may go. */
  function TopEnd(h: Heap): nat
    requires Initialized(h)
  {
    End(Top(h))
  }

  /** Each block's footprint ends at or before its successor begins. */
  predicate Ordered(bs: seq<Block>) {
    forall i :: 0 <= i < |bs| - 1 ==> End(bs[i]) <= bs[i + 1].addr
  }

  /** The condition the diagnostic walk reports as a chaining error. */
  predicate ChainingErrorAt(bs: seq<Block>, i: nat)
    requires i + 1 < |bs|
  {
    bs[i + 1].addr < bs[i].addr
  }

  /** The heap invariant: the sentinel first, the list ordered without
      overlap, and every other payload on a multiple of MIN_ALIGN. */
  predicate Valid(h: Heap) {
    var bs := h.blocks;
    |bs| == 0 ||
    (&& bs[0].size == SentinelWord
     && Ordered(bs)
     && forall i :: 1 <= i < |bs| ==> PayloadAligned(bs[i].addr, MinAlign))
  }

  /** Any two blocks are disjoint and in strictly increasing address order. */
  lemma {:induction false} OrderedPairwise(bs: seq<Block>, i: nat, j: nat)
    requires Ordered(bs)
    requires i < j < |bs|
    ensures End(bs[i]) <= bs[j].addr
    ensures bs[i].addr < bs[j].addr
    decreases j - i
  {
    if i + 1 < j {
      OrderedPairwise(bs, i + 1, j);
    }
  }

  /** A valid heap never trips the chaining-error diagnostic. */
  lemma ValidHasNoChainingError(h: Heap, i: nat)
    requires Valid(h)
    requires i + 1 < |h.blocks|
    ensures !ChainingErrorAt(h.blocks, i)
  {
  }

  /** Appending a block past the current top keeps the list ordered. */
  lemma OrderedAppend(bs: seq<Block>, b: Block)
    requires Ordered(bs)
    requires |bs| > 0 ==> End(bs[|bs| - 1]) <= b.addr
    ensures Ordered(bs + [b])
  {
    var s := bs + [b];
    forall i | 0 <= i < |s| - 1
      ensures End(s[i]) <= s[i + 1].addr
    {
      if i + 1 < |bs| {
        assert s[i] == bs[i] && s[i + 1] == bs[i + 1];
      }
    }
  }
}

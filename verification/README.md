# SnowflakeOS allocator and terminal buffers in Dafny

This project models two small parts of SnowflakeOS, a hobby i386 operating
system.

**The first-fit allocator** (`libc/src/stdlib/malloc.c`). The kernel (as
`kmalloc`/`kfree`) and user programs share it. The heap is a singly linked list
of blocks laid out in address order. Each block has a header with a `next` link
and a size word whose bit 0 is the "used" flag, followed by the payload. The
first block is a used sentinel of size 0. `malloc` rounds the request up to 8,
takes the first free block that is large enough and whose payload is aligned,
and otherwise appends a new block after the last one (`top`). When alignment
leaves a large enough gap, a free "filler" block is inserted in front of the
new block. `free` only clears the used bit: blocks are never split, merged or
removed. In the kernel the heap lives in a fixed window, and running past the
window is fatal. In user space the program break is raised with `sbrk`.

The model uses the i386 layout:
- the payload is at offset 8 from the header (`offsetof(mem_block_t, data)`);
- a header takes 12 bytes (`sizeof(mem_block_t)`), so a block's footprint is
  12 plus its magnitude;
- `mem_get_block(p)` is `p - 8`.

A heap is a sequence of `Block(addr, size word)`. The `next` link is the
position in the sequence. The empty sequence stands for `top == NULL`. The
growth capability is an `Arena`: either the kernel window
`Kernel(begin, ceiling)` or the user program break `User(brk)`. The
allocator's global state is passed in and returned explicitly.

**The terminal's string buffers** (`modules/src/terminal.c`). A `str_t` is a
text without NULs plus a capacity (`Str(text, bufLen)`; `len` is `|text|`).
The model covers:
- `str_new` and `str_append`, including the doubling growth;
- the Enter, Backspace and character-key edits of the event loop;
- `count_lines` and `scroll_view`, which wrap screen lines at 49 characters;
- `redraw`'s trick of temporarily appending the input and the cursor, then
  cutting them off again.

Modules:
- `Wrappers`: `Option` and `Result`.
- `MemBlock`: layout constants, `align_to`, the packed size word, blocks and
  the heap invariant.
- `Allocator`: search, block creation, `aligned_alloc`, `malloc` and `free`.
- `MallocProps`: properties that relate several calls.
- `MallocScenarios`: concrete runs in a 4096-byte kernel window at 0x1000.
- `MallocFindings`: the 32-bit arithmetic as written, and the inputs on which
  it goes wrong.
- `StrBuf`: the string buffer.
- `LineWrap`: line wrapping and counting.
- `Terminal`: the terminal's two buffers and its edits.

## Model

| member | source | states |
|---|---|---|
| MemBlock.AlignTo | libc/src/stdlib/malloc.c:20-29 | The result is a multiple of `align` with `n <= r < n + align`. It is `n` itself when `n` is already a multiple. |
| MemBlock.AlignToMinimal | libc/src/stdlib/malloc.c:20-29 | No multiple of `align` that is at least `n` lies below `align_to(n, align)`, so the result is the next multiple. |
| MemBlock.FirstSlot | libc/src/stdlib/malloc.c:96-97 | `align_to(next + header_size, align) - header_size` is the lowest header address at or after `next` whose payload is `align`-divisible. It lies less than `align` past `next`. |
| MemBlock.FirstSlotCoarser | libc/src/stdlib/malloc.c:103-105 | For an `align` that is a multiple of 8, the 8-aligned slot comes no later than the `align`-aligned slot, and the latter is also 8-aligned. |
| MemBlock.Pack | libc/src/stdlib/malloc.c:11-14 | Packing an even magnitude with a flag loses neither: unpacking gives back the same magnitude and the same used bit. |
| MemBlock.UnpackPack | libc/src/stdlib/malloc.c:13 | Every size word has an even magnitude and is exactly the packing of its magnitude and its flag. |
| MemBlock.MarkUsed | libc/src/stdlib/malloc.c:189 | Setting bit 0 of the size word marks the block used and keeps the magnitude. It does nothing to a block that is already used. |
| MemBlock.MarkFree | libc/src/stdlib/malloc.c:163 | `size &= ~1` clears the used bit and keeps the magnitude. Marking the block used again gives the same word as marking the original used. |
| MemBlock.GetBlockOfPayload | libc/src/stdlib/malloc.c:79-86 | `mem_get_block(block->data) == block`. |
| MemBlock.PayloadOfGetBlock | libc/src/stdlib/malloc.c:79-86 | The payload of the block that `mem_get_block(p)` finds is `p` again. |
| MemBlock.FootprintIgnoresFlag | libc/src/stdlib/malloc.c:73-77 | `mem_block_size` is unchanged by setting or clearing the used bit, and is at least 12. |
| MemBlock.OrderedPairwise | libc/src/stdlib/malloc.c:63-65 | In a heap where each footprint ends before the next block begins, any two blocks are disjoint and their addresses strictly increase along the list. |
| MemBlock.ValidHasNoChainingError | libc/src/stdlib/malloc.c:63-65 | A heap satisfying the invariant never triggers the "chaining error" diagnostic. |
| MemBlock.OrderedAppend | libc/src/stdlib/malloc.c:113-114 | Linking a block after `top` that starts at or after `top`'s footprint end keeps the list ordered. |
| Allocator.Setup | libc/src/stdlib/malloc.c:172-184 | On the first call the heap becomes the single used, zero-size sentinel. In the kernel it sits at `align_to(KERNEL_HEAP_BEGIN + header_size, align) - header_size`. In user space it sits at the old break, and the break rises by exactly `header_size`. Later calls leave heap and arena unchanged. The invariant and residence in the arena are kept. |
| Allocator.FitsMeansFreeLargeAligned | libc/src/stdlib/malloc.c:121-138 | Comparing the raw size word (flag included) with the request accepts a block exactly when it is free, its magnitude covers the request and `mem_is_aligned` holds, that is, its payload address is a multiple of `align`. |
| Allocator.SentinelNeverFits | libc/src/stdlib/malloc.c:172-173 | The sentinel satisfies no request, so no search returns it. |
| Allocator.FindFrom | libc/src/stdlib/malloc.c:136-146 | The walk from position `i` returns the first fitting block at or after `i`. If it returns nothing, no block from `i` on fits. |
| Allocator.FindBlock | libc/src/stdlib/malloc.c:127-147 | The search returns a fitting block with no fitting block before it. It returns nothing exactly when no block fits, which includes the empty heap. |
| Allocator.FindBlockIsFirstFit | libc/src/stdlib/malloc.c:127-130 | Conversely, the block that fits with nothing fitting before it is what the search returns. |
| Allocator.SlotGap | libc/src/stdlib/malloc.c:95-108 | `next <= next_aligned` holds, as the comment at line 95 claims. The gap between the 8-aligned slot and `next_aligned` is a multiple of 8, so a filler's magnitude `gap - 12` is even and 4 modulo 8. |
| Allocator.NewBlock | libc/src/stdlib/malloc.c:88-117 | `mem_new_block` keeps the heap invariant. It keeps all old blocks as they were and adds one or two blocks. The new `top` is at the first slot after the old `top` whose payload is `align`-divisible, and it is used, with exactly the requested magnitude. |
| Allocator.FillerPlacement | libc/src/stdlib/malloc.c:103-111 | A filler is added exactly when the gap exceeds `sizeof(mem_block_t) + MIN_ALIGN`. It is free, starts at the 8-aligned slot, has an 8-aligned payload and a magnitude that is 4 modulo 8, and its footprint ends exactly where the new block begins. |
| Allocator.Reuse | libc/src/stdlib/malloc.c:186-190 | A hit only sets the found block's used bit. Every other block, the list length, the block's magnitude and the arena stay as they were, and the returned pointer is the block's payload. |
| Allocator.Grow | libc/src/stdlib/malloc.c:191-211 | The miss path fails exactly in the kernel, when the new block's payload would end past the window. Otherwise the heap is `mem_new_block`'s result, the new block is last and its payload is the checked aligned address, no earlier block fits, the kernel window is unchanged, and in user space the break rises to cover the new payload. |
| Allocator.AlignedAlloc | libc/src/stdlib/malloc.c:166-214 | Only the kernel can fail. On success the heap stays valid, and the pointer is the `align`-divisible payload of a used non-sentinel block whose magnitude covers the 8-rounded request. No earlier block would have fitted. |
| Allocator.Malloc | libc/src/stdlib/malloc.c:149-156 | `malloc` returns the 8-aligned payload of a used, non-sentinel block whose magnitude is at least the requested size, and keeps the heap valid. Only the kernel can fail. |
| Allocator.ClearAt | libc/src/stdlib/malloc.c:161-164 | Only the block at the given address changes, and it becomes free with the same magnitude. |
| Allocator.Free | libc/src/stdlib/malloc.c:158-164 | `free` keeps the invariant and keeps every address, magnitude and the list length. It makes the freed block free and leaves every other block untouched. |
| MallocProps.AllocOnlyGrows | libc/src/stdlib/malloc.c:168-214 | An allocation never removes, moves or resizes a block, and only the returned block can change. The sentinel stays first and is the same as before. |
| MallocProps.AllocHitAddsNoBlock | libc/src/stdlib/malloc.c:186-190 | On a search hit, no block is added, `top`'s end and the arena stay the same, and the returned block goes from free to used. |
| MallocProps.AllocReturnsAllocated | libc/src/stdlib/malloc.c:186-213 | Every pointer returned is one `free` accepts. |
| MallocProps.FreeThenAllocReuses | libc/src/stdlib/malloc.c:158-190 | After allocate, free, allocate again with the same request, the second call returns the same pointer and exactly the same heap and arena as the first. |
| MallocProps.ReuseAfterFree | libc/src/stdlib/malloc.c:158-190 | Freeing any allocation that was its request's first fit, then repeating the request, restores that allocation exactly. |
| MallocProps.FreedIsFirstFit | libc/src/stdlib/malloc.c:127-164 | After free, the freed block fits its original request and nothing before it does. |
| MallocProps.KernelOutOfMemoryIff | libc/src/stdlib/malloc.c:192-201 | In the kernel, allocation aborts exactly when no block fits and the new payload (aligned past `top`'s footprint plus header, plus the rounded size) would end past the window. |
| MallocProps.AllocStaysInArena | libc/src/stdlib/malloc.c:192-211 | Allocation keeps every payload inside the arena. A kernel allocation lies inside the window. A user allocation ends below the new break, and the break only rises. |
| MallocProps.ReuseStaysInArena | libc/src/stdlib/malloc.c:186-190 | A reused block already lay inside the arena: in the kernel its payload is in the window, and in user space it ends below the break. |
| MallocProps.GrowStaysInArena | libc/src/stdlib/malloc.c:192-211 | A block is only created once the window or the break covers its payload, so every payload stays inside the arena. |
| MallocProps.NewBlockPayloadEnds | libc/src/stdlib/malloc.c:194-195 | The `end` that `aligned_alloc` checks is exactly the new block's payload end, and neither the filler nor the new block goes past it. |
| MallocProps.AllocReturnsFreshBlock | libc/src/stdlib/malloc.c:186-213 | No allocation returns the payload of a block that was already in use. |
| MallocScenarios.ReuseThenExhaust | libc/src/stdlib/malloc.c:149-214 | In a window at 0x1000: `malloc(100)` returns 0x1018, and after `free`, `malloc(50)` returns 0x1018 again with the same heap. `malloc(4000)` then fails. |
| MallocScenarios.FirstAllocation | libc/src/stdlib/malloc.c:168-214 | A small first request places the sentinel at 0x1000 and the block at 0x1010 (the header end 0x100C rounded up), with payload 0x1018. |
| MallocScenarios.NoCoalescing | libc/src/stdlib/malloc.c:158-164 | Two 64-byte requests, then freeing both, then a 120-byte request. The two adjacent freed blocks do not serve it: the heap grows by a block at 0x10B0, and the freed blocks stay as they are. |
| MallocScenarios.TwoAllocations | libc/src/stdlib/malloc.c:168-214 | Two 64-byte requests on a fresh heap give back-to-back blocks at 0x1010 and 0x1060. |
| MallocScenarios.FreeBoth | libc/src/stdlib/malloc.c:158-164 | Freeing both pointers in turn clears exactly their used bits. |
| MallocScenarios.GrowsPastFreed | libc/src/stdlib/malloc.c:186-211 | The 120-byte request on the two freed blocks finds no fit and appends a fourth block with payload 0x10B8. |
| MallocFindings.AlignTo32 | libc/src/stdlib/malloc.c:23-29 | `align_to` on `uint32_t` is the intended rounding reduced modulo 2^32, and it agrees with that rounding whenever there is no overflow. |
| MallocFindings.RoundingWrapsToZero | libc/src/stdlib/malloc.c:170 | As written, rounding 0xFFFFFFF9 up to 8 gives 0, while the intended value is 2^32. |
| MallocFindings.KernelCheckPasses32 | libc/src/stdlib/malloc.c:194-198 | When nothing wraps, the 32-bit kernel check passes exactly when the new block's payload end, at the first aligned slot after `top`, is within the window. That is the intended check. |
| MallocFindings.EndWrapsPastCheck | libc/src/stdlib/malloc.c:194-198 | A request of 0xFFFFF000 bytes in a 4096-byte window passes the 32-bit check, although its payload end is past the window. |
| MallocFindings.AlignedAllocStale | libc/src/stdlib/malloc.c:166-214 | `aligned_alloc` as written: the search uses the requested `align`, while the bound check and `mem_new_block` use the shadowing local. Only the kernel fails, and the heap stays valid. When the stale value equals the request, the result is the intended allocator's. |
| MallocFindings.GrowStale | libc/src/stdlib/malloc.c:192-210 | The miss path with the stale value in both the check and `mem_new_block`: the returned payload is a multiple of the stale value, whatever alignment was requested. Only the kernel fails, and the heap stays valid. |
| MallocFindings.GrowStaleAgrees | libc/src/stdlib/malloc.c:192-210 | With the stale value equal to the requested alignment, the miss path as written is the intended one. |
| MallocFindings.StaleAlignMisaligns | libc/src/stdlib/malloc.c:194-210 | `malloc(8)` in a fresh window at 0x1000 leaves the sentinel and a used block at 0x1010. From there, with a stale value of 8, `aligned_alloc(4096, 8)` succeeds with pointer 0x1030, which is not a multiple of 4096. |
| MallocFindings.OversizedRequestFails | libc/src/stdlib/malloc.c:196-201 | In the intended model, a kernel request larger than the whole window fails whatever the heap holds. |
| MallocFindings.RequestedAlignIsChecked | libc/src/stdlib/malloc.c:194-198 | The intended allocator uses the requested alignment throughout, so on the same heap it refuses the same 8-byte, 4096-aligned request. A 4096-aligned payload would start at 0x2000 and end past the window. |
| MallocFindings.WrappingRequestsRefused | libc/src/stdlib/malloc.c:194-201 | In the intended model both wrapping requests fail with OutOfMemory in a 4096-byte window. |
| StrBuf.CStr | modules/src/terminal.c:190 | The C string of a character array is its longest prefix without NUL. It stops at a NUL or the end, and it is the whole array when there is no NUL. |
| StrBuf.StrNew | modules/src/terminal.c:188-199 | `str_new` copies its argument up to the NUL, with `buf_len == len + 1` and `len < buf_len`. |
| StrBuf.StrAppend | modules/src/terminal.c:206-222 | The text becomes old text followed by the appended C string, and `len < buf_len` holds afterwards. The buffer is reallocated exactly when the needed size exceeds `buf_len`, and then to twice the needed size; otherwise `buf_len` is unchanged. |
| StrBuf.Truncate | modules/src/terminal.c:175-182 | Writing a NUL `k` places before the end removes exactly the last `k` characters, keeps the rest and keeps the allocation. |
| StrBuf.AppendThenTruncate | modules/src/terminal.c:137-182 | Appending a string and then cutting off as many characters restores the original text, with a capacity no smaller than before. |
| StrBuf.AppendAppend | modules/src/terminal.c:206-222 | Two appends give the same text as one append of the concatenation, when the first piece is NUL-free. |
| StrBuf.CStrConcat | modules/src/terminal.c:220 | `strcpy` of a NUL-free prefix followed by more copies the prefix, then the C string of the rest. |
| LineWrap.LineEnd | modules/src/terminal.c:257-258 | On text without NULs, `strchrnul` returns the first line feed at or after the view, or the end of the text, with no line feed in between. |
| LineWrap.WrappedLineUnique | modules/src/terminal.c:260-264 | The wrapping rule determines where a screen line ends. |
| LineWrap.ScrollView | modules/src/terminal.c:272-283 | `scroll_view` skips exactly one wrapped screen line. That is either at most 49 characters plus the line feed that ends them, or the first 49 characters of a longer line. It always advances, by at most 50. |
| LineWrap.CountLines | modules/src/terminal.c:252-270 | On text without NULs, `count_lines` equals the number of screen lines from the start. It is 0 exactly for the empty text, and it lies between `len/50` and `len`. |
| LineWrap.LinesFromShift | modules/src/terminal.c:256-267 | Counting from a position inside the text equals counting the suffix from that position. |
| LineWrap.ScrollViewShift | modules/src/terminal.c:272-283 | `scroll_view` depends only on the text from the current view on. |
| LineWrap.ScrollDropsOneLine | modules/src/terminal.c:272-283 | On a non-empty text, counting the lines of the suffix that starts at `scroll_view`'s result gives one line fewer than counting the whole text. |
| LineWrap.LineText | modules/src/terminal.c:155-168 | The characters copied into `line_buf` are the slice of the text starting at the view. They run either up to the line feed or end (when that is at most 49 characters away), or are exactly the first 49 characters of a longer line. |
| LineWrap.DrawnLines | modules/src/terminal.c:155-173 | The drawing loop draws as many lines as `count_lines` counts from the view, each at most 49 characters without a line feed. Joined, they are exactly the text from the view with its line feeds removed: nothing is lost or repeated. |
| LineWrap.LineSplit | modules/src/terminal.c:156-168 | One step of the drawing loop: the text without line feeds is the drawn line followed by the rest after `scroll_view`. |
| Terminal.Start | modules/src/terminal.c:41-42 | The terminal starts with the scrollback holding the prompt and an empty input line, both valid buffers. |
| Terminal.AppendAll | modules/src/terminal.c:245-247 | A run of `str_append` calls appends the C strings of all pieces in order and never shrinks the buffer. |
| Terminal.Enter | modules/src/terminal.c:86-94 | Enter appends the input, a line feed, the command's output and the prompt to the scrollback in that order. The input becomes empty and keeps its allocation. |
| Terminal.Backspace | modules/src/terminal.c:95-100 | Backspace removes the last input character when there is one and otherwise changes nothing. The scrollback is untouched. |
| Terminal.TypeKey | modules/src/terminal.c:101-107 | A typed character is appended to the input. A NUL character appends nothing. The scrollback is untouched. |
| Terminal.Redraw | modules/src/terminal.c:133-182 | After `redraw` the scrollback text is exactly what it was before. Drawing starts where at most 14 screen lines of the shown text remain, and all of them when the text has no more. |

## Left out

- User-space growth: `sbrk` (malloc.c:36-50) is an inline system call. Its comment at line 33 speaks of `n` pages, but every caller passes a byte count (lines 178, 206). The model takes it to return the old break and raise the break by that many bytes, and it never fails, because the code never checks its result (lines 178, 204-207). The sentinel's footprint is 12 bytes, but the code asks `sbrk` for only 8, so in user space the sentinel reaches 4 bytes past the break until the first growth. `Resides` bounds payloads, not footprints, for this reason.
- `mem_print_blocks` (malloc.c:57-71) is output only. Its chaining test is modelled as `ChainingErrorAt`.
- The kernel's `printf` and `abort` on exhaustion (malloc.c:199-200) become the result `Failure(OutOfMemory)`.
- Payload contents and the memory writes to headers: only addresses and size words are modelled.
- `kamalloc` (malloc.c:219-221) forwards to `aligned_alloc`. Its caller-chosen alignment is covered by the precondition `ValidAlign`: a positive multiple of 8. Other values can break the code, each in its own way. An alignment of 0 makes `align_to` divide by zero. Alignments 1, 2 and 4 make the filler test at line 106 subtract past zero whenever `top` ends at 4 modulo 8, which it does while every payload is 8-aligned (an 8-aligned header, 12 bytes of header and an 8-multiple magnitude). Any other value, such as 12, can return a payload that is not 8-aligned and so break the 8-aligned-payload part of the heap invariant (`Valid`) on which `FirstSlotCoarser` and `SlotGap` rely.
- Allocator.AlignedAlloc: does not model 32-bit wrap-around. Addresses and sizes are unbounded naturals. The wrap-arounds at lines 170 and 194-195 are modelled separately in `MallocFindings`.
- Allocator.Grow: uses the `align` parameter at lines 195 and 210, as the comment at line 166 intends. The code declares a new, uninitialised `align` at line 194 that shadows the parameter. `MallocFindings.AlignedAllocStale` models the code as written. See Findings.
- MallocFindings.AlignedAllocStale: the uninitialised value is taken to be a positive multiple of 8. Other garbage values (0, or values that break the filler arithmetic) are undefined behaviour that the model does not follow.
- Allocator.Free: requires a pointer that `malloc` returned, as the code does (lines 79-80, 158). Freeing anything else writes to an arbitrary address in the code.
- Facts about the code that the model follows:
  - a filler's magnitude is 4 modulo 8, not a multiple of 8, so the invariant on size words is "even";
  - when `B` is a multiple of 8 and the first request asks for 8-byte alignment, the first payload in a fresh window at `B` is `B + 0x18`, because the block after the 12-byte sentinel starts at `B + 0x10` (for `B = 0x1004` it is `B + 0x1C`);
  - the code signals no alignment error, and alignments must be positive multiples of 8, not necessarily powers of two;
  - growth is checked against the new block's payload end, not its footprint end;
  - user-space growth never reports a failure.
- In `terminal.c`, these are left out:
  - the window and drawing calls and the event loop (lines 39-50, 121-131, 170, 185), which are UI;
  - the cursor blink timing (lines 31, 66-77), which uses floating point;
  - the key-code test at line 102, which depends on keyboard definitions outside this file; the model takes any key that reaches it;
  - `str_free`, which only releases memory.
- `interpret_cmd` (terminal.c:224-250) runs system calls and `exec`. Enter takes its output as a parameter: the list of strings it appends.
- Terminal.Redraw: the count and the lengths are `uint32_t` in the code; the model uses unbounded naturals.
- StrBuf.StrAppend: `needed` and `2*needed` are `uint32_t` in the code and would wrap for texts near 2 GiB; the model uses unbounded naturals.
- The `malloc` calls in `terminal.c` are assumed to succeed.

## Findings

| source | as written | input that shows it | evidently intended | confidence | as-written member | corrected member |
|---|---|---|---|---|---|---|
| libc/src/stdlib/malloc.c:170 | `size = align_to(size, 8)` wraps modulo 2^32 | size 0xFFFFFFF9 is rounded to 0, so the call can succeed with a block of 0 bytes | a request too large to round should be refused | high, not executed | MallocFindings.RoundingWrapsToZero | MallocFindings.WrappingRequestsRefused |
| libc/src/stdlib/malloc.c:194-198 | `end` is computed on `uintptr_t` and wraps before the kernel check | window 0x1000-0x2000 holding only the sentinel; size 0xFFFFF000 gives `end` = 0x18, which passes | a payload end beyond the window should abort | high, not executed | MallocFindings.EndWrapsPastCheck | MallocFindings.WrappingRequestsRefused |
| libc/src/stdlib/malloc.c:194 | `uintptr_t end = ..., align;` declares a new, uninitialised `align` that lines 195 and 210 use | window 0x1000-0x2000 after a first `malloc(8)` (sentinel and a used block at 0x1010); with the stale value 8, `aligned_alloc(4096, 8)` returns 0x1030, a pointer that is not 4096-aligned | the requested `align` parameter, so that the pointer is `align`-aligned | high, not executed | MallocFindings.StaleAlignMisaligns | Allocator.AlignedAlloc |

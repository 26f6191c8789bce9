# Arena allocator (mem.c) in Dafny

This project models `mem.c`, a user-space memory allocator that manages one
arena obtained once from the operating system. The arena is cut into an
address-ordered, singly linked chain of blocks. Each block is a header (a
`next` link and a `size_status` word) followed by its payload. The word holds
the payload size, a multiple of 4, plus 1 when the block is busy.

- `Mem_Init` installs one free block over the whole page-rounded arena. It
  refuses a second call and a non-positive size.
- `Mem_Alloc` rounds the request up to a multiple of 4 and picks a block by
  best fit. It then splits the block or lets it absorb the leftover.
- `Mem_Free` finds the block by its payload address and refuses NULL,
  unknown pointers and double frees. It marks the block free and merges it
  with a free right and/or left neighbour.

Layout of the project:

- `tags.dfy` (module `Tags`): the `size_status` word and the helpers
  `isFree`, `setAlloc` and `setFree`. The header size `H` is 8 bytes, as the
  comment at mem.c:38-41 states.
- `chain.dfy` (module `Chain`): the chain as the sequence of its words in link
  order. A block's `next` is the element after it. Addresses are derived: block
  `i` starts at the arena base plus the header and payload bytes of the blocks
  before it. `Place` is what allocation does to the chain and `Release` is what
  a free does. The lemmas prove the layout facts (tiling, increasing addresses,
  nothing else moves), that the total size is kept, that no two free blocks
  become adjacent, and that a free undoes an allocation.
- `mem.dfy` (module `Mem`): class `Allocator`. It holds the guard
  `allocated_once`, the arena base and length, and the chain. `Init`, `Alloc`
  and `Free` are methods that change it. The chain walks of `Mem_Alloc` and
  `Mem_Free` are the read-only methods `ScanBestFit` and `FindPayload`, with
  loop invariants. Each is proved against a declarative specification
  (`BestFitAt`, `NoFit`, `PayloadAddr`).
- `findings.dfy` (module `Findings`): two defects of the code as written (see
  "## Findings").
- `scenarios.dfy` (module `Scenarios`): concrete chains. They cover the
  best-fit choice, an exact fit, a full arena, coalescing three blocks in every
  release order, and a client method that calls `Init`, `Alloc`, `Free` and
  then `Free` again on the same pointer.

The one-shot guard `allocated_once` is set only on success (mem.c:102).
Every other failure returns before that line, and the mmap failure path clears
it (mem.c:98). So in the model a failed `Init` leaves the allocator
uninitialised and a later call may succeed.

## Model

| member | source | states |
|---|---|---|
| `Tags.Word` | mem.c:28-42 | a payload size that is a multiple of 4, tagged busy or free, gives a well-formed word from which `Size` and `IsFree` recover the size and the status |
| `Tags.IsFree` | mem.c:348-356 | a well-formed word is free iff it equals its untagged size, i.e. its two low bits are clear |
| `Tags.MarkBusy` | mem.c:358-365 | setAlloc makes a free word busy and keeps its size; any other word is left unchanged |
| `Tags.CRem4` | mem.c:350-371 | C's truncating `% 4`: equal to Dafny's on non-negative words, in -3..0 on negative ones, and zero exactly when Dafny's is, so isFree reads the same under both |
| `Tags.MarkFree` | mem.c:367-374 | setFree makes a busy word (positive, remainder 1) free and keeps its size; any other word, negative ones included, is left unchanged, as C's truncating `%` leaves it |
| `Tags.MarkRoundTrip` | mem.c:358-374 | setFree(setAlloc(w)) == w for a free word, and setAlloc(setFree(w)) == w for a busy one |
| `Tags.ExactMatchIsFree` | mem.c:143-147 | a word equal to a multiple-of-4 request is free, so the exact-fit test on the tagged word can only pick a free block |
| `Chain.BusyTotal` | mem.c:319-325 | the dump's busy total, summing header plus payload of blocks whose low bit is set, lies between 0 and the arena total on well-formed chains |
| `Chain.FreeTotal` | mem.c:326-330 | the dump's free total, summing header plus payload of blocks whose low bit is clear, lies between 0 and the arena total on well-formed chains |
| `Chain.DumpTotals` | mem.c:313-342 | the dump's busy total plus its free total is the header plus payload of all blocks |
| `Chain.TotalAppend` | mem.c:333 | the header-plus-payload total of two chains laid end to end is the sum of their totals |
| `Chain.TotalAtLeastHeaders` | mem.c:323-328 | every block takes at least a header's worth of the arena |
| `Chain.Tiling` | mem.c:22-36 | the blocks tile the arena: the first starts at the base, each ends where the next starts, the last ends at base + total |
| `Chain.PayloadAddr` | mem.c:193-194 | the payload pointer of a block (the intended `header + H` bytes): the payload ends exactly where the next block begins |
| `Chain.AddrIncreasing` | mem.c:24-25 | block addresses strictly increase along the links, by at least a header per block |
| `Chain.PayloadFillsBlock` | mem.c:193-194 | the payload starts just past the header, inside the block, and ends exactly where the next block starts |
| `Chain.PayloadInjective` | mem.c:239-252 | no two blocks share a payload address, so a pointer names at most one block |
| `Chain.SameTailSameAddr` | mem.c:182-183 | chains that share a tail and the bytes before it place that tail at the same addresses |
| `Chain.Splice` | mem.c:231 | replacing a run of blocks by one block keeps the blocks before and after the run |
| `Chain.Place` | mem.c:171-192 | the chain after the chosen free block is handed out: one more block when the leftover is split off, the same count otherwise, and the chosen block is busy |
| `Chain.PlaceShape` | mem.c:171-192 | allocation changes only the chosen block: it becomes busy with exactly the request when leftover >= 4 + H, with a new free block of leftover - H linked after it; otherwise it becomes busy with its whole size |
| `Chain.PlaceAddresses` | mem.c:178-184 | allocation moves no block: the chosen block keeps its address, the split remainder starts H + request bytes after it, later blocks keep their addresses |
| `Chain.PlaceKeepsTotal` | mem.c:173-191 | allocation keeps the total of header plus payload over all blocks |
| `Chain.PlaceKeepsWellFormed` | mem.c:173-192 | allocation keeps every word well formed and no two adjacent blocks free |
| `Chain.Release` | mem.c:256-277 | the chain after a busy block is freed and merged with its free neighbours: one block fewer for each free neighbour absorbed |
| `Chain.ReleaseShape` | mem.c:256-277 | a free replaces the freed block and its free neighbours by one free block and keeps every other block |
| `Chain.ReleaseAddresses` | mem.c:261-277 | the merged block starts where the first merged block started and ends where the last one ended; later blocks keep their addresses |
| `Chain.ReleaseKeepsTotal` | mem.c:263-277 | a free keeps the total of header plus payload over all blocks |
| `Chain.ReleaseKeepsWellFormed` | mem.c:226-232 | a free keeps every word well formed and restores "no two adjacent blocks free" |
| `Chain.ReleaseLeavesNoBusyBlockAt` | mem.c:239-277 | after a release, the block at the released payload address is free and no other block has that address, so a second `Mem_Free` of the same pointer finds no busy block and fails |
| `Chain.ReleaseUndoesPlace` | mem.c:171-277 | freeing a block right after allocating it restores the chain, and the block's payload address is the same in both |
| `Mem.RoundUp4` | mem.c:128-135 | a positive request is rounded to the least multiple of 4 that is not below it |
| `Mem.RoundToPages` | mem.c:81-85 | the arena length is the least multiple of the page size that is not below the requested region size |
| `Mem.PageRounding` | mem.c:82-85 | the padding formula gives that least multiple |
| `Mem.MultipleOfMultiple` | mem.c:108 | a whole number of pages, each a multiple of 4 bytes, is a multiple of 4, so the initial block's size is well formed |
| `Mem.AllBusyNoFit` | mem.c:141-170 | on every chain whose blocks are all busy, no request fits, so `Mem_Alloc` returns NULL |
| `Mem.BestFitUnique` | mem.c:141-165 | at most one block satisfies the best-fit rule |
| `Mem.ScanBestFit` | mem.c:136-170 | the scan finds nothing iff no free block is large enough; otherwise it returns the first exact fit, or else the earliest free block of least size above the request |
| `Mem.FindPayload` | mem.c:212-252 | the lookup finds a block iff some block's payload starts at ptr, and the block it finds is the only one |
| `Mem.PayloadAboveBase` | mem.c:209-211 | every payload address is at least a header past the base, so NULL is never a payload |
| `Mem.Allocator.constructor` | mem.c:46-48 | before Mem_Init the chain is empty and the guard is clear |
| `Mem.Allocator.Init` | mem.c:58-111 | -1 with nothing changed when already initialised, for size <= 0, or when the region cannot be mapped; otherwise 0, the guard is set and the chain is one free block of payload page-rounded size - H |
| `Mem.Allocator.SetAlloc` | mem.c:358-365 | setAlloc on block i changes only that block's word |
| `Mem.Allocator.SetFree` | mem.c:367-374 | setFree on block i changes only that block's word |
| `Mem.Allocator.Alloc` | mem.c:123-195 | NULL with nothing changed iff size <= 0 or no free block fits the rounded request; otherwise the payload address of the best-fit block, with the chain changed as `Place` says; the chain invariant is kept |
| `Mem.Allocator.Free` | mem.c:206-280 | -1 with nothing changed for NULL, a pointer that is no payload address, or a free block; otherwise 0 and the chain changed as `Release` says; the chain invariant is kept |
| `Findings.PayloadAddrAsWritten` | mem.c:194 | the pointer as written is H * (H - 1) bytes past the intended payload address |
| `Findings.AsWrittenPayloadLeavesBlock` | mem.c:147 | as written, the pointer for a block with under H * H - H payload bytes lies at or past the end of the block |
| `Findings.AsWrittenPayloadExample` | mem.c:180-194 | after a 4-byte request on a 4096-byte arena, the pointer as written is 64 bytes past the header of a 12-byte block |
| `Findings.SuccessorFreeAsWritten` | mem.c:228 | the successor test as written has no block to read exactly when the freed block is the last one |
| `Findings.FreeOfLastBlockReadsNull` | mem.c:226-232 | freeing an exact-fit allocation of the whole arena reaches the successor test with no successor; the intended test merges nothing |
| `Scenarios.BestFitTakesSmallerBlock` | mem.c:149-160 | with free blocks of 48 and 40 bytes, a 32-byte request takes the 40-byte block |
| `Scenarios.ExactFitWins` | mem.c:143-147 | an exact fit later in the chain wins over a larger free block earlier in it |
| `Scenarios.FullArenaHasNoFit` | mem.c:167-170 | with every block busy, no request fits |
| `Scenarios.CoalesceInAnyOrder` | mem.c:261-277 | three busy 16-byte neighbours released in any of the six orders leave one free block over all of them |

## Findings

| source | as written | input that shows it | evidently intended | confidence | as-written member | corrected member |
|---|---|---|---|---|---|---|
| mem.c:147 (also mem.c:194, mem.c:218, mem.c:244) | the payload pointer is `block + sizeof(block_header)` on a `block_header*`, which is H * H bytes past the header | `Mem_Init(4096)` then `Mem_Alloc(4)`: the block spans 12 bytes, but the pointer is 64 bytes past its header, inside the next block | the pointer lies just past the header (comment at mem.c:193) | high, not executed | `Findings.AsWrittenPayloadLeavesBlock` | `Chain.PayloadFillsBlock` |
| mem.c:228 (also mem.c:264, mem.c:273) | `isFree(curr->next)` is called when `curr` is the last block and `next` is NULL, which reads through a null pointer | `Mem_Init(4096)`, `p = Mem_Alloc(4088)` (exact fit of the one block), `Mem_Free(p)` | a missing successor is not free and nothing is merged | high, not executed | `Findings.FreeOfLastBlockReadsNull` | `Chain.ReleaseKeepsWellFormed` |

In both cases the rest of the model uses the intended behaviour. `PayloadAddr`
is the header address plus H, and `RightFree` is false when there is no
successor. Alloc and Free use the same offset as each other, so the first
defect does not change which block a free finds. It changes which bytes the
caller is handed.

## Left out

- `getpagesize`, `open("/dev/zero")` and `mmap` are parameters of `Init`:
  the page size, whether the region could be mapped, and the region's address.
  `Init` requires the page size to be at least one header and a multiple of 4.
  Real page sizes are powers of two of 4096 or more.
- All printing is left out: the `fprintf` diagnostics, the messages in
  `setAlloc`/`setFree`, and the listing of `Mem_Dump`. Only the dump's totals
  are kept, as `BusyTotal`, `FreeTotal` and `Total`.
- Payload bytes are not modelled, only the chain. The `next` links are
  implicit in the order of the sequence. So a header overwritten through a
  payload pointer cannot be expressed.
- Raw pointer arithmetic: addresses are integers derived from the chain, with
  one payload offset (H) used by both Alloc and Free.
- The 32-bit `int` of the sizes: the model uses unbounded integers, so overflow
  for regions near 2^31 bytes is not modelled.
- H is fixed at 8, the size the source's comment gives. On a 64-bit target
  `sizeof(block_header)` is 16, which the model does not cover.
- `Mem.Allocator.Alloc`: the exact-fit branch of the scan (mem.c:143-147) sets
  the busy bit and returns at once. The model returns that block from
  `ScanBestFit` and then applies the same split-or-absorb step as for any
  other block. With a leftover of 0 this gives the same word and the same
  pointer.
- `Mem.Allocator.Free`: the separate test of the first block (mem.c:216-237)
  is folded into the one lookup loop. The first block has no predecessor, so it
  is merged only with its successor, as in the source.
- Calls before `Mem_Init`: on an empty chain the code reads through a NULL
  `list_head` in `Mem_Free` (mem.c:240). The model returns -1 instead. `Alloc`
  returns NULL, as the code does.
- Concurrency: the code assumes a single thread, and so does the model.

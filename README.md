# kordesii function_tracing, modelled in Dafny

kordesii's `function_tracing` package emulates x86 code inside a
disassembler so that string decoders in malware can be run without
executing the binary. This project models the parts of it that
`tests/test_function_tracing.py` exercises directly, as Dafny 4 code with
proved contracts:

- **Memory** (`pages.dfy`, `heap.dfy`, `memory.dfy`, `memory_fixture.dfy`, `heap_fixture.dfy`).
  - A sparse store of 0x1000-byte pages.
    - Pages come into existence zero-filled when first written.
    - Unmapped bytes read as zero.
    - Reads and writes cross page edges.
  - `find`, `find_in_segment` and `find_in_heap` with their optional window.
  - A bump heap with `alloc` and `realloc`: realloc grows a block in place, or moves and copies it.
  - The memory summary: runs of contiguous mapped pages.
- **Register** (`registers.dfy`). Several names alias bit masks of one
  backing store, so writing `ah` changes `ax`, `eax` and `rax`.
- **FPU stack** (`fpu.dfy`). The eight x87 slots, with a top-of-stack
  index that wraps modulo 8; `push`, `pop` and `st0`..`st7`.
- **String builtins** (`builtins.dfy`).
  - The routines: `strcat`, `strncat`, `strcpy`, `strncpy`, `strdup`, `strndup`, `strlen`.
  - Their `wcs` forms, which work on 2-byte units.
  - Each one reads its operands from emulated memory and writes its result back.
- **FlowChart** (`flowchart.dfy`, `flowchart_fixture.dfy`).
  - `find_block`.
  - `blocks()`: breadth-first or depth-first, forwards along successors or backwards along predecessors, from the entry block, from the blocks with no successors, or from a given address.
  - `get_paths`: one `PathBlock` chain per simple path from a block without predecessors to the block holding an address, or the path-not-found error when there is none.

The imperative parts keep their form:
- `Memory`, `Register` and `Fpu` are classes whose methods update fields. The FPU slots are an `array`.
- The loops of `write`, `find`, the summary, string reading and graph traversal are `while` loops with invariants.
- Each of them is proved against a pure function, and the properties the
  tests rely on are proved about that function.

The fixture modules restate the test's concrete scenarios as lemmas:
- `MemoryFixture`, and the test lemmas in `Allocator`, `Registers` and `Fpu`: the "helloworld" write across a page edge and the first summary row, the allocation sequence, the register and FPU sequences.
- `HeapFixture`: the heap part of the memory test on a `Memory` object, from the two allocations to the read after the final move.
- `FlowChartFixture`: the five-block and one-block functions.

## Model

| member | source | states |
|---|---|---|
| Pages.Read | tests/test_function_tracing.py:216-222 | a read returns exactly `size` bytes, byte i being the byte at address a + i (zero if its page is unmapped) |
| Pages.StoreMapsSpannedPages | tests/test_function_tracing.py:219 | a write maps exactly the pages its bytes fall in, and no others |
| Pages.ByteAtStore | tests/test_function_tracing.py:219-222 | after a write every byte in the range holds the written value and every other byte is unchanged, across page edges |
| Pages.ReadStore | tests/test_function_tracing.py:219-220 | reading back the written range returns the data (write/read round trip) |
| Pages.ReadStoreTail | tests/test_function_tracing.py:222 | a read starting inside a write returns the written tail followed by the old bytes after it |
| Pages.ReadUnmapped | tests/test_function_tracing.py:216 | a read of never-mapped memory returns zeros |
| Pages.ReadSplit | tests/test_function_tracing.py:219-222 | reading n + m bytes equals reading n bytes followed by the next m bytes |
| Memory.Memory.constructor | tests/test_function_tracing.py:213 | a fresh memory holds the image's pages and an empty heap |
| Memory.Memory.Read | tests/test_function_tracing.py:216-226 | a read returns `size` bytes and unmapped ones are zero |
| Memory.WriteBytes | tests/test_function_tracing.py:219 | the byte-by-byte write loop produces exactly the page map of `Pages.Store` |
| Memory.Memory.Write | tests/test_function_tracing.py:219 | the pages become `Store(old pages, a, data)` and the heap is unchanged |
| Memory.IsFindUnique | tests/test_function_tracing.py:238-255 | the find result (lowest match wholly inside the window, or -1) is unique |
| Memory.Memory.Find | tests/test_function_tracing.py:238-255 | returns -1 for an empty window or when no match lies wholly in [start, end) in mapped memory; otherwise the lowest such match |
| Memory.Extremes | tests/test_function_tracing.py:238-239 | the returned bounds are members of the set and bound every member |
| Memory.SegmentNamed | tests/test_function_tracing.py:247-248 | returns a segment of that name, or None exactly when no segment has that name |
| Memory.Memory.FindInSegment | tests/test_function_tracing.py:247-248 | -1 for an unknown segment name; otherwise find restricted to that segment's range |
| Memory.Memory.FindInHeap | tests/test_function_tracing.py:264-266 | find restricted to [HEAP_BASE, end of the highest live block) |
| Memory.Memory.Alloc | tests/test_function_tracing.py:258-261 | the heap is updated by `Allocator.Alloc` and the pages are unchanged |
| Memory.ReallocKeepsContents | tests/test_function_tracing.py:269-274 | after realloc the first min(old, new size) bytes of the block are at the returned address, moved or not |
| Memory.Memory.Realloc | tests/test_function_tracing.py:269-274 | None with nothing changed for an unknown address; otherwise the heap and pages of `ReallocState` |
| Memory.Memory.Regions | tests/test_function_tracing.py:229-235 | the summary rows are page-aligned, ascending and separated, and a page is mapped exactly when a row covers it |
| Memory.ExtendRun | tests/test_function_tracing.py:229-235 | the run of contiguous pages from the lowest one is taken out of the remaining set, and nothing else is |
| Memory.SummaryStep | tests/test_function_tracing.py:229-235 | appending the next run keeps the summary invariant |
| Allocator.Disjoint | tests/test_function_tracing.py:258-261 | live blocks of a valid heap do not overlap |
| Allocator.IndexOf | tests/test_function_tracing.py:269-273 | finds the live block starting at an address, or None exactly when there is none |
| Allocator.AllocValid | tests/test_function_tracing.py:258-261 | alloc keeps the heap valid, returns the old heap top (past every live block) and moves it by size + HEAP_SLACK |
| Allocator.ResizeInPlaceValid | tests/test_function_tracing.py:269 | resizing a block within its limit keeps the heap valid |
| Allocator.RemoveValid | tests/test_function_tracing.py:270 | dropping a block keeps the heap valid |
| Allocator.ReallocValid | tests/test_function_tracing.py:269-273 | realloc keeps the address exactly when the new size fits before the next block, otherwise returns the old heap top, and keeps the heap valid |
| Allocator.TestAllocations | tests/test_function_tracing.py:258-273 | the test's alloc/realloc sequence: first at HEAP_BASE, second after 10 + slack, in-place growth to 40, moves for five and six pages |
| MemoryFixture.TestReads | tests/test_function_tracing.py:216-222 | the four reads of the test: zeros, "helloworld" across the page edge, zeros after it, "world" then zeros |
| MemoryFixture.FirstRow | tests/test_function_tracing.py:229-235 | any summary satisfying the contract of `Memory.Memory.Regions`, for pages 0x00121000 and 0x00122000 plus an image at or above 0x00401000, opens with the row 0x00121000 - 0x00123000 |
| MemoryFixture.TestSummary | tests/test_function_tracing.py:213-235 | on a `Memory` built from such an image, after the write of "helloworld" at 0x00121FFB, the first row of `Regions()` is 0x00121000 - 0x00123000, 8192 bytes |
| MemoryFixture.TestFindWrite | tests/test_function_tracing.py:238-244 | the test's finds of "helloworld": found at 0x00121FFB from any start below it, -1 in windows ending before its last byte |
| MemoryFixture.HelloPages | tests/test_function_tracing.py:219 | the write at 0x00121FFB maps exactly the pages 0x00121000 and 0x00122000 besides the image's |
| MemoryFixture.TestFindByte | tests/test_function_tracing.py:252-255 | the single-byte finds: "h" at 0x00121FFB, -1 with end at it, found with end one past it, "o" four bytes on |
| HeapFixture.HeapFind | tests/test_function_tracing.py:264-266 | data written at base with zeros below it in the heap: find_in_heap finds a needle at offset k when its non-zero first byte occurs nowhere before k |
| HeapFixture.TestFindInHeap | tests/test_function_tracing.py:262-264 | after "im in the heap!" is written into the second block, find_in_heap("the heap!") is six bytes into it |
| HeapFixture.TestFindAgain | tests/test_function_tracing.py:265-266 | after "helloworld" is written over it, find_in_heap("helloworld") is the block's start |
| HeapFixture.AllocSteps | tests/test_function_tracing.py:258-261 | the two allocations return HEAP_BASE and HEAP_BASE + 10 + HEAP_SLACK; the heap then ends 20 bytes after the second |
| HeapFixture.FirstBlockSteps | tests/test_function_tracing.py:269-270 | the first block grows in place to 40 bytes, then moves to second + 20 + HEAP_SLACK for five pages |
| HeapFixture.SecondBlockSteps | tests/test_function_tracing.py:271-273 | the second block grows in place to 40 bytes, then moves for six pages |
| HeapFixture.ReallocLeaves | tests/test_function_tracing.py:270 | a reallocation changes no byte below its result address |
| HeapFixture.TestHeap | tests/test_function_tracing.py:258-274 | the heap part of the test on a `Memory` object: both allocation addresses, the read-back, both find_in_heap results, the move for six pages and "helloworld" read at the new address |
| HeapFixture.Relocations | tests/test_function_tracing.py:269-274 | the four reallocations end with the second block at a new address whose first ten bytes are "helloworld" |
| Registers.GetContiguous | tests/test_function_tracing.py:284-298 | through a contiguous mask a name reads exactly its slice of the store |
| Registers.GetSetSame | tests/test_function_tracing.py:290-291 | a name reads back what was written through it, cut to its width |
| Registers.GetSetDisjoint | tests/test_function_tracing.py:290-292 | writing one name leaves every name with a disjoint mask unchanged |
| Registers.GetClear | tests/test_function_tracing.py:284-289 | a fresh store reads zero through every name |
| Registers.SetBits | tests/test_function_tracing.py:290-298 | a write changes exactly the masked bits, to the value's bits shifted by the mask's low bit |
| Registers.MaskContiguous | tests/test_function_tracing.py:284 | a mask (2^w - 1) << s is a contiguous run of w bits from s |
| Registers.Register.constructor | tests/test_function_tracing.py:284 | every name gets its mask and the store starts clear |
| Registers.Register.Names | tests/test_function_tracing.py:285 | the names are exactly those given masks |
| Registers.Register.Get | tests/test_function_tracing.py:286-298 | None exactly for an unknown name; otherwise the masked bits shifted down, below 2^(8·size) |
| Registers.Register.Set | tests/test_function_tracing.py:290-295 | refused with nothing changed for an unknown name; otherwise the store becomes `SetBits` of it |
| Registers.TestWriteHigh | tests/test_function_tracing.py:290-294 | after ah = 0x23: ah 0x23, al 0, ax and eax 0x2300 |
| Registers.TestWriteWide | tests/test_function_tracing.py:295-298 | after eax = 0x123: ah 1, al 0x23, rax 0x123 |
| Registers.RegisterScenario | tests/test_function_tracing.py:284-298 | the whole register sequence run on a `Register` object reads the test's values |
| Fpu.PushView | tests/test_function_tracing.py:340-345 | after a push the value is st0 and st0..st6 move to st1..st7 |
| Fpu.PopView | tests/test_function_tracing.py:346-348 | a pop returns st0, moves st1..st7 up and empties st7 |
| Fpu.PushThenPop | tests/test_function_tracing.py:343-348 | a pop right after a push on a non-full stack returns the value and restores the stack |
| Fpu.PushPopDepth | tests/test_function_tracing.py:340-351 | push and pop change the number of occupied slots by one |
| Fpu.Rotate | tests/test_function_tracing.py:336-351 | the logical stack reads the physical slots from top, wrapping modulo 8 |
| Fpu.Fpu.constructor | tests/test_function_tracing.py:336-339 | every st register of a fresh stack is empty |
| Fpu.Fpu.St | tests/test_function_tracing.py:336-351 | st(i) is the i-th entry of the logical stack |
| Fpu.Fpu.Push | tests/test_function_tracing.py:340-345 | the logical stack becomes `PushView` of the old one |
| Fpu.Fpu.Pop | tests/test_function_tracing.py:346-348 | returns st0 and the logical stack becomes `PopView` of the old one |
| Fpu.TestStack | tests/test_function_tracing.py:336-351 | the test's push/push/pop/push sequence on the logical stack |
| Fpu.StackScenario | tests/test_function_tracing.py:336-351 | the same sequence on an `Fpu` object reads the test's st0/st1 values |
| Builtins.UnitSize | tests/test_function_tracing.py:369-375 | 2-byte units exactly for the `wcs` names |
| Builtins.StrOf | tests/test_function_tracing.py:370 | the string at p is determined by its bytes: non-nul units held at p followed by a nul unit |
| Builtins.StrNoNul | tests/test_function_tracing.py:370 | the string at p is whole units, none of them nul |
| Builtins.StrEnd | tests/test_function_tracing.py:370 | a nul unit follows the string at p |
| Builtins.ReadString | tests/test_function_tracing.py:364-442 | the unit-by-unit read loop returns the string at p |
| Builtins.Strlen | tests/test_function_tracing.py:435-442 | returns the number of units before the nul unit |
| Builtins.Strcat | tests/test_function_tracing.py:364-376 | returns dst; memory becomes src's string and a nul written over dst's nul |
| Builtins.StrcatResult | tests/test_function_tracing.py:369-376 | after strcat the string at dst is dst's old string followed by src's |
| Builtins.Strncat | tests/test_function_tracing.py:378-393 | returns dst; at most n units of src and a nul written over dst's nul |
| Builtins.StrncatResult | tests/test_function_tracing.py:382-393 | after strncat the string at dst is the old string followed by the first n units of src (all of it if shorter) |
| Builtins.Strcpy | tests/test_function_tracing.py:395-406 | returns dst; src's string and nul are written at dst |
| Builtins.StrcpyResult | tests/test_function_tracing.py:399-406 | after strcpy the string at dst is src's string |
| Builtins.Padded | tests/test_function_tracing.py:408-421 | strncpy writes exactly n units: a prefix of src, or src padded with nuls |
| Builtins.Strncpy | tests/test_function_tracing.py:408-421 | returns dst; exactly the n padded units are written at dst |
| Builtins.StrncpyShort | tests/test_function_tracing.py:408-421 | when src is shorter than n units the string at dst becomes src's |
| Builtins.StrncpyLong | tests/test_function_tracing.py:412-421 | when both strings have n units, the first n units of src replace dst's and the rest of dst stays ("wollo!!!") |
| Builtins.Strdup | tests/test_function_tracing.py:423-429 | allocates length + 1 bytes, writes the string and nul there and returns the block |
| Builtins.Strndup | tests/test_function_tracing.py:430-433 | as strdup, for at most the first n bytes |
| Builtins.StrdupResult | tests/test_function_tracing.py:424-433 | the new block holds the copied string; on a fresh heap it is at HEAP_BASE |
| Builtins.StrndupCopy | tests/test_function_tracing.py:430-433 | strndup copies min(n, length) bytes, none of them nul |
| FlowChart.FindBlock | tests/test_function_tracing.py:48-50 | returns a block of the chart containing the address, or None exactly when no block contains it |
| FlowChart.FindBlockUnique | tests/test_function_tracing.py:48-50 | in an ordered chart the block containing an address is the one found |
| FlowChart.BlockAtIndex | tests/test_function_tracing.py:52-101 | the block with a given start is the chart's block of that start |
| FlowChart.TerminalsHolds | tests/test_function_tracing.py:74-101 | the reverse roots are exactly the blocks with no successors |
| FlowChart.Roots | tests/test_function_tracing.py:52-101 | roots are chart nodes; with a start address, None exactly when no block contains it |
| FlowChart.NextWorkHolds | tests/test_function_tracing.py:84-101 | the next work list is the rest of the work and the successors (predecessors in reverse) of its head |
| FlowChart.WalkFresh | tests/test_function_tracing.py:52-101 | the traversal yields each block at most once, never one already visited |
| FlowChart.WalkVisitsReachable | tests/test_function_tracing.py:52-101 | the traversal yields each block once, and exactly the blocks reachable from the roots |
| FlowChart.Traverse | tests/test_function_tracing.py:52-101 | the work-list loop yields the blocks in the order of the traversal function |
| FlowChart.BlockOrder | tests/test_function_tracing.py:52-101 | None exactly when the roots are None |
| FlowChart.BlockOrderReachable | tests/test_function_tracing.py:52-101 | blocks() yields every block whose start is reachable from the roots, and each exactly once |
| FlowChart.Blocks | tests/test_function_tracing.py:52-101 | blocks() returns the blocks of the traversal, in its order |
| FlowChart.BackSound | tests/test_function_tracing.py:103-113 | every path found is a simple path from a block without predecessors to the target, along edges of the chart |
| FlowChart.BackComplete | tests/test_function_tracing.py:103-113 | every such simple path is found |
| FlowChart.BackDistinct | tests/test_function_tracing.py:103-113 | no path is found twice |
| FlowChart.ChainPath | tests/test_function_tracing.py:103-105 | a PathBlock chain's path() lists the blocks of the path in order, its first node having no parent |
| FlowChart.GetPaths | tests/test_function_tracing.py:103-113 | the path-not-found error (None) for an address in no block; a result holds at least one PathBlock |
| FlowChart.GetPathsNotFound | tests/test_function_tracing.py:103-113 | for an address in a block, get_paths fails exactly when no simple entry path reaches that block |
| FlowChart.GetPathsOf | tests/test_function_tracing.py:103-113 | fails exactly when no path is found; otherwise one PathBlock per path found, whose path() lists that path |
| FlowChart.GetPathsSound | tests/test_function_tracing.py:103-113 | each PathBlock's path() is a simple entry path to the block holding the address |
| FlowChart.GetPathsComplete | tests/test_function_tracing.py:103-113 | when a simple entry path to that block exists, get_paths succeeds and that path is some PathBlock's path() |
| FlowChart.GetPathsDistinct | tests/test_function_tracing.py:103-113 | no two PathBlocks have the same path() |
| FlowChartFixture.FiveValid | tests/test_function_tracing.py:46-101 | the five-block chart is a valid chart |
| FlowChartFixture.FiveFindBlock | tests/test_function_tracing.py:48-50 | find_block(0x4035AD) is the block starting at 0x4035AB |
| FlowChartFixture.FiveBlocksBackFromSecond | tests/test_function_tracing.py:52-54 | blocks(start=0x4035AB, reverse=True) is the second block, then the first |
| FlowChartFixture.FiveBlocksOnFromSecond | tests/test_function_tracing.py:56-63 | blocks(start=0x4035AB) yields the four blocks from the second on |
| FlowChartFixture.FiveBlocksBreadthFirst | tests/test_function_tracing.py:65-73 | blocks() yields the five blocks in the test's breadth-first order |
| FlowChartFixture.FiveBlocksReverseBreadthFirst | tests/test_function_tracing.py:74-83 | blocks(reverse=True) yields the five blocks in the test's order |
| FlowChartFixture.FiveBlocksDepthFirst | tests/test_function_tracing.py:84-92 | blocks(dfs=True) yields the five blocks in address order |
| FlowChartFixture.FiveBlocksReverseDepthFirst | tests/test_function_tracing.py:93-101 | blocks(reverse=True, dfs=True) yields them in reverse address order |
| FlowChartFixture.FiveGetPathsThird | tests/test_function_tracing.py:103-105 | get_paths(0x4035B1) gives one path: 0x403597, 0x4035AB, 0x4035B1 |
| FlowChartFixture.FiveGetPathsLast | tests/test_function_tracing.py:107-113 | get_paths(0x4035BC) gives the three paths of the test |
| FlowChartFixture.OneValid | tests/test_function_tracing.py:11-16 | the one-block chart is a valid chart |
| FlowChartFixture.OneBlocks | tests/test_function_tracing.py:11-16 | blocks() of the one-block function is its block 0x401150 - 0x4012A0 |
| FlowChartFixture.OneGetPaths | tests/test_function_tracing.py:32-35 | get_paths(0x4011AA) gives one PathBlock whose path() is itself |

## Left out

- The disassembly host. Segment bytes, segment names and the function's chart (blocks and edges) come from the host. Here they are parameters: an image page map with a segment list, and a `FlowChart` value. So the reads of segment data (lines 225-226) and the finds of strings in segments (lines 245-249) are not modelled.
- The summary's text formatting of `str(m)` (column layout) is not modelled; its rows are `Memory.Memory.Regions`.
- Allocator.Realloc: an address at which no live block starts gives None, with the heap unchanged (and so for `Memory.Memory.Realloc`, with the pages unchanged too). This is the model's choice. The test never reallocates such an address, so the source's behaviour there is not known.
- HEAP_BASE and HEAP_SLACK: the test never shows their values. The model fixes HEAP_BASE = 0x10000000 and HEAP_SLACK = 0x100. The test needs a slack of at least 30 bytes.
- `block.heads()` (lines 17-30): instruction decoding is not modelled.
- `path_block.cpu_context()` (lines 36-43): this is emulation of instructions. The rest of the test file is left out for the same reason: `test_cpu_context`, operands, variables, `get_function_args`, the architecture register tables (lines 300-331), and everything after line 443.
- Registers.Register.Set: the hardware rule that a 32-bit write zero-extends into the 64-bit register is not modelled. The register is the mask-based object of lines 284-298, and the test's writes do not depend on that rule.
- Registers.Register.constructor: requires every mask to be non-zero and to fit in the register, which the source leaves to its callers.
- Registers: register names are a type parameter; the test's names are the datatype `TestName`.
- Fpu: values are a type parameter (floating point, including INFINITY, is not modelled).
- Builtins: the routines take their arguments as parameters instead of an argument list read from the emulated stack. `Strdup`/`Strndup` take no name argument, because it selects nothing for them.
- Builtins.Strncat: always appends a nul unit after the copied units, as C11 section 7.24.3.2 requires; the test cannot tell this apart from appending one only when room remains.
- Builtins: the wide routines look only for the all-zero 2-byte unit. So they behave the same for UTF-16-LE and UTF-16-BE, and no text encoding is modelled.
- MemoryFixture: every page of the loaded image is assumed to lie at or above 0x00401000, the lowest summary row of the test.
- HeapFixture: every page of the loaded image is assumed to end at or below HEAP_BASE. The test's image (0x00401000 - 0x0040F000) does.
- FlowChart.Walk: a work item that names no block of the chart is skipped. In a valid chart this never happens.
- FlowChart.Roots: with a start address that no block contains, blocks() gives None instead of raising.
- FlowChart.GetPaths: the path-not-found exception is the result None; no exception type is modelled.
- FlowChart.Back: path roots are the blocks with no predecessors.
- FlowChartFixture.FiveBlocksOnFromSecond: states only the multiset of the four blocks. The test's order (0x4035AB, 0x4035BA, 0x4035B1, 0x4035B3) is not the breadth-first order from 0x4035AB, which the model yields (0x4035AB, 0x4035B1, 0x4035B3, 0x4035BA).
- FlowChartFixture: the order of each block's successor and predecessor lists is the host's. The fixture's order (the lower successor first, except the entry's) reproduces the test's traversal orders.
- FlowChartFixture.FiveGetPathsLast: the test sorts the paths; the model yields them in the predecessor order of the chart.

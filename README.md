# Allocator bookkeeping of the ITL library, in Dafny

This project models the bookkeeping core of the ITL allocator
(`src/memory/allocator.cpp`) and proves what it computes:

- **The size normalizer** (`__internal_normalizeSize`) rounds a request up
  to a granularity `base`. A size below `base` becomes `base`. Any other size
  becomes `(size + base - 1) & ~(base - 1)`, computed on 64-bit `size_t`, so
  the sum can wrap. The model spells out the wrap (`% 2^64`), the complement
  and a bit-by-bit AND (module `Words`, module `SizeNormalizer`).
- **The memory map and its blocks** (`internalMemoryMap`, `MemoryMap`,
  `MemoryBlock`). A block is one kernel mapping cut into `totalChunks`
  chunks of `chunkSize` bytes. It has one metadata slot per chunk, and a slot
  is either empty (`nullptr`) or an `AllocationMetadata` record. The map is a
  fixed table of `MAX_BLOCKS` block pointers; the first `blockCount` are in
  use. Both are classes (module `Allocator`); a block's slots are an `array`.
- **The first-fit search** (`__internal_searchAvailableBlocks`) looks for
  the rounded request. It walks the blocks in order and, inside each block,
  the chunks in order. It grows a run over free chunks, drops it at a used
  chunk, and returns as soon as the run's bytes reach the request. The
  search is written as the source's nested loops (`SearchAvailableBlocks`
  with the chunk loop in `ScanBlock`). It is proved against a pure
  specification (module `FreeSpace`): *the first block, in insertion order,
  with a maximal free run long enough, and the first such run in it*.
- **The page request** (`__internal_alloc`) rounds the length up to whole
  8192-byte pages, asks the kernel, and turns `MAP_FAILED` into `NULL`. The
  kernel is an oracle: a function from the requested length to the address
  it returns.

None of the headers `allocator.cpp` includes (src/memory/allocator.cpp:13-16)
defines `MIN_CHUNK_SIZE`. The search therefore takes it as a parameter (`minChunkSize`), and the lemmas
that need it assume it is a power of two.

Wrap-around is modelled, not excluded. For a power-of-two `base`, a size
with `size + base > 2^64` normalizes to 0. So the search locates a request for
2^64 - 1 bytes with a need of 0 bytes, that is, at the first free chunk of the
first block that has one, and `InternalAlloc` asks the
kernel for a zero-length mapping (`NormalizeWrapsToZero`,
`HugeRequestLocatedAsEmpty`, `MappingLength`).

## Model

| member | source | states |
|---|---|---|
| `Words.MaskRoundsDown` | src/memory/allocator.cpp:52 | For a power-of-two `base`, `x & ~(base - 1)` on a 64-bit word is `x` rounded down to a multiple of `base`. |
| `Words.MaskClearsBelowBase` | src/memory/allocator.cpp:52 | For a power-of-two `base`, the mask turns every value below `base` into 0. |
| `SizeNormalizer.NormalizeSize` | src/memory/allocator.cpp:47-53 | A size below `base` normalizes to exactly `base`. |
| `SizeNormalizer.NormalizeRoundsDown` | src/memory/allocator.cpp:52 | For a power-of-two `base` with no wrap, the result is `size + base - 1` rounded down to a multiple of `base`. |
| `SizeNormalizer.NormalizeIsLeastMultiple` | src/memory/allocator.cpp:47-53 | For a power-of-two `base` and `size + base <= 2^64`, the result is a multiple of `base` and at least `size` and `base`. It is the least such multiple, and below `size + base` when `size >= base`. |
| `SizeNormalizer.NormalizeIdempotent` | src/memory/allocator.cpp:47-53 | Under the same conditions, normalizing a normalized size changes nothing. |
| `SizeNormalizer.NormalizeWrapsToZero` | src/memory/allocator.cpp:52 | For a power-of-two `base`, a size `>= base` with `size + base > 2^64` normalizes to 0. |
| `SizeNormalizer.NormalizeNonPowerOfTwo` | src/memory/allocator.cpp:52 | The mask is wrong for a base that is not a power of two: size 4 with base 3 gives 4, which is not a multiple of 3. |
| `FreeSpace.RunLengthIsRun` | src/memory/allocator.cpp:75-97 | The run counted from a chunk is free throughout and stops at a used chunk (`meta != nullptr && meta->used`) or at the end of the block. |
| `FreeSpace.FirstFitFromIsFirst` | src/memory/allocator.cpp:75-101 | In one block, the specified choice is a maximal free run whose bytes reach the request, with no such run before it; or nothing, when no run from there on fits. |
| `FreeSpace.LocateFromIsFirst` | src/memory/allocator.cpp:69-107 | Over the blocks from a given index, the specified choice fits, and no run fits earlier in the same block or in an earlier block; or nothing fits at all. |
| `FreeSpace.LocateIsFirstFit` | src/memory/allocator.cpp:69-101 | The locator picks block `b` and run `s` exactly when that run fits, no earlier block has a fitting run, and no earlier run of block `b` fits (both directions). |
| `FreeSpace.LocateNoneIffNoFit` | src/memory/allocator.cpp:103-107 | The locator finds nothing exactly when no block has a fitting run; with no blocks in use it finds nothing. |
| `FreeSpace.LocatedRunIsFreeAndInside` | src/memory/allocator.cpp:75-95 | A located run starts a maximal free run inside its block, every chunk of it is free, its bytes reach the request, and `start * chunkSize + request <= totalChunks * chunkSize`. |
| `Allocator.ScanBlock` | src/memory/allocator.cpp:70-101 | The chunk loop: it returns `found` with offset `s * chunkSize` exactly when the block's first fit is run `s`, and not found with offset 0 when no run fits. |
| `Allocator.MemoryMap.SearchAvailableBlocks` | src/memory/allocator.cpp:65-108 | The search returns `{blocks[b], s * chunkSize, true}` when the first fit for the normalized size is run `s` of block `b`, and `{null, 0, false}` when nothing fits. It modifies nothing. |
| `Allocator.MemoryMap.constructor` | src/memory/allocator.cpp:31-34 | The initial map holds only null block pointers and no block in use, so it presents no blocks to the locator. |
| `Allocator.InternalAlloc` | src/memory/allocator.cpp:120-151 | It requests `NormalizeSize(size, PAGE_SIZE)` bytes. It returns `NULL` exactly when the oracle answers `MAP_FAILED` or `NULL`, and otherwise returns the oracle's address. |
| `Allocator.MappingLength` | src/memory/allocator.cpp:123 | Without wrap, the requested length is the least whole number of pages covering `size`: at least one page, and less than a page over `size` once `size >= PAGE_SIZE`. When `size + PAGE_SIZE > 2^64` it is 0. |
| `Allocator.PageSizeIsPowerOfTwo` | include/system/mmacros.hpp:23-24 | `PAGE_SIZE` is `1 << PAGE_SHIFT` = 8192, a power of two. |
| `Allocator.LocatedRunCoversRequest` | src/memory/allocator.cpp:67-93 | For a power-of-two `minChunkSize` and no wrap, the run the search picks holds at least the original `size` bytes. |
| `Allocator.HugeRequestLocatedAsEmpty` | src/memory/allocator.cpp:47-67 | For a power-of-two `minChunkSize >= 2`, a request for 2^64 - 1 bytes is located with a need of 0 bytes, that is, at the first free chunk of the first block that has one. |

The proof of the chunk loop rests on a few step lemmas, one per branch of
the loop body: `ScanEntersRun`, `ScanExtendsRun`, `ScanUsedChunk`,
`ScanFinished` and `SkipNoFit`. They keep the scan state `ScanState`: the
run in progress starts a maximal free run, its `accumulated` bytes are
`(index - startChunk) * chunkSize` and below the request, and the block's
first fit lies at or after it.

## Left out

- The `mmap` system call itself, its protection and mapping flags, and the
  x86_64 and i386 argument variants (src/memory/allocator.cpp:125-145) are
  foreign kernel I/O. The model is an oracle from the requested length to the
  returned address. The wrapper's documentation promises `nullptr` on
  failure (include/system/syscalls.hpp:44-49); `__internal_alloc` tests only
  for `MAP_FAILED`. So an oracle answer of `NULL` passes through as `NULL`,
  as `InternalAlloc` states.
- `errno` and the error description table are thread-local error reporting
  outside the bookkeeping.
- The public `alloc`, `alignedAlloc`, `calloc`, `realloc` and `free` are only
  declared (include/memory/allocator.hpp:47-85). Their behaviour is not part
  of this model.
- Adding blocks to the map and marking slots used are done by code that is
  not part of this model. `MemoryBlock.constructor` only builds an empty block
  so that the classes can be instantiated; it models no source line.
- The `MemoryBlock` and `MemoryMap` struct definitions are not part of this
  model. Their fields are taken from how the search uses them
  (src/memory/allocator.cpp:32-33, 70, 75-78). A slot is modelled by the
  value of the metadata it points to, so aliasing between slots is not
  modelled.
- `MemoryBlock.Valid` requires `totalChunks * chunkSize < 2^64`. So the
  model never lets `accumulated` or `startChunk * chunkSize` wrap; a block
  whose size overflows a word is not modelled.
- None of the headers `allocator.cpp` includes (src/memory/allocator.cpp:13-16)
  defines `MIN_CHUNK_SIZE`. It is the parameter `minChunkSize` of `SearchAvailableBlocks`.
- The word width is fixed at 64 bits (the LP64 x86_64 build). On the i386
  build (src/memory/allocator.cpp:134-144) `size_t` is `unsigned long`
  (include/typing/ctypes.hpp:25) and pointers are 32 bits wide, so there the
  wrap threshold of `NormalizeWrapsToZero`, `MappingLength` and
  `HugeRequestLocatedAsEmpty` is 2^32 and `MAP_FAILED` is 2^32 - 1; the model
  does not state those 32-bit results.
- Concurrency: the global map is read without locks, and the model is
  sequential.

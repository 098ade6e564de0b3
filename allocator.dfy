/** The allocator's block store and the two operations over it: the first-fit
    search for a free run of chunks, and the page request sent to the kernel. */
module Allocator {
  import opened Words
  import opened SizeNormalizer
  import opened FreeSpace

  /** Maximum number of chunks per memory block. */
  const MAX_CHUNKS: nat := 4096
  /** Maximum number of memory blocks in the memory map. */
  const MAX_BLOCKS: nat := 33554432

  /** A page is 1 << PAGE_SHIFT bytes. */
  const PAGE_SHIFT: nat := 13
  const PAGE_SIZE: Word := 8192

  /** The null pointer, and `(void*)-1`, the value mmap reports failure with. */
  const NULL: Word := 0
  const MAP_FAILED: Word := WORD - 1

  /** One kernel mapping, cut into `totalChunks` chunks of `chunkSize` bytes;
      slot i holds the metadata of chunk i, or nothing. */
  class MemoryBlock {
    const chunkSize: Word
    const totalChunks: nat
    const slots: array<Slot>

    /** Every chunk has a slot, and the whole block, counted in bytes, fits in a word. */
    ghost predicate Valid()
    {
      totalChunks <= slots.Length && totalChunks <= MAX_CHUNKS && totalChunks * chunkSize < WORD
    }

    ghost function View(): (v: BlockView)
      requires Valid()
      reads slots
    {
      BlockView(chunkSize, slots[..totalChunks])
    }

    /** A block whose slots are all empty. */
    constructor (chunkSize: Word, totalChunks: nat)
      requires totalChunks <= MAX_CHUNKS && totalChunks * chunkSize < WORD
      ensures Valid() && fresh(slots)
      ensures this.chunkSize == chunkSize && this.totalChunks == totalChunks
      ensures forall i :: 0 <= i < slots.Length ==> slots[i] == None
    {
      this.chunkSize := chunkSize;
      this.totalChunks := totalChunks;
      slots := new Slot[MAX_CHUNKS](_ => None);
    }
  }

  /** The result of a search: the block and the byte offset of the run found. */
  datatype AllocationResult = AllocationResult(block: MemoryBlock?, offset: Word, found: bool)

  /** The process-wide store of blocks: a fixed table of `MAX_BLOCKS` block
      pointers whose first `blockCount` entries are in use. */
  class MemoryMap {
    var blocks: seq<MemoryBlock?>
    var blockCount: nat

    ghost predicate Valid()
      reads this
    {
      && |blocks| == MAX_BLOCKS
      && blockCount <= MAX_BLOCKS
      && forall i :: 0 <= i < blockCount ==> blocks[i] != null && blocks[i].Valid()
    }

    /** The slot arrays of the blocks in use. */
    ghost function Arrays(): set<array<Slot>>
      reads this
    {
      set i | 0 <= i < blockCount && i < |blocks| && blocks[i] != null :: blocks[i].slots
    }

    /** What the locator sees: the blocks in use, in insertion order. */
    ghost function View(): (v: seq<BlockView>)
      requires Valid()
      reads this, Arrays()
      ensures |v| == blockCount
      ensures forall i :: 0 <= i < blockCount ==> v[i] == blocks[i].View()
    {
      seq(blockCount, i requires 0 <= i < blockCount && Valid() reads this, Arrays() => blocks[i].View())
    }

    /** The initial map: every block pointer null, no block in use. */
    constructor ()
      ensures Valid() && blockCount == 0 && View() == []
      ensures forall i :: 0 <= i < |blocks| ==> blocks[i] == null
    {
      blocks := seq(MAX_BLOCKS, _ => null);
      blockCount := 0;
    }

    /** First-fit search for `size` bytes, rounded up to `minChunkSize`:
        the first block, in insertion order, with a maximal free run that
        holds the rounded size, and the byte offset at which that run
        starts; nothing is changed. */
    method SearchAvailableBlocks(size: Word, minChunkSize: Word) returns (r: AllocationResult)
      requires Valid()
      ensures match Locate(View(), NormalizeSize(size, minChunkSize))
        case Some((b, s)) => b < blockCount && r.found && r.block == blocks[b] && r.offset == s * blocks[b].chunkSize
        case None => !r.found && r.block == null && r.offset == 0
    {
      var normalizedSize := NormalizeSize(size, minChunkSize);
      ghost var views := View();
      var b := 0;
      while b < blockCount
        invariant b <= blockCount
        invariant Locate(views, normalizedSize) == LocateFrom(views, normalizedSize, b)
      {
        var block := blocks[b];
        var found, offset := ScanBlock(block.slots, block.totalChunks, block.chunkSize, normalizedSize, views[b].slots);
        if found {
          assert View() == views;
          return AllocationResult(block, offset, true);
        }
        b := b + 1;
      }
      assert View() == views;
      return AllocationResult(null, 0, false);
    }
  }

  /** The chunk scan of one block of `totalChunks` chunks of `chunkSize`
      bytes, whose slot metadata is `S`: walks the chunks in order, growing a
      run over free chunks and dropping it at a used one, and stops as soon
      as the run holds `need` bytes. It reports the byte offset of that
      run's first chunk, which is the block's first fit, or that no run fits. */
  method ScanBlock(slots: array<Slot>, totalChunks: nat, chunkSize: Word, need: nat, ghost S: seq<Slot>)
    returns (found: bool, offset: Word)
    requires totalChunks <= slots.Length
    requires |S| == totalChunks && |S| * chunkSize < WORD
    requires forall i {:trigger slots[i]} :: 0 <= i < totalChunks ==> slots[i] == S[i]
    ensures match FirstFit(S, chunkSize, need)
      case Some(s) => found && offset == s * chunkSize
      case None => !found && offset == 0
  {
    var accumulated: Word := 0;
    var startChunk: nat := 0;
    var inRun := false;
    var index := 0;
    while index < totalChunks
      invariant forall i {:trigger slots[i]} :: 0 <= i < totalChunks ==> slots[i] == S[i]
      invariant ScanState(S, chunkSize, need, index, startChunk, inRun, accumulated)
    {
      var meta := slots[index];
      var chunkIsFree := meta.None? || !meta.value.used;
      if chunkIsFree {
        ScanEntersRun(S, chunkSize, need, index, startChunk, inRun, accumulated);
        if !inRun {
          startChunk := index;
          accumulated := 0;
          inRun := true;
        }
        ScanExtendsRun(S, chunkSize, need, index, startChunk, accumulated);
        accumulated := accumulated + chunkSize;
        if accumulated >= need {
          return true, startChunk * chunkSize;
        }
      } else {
        ScanUsedChunk(S, chunkSize, need, index, startChunk, inRun, accumulated);
        inRun := false;
        accumulated := 0;
      }
      index := index + 1;
    }
    ScanFinished(S, chunkSize, need, startChunk, inRun, accumulated);
    return false, 0;
  }

  /** `__internal_alloc`: asks the kernel for `size` bytes rounded up to
      whole pages and turns the failure value into the null pointer. The
      kernel's answer to a request of a given length is the oracle `mmap`. */
  method InternalAlloc(size: Word, mmap: Word -> Word) returns (p: Word)
    ensures var addr := mmap(NormalizeSize(size, PAGE_SIZE));
      && (p == NULL <==> addr == MAP_FAILED || addr == NULL)
      && (p != NULL ==> p == addr)
  {
    var temporarySize := NormalizeSize(size, PAGE_SIZE);
    var pointerToAllocatedMemory := mmap(temporarySize);
    if pointerToAllocatedMemory == MAP_FAILED {
      return NULL;
    }
    return pointerToAllocatedMemory;
  }

  /** The state of the chunk scan of `ScanBlock` before chunk
      `index` of a block with slots `S`: while in a run, the run began at a
      run start, is free up to `index` and its `accumulated` bytes fall
      short of `need`; the first fit of the block lies at or after the
      current run (or at or after `index`). */
  ghost predicate ScanState(S: seq<Slot>, chunkSize: nat, need: nat, index: nat,
                            startChunk: nat, inRun: bool, accumulated: nat)
  {
    && index <= |S|
    && |S| * chunkSize < WORD
    && (inRun ==>
          && startChunk < index
          && RunStart(S, startChunk)
          && RunLength(S, startChunk) >= index - startChunk
          && accumulated == (index - startChunk) * chunkSize
          && accumulated < need)
    && (!inRun ==> accumulated == 0 && (index == 0 || !IsFree(S[index - 1])))
    && FirstFit(S, chunkSize, need) == FirstFitFrom(S, chunkSize, need, if inRun then startChunk else index)
  }

  /** The scan state at a free chunk `index` once the run is entered: the
      run from the run start `start` is free through `index`, its first
      `index - start` chunks hold `accumulated` bytes, and the block's first
      fit lies at or after `start`. */
  ghost predicate InRun(S: seq<Slot>, chunkSize: nat, need: nat, index: nat, start: nat, accumulated: nat)
  {
    && start <= index < |S|
    && |S| * chunkSize < WORD
    && RunStart(S, start)
    && RunLength(S, start) > index - start
    && accumulated == (index - start) * chunkSize
    && FirstFit(S, chunkSize, need) == FirstFitFrom(S, chunkSize, need, start)
  }

  /** A free chunk continues the current run, or begins one when there is none. */
  lemma ScanEntersRun(S: seq<Slot>, chunkSize: nat, need: nat, index: nat,
                      startChunk: nat, inRun: bool, accumulated: nat)
    requires ScanState(S, chunkSize, need, index, startChunk, inRun, accumulated)
    requires index < |S| && IsFree(S[index])
    ensures InRun(S, chunkSize, need, index, if inRun then startChunk else index, if inRun then accumulated else 0)
  {
    if inRun {
      RunLengthIsRun(S, startChunk);
      RunLengthAtLeast(S, startChunk, index + 1);
    }
  }

  /** The free chunk's bytes join the run; once they reach `need`, the run's
      start is the block's first fit. */
  lemma ScanExtendsRun(S: seq<Slot>, chunkSize: nat, need: nat, index: nat, start: nat, accumulated: nat)
    requires InRun(S, chunkSize, need, index, start, accumulated)
    ensures accumulated + chunkSize < WORD && start * chunkSize < WORD
    ensures accumulated + chunkSize >= need ==> FirstFit(S, chunkSize, need) == Some(start)
    ensures accumulated + chunkSize < need ==> ScanState(S, chunkSize, need, index + 1, start, true, accumulated + chunkSize)
  {
    assert (index + 1 - start) * chunkSize == accumulated + chunkSize;
    MulLe(index + 1 - start, |S|, chunkSize);
    MulLe(start, |S|, chunkSize);
    if accumulated + chunkSize >= need {
      MulLe(index + 1 - start, RunLength(S, start), chunkSize);
      assert FitsAt(S, chunkSize, need, start);
    }
  }

  /** No fit in `[lo, hi)`: the first fit from `lo` is the first fit from `hi`. */
  lemma {:induction false} SkipNoFit(S: seq<Slot>, chunkSize: nat, need: nat, lo: nat, hi: nat)
    requires lo <= hi <= |S|
    requires forall k :: lo <= k < hi ==> !FitsAt(S, chunkSize, need, k)
    ensures FirstFitFrom(S, chunkSize, need, lo) == FirstFitFrom(S, chunkSize, need, hi)
    decreases hi - lo
  {
    if lo < hi {
      SkipNoFit(S, chunkSize, need, lo + 1, hi);
    }
  }

  /** A used chunk ends the current run, which was too short. */
  lemma ScanUsedChunk(S: seq<Slot>, chunkSize: nat, need: nat, index: nat,
                      startChunk: nat, inRun: bool, accumulated: nat)
    requires ScanState(S, chunkSize, need, index, startChunk, inRun, accumulated)
    requires index < |S| && !IsFree(S[index])
    ensures ScanState(S, chunkSize, need, index + 1, startChunk, false, 0)
  {
    if inRun {
      RunLengthIsRun(S, startChunk);
      RunLengthOfStretch(S, startChunk, index);
      ShortRunHasNoFit(S, chunkSize, need, startChunk, index);
      SkipNoFit(S, chunkSize, need, startChunk, index + 1);
    }
  }

  /** A scan that reaches the end of the block without returning found no fit. */
  lemma ScanFinished(S: seq<Slot>, chunkSize: nat, need: nat,
                     startChunk: nat, inRun: bool, accumulated: nat)
    requires ScanState(S, chunkSize, need, |S|, startChunk, inRun, accumulated)
    ensures FirstFit(S, chunkSize, need) == None
  {
    if inRun {
      RunLengthIsRun(S, startChunk);
      RunLengthOfStretch(S, startChunk, |S|);
      ShortRunHasNoFit(S, chunkSize, need, startChunk, |S|);
      SkipNoFit(S, chunkSize, need, startChunk, |S|);
    }
  }

  lemma PageSizeIsPowerOfTwo()
    ensures PAGE_SIZE == Pow2(PAGE_SHIFT) && IsPowerOfTwo(PAGE_SIZE)
  {
    Pow2Add(1, 1);
    Pow2Add(2, 2);
    Pow2Add(4, 4);
    Pow2Add(8, 5);
    assert Pow2(5) == 2 * Pow2(4);
  }

  /** The length `InternalAlloc` asks the kernel for: whole pages covering
      `size`, less than a page more than `size`; and, when `size + PAGE_SIZE - 1`
      wraps around, a length of zero. */
  lemma MappingLength(size: Word)
    ensures var len := NormalizeSize(size, PAGE_SIZE);
      && (size + PAGE_SIZE <= WORD ==>
            && IsMultipleOf(len, PAGE_SIZE) && len >= size && len >= PAGE_SIZE
            && (size >= PAGE_SIZE ==> len < size + PAGE_SIZE))
      && (size + PAGE_SIZE > WORD ==> len == 0)
  {
    PageSizeIsPowerOfTwo();
    if size + PAGE_SIZE <= WORD {
      NormalizeIsLeastMultiple(size, PAGE_SIZE);
    } else {
      NormalizeWrapsToZero(size, PAGE_SIZE);
    }
  }

  /** With a power-of-two chunk granularity and no wrap-around, a run the
      locator picks holds at least the requested number of bytes. */
  lemma LocatedRunCoversRequest(views: seq<BlockView>, size: Word, minChunkSize: Word, b: nat, s: nat)
    requires IsPowerOfTwo(minChunkSize) && size + minChunkSize <= WORD
    requires Locate(views, NormalizeSize(size, minChunkSize)) == Some((b, s))
    ensures b < |views| && s < |views[b].slots|
    ensures RunLength(views[b].slots, s) * views[b].chunkSize >= size
  {
    NormalizeIsLeastMultiple(size, minChunkSize);
    LocatedRunIsFreeAndInside(views, NormalizeSize(size, minChunkSize), b, s);
  }

  /** Because the rounding wraps, a request for 2^64 - 1 bytes is located
      with a need of 0 bytes, that is, at the first free chunk of the first
      block that has one. (A request for 0 bytes is first rounded up to
      `minChunkSize`, so it is not located the same way.) */
  lemma HugeRequestLocatedAsEmpty(views: seq<BlockView>, minChunkSize: Word)
    requires IsPowerOfTwo(minChunkSize) && minChunkSize >= 2
    ensures Locate(views, NormalizeSize(WORD - 1, minChunkSize)) == Locate(views, 0)
  {
    NormalizeWrapsToZero(WORD - 1, minChunkSize);
  }
}

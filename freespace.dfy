/** The free-space locator's specification, on values: which chunk slots are
    free, the maximal free runs of a block, and the first-fit choice of a run
    over an ordered sequence of blocks. */
module FreeSpace {
  import opened Words

  datatype Option<T> = None | Some(value: T)

  /** The metadata of one allocation: whether it is live, its size and the
      address handed out for it (`AllocationMetadata`). */
  datatype AllocationMetadata = AllocationMetadata(used: bool, size: Word, ptr: Word)

  /** One chunk slot of a block: a null metadata pointer or a record. */
  type Slot = Option<AllocationMetadata>

  /** A chunk is free when its slot is empty or its metadata is not in use. */
  predicate IsFree(slot: Slot)
  {
    slot.None? || !slot.value.used
  }

  predicate AllFree(slots: seq<Slot>, lo: nat, hi: nat)
    requires lo <= hi <= |slots|
  {
    forall i :: lo <= i < hi ==> IsFree(slots[i])
  }

  /** The number of consecutive free chunks from index `s` on: all of them
      are free, and the run stops at a used chunk or at the end. */
  function RunLength(slots: seq<Slot>, s: nat): (len: nat)
    requires s <= |slots|
    ensures s + len <= |slots|
    decreases |slots| - s
  {
    if s < |slots| && IsFree(slots[s]) then 1 + RunLength(slots, s + 1) else 0
  }

  /** The run from `s` is free throughout and stops at a used chunk or at the end. */
  lemma {:induction false} RunLengthIsRun(slots: seq<Slot>, s: nat)
    requires s <= |slots|
    ensures var len := RunLength(slots, s);
      && AllFree(slots, s, s + len)
      && (s + len == |slots| || !IsFree(slots[s + len]))
    decreases |slots| - s
  {
    if s < |slots| && IsFree(slots[s]) {
      RunLengthIsRun(slots, s + 1);
    }
  }

  /** A maximal run of free chunks begins at `s`. */
  predicate RunStart(slots: seq<Slot>, s: nat)
  {
    s < |slots| && IsFree(slots[s]) && (s == 0 || !IsFree(slots[s - 1]))
  }

  /** The maximal free run beginning at `s`, in chunks of `chunkSize` bytes,
      holds at least `need` bytes. */
  predicate FitsAt(slots: seq<Slot>, chunkSize: nat, need: nat, s: nat)
  {
    RunStart(slots, s) && RunLength(slots, s) * chunkSize >= need
  }

  /** The first run start at or after `lo` whose run fits. */
  function FirstFitFrom(slots: seq<Slot>, chunkSize: nat, need: nat, lo: nat): Option<nat>
    decreases |slots| - lo
  {
    if lo >= |slots| then None
    else if FitsAt(slots, chunkSize, need, lo) then Some(lo)
    else FirstFitFrom(slots, chunkSize, need, lo + 1)
  }

  /** FirstFitFrom finds a fitting run start, and none before it, or finds
      nothing when no run start from `lo` on fits. */
  lemma {:induction false} FirstFitFromIsFirst(slots: seq<Slot>, chunkSize: nat, need: nat, lo: nat)
    ensures var r := FirstFitFrom(slots, chunkSize, need, lo);
      && (r.Some? ==> lo <= r.value && FitsAt(slots, chunkSize, need, r.value))
      && (r.Some? ==> forall k :: lo <= k < r.value ==> !FitsAt(slots, chunkSize, need, k))
      && (r.None? ==> forall k :: lo <= k < |slots| ==> !FitsAt(slots, chunkSize, need, k))
    decreases |slots| - lo
  {
    if lo < |slots| && !FitsAt(slots, chunkSize, need, lo) {
      FirstFitFromIsFirst(slots, chunkSize, need, lo + 1);
    }
  }

  function FirstFit(slots: seq<Slot>, chunkSize: nat, need: nat): Option<nat>
  {
    FirstFitFrom(slots, chunkSize, need, 0)
  }

  /** What the locator sees of a block: its chunk size and the metadata of
      its `totalChunks` chunks, in address order. */
  datatype BlockView = BlockView(chunkSize: nat, slots: seq<Slot>)

  predicate BlockFitsAt(blocks: seq<BlockView>, need: nat, b: nat, s: nat)
  {
    b < |blocks| && FitsAt(blocks[b].slots, blocks[b].chunkSize, need, s)
  }

  /** The first block at or after `from` with a run that fits, and the start
      of its first such run. */
  function LocateFrom(blocks: seq<BlockView>, need: nat, from: nat): Option<(nat, nat)>
    decreases |blocks| - from
  {
    if from >= |blocks| then None
    else match FirstFit(blocks[from].slots, blocks[from].chunkSize, need)
      case Some(s) => Some((from, s))
      case None => LocateFrom(blocks, need, from + 1)
  }

  /** LocateFrom picks a fitting run with no fitting run before it, in an
      earlier block or earlier in the same block, or finds nothing when no
      block from `from` on has a fitting run. */
  lemma {:induction false} LocateFromIsFirst(blocks: seq<BlockView>, need: nat, from: nat)
    ensures var r := LocateFrom(blocks, need, from);
      && (r.Some? ==> from <= r.value.0 && BlockFitsAt(blocks, need, r.value.0, r.value.1))
      && (r.Some? ==> forall s: nat :: s < r.value.1 ==> !BlockFitsAt(blocks, need, r.value.0, s))
      && (r.Some? ==> forall b: nat, s: nat :: from <= b < r.value.0 ==> !BlockFitsAt(blocks, need, b, s))
      && (r.None? ==> forall b: nat, s: nat :: from <= b ==> !BlockFitsAt(blocks, need, b, s))
    decreases |blocks| - from
  {
    if from < |blocks| {
      var slots, c := blocks[from].slots, blocks[from].chunkSize;
      FirstFitFromIsFirst(slots, c, need, 0);
      if FirstFit(slots, c, need).None? {
        LocateFromIsFirst(blocks, need, from + 1);
      }
    }
  }

  function Locate(blocks: seq<BlockView>, need: nat): Option<(nat, nat)>
  {
    LocateFrom(blocks, need, 0)
  }

  /** Run `s` of block `b` fits, and no run fits in an earlier block or
      earlier in block `b`. */
  ghost predicate IsFirstFit(blocks: seq<BlockView>, need: nat, b: nat, s: nat)
  {
    && BlockFitsAt(blocks, need, b, s)
    && (forall b': nat, s': nat :: b' < b ==> !BlockFitsAt(blocks, need, b', s'))
    && (forall s': nat :: s' < s ==> !BlockFitsAt(blocks, need, b, s'))
  }

  /** The locator's choice is exactly the first fit, first by block and then by run. */
  lemma LocateIsFirstFit(blocks: seq<BlockView>, need: nat, b: nat, s: nat)
    ensures Locate(blocks, need) == Some((b, s)) <==> IsFirstFit(blocks, need, b, s)
  {
    LocateFromIsFirst(blocks, need, 0);
  }

  /** The locator finds nothing exactly when no block has a run that fits;
      in particular it finds nothing in an empty store. */
  lemma LocateNoneIffNoFit(blocks: seq<BlockView>, need: nat)
    ensures Locate(blocks, need).None? <==> forall b: nat, s: nat :: !BlockFitsAt(blocks, need, b, s)
  {
    LocateFromIsFirst(blocks, need, 0);
    match Locate(blocks, need)
    case Some((b, s)) =>
      assert BlockFitsAt(blocks, need, b, s);
    case None =>
  }

  lemma BytesBound(s: nat, len: nat, total: nat, c: nat, need: nat)
    requires s + len <= total && len * c >= need
    ensures s * c + need <= total * c
  {
    MulLe(s + len, total, c);
  }

  /** A found run starts a maximal free run of the block, every chunk of
      that run is free, its bytes cover the request, and the request taken
      from the run's first byte ends inside the block. */
  lemma LocatedRunIsFreeAndInside(blocks: seq<BlockView>, need: nat, b: nat, s: nat)
    requires Locate(blocks, need) == Some((b, s))
    ensures b < |blocks| && s < |blocks[b].slots|
    ensures var slots, c := blocks[b].slots, blocks[b].chunkSize;
      var len := RunLength(slots, s);
      && len >= 1
      && (s == 0 || !IsFree(slots[s - 1]))
      && AllFree(slots, s, s + len)
      && len * c >= need
      && s * c + need <= |slots| * c
  {
    LocateFromIsFirst(blocks, need, 0);
    var slots, c := blocks[b].slots, blocks[b].chunkSize;
    assert FitsAt(slots, c, need, s);
    RunLengthIsRun(slots, s);
    BytesBound(s, RunLength(slots, s), |slots|, c, need);
  }

  /** A free stretch from `s` up to a used chunk (or the end) is the whole run from `s`. */
  lemma {:induction false} RunLengthOfStretch(slots: seq<Slot>, s: nat, e: nat)
    requires s <= e <= |slots| && AllFree(slots, s, e)
    requires e == |slots| || !IsFree(slots[e])
    ensures RunLength(slots, s) == e - s
    decreases e - s
  {
    if s < e {
      RunLengthOfStretch(slots, s + 1, e);
    }
  }

  /** A free stretch from `s` on is at least as long as the run from `s` says. */
  lemma {:induction false} RunLengthAtLeast(slots: seq<Slot>, s: nat, e: nat)
    requires s <= e <= |slots| && AllFree(slots, s, e)
    ensures RunLength(slots, s) >= e - s
    decreases e - s
  {
    if s < e {
      RunLengthAtLeast(slots, s + 1, e);
    }
  }

  /** A run from the run start `s` that ends (at a used chunk or the end of
      the block) with fewer than `need` bytes leaves no fitting run start in
      `[s, e)`: only `s` starts a run there, and its run is too short. */
  lemma ShortRunHasNoFit(slots: seq<Slot>, c: nat, need: nat, s: nat, e: nat)
    requires s < e <= |slots| && AllFree(slots, s, e)
    requires e == |slots| || !IsFree(slots[e])
    requires (e - s) * c < need
    ensures forall k :: s <= k < e ==> !FitsAt(slots, c, need, k)
  {
    RunLengthOfStretch(slots, s, e);
    forall k | s <= k < e
      ensures !FitsAt(slots, c, need, k)
    {
      if k > s {
        assert IsFree(slots[k - 1]);
      }
    }
  }
}

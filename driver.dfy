/**
 The run of the simulator's driver: a disk of 4 tracks of 16 blocks of
 4000 bytes, files A to G placed one after the other, B and E removed,
 and H and I placed in the gaps this leaves.
 */
module Driver {
  import opened Fat

  const BlockSize := 4000
  const BlockCount := 4 * 16

  /** The blocks lo, lo+1, ..., hi-1. */
  function Run(lo: nat, hi: nat): (r: seq<nat>)
    requires lo <= hi
    ensures |r| == hi - lo && forall k :: 0 <= k < |r| ==> r[k] == lo + k
  {
    seq(hi - lo, k => lo + k)
  }

  /** The last block of each of the files A to G. */
  const Lasts: set<nat> := {0, 4, 10, 24, 25, 29, 44}

  /** The table once the files below block p are placed: each such block
      points to the next one, except the last block of a file. Stage(0) is
      the table of a freshly built disk. */
  function Stage(p: nat): (t: seq<Entry>)
    ensures |t| == BlockCount
  {
    seq(BlockCount, i => if i < p then Entry(false, if i in Lasts then NoNext else i + 1) else FreeEntry)
  }

  /** Placing the file that ends at block q-1 on Stage(p): it gets the
      blocks p to q-1, and the table becomes Stage(q). */
  lemma {:induction false} FileStep(p: nat, q: nat, size: int)
    requires p < q <= 45 && q - 1 in Lasts
    requires forall i :: p <= i < q - 1 ==> i !in Lasts
    requires 0 < size && CeilDiv(size, BlockSize) == q - p
    ensures Allocation(Stage(p), size, BlockSize) == Ok(Run(p, q))
    ensures AllocatedFrom(Stage(p), Stage(q), Run(p, q))
  {
    AllocationAfterUsedPrefix(Stage(p), p, size, BlockSize);
    assert seq(q - p, k => p + k) == Run(p, q);
    var L := Run(p, q);
    forall j | p <= j < q
      ensures j in L
    {
      assert L[j - p] == j;
    }
  }

  /** File A (4000 bytes) takes block 0 of the fresh table. */
  lemma FileA()
    ensures Allocation(Stage(0), 4000, BlockSize) == Ok([0])
    ensures AllocatedFrom(Stage(0), Stage(1), [0])
  {
    FileStep(0, 1, 4000);
    assert Run(0, 1) == [0];
  }

  /** File B (13000 bytes) takes blocks 1-4. */
  lemma FileB()
    ensures Allocation(Stage(1), 13000, BlockSize) == Ok(Run(1, 5))
    ensures AllocatedFrom(Stage(1), Stage(5), Run(1, 5))
  {
    FileStep(1, 5, 13000);
  }

  /** File C (24000 bytes) takes blocks 5-10. */
  lemma FileC()
    ensures Allocation(Stage(5), 24000, BlockSize) == Ok(Run(5, 11))
    ensures AllocatedFrom(Stage(5), Stage(11), Run(5, 11))
  {
    FileStep(5, 11, 24000);
  }

  /** File D (55000 bytes) takes blocks 11-24. */
  lemma FileD()
    ensures Allocation(Stage(11), 55000, BlockSize) == Ok(Run(11, 25))
    ensures AllocatedFrom(Stage(11), Stage(25), Run(11, 25))
  {
    FileStep(11, 25, 55000);
  }

  /** File E (3600 bytes) takes block 25. */
  lemma FileE()
    ensures Allocation(Stage(25), 3600, BlockSize) == Ok([25])
    ensures AllocatedFrom(Stage(25), Stage(26), [25])
  {
    FileStep(25, 26, 3600);
    assert Run(25, 26) == [25];
  }

  /** File F (15000 bytes) takes blocks 26-29. */
  lemma FileF()
    ensures Allocation(Stage(26), 15000, BlockSize) == Ok(Run(26, 30))
    ensures AllocatedFrom(Stage(26), Stage(30), Run(26, 30))
  {
    FileStep(26, 30, 15000);
  }

  /** File G (57000 bytes) takes blocks 30-44. */
  lemma FileG()
    ensures Allocation(Stage(30), 57000, BlockSize) == Ok(Run(30, 45))
    ensures AllocatedFrom(Stage(30), Stage(45), Run(30, 45))
  {
    FileStep(30, 45, 57000);
  }

  /** The table after B (from block 1) and E (from block 25) are removed. */
  function AfterRemovals(): (t: seq<Entry>)
    ensures |t| == BlockCount
  {
    seq(BlockCount, i => if i < 45 && !(1 <= i <= 4 || i == 25) then Entry(false, if i in Lasts then NoNext else i + 1) else FreeEntry)
  }

  /** Removing B follows the chain 1-4 and removing E the chain 25; together
      they free exactly those blocks. */
  lemma RemoveBAndE()
    ensures IsChain(Stage(45), 1, Run(1, 5))
    ensures IsChain(Released(Stage(45), Run(1, 5)), 25, [25])
    ensures Released(Released(Stage(45), Run(1, 5)), [25]) == AfterRemovals()
  {
    var t := Stage(45);
    var b := Run(1, 5);
    forall k | 0 <= k < |b|
      ensures t[b[k]].next == Successor(b, k)
    {
      if k + 1 < |b| {
        assert b[k] !in Lasts;
      }
    }
    var t1 := Released(t, b);
    assert t1[25] == t[25];
    forall i | 0 <= i < BlockCount
      ensures Released(t1, [25])[i] == AfterRemovals()[i]
    {
      if 1 <= i <= 4 {
        assert b[i - 1] == i;
      }
    }
  }

  /** Blocks 1-4, 25 and 45-63 are the free ones: the flags after the
      removals. */
  ghost predicate GapsAfterRemovals(t: seq<Entry>) {
    |t| == BlockCount &&
    forall i :: 0 <= i < BlockCount ==> (t[i].free <==> 1 <= i <= 4 || i == 25 || 45 <= i)
  }

  /** Blocks 3, 4, 25 and 45-63 are the free ones: the flags once H is placed. */
  ghost predicate GapsAfterH(t: seq<Entry>) {
    |t| == BlockCount &&
    forall i :: 0 <= i < BlockCount ==> (t[i].free <==> 3 <= i <= 4 || i == 25 || 45 <= i)
  }

  /** An allocation whose first free block and free blocks from there on
      are known takes the first ones it needs. */
  lemma AllocationTakes(t: seq<Entry>, size: int, start: nat, taken: seq<nat>, rest: seq<nat>)
    requires start < |t| && FirstFree(t) == start
    requires FreeIndices(t, start, |t|) == taken + rest
    requires 0 < size && CeilDiv(size, BlockSize) == |taken|
    ensures Allocation(t, size, BlockSize) == Ok(taken)
  {
    assert (taken + rest)[..|taken|] == taken;
  }

  /** On such a table the free blocks below the last used block 44 are 1-4
      and 25: 20000 bytes of fragmented free space. */
  lemma FragmentationWithGaps(t: seq<Entry>)
    requires GapsAfterRemovals(t)
    ensures BlockSize * FragmentedBlocks(t) == 20000
  {
    assert !t[44].free;
    assert UsedEnd(t, BlockCount) == 45;
    FreeIndicesUnique(t, 0, 45, [1, 2, 3, 4, 25]);
  }

  lemma FragmentationAfterRemovals()
    ensures BlockSize * FragmentedBlocks(AfterRemovals()) == 20000
  {
    FragmentationWithGaps(AfterRemovals());
  }

  /** On such a table file H (8000 bytes) takes the first two free blocks. */
  lemma FileHWithGaps(t: seq<Entry>)
    requires GapsAfterRemovals(t)
    ensures Allocation(t, 8000, BlockSize) == Ok([1, 2])
  {
    var n := |t|;
    FirstGapAfterRemovals(t);
    FreeIndicesSplit(t, 1, 3, n);
    AllocationTakes(t, 8000, 1, [1, 2], FreeIndices(t, 3, n));
  }

  /** The first free block is 1, and blocks 1 and 2 are free. */
  lemma FirstGapAfterRemovals(t: seq<Entry>)
    requires GapsAfterRemovals(t)
    ensures FirstFree(t) == 1 && FreeIndices(t, 1, 3) == [1, 2]
  {
    assert !t[0].free && t[1].free;
    FreeIndicesUnique(t, 1, 3, [1, 2]);
  }

  /** File H (8000 bytes) takes blocks 1 and 2. */
  lemma FileH()
    ensures Allocation(AfterRemovals(), 8000, BlockSize) == Ok([1, 2])
  {
    FileHWithGaps(AfterRemovals());
  }

  /** The table once H holds blocks 1 and 2. */
  function AfterH(): (t: seq<Entry>)
    ensures |t| == BlockCount
  {
    AfterRemovals()[1 := Entry(false, 2)][2 := Entry(false, NoNext)]
  }

  /** On such a table file I (18000 bytes) needs five blocks and gets 3, 4,
      25, 45 and 46, jumping over the used blocks between them. */
  lemma FileIWithGaps(t: seq<Entry>)
    requires GapsAfterH(t)
    ensures Allocation(t, 18000, BlockSize) == Ok([3, 4, 25, 45, 46])
  {
    var n := |t|;
    FirstGapAfterH(t);
    FreeBlocksAfterH(t);
    FreeIndicesSplit(t, 3, 47, n);
    AllocationTakes(t, 18000, 3, [3, 4, 25, 45, 46], FreeIndices(t, 47, n));
  }

  /** The first free block is 3. */
  lemma FirstGapAfterH(t: seq<Entry>)
    requires GapsAfterH(t)
    ensures FirstFree(t) == 3
  {
    assert !t[0].free && !t[1].free && !t[2].free && t[3].free;
  }

  /** From block 3 up to block 46 the free blocks are 3, 4, 25, 45 and 46. */
  lemma FreeBlocksAfterH(t: seq<Entry>)
    requires GapsAfterH(t)
    ensures FreeIndices(t, 3, 47) == [3, 4, 25, 45, 46]
  {
    FreeIndicesUnique(t, 3, 47, [3, 4, 25, 45, 46]);
  }

  /** H chains block 1 to block 2, and then file I (18000 bytes) gets blocks
      3, 4, 25, 45 and 46. */
  lemma FileI()
    ensures AllocatedFrom(AfterRemovals(), AfterH(), [1, 2])
    ensures Allocation(AfterH(), 18000, BlockSize) == Ok([3, 4, 25, 45, 46])
  {
    FileIWithGaps(AfterH());
  }
}

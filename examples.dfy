/**
 Small concrete tables on which the allocation, release and fragmentation
 specifications are evaluated, showing a file placed around a used
 block, a request that does not fit, a release that gives the table back,
 and free space that does and does not count as fragmented.
 */
module Scenarios {
  import opened Fat

  const Used := Entry(false, NoNext)

  /** Four blocks where block 1 belongs to another file. */
  function Mixed(): seq<Entry> {
    [FreeEntry, Used, FreeEntry, FreeEntry]
  }

  /** A 150-byte file with 100-byte blocks takes blocks 0 and 2, skipping
      the used block 1. */
  lemma SkipsUsedBlock()
    ensures Allocation(Mixed(), 150, 100) == Ok([0, 2])
  {
    assert FirstFree(Mixed()) == 0;
    assert FreeIndices(Mixed(), 0, 4) == [0, 2, 3];
    assert CeilDiv(150, 100) == 2;
    assert [0, 2, 3][..2] == [0, 2];
  }

  /** A 301-byte file needs four blocks, one more than are free. */
  lemma TooLargeIsRefused()
    ensures Allocation(Mixed(), 301, 100) == Err(NotEnoughSpace)
  {
    assert FirstFree(Mixed()) == 0;
    assert FreeIndices(Mixed(), 0, 4) == [0, 2, 3];
  }

  /** The table once the 150-byte file holds blocks 0 and 2. */
  function AfterSmallFile(): seq<Entry> {
    [Entry(false, 2), Used, Entry(false, NoNext), FreeEntry]
  }

  /** The allocation above produces that table, and releasing the chain
      from block 0 gives the original one back. */
  lemma SmallFileRoundTrip()
    ensures AllocatedFrom(Mixed(), AfterSmallFile(), [0, 2])
    ensures IsChain(AfterSmallFile(), 0, [0, 2])
    ensures Released(AfterSmallFile(), [0, 2]) == Mixed()
  {
    SkipsUsedBlock();
    assert WellFormed(Mixed());
    AllocateThenRelease(Mixed(), AfterSmallFile(), 150, 100, [0, 2]);
  }

  /** Only block 0 counts as fragmented free space: block 3 is free but no
      used block follows it. */
  lemma TrailingFreeRunNotCounted()
    ensures FragmentedBlocks(Mixed()) == 1
  {
    assert UsedEnd(Mixed(), 4) == 2;
    assert FreeIndices(Mixed(), 0, 2) == [0];
  }

  /** After the file above is placed only block 3 is free, and it is not
      counted. */
  lemma FullPrefixHasNoFragments()
    ensures FragmentedBlocks(AfterSmallFile()) == 0
  {
    assert UsedEnd(AfterSmallFile(), 4) == 3;
    assert FreeIndices(AfterSmallFile(), 0, 3) == [];
  }
}

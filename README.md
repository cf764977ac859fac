# FAT disk simulator — Dafny model

This project models the `Disco` class of `simulador.py`. The class simulates
a disk of `tracks × blocksPerTrack` blocks of `blockSize` bytes. It keeps a
File Allocation Table (FAT) with one entry per block. Each entry holds a
*free* flag and the index of the *next* block of its file, where -1 means
"none".

The disk offers four operations:

- **first-fit search**: find the lowest free entry;
- **allocation** of a file of a given size: walk from the first free block,
  claim every free block met until the size is covered, and chain the claimed
  blocks. If the table ends first, roll the walked range back to a snapshot
  and fail;
- **removal**: follow a file's chain and set every entry on it back to free;
- the **fragmented free space** metric: the bytes of free blocks that lie
  below some used block.

The model has four files:

- `fat.dfy` (module `Fat`) holds the table as a value (`seq<Entry>`) and the
  functions that specify each operation declaratively: `FirstFree`,
  `Allocation`, `Released` and `FragmentedBlocks`. It also holds the lemmas
  that state what these guarantee.
- `disk.dfy` (module `Simulator`) holds the class `Disk`. Its `fat` is an
  `array<Entry>` that its methods update in place, one method per method of
  `Disco`. `FindFreeBlock`, `Allocate`, `Remove` and `FragmentedFreeSpace`
  are proved against the `Fat` specification functions. The helpers
  `ClaimBlock`, `LinkBlocks` and `RestoreRange` state their new table in
  terms of the old one (`old(...)`, `Simulator.Linked`,
  `Simulator.Restored`). The allocation loop of `alocar_arquivo` is the method `Walk`. `Allocate`
  calls `Walk`, then links the claimed blocks, then either returns or rolls
  back.
- `examples.dfy` (module `Scenarios`) evaluates the specifications on small
  concrete tables.
- `driver.dfy` (module `Driver`) follows the run of `main`
  (`simulador.py:175-246`) on its 64-block disk: files A to G, the removal
  of B and E, the fragmented space that leaves, and files H and I.

The two failures of `alocar_arquivo` are `ValueError`s in the source. Here they
are `Err(NoFreeBlock)` and `Err(NotEnoughSpace)` of `Fat.Result`.

### Behaviour at the edges

- The code chains the claimed blocks *before* it checks whether the size was
  covered (`simulador.py:62-63`). A failing allocation therefore links blocks
  and then restores them. `Allocate` does the same.
- The rollback restores the half-open range from the first free block up to
  the index where the walk stopped (`simulador.py:114-116`). For a positive
  size that fails, this index is the table length, so nothing past the table
  is touched. For a negative size the walk never runs and the range is empty.
- A size of 0 with some free block yields an empty block list. A negative size
  with some free block fails with `NotEnoughSpace` and changes nothing, because
  the loop never runs and the remaining size is not 0. With no free block,
  every size fails with `NoFreeBlock`.

## Model

| member | source | states |
|---|---|---|
| Fat.CeilDivLeast | simulador.py:59-60 | k blocks fall short of the ceiling ⌈a/b⌉ exactly when they hold fewer than a bytes |
| Fat.FirstFree | simulador.py:22-34 | the result is -1 exactly when no entry is free; otherwise it is a free entry with no free entry before it |
| Fat.FirstFreeFrom | simulador.py:22-34 | the result is -1 exactly when no entry from i on is free; otherwise it is a free entry with no free entry before it |
| Fat.FreeIndicesFacts | simulador.py:87-92 | the blocks a walk over [lo, hi) claims are the free ones in that range, each once, in increasing order, and no more than hi-lo of them |
| Fat.FreeIndicesSplit | simulador.py:59-60 | the blocks claimed over a range are those of its first part followed by those of its second |
| Fat.FreeIndicesAllFree | simulador.py:148-149 | a wholly free range contributes every one of its indices, in order |
| Fat.FreeIndicesUnique | simulador.py:87-92 | any increasing list that holds exactly the free indices of a range is the list of blocks a walk over that range claims |
| Fat.Allocation | simulador.py:36-72 | a negative size always fails; a successful allocation never has more blocks than the table has free entries |
| Fat.AllocationNoFreeBlock | simulador.py:49-52 | the allocation fails with NoFreeBlock exactly when no entry is free, whatever the size |
| Fat.AllocationSucceeds | simulador.py:59-72 | the allocation succeeds iff a free entry exists and either the size is 0, or the size is positive and ⌈size/blockSize⌉ entries are free |
| Fat.AllocationShape | simulador.py:54-67 | a successful allocation yields distinct, increasing, in-range free blocks; for a positive size exactly ⌈size/blockSize⌉ of them, starting at the first free block; for size 0 none |
| Fat.AllocationSkipsNoFreeBlock | simulador.py:59-60 | between the first and last block of a successful allocation, every free block belongs to the file (first fit never skips a free block) |
| Fat.AllocationOnFreeTable | simulador.py:36-72 | on a freshly built table a file of positive size that fits takes blocks 0, 1, … in order |
| Fat.AllocationAfterUsedPrefix | simulador.py:49-67 | when the blocks below p are used and those from p on are free, a file of positive size that fits takes p, p+1, … in order |
| Fat.AllocatedKeepsWellFormed | simulador.py:87-92 | allocation only marks entries used, so free entries keep having no successor |
| Fat.Released | simulador.py:118-134 | releasing a chain keeps the table's length, keeps free entries without successor, and keeps every successor pointing forward |
| Fat.ChainFrom | simulador.py:125-133 | on a forward-linked table, following `next` from -1 or from any block gives a chain: in range, increasing, so never revisiting a block, and ending at -1 |
| Fat.AllocatedKeepsForwardLinked | simulador.py:95-103 | chaining claimed blocks in increasing order keeps every successor -1 or a higher block |
| Fat.ChainUnique | simulador.py:125-133 | the chain followed from a start block is determined by the table |
| Fat.AllocateThenRelease | simulador.py:118-134 | after a successful allocation its blocks form a chain from the first block, and releasing that chain gives back the table from before the allocation |
| Fat.UsedEnd | simulador.py:147-153 | the result is 0 or one past a used entry, and every entry from it up to hi is free |
| Fat.FragmentedBlocks | simulador.py:137-154 | the fragmented blocks number at most the free blocks |
| Fat.FragmentedMembership | simulador.py:137-154 | a block counts as fragmented free space iff it is free and some block at a higher index is used |
| Fat.FragmentedBounds | simulador.py:137-154 | the fragmented blocks number at most the free blocks, and are zero on a wholly free or wholly used table |
| Simulator.Disk.constructor | simulador.py:14-20 | a table of tracks × blocksPerTrack entries, all free without successor (so well-formed and forward-linked), and the geometry as given |
| Simulator.Disk.FindFreeBlock | simulador.py:22-34 | returns the lowest free index, or -1 exactly when no entry is free; nothing changes |
| Simulator.Disk.ClaimBlock | simulador.py:75-93 | a free block is marked used, takes min(remaining, blockSize) off the remaining size and is appended to the list; a used block is passed over; the index always advances by one; no other entry changes |
| Simulator.Disk.LinkBlocks | simulador.py:95-103 | each listed block but the last points to the next listed block; every other entry, and the last block, is unchanged |
| Simulator.Disk.RestoreRange | simulador.py:105-116 | entries in [lo, hi) get back the snapshot's free flag and successor; the rest is unchanged |
| Simulator.Disk.Walk | simulador.py:54-60 | the walk claims exactly the free blocks between the start and where it stops, stops just past the block whose claim covers the last bytes, otherwise runs to the end of the table, and changes nothing else |
| Simulator.Disk.Allocate | simulador.py:36-72 | the result is the specified first-fit allocation; on failure the table is exactly as before; on success the chosen blocks are used and chained and no other entry changes; well-formedness and forward links are preserved |
| Simulator.Disk.Remove | simulador.py:118-134 | the table becomes the release of the chain from the start: its blocks free without successor, every other entry unchanged; well-formedness and forward links are preserved |
| Simulator.Disk.FragmentedFreeSpace | simulador.py:137-154 | returns blockSize times the number of free blocks below the last used block, between 0 and blockSize times the free blocks; nothing changes |
| Simulator.Remaining | simulador.py:87-91 | once at least one block has been claimed the remaining size is not negative, and it never exceeds a non-negative starting size |
| Simulator.RemainingClosedForm | simulador.py:87-91 | after k claims a positive size has max(0, size - k·blockSize) bytes left to place |
| Simulator.WalkCompletes | simulador.py:66-67 | a walk that ends with no bytes left has claimed exactly the blocks the allocation specification names |
| Simulator.WalkRunsOut | simulador.py:68-72 | a walk that ends with bytes left (or a negative size) means the specification fails with NotEnoughSpace |
| Simulator.ClaimedAndLinked | simulador.py:59-67 | claiming the walked free blocks and then chaining them yields exactly the table the allocation specification describes |
| Simulator.RestoredAfterWalk | simulador.py:68-72 | restoring the walked range from the snapshot undoes both the claims and the chaining |
| Scenarios.SkipsUsedBlock | simulador.py:87-92 | on a table whose block 1 is used, a 150-byte file with 100-byte blocks takes blocks 0 and 2 |
| Scenarios.TooLargeIsRefused | simulador.py:68-72 | the same table refuses a 301-byte file with NotEnoughSpace |
| Scenarios.SmallFileRoundTrip | simulador.py:118-134 | the 150-byte file's table chains 0 → 2, and releasing that chain restores the table |
| Scenarios.TrailingFreeRunNotCounted | simulador.py:147-153 | a free run after the last used block is not counted as fragmented |
| Scenarios.FullPrefixHasNoFragments | simulador.py:147-153 | with only the final block free, the fragmented count is zero |
| Driver.FileStep | simulador.py:198-216 | on the table with every block below p used, a file needing q-p blocks gets blocks p to q-1, and the table chains them as the next stage |
| Driver.FileA | simulador.py:198 | file A (4000 bytes) gets block 0 of the fresh table |
| Driver.FileB | simulador.py:199 | file B (13000 bytes) gets blocks 1-4 |
| Driver.FileC | simulador.py:200 | file C (24000 bytes) gets blocks 5-10 |
| Driver.FileD | simulador.py:201 | file D (55000 bytes) gets blocks 11-24 |
| Driver.FileE | simulador.py:214 | file E (3600 bytes) gets block 25 |
| Driver.FileF | simulador.py:215 | file F (15000 bytes) gets blocks 26-29 |
| Driver.FileG | simulador.py:216 | file G (57000 bytes) gets blocks 30-44 |
| Driver.RemoveBAndE | simulador.py:224-225 | B's chain from block 1 is blocks 1-4 and E's chain from block 25 is block 25; releasing both frees exactly those blocks |
| Driver.FragmentationWithGaps | simulador.py:137-154 | with blocks 1-4, 25 and 45-63 free, the fragmented free space is 20000 bytes |
| Driver.FragmentationAfterRemovals | simulador.py:231 | after the removals the fragmented free space is 20000 bytes |
| Driver.FileHWithGaps | simulador.py:243 | with blocks 1-4, 25 and 45-63 free, an 8000-byte file gets blocks 1 and 2 |
| Driver.FileH | simulador.py:243 | file H (8000 bytes) gets blocks 1 and 2 |
| Driver.FileIWithGaps | simulador.py:244 | with blocks 3, 4, 25 and 45-63 free, an 18000-byte file gets blocks 3, 4, 25, 45 and 46 |
| Driver.FileI | simulador.py:243-244 | H's placement chains block 1 to block 2, and then file I (18000 bytes) gets blocks 3, 4, 25, 45 and 46 |

## Left out

- The timing parameters `tempo_seek`, `tempo_rotacao` and `tempo_transferencia` (`simulador.py:17-19`) are stored but never used by the operations modelled here. They are floating point, so the constructor does not take them.
- `calcular_taxa_fragmentacao` (`simulador.py:156-166`) is a floating-point percentage. The model stops at the integer byte count it divides, `FragmentedFreeSpace`.
- Printing the table (`simulador.py:168-173`) and the messages `main` prints are I/O. `driver.dfy` states the outcome of each of `main`'s calls on the specification functions, not on a `Disk` object, and leaves out the fragmentation percentage `main` prints (`simulador.py:231-232`).
- Simulator.Disk.constructor: requires positive block size, track count and blocks per track. The source does not check these.
- Simulator.Disk.Remove: requires that following `next` from the start block is a chain of in-range, distinct blocks ending at -1. `Fat.ChainFrom` supplies that chain for -1 and for every block of a forward-linked table, which is every table the class reaches. On a table outside that, the source behaves differently. On a cycle it stops at the first block it revisits, because that block's `next` was already reset to -1. A negative index other than -1 wraps round to a block counted from the end. A next index at or past the table's end, or below minus its length, raises `IndexError`. None of these cases is modelled.
- The messages of the two `ValueError`s are replaced by the `AllocError` constructors.
- Internal fragmentation (the unused tail of a file's last block) is not computed by the source and is not modelled.
- The list `blocos_alocados` is passed to `_alocar_bloco` and extended in place. The model passes it as a value and returns the new list. The snapshot `estado_inicial` is likewise a value copy of the table.
- Integer widths do not arise. Python integers are unbounded, and so are Dafny's.

/**
 The simulated disk (class `Disco` of simulador.py): its geometry and the
 File Allocation Table it updates in place, one entry per block.
 */
module Simulator {
  import opened Fat

  class Disk {
    /** Bytes per block (`tamanho_bloco`). */
    const blockSize: int
    /** Number of tracks (`trilhas`). */
    const tracks: int
    /** Blocks per track (`blocos_por_trilha`). */
    const blocksPerTrack: int
    /** The table (`fat`): its length is fixed at construction. */
    const fat: array<Entry>

    ghost predicate Valid() {
      blockSize > 0 && tracks > 0 && blocksPerTrack > 0 &&
      fat.Length == tracks * blocksPerTrack
    }

    /** A disk whose table holds one free entry without successor per block. */
    constructor (blockSize: int, tracks: int, blocksPerTrack: int)
      requires blockSize > 0 && tracks > 0 && blocksPerTrack > 0
      ensures Valid() && fresh(fat)
      ensures this.blockSize == blockSize && this.tracks == tracks
      ensures this.blocksPerTrack == blocksPerTrack
      ensures forall i :: 0 <= i < fat.Length ==> fat[i] == FreeEntry
      ensures WellFormed(fat[..]) && ForwardLinked(fat[..])
    {
      this.blockSize := blockSize;
      this.tracks := tracks;
      this.blocksPerTrack := blocksPerTrack;
      var n := tracks * blocksPerTrack;
      fat := new Entry[n](_ => FreeEntry);
    }

    /** First fit (`encontrar_bloco_livre`): the lowest free index, or -1. */
    method FindFreeBlock() returns (b: int)
      ensures b == FirstFree(fat[..])
      ensures b == -1 <==> forall i :: 0 <= i < fat.Length ==> !fat[i].free
      ensures b != -1 ==>
        0 <= b < fat.Length && fat[b].free && forall j :: 0 <= j < b ==> !fat[j].free
    {
      b := -1;
      for i := 0 to fat.Length
        invariant b == -1
        invariant forall j :: 0 <= j < i ==> !fat[j].free
      {
        if fat[i].free {
          b := i;
          break;
        }
      }
      assert b != -1 ==> FirstFree(fat[..]) == b by {
        if b != -1 {
          assert fat[..][b].free;
        }
      }
    }

    /** One step of the allocation walk (`_alocar_bloco`): a free block is
        claimed and takes at most one block's worth of bytes off the
        remaining size; a used block is passed over unchanged. */
    method ClaimBlock(current: nat, remaining: int, claimed: seq<nat>)
      returns (current': nat, remaining': int, claimed': seq<nat>)
      requires Valid() && current < fat.Length
      modifies fat
      ensures current' == current + 1
      ensures fat[current] == old(fat[current]).(free := false)
      ensures forall j :: 0 <= j < fat.Length && j != current ==> fat[j] == old(fat[j])
      ensures old(fat[current]).free ==>
        remaining' == remaining - Min(remaining, blockSize) && claimed' == claimed + [current]
      ensures !old(fat[current]).free ==> remaining' == remaining && claimed' == claimed
    {
      remaining', claimed' := remaining, claimed;
      if fat[current].free {
        var portion := Min(remaining, blockSize);
        fat[current] := fat[current].(free := false);
        remaining' := remaining - portion;
        claimed' := claimed + [current];
      }
      current' := current + 1;
    }

    /** Chains the claimed blocks in order (`_atualizar_fat_com_prox_bloco`):
        each block but the last points to the one after it. */
    method LinkBlocks(blocks: seq<nat>)
      requires forall k :: 0 <= k < |blocks| ==> blocks[k] < fat.Length
      requires Increasing(blocks)
      modifies fat
      ensures Linked(old(fat[..]), fat[..], blocks)
    {
      var i := 0;
      while i + 1 < |blocks|
        invariant 0 <= i && (i == 0 || i < |blocks|)
        invariant forall k :: 0 <= k < i ==>
          fat[blocks[k]] == old(fat[blocks[k]]).(next := blocks[k + 1])
        invariant forall j :: 0 <= j < fat.Length && j !in blocks[..i] ==> fat[j] == old(fat[j])
      {
        fat[blocks[i]] := fat[blocks[i]].(next := blocks[i + 1]);
        i := i + 1;
      }
      forall j | 0 <= j < fat.Length && (j !in blocks || j == blocks[|blocks| - 1])
        ensures fat[j] == old(fat[j])
      {
        forall k | 0 <= k < i
          ensures blocks[k] != j
        {
          if j == blocks[|blocks| - 1] {
            assert blocks[k] < blocks[|blocks| - 1];
          }
        }
      }
    }

    /** Rollback (`_resetar_blocos_iniciais`): entries lo..hi-1 get back the
        state recorded in the snapshot, both their free flag and successor. */
    method RestoreRange(lo: nat, hi: nat, snapshot: seq<Entry>)
      requires lo <= hi <= fat.Length && |snapshot| == fat.Length
      modifies fat
      ensures Restored(old(fat[..]), fat[..], snapshot, lo, hi)
    {
      for i := lo to hi
        invariant forall j :: 0 <= j < fat.Length ==>
          fat[j] == if lo <= j < i then snapshot[j] else old(fat[j])
      {
        fat[i] := fat[i].(free := snapshot[i].free);
        fat[i] := fat[i].(next := snapshot[i].next);
      }
    }

    /** The walk of `alocar_arquivo`: from `start` it moves one index at a
        time, claiming each free block it meets, until the bytes are placed
        or the table ends. The blocks claimed are the free blocks of the
        range walked, and what remains is what those claims leave. */
    method Walk(start: nat, size: int) returns (current: nat, remaining: int, claimed: seq<nat>)
      requires Valid() && start <= fat.Length
      modifies fat
      ensures start <= current <= fat.Length
      ensures claimed == FreeIndices(old(fat[..]), start, current)
      ensures Walked(old(fat[..]), fat[..], start, current)
      ensures size <= 0 ==> current == start
      ensures remaining == Remaining(size, blockSize, |claimed|)
      ensures |claimed| > 0 ==> Remaining(size, blockSize, |claimed| - 1) > 0
      ensures remaining > 0 ==> current == fat.Length
      ensures remaining == 0 && |claimed| > 0 ==> current == claimed[|claimed| - 1] + 1
    {
      ghost var t := fat[..];
      remaining := size;
      current := start;
      claimed := [];
      while remaining > 0 && current < fat.Length
        invariant start <= current <= fat.Length
        invariant claimed == FreeIndices(t, start, current)
        invariant Walked(t, fat[..], start, current)
        invariant size <= 0 ==> current == start
        invariant remaining == Remaining(size, blockSize, |claimed|)
        invariant |claimed| > 0 ==> Remaining(size, blockSize, |claimed| - 1) > 0
        invariant remaining == 0 && |claimed| > 0 ==> current == claimed[|claimed| - 1] + 1
        decreases fat.Length - current
      {
        assert fat[current] == t[current];
        assert FreeIndices(t, start, current + 1) ==
          claimed + if t[current].free then [current] else [];
        var current', remaining', claimed' := ClaimBlock(current, remaining, claimed);
        if t[current].free {
          assert |claimed'| == |claimed| + 1;
          assert remaining' == Remaining(size, blockSize, |claimed'|);
        }
        current, remaining, claimed := current', remaining', claimed';
      }
    }

    /** First-fit allocation of a file of `size` bytes (`alocar_arquivo`).
        On success the returned blocks are those Allocation names and the
        table holds them claimed and chained; on failure the table is
        exactly as it was before the call. */
    method Allocate(size: int) returns (r: Result<seq<nat>>)
      requires Valid()
      modifies fat
      ensures r == Allocation(old(fat[..]), size, blockSize)
      ensures r.Err? ==> fat[..] == old(fat[..])
      ensures r.Ok? ==> AllocatedFrom(old(fat[..]), fat[..], r.value)
      ensures WellFormed(old(fat[..])) ==> WellFormed(fat[..])
      ensures ForwardLinked(old(fat[..])) ==> ForwardLinked(fat[..])
    {
      var start := FindFreeBlock();
      if start == -1 {
        return Err(NoFreeBlock);
      }
      ghost var t := fat[..];
      var snapshot := fat[..];
      var current, remaining, claimed := Walk(start, size);
      ghost var walked := fat[..];
      FreeIndicesBounded(t, start, current);
      FreeIndicesIncreasing(t, start, current);
      if |claimed| > 1 {
        LinkBlocks(claimed);
      }
      ghost var linked := fat[..];
      assert Linked(walked, linked, claimed);
      if remaining == 0 {
        WalkCompletes(t, size, blockSize, start, current, claimed);
        ClaimedAndLinked(t, walked, linked, start, current, claimed);
        AllocatedKeepsWellFormed(t, linked, claimed);
        AllocatedKeepsForwardLinked(t, linked, claimed);
        return Ok(claimed);
      }
      RestoreRange(start, current, snapshot);
      RestoredAfterWalk(t, walked, linked, fat[..], start, current, claimed);
      WalkRunsOut(t, size, blockSize, start, current, claimed);
      return Err(NotEnoughSpace);
    }

    /** Release of a file (`remover_arquivo`): follows the chain from `start`,
        setting every entry on it back to free without successor. The ghost
        `path` names the walk; ChainUnique shows that the table fixes it, and
        ChainFrom supplies it from any block of a forward-linked table. */
    method Remove(start: int, ghost path: seq<nat>)
      requires IsChain(fat[..], start, path)
      modifies fat
      ensures fat[..] == Released(old(fat[..]), path)
      ensures WellFormed(old(fat[..])) ==> WellFormed(fat[..])
      ensures ForwardLinked(old(fat[..])) ==> ForwardLinked(fat[..])
    {
      ghost var t := fat[..];
      ghost var k := 0;
      var current := start;
      while current != NoNext
        invariant 0 <= k <= |path|
        invariant current == if k < |path| then path[k] else NoNext
        invariant forall j :: 0 <= j < fat.Length ==>
          fat[j] == if j in path[..k] then FreeEntry else t[j]
        decreases |path| - k
      {
        assert path[k] !in path[..k];
        assert t[path[k]].next == Successor(path, k);
        var next := fat[current].next;
        fat[current] := fat[current].(next := NoNext);
        fat[current] := fat[current].(free := true);
        current := next;
        assert path[..k + 1] == path[..k] + [path[k]];
        k := k + 1;
      }
      assert path[..k] == path;
      assert fat[..] == Released(t, path);
    }

    /** Fragmented free space (`calcular_espaco_livre_fragmentado`): the bytes
        of the free blocks that lie below some used block, a run of free
        blocks at the end of the table not being counted. */
    method FragmentedFreeSpace() returns (r: int)
      requires Valid()
      ensures r == blockSize * FragmentedBlocks(fat[..])
      ensures 0 <= r <= blockSize * FreeCount(fat[..])
    {
      ghost var t := fat[..];
      var fragmented := 0;
      var contiguous := 0;
      ghost var fragmentedBlocks := 0;
      ghost var runBlocks := 0;
      for i := 0 to fat.Length
        invariant fragmentedBlocks == |FreeIndices(t, 0, UsedEnd(t, i))|
        invariant runBlocks == i - UsedEnd(t, i)
        invariant fragmented == blockSize * fragmentedBlocks
        invariant contiguous == blockSize * runBlocks
      {
        ghost var u := UsedEnd(t, i);
        if fat[i].free {
          MulAdd(blockSize, runBlocks, 1);
          contiguous := contiguous + blockSize;
          runBlocks := runBlocks + 1;
        } else {
          FreeIndicesSplit(t, 0, u, i);
          FreeIndicesAllFree(t, u, i);
          assert FreeIndices(t, 0, i + 1) == FreeIndices(t, 0, i);
          MulAdd(blockSize, fragmentedBlocks, runBlocks);
          if contiguous > 0 {
            fragmented := fragmented + contiguous;
            contiguous := 0;
          } else {
            MulZero(blockSize, runBlocks);
          }
          fragmentedBlocks := fragmentedBlocks + runBlocks;
          runBlocks := 0;
        }
      }
      r := fragmented;
      FragmentedBounds(t);
      MulMonotone(FragmentedBlocks(t), FreeCount(t), blockSize);
    }
  }

  /** The bytes still to place after `k` blocks were claimed for a file of
      `size` bytes, each claim taking at most `bs` bytes. */
  function Remaining(size: int, bs: int, k: nat): (r: int)
    requires bs > 0
    ensures k > 0 ==> r >= 0
    ensures size >= 0 ==> r <= size
  {
    if k == 0 then size
    else
      var r := Remaining(size, bs, k - 1);
      r - Min(r, bs)
  }

  /** For a positive size, what remains after `k` claims is the size less
      `k` whole blocks, and never negative. */
  lemma {:induction false} RemainingClosedForm(size: int, bs: int, k: nat)
    requires size > 0 && bs > 0
    ensures Remaining(size, bs, k) == Max(0, size - bs * k)
  {
    if k > 0 {
      RemainingClosedForm(size, bs, k - 1);
      assert bs * k == bs * (k - 1) + bs;
    }
  }

  /** The walk stopped with no bytes left to place: the blocks it claimed
      are those the allocation specification names. */
  lemma WalkCompletes(t: seq<Entry>, size: int, bs: int, start: nat, current: nat, claimed: seq<nat>)
    requires bs > 0 && start == FirstFree(t) && start <= current <= |t|
    requires claimed == FreeIndices(t, start, current)
    requires size <= 0 ==> current == start
    requires Remaining(size, bs, |claimed|) == 0
    requires |claimed| > 0 ==> Remaining(size, bs, |claimed| - 1) > 0
    ensures Allocation(t, size, bs) == Ok(claimed)
  {
    if size > 0 {
      var k := |claimed|;
      assert k > 0;
      RemainingClosedForm(size, bs, k);
      assert bs * k >= size;
      CeilDivLeast(size, bs, k);
      RemainingClosedForm(size, bs, k - 1);
      assert bs * (k - 1) < size;
      CeilDivLeast(size, bs, k - 1);
      assert k == CeilDiv(size, bs);
      FreeIndicesSplit(t, start, current, |t|);
      assert FreeIndices(t, start, |t|)[..k] == claimed;
    }
  }

  /** The walk stopped with bytes still to place: either the size was
      negative, or every free block from the start on was claimed and they
      are too few. */
  lemma WalkRunsOut(t: seq<Entry>, size: int, bs: int, start: nat, current: nat, claimed: seq<nat>)
    requires bs > 0 && start == FirstFree(t) && start <= current <= |t|
    requires claimed == FreeIndices(t, start, current)
    requires size <= 0 ==> current == start
    requires Remaining(size, bs, |claimed|) != 0
    requires Remaining(size, bs, |claimed|) > 0 ==> current == |t|
    ensures Allocation(t, size, bs) == Err(NotEnoughSpace)
  {
    if size > 0 {
      RemainingClosedForm(size, bs, |claimed|);
      CeilDivLeast(size, bs, |claimed|);
    }
  }

  /** The entries of `t` after the walk from `start` up to `current` marked
      every free block it met as used. */
  ghost predicate Walked(t: seq<Entry>, walked: seq<Entry>, start: nat, current: nat) {
    |walked| == |t| &&
    forall j :: 0 <= j < |t| ==>
      walked[j] == if start <= j < current && t[j].free then t[j].(free := false) else t[j]
  }

  /** `after` is `before` with the entries in [lo, hi) taken from `snapshot`. */
  ghost predicate Restored(before: seq<Entry>, after: seq<Entry>, snapshot: seq<Entry>, lo: nat, hi: nat) {
    |after| == |before| && lo <= hi <= |snapshot| &&
    forall j :: 0 <= j < |after| ==> after[j] == if lo <= j < hi then snapshot[j] else before[j]
  }

  /** `linked` is `walked` after the blocks of `claimed` were chained in order. */
  ghost predicate Linked(walked: seq<Entry>, linked: seq<Entry>, claimed: seq<nat>) {
    |linked| == |walked| &&
    (forall k :: 0 <= k < |claimed| ==> claimed[k] < |walked|) &&
    (forall k :: 0 <= k < |claimed| - 1 ==>
      linked[claimed[k]] == walked[claimed[k]].(next := claimed[k + 1])) &&
    (forall j :: 0 <= j < |walked| && (j !in claimed || j == claimed[|claimed| - 1]) ==>
      linked[j] == walked[j])
  }

  /** Claiming the free blocks met by the walk and chaining them yields the
      table the allocation specification describes. */
  lemma ClaimedAndLinked(t: seq<Entry>, walked: seq<Entry>, linked: seq<Entry>,
                         start: nat, current: nat, claimed: seq<nat>)
    requires start <= current <= |t| && claimed == FreeIndices(t, start, current)
    requires Walked(t, walked, start, current) && Linked(walked, linked, claimed)
    ensures AllocatedFrom(t, linked, claimed)
  {
    FreeIndicesBounded(t, start, current);
    forall k | 0 <= k < |claimed|
      ensures linked[claimed[k]] ==
        Entry(false, if k + 1 < |claimed| then Successor(claimed, k) else t[claimed[k]].next)
    {
      var c := claimed[k];
      assert start <= c < current && t[c].free;
      assert walked[c] == t[c].(free := false);
      if k + 1 < |claimed| {
        assert linked[c] == walked[c].(next := claimed[k + 1]);
      } else {
        assert linked[c] == walked[c];
      }
    }
    FreeIndicesComplete(t, start, current);
    forall j | 0 <= j < |t| && j !in claimed
      ensures linked[j] == t[j]
    {
      assert linked[j] == walked[j];
      assert walked[j] == t[j];
    }
  }

  /** Restoring the walked range from the snapshot undoes both the claims
      and the chaining. */
  lemma RestoredAfterWalk(t: seq<Entry>, walked: seq<Entry>, linked: seq<Entry>, restored: seq<Entry>,
                          start: nat, current: nat, claimed: seq<nat>)
    requires start <= current <= |t| && claimed == FreeIndices(t, start, current)
    requires Walked(t, walked, start, current) && Linked(walked, linked, claimed)
    requires Restored(linked, restored, t, start, current)
    ensures restored == t
  {
    forall j | 0 <= j < |t| && (j < start || current <= j)
      ensures j !in claimed
    {
      if j in claimed {
        FreeIndicesWithin(t, start, current, j);
      }
    }
    forall j | 0 <= j < |t|
      ensures restored[j] == t[j]
    {
      if j < start || current <= j {
        assert walked[j] == t[j];
      }
    }
  }
}

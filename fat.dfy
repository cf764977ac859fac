/**
 The File Allocation Table of the simulated disk, as values: one entry per
 block, the functions that specify first-fit allocation, chain release and
 the fragmented-free-space metric, and the lemmas that state what the disk
 promises about them.
 */
module Fat {

  /** One FAT entry: whether the block is free, and the index of the next
      block of the same file, or NoNext when there is none. */
  datatype Entry = Entry(free: bool, next: int)

  /** The "no successor" marker of the table. */
  const NoNext: int := -1

  /** The state of every entry of a freshly built table. */
  const FreeEntry: Entry := Entry(true, NoNext)

  /** The two ways an allocation can fail. */
  datatype AllocError =
    | NoFreeBlock     // every entry of the table is in use
    | NotEnoughSpace  // a free block exists, but the walk ran off the end of the table

  datatype Result<T> = Ok(value: T) | Err(error: AllocError)

  function Min(a: int, b: int): int { if a <= b then a else b }

  function Max(a: int, b: int): int { if a >= b then a else b }

  /** Every free entry has no successor. */
  ghost predicate WellFormed(t: seq<Entry>) {
    forall i :: 0 <= i < |t| && t[i].free ==> t[i].next == NoNext
  }

  /** The number of blocks of `b` bytes needed to hold `a` bytes. */
  function CeilDiv(a: int, b: int): (c: int)
    requires b > 0
    ensures (c - 1) * b < a <= c * b
  {
    var q := (a + b - 1) / b;
    var r := (a + b - 1) % b;
    assert a + b - 1 == q * b + r && 0 <= r < b;
    assert (q - 1) * b == q * b - b;
    q
  }

  /** A count of blocks is below the ceiling exactly when those blocks hold
      fewer than `a` bytes. */
  lemma CeilDivLeast(a: int, b: int, k: int)
    requires b > 0
    ensures k < CeilDiv(a, b) <==> b * k < a
  {
    var c := CeilDiv(a, b);
    if k < c {
      MulMonotone(k, c - 1, b);
    } else {
      MulMonotone(c, k, b);
    }
  }

  /** Multiplying by a positive factor keeps the order. */
  lemma {:induction false} MulMonotone(x: int, y: int, b: int)
    requires b > 0 && x <= y
    ensures x * b <= y * b && b * x <= b * y
    decreases y - x
  {
    if x < y {
      MulMonotone(x, y - 1, b);
      assert y * b == (y - 1) * b + b;
    }
  }

  /** A product with a positive factor is zero only when the other one is. */
  lemma MulZero(b: int, x: int)
    requires b > 0 && x >= 0
    ensures b * x == 0 ==> x == 0
  {
    if x > 0 {
      MulMonotone(1, x, b);
    }
  }

  /** Multiplication distributes over addition. */
  lemma MulAdd(b: int, x: int, y: int)
    ensures b * (x + y) == b * x + b * y
  {
  }

  // ---------------------------------------------------------------------
  // First-fit search

  /** The lowest free index at or after `i`, or -1 when there is none. */
  function FirstFreeFrom(t: seq<Entry>, i: nat): (b: int)
    requires i <= |t|
    ensures b == -1 || i <= b < |t|
    ensures b == -1 <==> forall j :: i <= j < |t| ==> !t[j].free
    ensures b != -1 ==> t[b].free && forall j :: i <= j < b ==> !t[j].free
    decreases |t| - i
  {
    if i == |t| then -1
    else if t[i].free then i
    else FirstFreeFrom(t, i + 1)
  }

  /** The first-fit choice: the lowest free index of the table, or -1 when
      every entry is used. */
  function FirstFree(t: seq<Entry>): (b: int)
    ensures b == -1 <==> forall j :: 0 <= j < |t| ==> !t[j].free
    ensures b != -1 ==> 0 <= b < |t| && t[b].free && forall j :: 0 <= j < b ==> !t[j].free
  {
    FirstFreeFrom(t, 0)
  }

  // ---------------------------------------------------------------------
  // Free indices of a range

  /** Every element of `s` is smaller than every later one. */
  ghost predicate Increasing(s: seq<nat>) {
    forall k, l :: 0 <= k < l < |s| ==> s[k] < s[l]
  }

  /** The indices in [lo, hi) whose entries are free, in increasing order
      (FreeIndicesFacts). */
  function FreeIndices(t: seq<Entry>, lo: nat, hi: nat): seq<nat>
    requires lo <= hi <= |t|
    decreases hi - lo
  {
    if lo == hi then []
    else FreeIndices(t, lo, hi - 1) + (if t[hi - 1].free then [hi - 1] else [])
  }

  /** FreeIndices lists exactly the free indices of [lo, hi), each once, in
      strictly increasing order. */
  lemma {:induction false} FreeIndicesFacts(t: seq<Entry>, lo: nat, hi: nat)
    requires lo <= hi <= |t|
    ensures var s := FreeIndices(t, lo, hi);
      |s| <= hi - lo &&
      (forall k :: 0 <= k < |s| ==> lo <= s[k] < hi && t[s[k]].free) &&
      Increasing(s) &&
      (forall j :: lo <= j < hi && t[j].free ==> j in s)
  {
    FreeIndicesBounded(t, lo, hi);
    FreeIndicesIncreasing(t, lo, hi);
    FreeIndicesComplete(t, lo, hi);
  }

  lemma {:induction false} FreeIndicesBounded(t: seq<Entry>, lo: nat, hi: nat)
    requires lo <= hi <= |t|
    ensures |FreeIndices(t, lo, hi)| <= hi - lo
    ensures forall k :: 0 <= k < |FreeIndices(t, lo, hi)| ==>
      lo <= FreeIndices(t, lo, hi)[k] < hi && t[FreeIndices(t, lo, hi)[k]].free
    decreases hi - lo
  {
    if lo < hi {
      FreeIndicesBounded(t, lo, hi - 1);
      var s := FreeIndices(t, lo, hi - 1);
      var s' := FreeIndices(t, lo, hi);
      assert s' == s + if t[hi - 1].free then [hi - 1] else [];
      forall k | 0 <= k < |s'|
        ensures lo <= s'[k] < hi && t[s'[k]].free
      {
        if k < |s| {
          assert s'[k] == s[k];
        }
      }
    }
  }

  lemma {:induction false} FreeIndicesIncreasing(t: seq<Entry>, lo: nat, hi: nat)
    requires lo <= hi <= |t|
    ensures Increasing(FreeIndices(t, lo, hi))
    decreases hi - lo
  {
    if lo < hi {
      FreeIndicesIncreasing(t, lo, hi - 1);
      FreeIndicesBounded(t, lo, hi - 1);
      var s := FreeIndices(t, lo, hi - 1);
      var s' := FreeIndices(t, lo, hi);
      assert s' == s + if t[hi - 1].free then [hi - 1] else [];
      forall k, l | 0 <= k < l < |s'|
        ensures s'[k] < s'[l]
      {
        assert s'[k] == s[k];
        if l < |s| {
          assert s'[l] == s[l];
        }
      }
    }
  }

  lemma {:induction false} FreeIndicesComplete(t: seq<Entry>, lo: nat, hi: nat)
    requires lo <= hi <= |t|
    ensures forall j :: lo <= j < hi && t[j].free ==> j in FreeIndices(t, lo, hi)
    decreases hi - lo
  {
    if lo < hi {
      FreeIndicesComplete(t, lo, hi - 1);
      assert FreeIndices(t, lo, hi) ==
        FreeIndices(t, lo, hi - 1) + if t[hi - 1].free then [hi - 1] else [];
    }
  }

  /** A member of the free indices of a range lies in that range. */
  lemma {:induction false} FreeIndicesWithin(t: seq<Entry>, lo: nat, hi: nat, j: int)
    requires lo <= hi <= |t| && j in FreeIndices(t, lo, hi)
    ensures lo <= j < hi && t[j].free
  {
    FreeIndicesFacts(t, lo, hi);
  }

  /** The number of free entries of the table. */
  function FreeCount(t: seq<Entry>): nat {
    |FreeIndices(t, 0, |t|)|
  }

  /** The free indices of a range are those of its two halves, in order. */
  lemma {:induction false} FreeIndicesSplit(t: seq<Entry>, lo: nat, mid: nat, hi: nat)
    requires lo <= mid <= hi <= |t|
    ensures FreeIndices(t, lo, hi) == FreeIndices(t, lo, mid) + FreeIndices(t, mid, hi)
    decreases hi - mid
  {
    if mid < hi {
      FreeIndicesSplit(t, lo, mid, hi - 1);
    }
  }

  /** A range that is wholly free contributes every one of its indices. */
  lemma {:induction false} FreeIndicesAllFree(t: seq<Entry>, lo: nat, hi: nat)
    requires lo <= hi <= |t|
    requires forall j :: lo <= j < hi ==> t[j].free
    ensures |FreeIndices(t, lo, hi)| == hi - lo
    ensures forall k :: 0 <= k < hi - lo ==> FreeIndices(t, lo, hi)[k] == lo + k
    decreases hi - lo
  {
    if lo < hi {
      FreeIndicesAllFree(t, lo, hi - 1);
    }
  }

  /** The first element of a list bounded by [lo, hi) lies in [lo, hi). */
  lemma HeadWithin(P: seq<nat>, lo: nat, hi: nat)
    requires forall k :: 0 <= k < |P| ==> lo <= P[k] < hi
    ensures |P| == 0 || lo <= P[0] < hi
  {
  }

  /** FreeIndices is the only increasing list holding exactly the free
      indices of the range. */
  lemma {:induction false} FreeIndicesUnique(t: seq<Entry>, lo: nat, hi: nat, P: seq<nat>)
    requires lo <= hi <= |t|
    requires Increasing(P)
    requires forall k :: 0 <= k < |P| ==> lo <= P[k] < hi
    requires forall j :: lo <= j < hi ==> (t[j].free <==> j in P)
    ensures FreeIndices(t, lo, hi) == P
    decreases hi - lo
  {
    if lo == hi {
      HeadWithin(P, lo, hi);
    } else if t[hi - 1].free {
      var m := |P| - 1;
      assert hi - 1 in P;
      var P' := P[..m];
      assert P == P' + [hi - 1];
      forall k | 0 <= k < |P'|
        ensures P'[k] < hi - 1
      {
        assert P[k] < P[m];
      }
      forall j | lo <= j < hi - 1
        ensures t[j].free <==> j in P'
      {
        if j in P {
          var k :| 0 <= k < |P| && P[k] == j;
          assert k != m;
          assert P'[k] == j;
        }
      }
      FreeIndicesUnique(t, lo, hi - 1, P');
    } else {
      forall k | 0 <= k < |P|
        ensures P[k] < hi - 1
      {
        assert P[k] != hi - 1;
      }
      FreeIndicesUnique(t, lo, hi - 1, P);
    }
  }

  /** A free first entry heads the free indices of its range. */
  lemma FreeIndicesFreeHead(t: seq<Entry>, lo: nat, hi: nat)
    requires lo < hi <= |t| && t[lo].free
    ensures FreeIndices(t, lo, hi) == [lo] + FreeIndices(t, lo + 1, hi)
  {
    FreeIndicesSplit(t, lo, lo + 1, hi);
    assert FreeIndices(t, lo, lo + 1) == [lo];
  }

  /** Used entries at the start of a range contribute nothing to it. */
  lemma FreeIndicesSkipUsed(t: seq<Entry>, lo: nat, mid: nat, hi: nat)
    requires lo <= mid <= hi <= |t|
    requires forall j :: lo <= j < mid ==> !t[j].free
    ensures FreeIndices(t, lo, hi) == FreeIndices(t, mid, hi)
  {
    FreeIndicesSplit(t, lo, mid, hi);
    FreeIndicesNoneFree(t, lo, mid);
  }

  /** A range without a free entry contributes nothing. */
  lemma {:induction false} FreeIndicesNoneFree(t: seq<Entry>, lo: nat, hi: nat)
    requires lo <= hi <= |t|
    requires forall j :: lo <= j < hi ==> !t[j].free
    ensures FreeIndices(t, lo, hi) == []
    decreases hi - lo
  {
    if lo < hi {
      FreeIndicesNoneFree(t, lo, hi - 1);
    }
  }

  // ---------------------------------------------------------------------
  // Allocation

  /** What `alocar_arquivo` computes on table `t` for a file of `size` bytes
      with blocks of `bs` bytes: the first CeilDiv(size, bs) free blocks at
      or after the first free block, or the error it raises. */
  function Allocation(t: seq<Entry>, size: int, bs: int): (r: Result<seq<nat>>)
    requires bs > 0
    ensures size < 0 ==> r.Err?
    ensures r.Ok? ==> |r.value| <= FreeCount(t)
  {
    var start := FirstFree(t);
    if start == -1 then Err(NoFreeBlock)
    else if size == 0 then Ok([])
    else if size < 0 then Err(NotEnoughSpace)
    else
      var avail := FreeIndices(t, start, |t|);
      var n := CeilDiv(size, bs);
      if |avail| < n then Err(NotEnoughSpace)
      else
        FreeFromFirstFree(t);
        Ok(avail[..n])
  }

  /** The block that follows the k-th block of a chain, NoNext after the last. */
  function Successor(L: seq<nat>, k: nat): int
    requires k < |L|
  {
    if k + 1 < |L| then L[k + 1] else NoNext
  }

  /** `t'` is table `t` after blocks `L` were claimed and linked in order:
      each claimed block is used and points to the next claimed block, the
      last one keeps its prior successor, and every other entry is as it was. */
  ghost predicate AllocatedFrom(t: seq<Entry>, t': seq<Entry>, L: seq<nat>) {
    |t'| == |t| &&
    (forall k :: 0 <= k < |L| ==> L[k] < |t|) &&
    (forall k {:trigger t'[L[k]]} :: 0 <= k < |L| ==>
      t'[L[k]] == Entry(false, if k + 1 < |L| then Successor(L, k) else t[L[k]].next)) &&
    (forall j :: 0 <= j < |t| && j !in L ==> t'[j] == t[j])
  }

  /** An allocation only marks blocks used, so free entries keep having no
      successor. */
  lemma AllocatedKeepsWellFormed(t: seq<Entry>, t': seq<Entry>, L: seq<nat>)
    requires AllocatedFrom(t, t', L)
    ensures WellFormed(t) ==> WellFormed(t')
  {
  }

  /** Free blocks below the first free block do not exist, so the walk from
      the first free block sees every free block of the table. */
  lemma FreeFromFirstFree(t: seq<Entry>)
    requires FirstFree(t) != -1
    ensures FreeIndices(t, FirstFree(t), |t|) == FreeIndices(t, 0, |t|)
  {
    var start := FirstFree(t);
    FreeIndicesSplit(t, 0, start, |t|);
    FreeIndicesNoneFree(t, 0, start);
  }

  /** The "no free block" error is raised exactly when no entry is free. */
  lemma AllocationNoFreeBlock(t: seq<Entry>, size: int, bs: int)
    requires bs > 0
    ensures Allocation(t, size, bs) == Err(NoFreeBlock) <==> forall i :: 0 <= i < |t| ==> !t[i].free
  {
  }

  /** Allocation succeeds exactly when some block is free and either the
      size is zero or the table holds enough free blocks for the file. */
  lemma AllocationSucceeds(t: seq<Entry>, size: int, bs: int)
    requires bs > 0
    ensures Allocation(t, size, bs).Ok? <==>
      FreeCount(t) > 0 && (size == 0 || (size > 0 && CeilDiv(size, bs) <= FreeCount(t)))
  {
    FreeIndicesFacts(t, 0, |t|);
    if FirstFree(t) != -1 {
      FreeFromFirstFree(t);
      assert t[FirstFree(t)].free;
      assert FirstFree(t) in FreeIndices(t, 0, |t|);
    } else {
      FreeIndicesNoneFree(t, 0, |t|);
    }
  }

  /** The blocks of a successful allocation: strictly increasing, all free
      before the call, and as many as the file needs, starting at the first
      free block. */
  lemma AllocationShape(t: seq<Entry>, size: int, bs: int, L: seq<nat>)
    requires bs > 0
    requires Allocation(t, size, bs) == Ok(L)
    ensures Increasing(L)
    ensures forall k :: 0 <= k < |L| ==> L[k] < |t| && t[L[k]].free
    ensures size == 0 ==> L == []
    ensures size > 0 ==> |L| == CeilDiv(size, bs) && |L| > 0 && L[0] == FirstFree(t)
  {
    if size > 0 {
      FreeIndicesFacts(t, FirstFree(t), |t|);
      FirstFreeHeadsFreeIndices(t);
    }
  }

  /** First fit: no free block lies below the last allocated block without
      being allocated itself; the used blocks in between are skipped. */
  lemma AllocationSkipsNoFreeBlock(t: seq<Entry>, size: int, bs: int, L: seq<nat>, j: nat)
    requires bs > 0
    requires Allocation(t, size, bs) == Ok(L)
    requires j < |t| && t[j].free && |L| > 0 && j <= L[|L| - 1]
    ensures j in L
  {
    var start := FirstFree(t);
    var avail := FreeIndices(t, start, |t|);
    FreeIndicesFacts(t, start, |t|);
    IncreasingPrefixClosed(avail, CeilDiv(size, bs), j);
  }

  /** The walk from the first free block claims that block first. */
  lemma FirstFreeHeadsFreeIndices(t: seq<Entry>)
    requires FirstFree(t) != -1
    ensures var avail := FreeIndices(t, FirstFree(t), |t|); |avail| > 0 && avail[0] == FirstFree(t)
  {
    var start := FirstFree(t);
    var avail := FreeIndices(t, start, |t|);
    FreeIndicesFacts(t, start, |t|);
    assert start in avail;
  }

  /** In a strictly increasing sequence, an element no larger than the last
      element of a prefix lies in that prefix. */
  lemma IncreasingPrefixClosed(s: seq<nat>, n: nat, j: nat)
    requires Increasing(s)
    requires 0 < n <= |s| && j in s && j <= s[n - 1]
    ensures j in s[..n]
  {
    var m :| 0 <= m < |s| && s[m] == j;
    assert s[..n][m] == j;
  }

  /** On a table whose entries are all free, a file that fits gets blocks
      0, 1, ..., CeilDiv(size, bs) - 1. */
  lemma AllocationOnFreeTable(t: seq<Entry>, size: int, bs: int)
    requires bs > 0
    requires forall i :: 0 <= i < |t| ==> t[i].free
    requires 0 < size && CeilDiv(size, bs) <= |t|
    ensures Allocation(t, size, bs).Ok?
    ensures var L := Allocation(t, size, bs).value;
      |L| == CeilDiv(size, bs) && forall k :: 0 <= k < |L| ==> L[k] == k
  {
    assert t[0].free;
    FreeIndicesAllFree(t, 0, |t|);
  }

  /** When the first p entries are used and all later ones free, a file that
      fits gets blocks p, p+1, ..., p + CeilDiv(size, bs) - 1. */
  lemma AllocationAfterUsedPrefix(t: seq<Entry>, p: nat, size: int, bs: int)
    requires bs > 0 && p < |t|
    requires forall i :: 0 <= i < p ==> !t[i].free
    requires forall i :: p <= i < |t| ==> t[i].free
    requires 0 < size && CeilDiv(size, bs) <= |t| - p
    ensures Allocation(t, size, bs) == Ok(seq(CeilDiv(size, bs), k => p + k))
  {
    assert t[p].free;
    assert FirstFree(t) == p;
    FreeIndicesAllFree(t, p, |t|);
    var n := CeilDiv(size, bs);
    assert FreeIndices(t, p, |t|)[..n] == seq(n, k => p + k);
  }

  // ---------------------------------------------------------------------
  // Chains and their release

  /** Following `next` from `start` visits exactly `path`, without repeating
      a block, and then reaches NoNext; an empty path is the walk from NoNext. */
  ghost predicate IsChain(t: seq<Entry>, start: int, path: seq<nat>) {
    (if |path| == 0 then start == NoNext else path[0] == start) &&
    (forall k :: 0 <= k < |path| ==> path[k] < |t|) &&
    (forall k, l :: 0 <= k < l < |path| ==> path[k] != path[l]) &&
    (forall k {:trigger t[path[k]]} :: 0 <= k < |path| ==> t[path[k]].next == Successor(path, k))
  }

  /** Every successor is NoNext or a block at a higher index. Allocation
      chains its blocks in increasing order and release resets successors,
      so every table the disk reaches has this form; following `next` then
      always ends at NoNext without leaving the table. */
  ghost predicate ForwardLinked(t: seq<Entry>) {
    forall i :: 0 <= i < |t| ==> t[i].next == NoNext || i < t[i].next < |t|
  }

  /** Table `t` after every block of `path` is set back to free with no successor. */
  function Released(t: seq<Entry>, path: seq<nat>): (t': seq<Entry>)
    ensures |t'| == |t|
    ensures WellFormed(t) ==> WellFormed(t')
    ensures ForwardLinked(t) ==> ForwardLinked(t')
  {
    seq(|t|, i requires 0 <= i < |t| => if i in path then FreeEntry else t[i])
  }

  /** On a forward-linked table the walk from NoNext or from any block is a
      chain: it stays in the table, never revisits a block and ends at NoNext. */
  ghost function ChainFrom(t: seq<Entry>, s: int): (p: seq<nat>)
    requires ForwardLinked(t) && (s == NoNext || 0 <= s < |t|)
    ensures IsChain(t, s, p)
    ensures forall k :: 0 <= k < |p| ==> s <= p[k]
    ensures Increasing(p)
    decreases if s == NoNext then 0 else |t| - s + 1
  {
    if s == NoNext then []
    else
      var q := ChainFrom(t, t[s].next);
      ChainCons(t, s, q);
      [s] + q
  }

  /** A block whose successor starts a chain of higher blocks starts a
      chain one block longer. */
  lemma ChainCons(t: seq<Entry>, s: nat, q: seq<nat>)
    requires s < |t| && IsChain(t, t[s].next, q) && Increasing(q)
    requires forall k :: 0 <= k < |q| ==> s < q[k]
    ensures IsChain(t, s, [s] + q) && Increasing([s] + q)
  {
    var p := [s] + q;
    assert forall k :: 0 < k < |p| ==> p[k] == q[k - 1];
    forall k, l | 0 <= k < l < |p|
      ensures p[k] < p[l]
    {
      if k > 0 {
        assert q[k - 1] < q[l - 1];
      }
    }
    forall k | 0 <= k < |p|
      ensures t[p[k]].next == Successor(p, k)
    {
      if k == 0 {
        assert |q| == 0 ==> t[s].next == NoNext;
        assert |q| > 0 ==> t[s].next == q[0];
      } else {
        assert Successor(p, k) == Successor(q, k - 1);
      }
    }
  }

  /** Claiming and chaining blocks in increasing order keeps every successor
      pointing forward: each claimed block points to the next claimed one,
      and the last keeps the successor it had. */
  lemma AllocatedKeepsForwardLinked(t: seq<Entry>, t': seq<Entry>, L: seq<nat>)
    requires AllocatedFrom(t, t', L) && Increasing(L)
    ensures ForwardLinked(t) ==> ForwardLinked(t')
  {
    if ForwardLinked(t) {
      forall i | 0 <= i < |t'|
        ensures t'[i].next == NoNext || i < t'[i].next < |t'|
      {
        if i in L {
          var k :| 0 <= k < |L| && L[k] == i;
          if k + 1 < |L| {
            assert L[k] < L[k + 1];
          }
        }
      }
    }
  }

  /** The chain from a given start is determined by the table: the ghost
      path handed to the release describes the walk, it does not choose it. */
  lemma ChainUnique(t: seq<Entry>, start: int, p: seq<nat>, q: seq<nat>)
    requires IsChain(t, start, p) && IsChain(t, start, q)
    ensures p == q
  {
    var m := Min(|p|, |q|);
    ChainPrefixAgree(t, start, p, q, m);
    if m > 0 {
      ChainEndsAt(t, start, p, m - 1);
      ChainEndsAt(t, start, q, m - 1);
    }
  }

  /** Only the last block of a chain has no successor. */
  lemma ChainEndsAt(t: seq<Entry>, start: int, p: seq<nat>, k: nat)
    requires IsChain(t, start, p) && k < |p|
    ensures t[p[k]].next == NoNext <==> k == |p| - 1
  {
    assert t[p[k]].next == Successor(p, k);
  }

  lemma {:induction false} ChainPrefixAgree(t: seq<Entry>, start: int, p: seq<nat>, q: seq<nat>, m: nat)
    requires IsChain(t, start, p) && IsChain(t, start, q)
    requires m <= |p| && m <= |q|
    ensures forall k :: 0 <= k < m ==> p[k] == q[k]
  {
    if m > 1 {
      ChainPrefixAgree(t, start, p, q, m - 1);
      assert t[p[m - 2]].next == p[m - 1];
      assert t[q[m - 2]].next == q[m - 1];
    }
  }

  /** Releasing the chain of a successful allocation from its first block
      gives back the table as it was before the allocation, provided that
      table kept free entries without successor. */
  lemma AllocateThenRelease(t: seq<Entry>, t': seq<Entry>, size: int, bs: int, L: seq<nat>)
    requires bs > 0 && WellFormed(t)
    requires Allocation(t, size, bs) == Ok(L) && |L| > 0
    requires AllocatedFrom(t, t', L)
    ensures IsChain(t', L[0], L)
    ensures Released(t', L) == t
  {
    AllocationShape(t, size, bs, L);
    forall k | 0 <= k < |L|
      ensures t'[L[k]].next == Successor(L, k)
    {
      assert t[L[k]].free;
    }
    forall i | 0 <= i < |t|
      ensures Released(t', L)[i] == t[i]
    {
      if i in L {
        var k :| 0 <= k < |L| && L[k] == i;
        assert t[L[k]].free;
      }
    }
  }

  // ---------------------------------------------------------------------
  // Fragmented free space

  /** The end of the last used entry below `hi`: one past its index, or 0
      when every entry below `hi` is free. */
  function UsedEnd(t: seq<Entry>, hi: nat): (u: nat)
    requires hi <= |t|
    ensures u <= hi
    ensures u == 0 || !t[u - 1].free
    ensures forall j :: u <= j < hi ==> t[j].free
  {
    if hi == 0 then 0
    else if !t[hi - 1].free then hi
    else UsedEnd(t, hi - 1)
  }

  /** The number of free blocks that `calcular_espaco_livre_fragmentado`
      counts: those below the last used block. */
  function FragmentedBlocks(t: seq<Entry>): (n: nat)
    ensures n <= FreeCount(t)
  {
    FreeIndicesSplit(t, 0, UsedEnd(t, |t|), |t|);
    |FreeIndices(t, 0, UsedEnd(t, |t|))|
  }

  /** A block is counted as fragmented free space exactly when it is free
      and some block at a higher index is in use. */
  lemma FragmentedMembership(t: seq<Entry>, j: int)
    ensures j in FreeIndices(t, 0, UsedEnd(t, |t|)) <==>
      0 <= j < |t| && t[j].free && exists l :: j < l < |t| && !t[l].free
  {
    var u := UsedEnd(t, |t|);
    FreeIndicesFacts(t, 0, u);
    if 0 <= j < |t| && t[j].free && exists l :: j < l < |t| && !t[l].free {
      var l :| j < l < |t| && !t[l].free;
      assert l < u;
    }
    if j in FreeIndices(t, 0, u) {
      assert j < u && t[u - 1].free == false;
    }
  }

  /** The fragmented blocks are some of the free blocks, and there are none
      on a table that is wholly free or wholly used. */
  lemma FragmentedBounds(t: seq<Entry>)
    ensures FragmentedBlocks(t) <= FreeCount(t)
    ensures (forall i :: 0 <= i < |t| ==> t[i].free) ==> FragmentedBlocks(t) == 0
    ensures (forall i :: 0 <= i < |t| ==> !t[i].free) ==> FragmentedBlocks(t) == 0
  {
    var u := UsedEnd(t, |t|);
    FreeIndicesSplit(t, 0, u, |t|);
    if forall i :: 0 <= i < |t| ==> !t[i].free {
      FreeIndicesNoneFree(t, 0, u);
    }
  }
}

/** How the distributed program splits n values over `size` ranks: the
    first n % size ranks get n / size + 1 values, the others n / size
    (`base_chunk`, `remainder`, `local_n`), rank r's block starting at
    `displs[r]`, the sum of the counts before it.  `MPI_Scatterv` hands rank
    r its slice and `MPI_Allgatherv` concatenates the blocks in rank order.
    Scatter and gather are stated for any list of counts; the arithmetic of
    this program's counts is kept to `LocalN` and `Counts`. */
module BlockLayout {
  import opened OddEvenSpec

  /** `local_n` of rank r, which is also `sendcounts[r]`. */
  function LocalN(n: nat, size: nat, r: nat): nat
    requires size > 0
  {
    if r < n % size then n / size + 1 else n / size
  }

  /** Counts of `size` ranks of which the first `rem` get one extra value. */
  function Chunks(base: nat, rem: nat, size: nat): (c: seq<nat>)
    ensures |c| == size
  {
    seq(size, r requires 0 <= r < size => if r < rem then base + 1 else base)
  }

  /** `sendcounts`: the count of every rank. */
  function Counts(n: nat, size: nat): (c: seq<nat>)
    requires size > 0
    ensures |c| == size
  {
    Chunks(n / size, n % size, size)
  }

  /** The sum of the first r counts: where block r starts. */
  function Offset(counts: seq<nat>, r: nat): nat
    requires r <= |counts|
  {
    if r == 0 then 0 else Offset(counts, r - 1) + counts[r - 1]
  }

  /** `displs[r]` of the program. */
  function Displ(n: nat, size: nat, r: nat): nat
    requires size > 0 && r <= size
  {
    Offset(Counts(n, size), r)
  }

  lemma {:induction false} OffsetMonotone(counts: seq<nat>, r1: nat, r2: nat)
    requires r1 <= r2 <= |counts|
    ensures Offset(counts, r1) <= Offset(counts, r2)
    decreases r2 - r1
  {
    if r1 < r2 { OffsetMonotone(counts, r1, r2 - 1); }
  }

  /** Rank r's block starts after r full chunks and one extra value for each
      earlier rank below the remainder. */
  lemma {:induction false} DisplFormula(n: nat, size: nat, r: nat)
    requires size > 0 && r <= size
    ensures Displ(n, size, r) == r * (n / size) + Min(r, n % size)
  {
    if r > 0 {
      DisplFormula(n, size, r - 1);
      var q := n / size;
      assert r * q == (r - 1) * q + q;
    }
  }

  /** The counts add up to n: the running displacement ends at n. */
  lemma DisplEnd(n: nat, size: nat)
    requires size > 0
    ensures Displ(n, size, size) == n
  {
    DisplFormula(n, size, size);
    assert Min(size, n % size) == n % size;
  }

  /** Rank r's entry of `sendcounts` is its `local_n`. */
  lemma CountIsLocalN(n: nat, size: nat, r: nat)
    requires size > 0 && r < size
    ensures Counts(n, size)[r] == LocalN(n, size, r)
  {
  }

  /** Counts never grow with the rank and differ by at most one. */
  lemma LocalNBalanced(n: nat, size: nat, r1: nat, r2: nat)
    requires size > 0 && r1 <= r2
    ensures LocalN(n, size, r2) <= LocalN(n, size, r1) <= LocalN(n, size, r2) + 1
  {
  }

  /** A rank gets an empty block exactly when its rank is at least n. */
  lemma LocalNEmpty(n: nat, size: nat, r: nat)
    requires size > 0 && r < size
    ensures LocalN(n, size, r) == 0 <==> n <= r
  {
    if n < size {
      assert n / size == 0 && n % size == n;
    } else {
      assert n / size >= 1;
    }
  }

  /** Once a block is empty, it and every later block start at n. */
  lemma EmptyBlockAtEnd(n: nat, size: nat, r: nat)
    requires size > 0 && r < size && LocalN(n, size, r) == 0
    ensures Displ(n, size, r) == n
  {
    LocalNEmpty(n, size, r);
    assert n / size == 0 && n % size == n;
    DisplFormula(n, size, r);
  }

  /** Only trailing blocks are empty: after an empty block every block is
      empty. */
  predicate EmptyOnlyAtEnd(counts: seq<nat>) {
    forall r, j :: 0 <= r < j < |counts| && counts[r] == 0 ==> counts[j] == 0
  }

  /** Blocks from an empty one on add nothing: every block from r on starts
      where block r starts. */
  lemma {:induction false} EmptyTail(counts: seq<nat>, r: nat, k: nat)
    requires EmptyOnlyAtEnd(counts) && r < |counts| && counts[r] == 0
    requires r <= k <= |counts|
    ensures Offset(counts, k) == Offset(counts, r)
  {
    if r < k {
      EmptyTail(counts, r, k - 1);
      assert counts[k - 1] == 0;
    }
  }

  /** The counts of the program leave empty blocks only at the end. */
  lemma CountsEmptyOnlyAtEnd(n: nat, size: nat)
    requires size > 0
    ensures EmptyOnlyAtEnd(Counts(n, size))
  {
    forall r, j | 0 <= r < j < size && Counts(n, size)[r] == 0
      ensures Counts(n, size)[j] == 0
    {
      LocalNBalanced(n, size, r, j);
    }
  }

  /** The starts of the first r blocks, in rank order. */
  function Offsets(counts: seq<nat>, r: nat): (ds: seq<nat>)
    requires r <= |counts|
    ensures |ds| == r
    ensures forall k :: 0 <= k < r ==> ds[k] == Offset(counts, k)
  {
    seq(r, k requires 0 <= k < r => Offset(counts, k))
  }

  /** The loop of the distributed program that fills `sendcounts` and
      `displs`, carrying `current_displ`: every rank gets its `local_n` and
      the sum of the counts before it. */
  method ComputeLayout(n: nat, size: nat) returns (sendcounts: array<int>, displs: array<int>)
    requires size > 0
    ensures fresh(sendcounts) && fresh(displs)
    ensures sendcounts.Length == size && displs.Length == size
    ensures sendcounts[..] == Counts(n, size)
    ensures displs[..] == Offsets(Counts(n, size), size)
  {
    var baseChunk := n / size;
    var remainder := n % size;
    sendcounts := new int[size];
    displs := new int[size];
    ghost var counts := Chunks(baseChunk, remainder, size);
    var currentDispl := 0;
    var i := 0;
    while i < size
      invariant 0 <= i <= size
      invariant currentDispl == Offset(counts, i)
      invariant forall k :: 0 <= k < i ==> sendcounts[k] == counts[k]
      invariant forall k {:trigger displs[k]} :: 0 <= k < i ==> displs[k] == Offset(counts, k)
    {
      sendcounts[i] := if i < remainder then baseChunk + 1 else baseChunk;
      displs[i] := currentDispl;
      currentDispl := currentDispl + sendcounts[i];
      i := i + 1;
    }
  }

  /** Blocks whose lengths are the given counts. */
  predicate Fits(bs: seq<seq<int>>, counts: seq<nat>) {
    |bs| == |counts| && forall r :: 0 <= r < |bs| ==> |bs[r]| == counts[r]
  }

  /** Blocks whose lengths are the counts of n values over `size` ranks. */
  predicate IsLayout(bs: seq<seq<int>>, n: nat, size: nat)
    requires size > 0
  {
    Fits(bs, Counts(n, size))
  }

  /** Block r when scattering by `counts`: the slice starting at the sum of
      the earlier counts, of length counts[r]. */
  function BlockOf(arr: seq<int>, counts: seq<nat>, r: nat): (b: seq<int>)
    requires Offset(counts, |counts|) == |arr| && r < |counts|
    ensures |b| == counts[r]
  {
    OffsetMonotone(counts, r + 1, |counts|);
    arr[Offset(counts, r) .. Offset(counts, r) + counts[r]]
  }

  /** Scattering by `counts`. */
  function ScatterBy(arr: seq<int>, counts: seq<nat>): (bs: seq<seq<int>>)
    requires Offset(counts, |counts|) == |arr|
    ensures Fits(bs, counts)
  {
    seq(|counts|, r requires 0 <= r < |counts| => BlockOf(arr, counts, r))
  }

  /** `MPI_Scatterv(arr, sendcounts, displs, ...)` of the program. */
  function Scatter(arr: seq<int>, size: nat): (bs: seq<seq<int>>)
    requires size > 0
    ensures IsLayout(bs, |arr|, size)
  {
    DisplEnd(|arr|, size);
    ScatterBy(arr, Counts(|arr|, size))
  }

  /** `MPI_Allgatherv`: the blocks concatenated in rank order. */
  function Gather(bs: seq<seq<int>>): seq<int>
  {
    if bs == [] then [] else Gather(bs[..|bs| - 1]) + bs[|bs| - 1]
  }

  /** The first r blocks gather into the first Offset(counts, r) cells. */
  lemma {:induction false} GatherLength(bs: seq<seq<int>>, counts: seq<nat>, r: nat)
    requires Fits(bs, counts) && r <= |bs|
    ensures |Gather(bs[..r])| == Offset(counts, r)
  {
    if r > 0 {
      GatherLength(bs, counts, r - 1);
      assert bs[..r][..r - 1] == bs[..r - 1];
    }
  }

  /** Gathering the first r blocks is a prefix of gathering the first m. */
  lemma {:induction false} GatherPrefix(bs: seq<seq<int>>, r: nat, m: nat)
    requires r <= m <= |bs|
    ensures |Gather(bs[..r])| <= |Gather(bs[..m])|
    ensures Gather(bs[..m])[..|Gather(bs[..r])|] == Gather(bs[..r])
    decreases m - r
  {
    if r < m {
      GatherPrefix(bs, r, m - 1);
      assert bs[..m][..m - 1] == bs[..m - 1];
    }
  }

  /** Cell i of block r sits at Offset(counts, r) + i of the gathered array. */
  lemma Locate(bs: seq<seq<int>>, counts: seq<nat>, r: nat, i: nat)
    requires Fits(bs, counts) && r < |bs| && i < |bs[r]|
    ensures |Gather(bs)| == Offset(counts, |bs|)
    ensures Offset(counts, r) + i < |Gather(bs)|
    ensures Gather(bs)[Offset(counts, r) + i] == bs[r][i]
  {
    GatherLength(bs, counts, r);
    GatherLength(bs, counts, |bs|);
    assert bs[..|bs|] == bs;
    assert bs[..r + 1][..r] == bs[..r];
    assert Gather(bs[..r + 1]) == Gather(bs[..r]) + bs[r];
    GatherPrefix(bs, r + 1, |bs|);
  }

  lemma {:induction false} GatherScatterPrefix(arr: seq<int>, counts: seq<nat>, r: nat)
    requires Offset(counts, |counts|) == |arr| && r <= |counts|
    ensures Offset(counts, r) <= |arr|
    ensures Gather(ScatterBy(arr, counts)[..r]) == arr[..Offset(counts, r)]
  {
    var bs := ScatterBy(arr, counts);
    OffsetMonotone(counts, r, |counts|);
    if r == 0 {
      assert bs[..0] == [];
    } else {
      GatherScatterPrefix(arr, counts, r - 1);
      GatherSnoc(bs, r);
      ScatterBlock(arr, counts, r - 1);
      SliceJoin(arr, Offset(counts, r - 1), Offset(counts, r));
    }
  }

  /** A prefix followed by the next slice is the longer prefix. */
  lemma SliceJoin(a: seq<int>, i: nat, j: nat)
    requires i <= j <= |a|
    ensures a[..i] + a[i .. j] == a[..j]
  {
  }

  /** Gathering one more block appends it. */
  lemma GatherSnoc(bs: seq<seq<int>>, r: nat)
    requires 0 < r <= |bs|
    ensures Gather(bs[..r]) == Gather(bs[..r - 1]) + bs[r - 1]
  {
    assert bs[..r][..r - 1] == bs[..r - 1];
  }

  /** Block r of a scattering is the slice between two consecutive offsets. */
  lemma ScatterBlock(arr: seq<int>, counts: seq<nat>, r: nat)
    requires Offset(counts, |counts|) == |arr| && r < |counts|
    ensures Offset(counts, r) <= Offset(counts, r + 1) <= |arr|
    ensures ScatterBy(arr, counts)[r] == arr[Offset(counts, r) .. Offset(counts, r + 1)]
  {
    OffsetMonotone(counts, r + 1, |counts|);
  }

  /** Scattering and then gathering returns the original array. */
  lemma GatherScatter(arr: seq<int>, size: nat)
    requires size > 0
    ensures Gather(Scatter(arr, size)) == arr
  {
    var counts := Counts(|arr|, size);
    DisplEnd(|arr|, size);
    GatherScatterPrefix(arr, counts, size);
    assert ScatterBy(arr, counts)[..size] == ScatterBy(arr, counts);
  }

  /** Gathering blocks of the given counts and scattering the result by the
      same counts gives the same blocks back. */
  lemma ScatterByGather(bs: seq<seq<int>>, counts: seq<nat>)
    requires Fits(bs, counts)
    ensures |Gather(bs)| == Offset(counts, |counts|)
    ensures ScatterBy(Gather(bs), counts) == bs
  {
    GatherLength(bs, counts, |bs|);
    assert bs[..|bs|] == bs;
    var back := ScatterBy(Gather(bs), counts);
    forall r | 0 <= r < |bs| ensures back[r] == bs[r] {
      BlockOfGather(bs, counts, r);
    }
  }

  lemma BlockOfGather(bs: seq<seq<int>>, counts: seq<nat>, r: nat)
    requires Fits(bs, counts) && r < |bs|
    requires |Gather(bs)| == Offset(counts, |counts|)
    ensures BlockOf(Gather(bs), counts, r) == bs[r]
  {
    var g, off := Gather(bs), Offset(counts, r);
    OffsetMonotone(counts, r + 1, |counts|);
    forall i | 0 <= i < |bs[r]| ensures g[off + i] == bs[r][i] {
      Locate(bs, counts, r, i);
    }
    SliceIs(g, off, bs[r]);
  }

  /** A slice that agrees cell by cell with x is x. */
  lemma SliceIs(g: seq<int>, off: nat, x: seq<int>)
    requires off + |x| <= |g|
    requires forall i :: 0 <= i < |x| ==> g[off + i] == x[i]
    ensures g[off .. off + |x|] == x
  {
  }

  /** Gathering blocks that follow the layout of n values and scattering
      the result gives the same blocks back. */
  lemma ScatterGather(bs: seq<seq<int>>, n: nat, size: nat)
    requires size > 0 && IsLayout(bs, n, size)
    ensures |Gather(bs)| == n
    ensures Scatter(Gather(bs), size) == bs
  {
    ScatterByGather(bs, Counts(n, size));
    DisplEnd(n, size);
  }
}

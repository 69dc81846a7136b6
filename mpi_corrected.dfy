/** The distributed phase loop as it evidently should have been: every
    rank runs the local phase with the parity of its cells' GLOBAL indices
    (phase t + displs[rank]), and trades a boundary value with a neighbour
    exactly when the global pair across that rank boundary belongs to
    phase t and both blocks hold values.  Then each distributed phase does
    what one phase of the serial sort does to the whole array, and the
    distributed run sorts.  The blocks are described by their `sendcounts`
    (`counts`); `displs[r]` is `Offset(counts, r)`. */
module CorrectedDistributedSort {
  import opened OddEvenSpec
  import opened SortCorrectness
  import opened BlockLayout

  function Last(b: seq<int>): int
    requires |b| > 0
  {
    b[|b| - 1]
  }

  /** Rank r's block after the local phase with the global parity: each
      cell as `PhaseAt` gives it for phase t + displs[r]. */
  function LocalBlock(bs: seq<seq<int>>, counts: seq<nat>, t: nat, r: nat): (b: seq<int>)
    requires |bs| == |counts| && r < |bs|
    ensures |b| == |bs[r]|
  {
    var off := Offset(counts, r);
    seq(|bs[r]|, i requires 0 <= i < |bs[r]| => PhaseAt(bs[r], t + off, i))
  }

  /** The local block is the phase t + displs[r] of the block. */
  lemma LocalBlockIsPhase(bs: seq<seq<int>>, counts: seq<nat>, t: nat, r: nat)
    requires |bs| == |counts| && r < |bs|
    ensures LocalBlock(bs, counts, t, r) == Phase(bs[r], t + Offset(counts, r))
  {
  }

  /** What a cell of a block starting at global index `off` holds after
      the local phase with the global parity and the two boundary trades:
      `left` says whether the trade with the previous rank happens and `prev`
      is the value it sends (the first cell keeps the larger value), `right`
      and `next` the same for the next rank (the last cell keeps the
      smaller value). */
  function TradedValue(b: seq<int>, off: nat, t: nat, i: nat, left: bool, prev: int, right: bool, next: int): int
    requires i < |b|
  {
    var v := if left && i == 0 then Max(prev, PhaseAt(b, t + off, 0)) else PhaseAt(b, t + off, i);
    if right && i + 1 == |b| then Min(v, next) else v
  }

  /** Whether rank r trades with rank r - 1 in phase t: the pair
      (displs[r] - 1, displs[r]) belongs to phase t and both blocks hold
      values. */
  predicate TradesLeft(bs: seq<seq<int>>, counts: seq<nat>, t: nat, r: nat)
    requires |bs| == |counts| && r < |bs|
  {
    0 < r && |bs[r - 1]| > 0 && Offset(counts, r) % 2 != t % 2
  }

  /** Whether rank r trades with rank r + 1 in phase t. */
  predicate TradesRight(bs: seq<seq<int>>, counts: seq<nat>, t: nat, r: nat)
    requires |bs| == |counts| && r < |bs|
  {
    r + 1 < |bs| && |bs[r + 1]| > 0 && Offset(counts, r + 1) % 2 != t % 2
  }

  /** The value rank r - 1 sends to rank r: the last cell of its local block. */
  function FromPrev(bs: seq<seq<int>>, counts: seq<nat>, t: nat, r: nat): int
    requires |bs| == |counts| && r < |bs|
  {
    if 0 < r && |bs[r - 1]| > 0 then Last(LocalBlock(bs, counts, t, r - 1)) else 0
  }

  /** The value rank r + 1 sends to rank r: the first cell of its local block. */
  function FromNext(bs: seq<seq<int>>, counts: seq<nat>, t: nat, r: nat): int
    requires |bs| == |counts| && r < |bs|
  {
    if r + 1 < |bs| && |bs[r + 1]| > 0 then LocalBlock(bs, counts, t, r + 1)[0] else 0
  }

  /** Rank r's block at the end of phase t: the local phase, then the
      trade with rank r - 1, then the trade with rank r + 1. */
  function CorrectedBlock(bs: seq<seq<int>>, counts: seq<nat>, t: nat, r: nat): (b: seq<int>)
    requires |bs| == |counts| && r < |bs|
    ensures |b| == |bs[r]|
  {
    seq(|bs[r]|, i requires 0 <= i < |bs[r]| =>
      TradedValue(bs[r], Offset(counts, r), t, i,
                  TradesLeft(bs, counts, t, r), FromPrev(bs, counts, t, r),
                  TradesRight(bs, counts, t, r), FromNext(bs, counts, t, r)))
  }

  /** One corrected phase on all ranks; it keeps the block lengths. */
  function CorrectedPhase(bs: seq<seq<int>>, counts: seq<nat>, t: nat): (ns: seq<seq<int>>)
    requires Fits(bs, counts)
    ensures Fits(ns, counts)
  {
    seq(|bs|, r requires 0 <= r < |bs| => CorrectedBlock(bs, counts, t, r))
  }

  /** Phases 0..k-1 of the corrected loop. */
  function CorrectedRun(bs: seq<seq<int>>, counts: seq<nat>, k: nat): (ns: seq<seq<int>>)
    requires Fits(bs, counts)
    ensures Fits(ns, counts)
  {
    if k == 0 then bs else CorrectedPhase(CorrectedRun(bs, counts, k - 1), counts, k - 1)
  }

  /** The corrected distributed sort of `arr` over `size` ranks: scatter,
      n phases, gather. */
  function CorrectedSort(arr: seq<int>, size: nat): seq<int>
    requires size > 0
  {
    Gather(CorrectedRun(Scatter(arr, size), Counts(|arr|, size), |arr|))
  }

  /** The block holding global index g. */
  function BlockFrom(counts: seq<nat>, g: nat, r: nat): (b: nat)
    requires r < |counts| && Offset(counts, r) <= g < Offset(counts, |counts|)
    ensures r <= b < |counts| && Offset(counts, b) <= g < Offset(counts, b) + counts[b]
    decreases |counts| - r
  {
    if g < Offset(counts, r + 1) then r
    else
      if r + 1 == |counts| then r
      else BlockFrom(counts, g, r + 1)
  }

  /** When only trailing blocks are empty, a block ends before the last
      value exactly when the next block exists and is non-empty. */
  lemma NextBlock(bs: seq<seq<int>>, counts: seq<nat>, r: nat)
    requires Fits(bs, counts) && EmptyOnlyAtEnd(counts) && r < |bs|
    ensures Offset(counts, r + 1) < Offset(counts, |counts|) <==> r + 1 < |bs| && |bs[r + 1]| > 0
  {
    if r + 1 < |bs| && |bs[r + 1]| > 0 {
      OffsetMonotone(counts, r + 2, |counts|);
    } else if r + 1 < |bs| {
      EmptyTail(counts, r + 1, |counts|);
    }
  }

  /** When only trailing blocks are empty, a non-empty block starts at 0
      exactly when it is rank 0's, and the block before it is non-empty. */
  lemma PrevBlock(bs: seq<seq<int>>, counts: seq<nat>, r: nat)
    requires Fits(bs, counts) && EmptyOnlyAtEnd(counts) && r < |bs| && |bs[r]| > 0
    ensures r == 0 <==> Offset(counts, r) == 0
    ensures 0 < r ==> |bs[r - 1]| > 0
  {
    if 0 < r {
      assert counts[r - 1] != 0;
    }
  }

  /** The local phase with the global parity compares, inside a block,
      exactly the pairs of phase t of the whole array. */
  lemma LocalCell(bs: seq<seq<int>>, counts: seq<nat>, t: nat, r: nat, i: nat)
    requires |bs| == |counts| && r < |bs| && i < |bs[r]|
    ensures var off := Offset(counts, r);
      var b := bs[r];
      LocalBlock(bs, counts, t, r)[i]
        == if (off + i) % 2 == t % 2 && i + 1 < |b| then Min(b[i], b[i + 1])
           else if (off + i) % 2 != t % 2 && 0 < i then Max(b[i - 1], b[i])
           else b[i]
  {
    var off := Offset(counts, r);
    assert (i % 2 == (t + off) % 2) == ((off + i) % 2 == t % 2);
  }

  /** Block b sits at `off` in G. */
  predicate SitsAt(G: seq<int>, b: seq<int>, off: nat) {
    && off + |b| <= |G|
    && (forall g :: off <= g < off + |b| ==> G[g] == b[g - off])
  }

  /** The trade across the left boundary `off` happens exactly when the pair
      (off - 1, off) belongs to phase t, and brings in G[off - 1]. */
  predicate LeftNeighbour(G: seq<int>, off: nat, t: nat, left: bool, prev: int) {
    && left == (0 < off && off % 2 != t % 2)
    && (left ==> off <= |G| && prev == G[off - 1])
  }

  /** The trade across the right boundary `end` happens exactly when values
      follow it and the pair (end - 1, end) belongs to phase t, and brings in
      G[end]. */
  predicate RightNeighbour(G: seq<int>, end: nat, t: nat, right: bool, next: int) {
    && right == (end < |G| && end % 2 != t % 2)
    && (right ==> next == G[end])
  }

  /** Block b sits at `off` in G, and its trades with the previous and the
      next rank are those phase t makes across its two boundaries. */
  predicate TradesFromNeighbours(G: seq<int>, b: seq<int>, off: nat, t: nat,
                                 left: bool, prev: int, right: bool, next: int)
  {
    SitsAt(G, b, off) && LeftNeighbour(G, off, t, left, prev) && RightNeighbour(G, off + |b|, t, right, next)
  }

  /** A block sitting at `off` in an array G: when the trades happen exactly
      across the boundaries whose pairs belong to phase t, and bring in the
      neighbouring cells of G, every cell of the block gets what phase t
      puts in that cell of G. */
  lemma TradedValueIsPhaseAt(G: seq<int>, b: seq<int>, off: nat, t: nat, i: nat,
                             left: bool, prev: int, right: bool, next: int)
    requires i < |b| && TradesFromNeighbours(G, b, off, t, left, prev, right, next)
    ensures TradedValue(b, off, t, i, left, prev, right, next) == PhaseAt(G, t, off + i)
  {
    var g := off + i;
    assert (i % 2 == (t + off) % 2) == (g % 2 == t % 2);
    assert G[g] == b[i];
    if 0 < i { assert G[g - 1] == b[i - 1]; }
    if i + 1 < |b| { assert G[g + 1] == b[i + 1]; }
  }

  lemma OtherParity(x: nat, t: nat)
    requires 0 < x && x % 2 != t % 2
    ensures (x - 1) % 2 == t % 2
  {
  }

  /** When the pair across the left boundary of block r belongs to phase t,
      the value rank r - 1 sends is the cell just before the block. */
  lemma PrevNeighbour(bs: seq<seq<int>>, counts: seq<nat>, t: nat, r: nat)
    requires Fits(bs, counts) && EmptyOnlyAtEnd(counts) && r < |bs| && |bs[r]| > 0
    requires 0 < Offset(counts, r) && Offset(counts, r) % 2 != t % 2
    ensures 0 < r && |bs[r - 1]| > 0 && Offset(counts, r) <= |Gather(bs)|
    ensures FromPrev(bs, counts, t, r) == Gather(bs)[Offset(counts, r) - 1]
  {
    var off := Offset(counts, r);
    PrevBlock(bs, counts, r);
    var pb := bs[r - 1];
    var po := Offset(counts, r - 1);
    assert po + |pb| == off;
    Locate(bs, counts, r - 1, |pb| - 1);
    LocalCell(bs, counts, t, r - 1, |pb| - 1);
    OtherParity(off, t);
    assert po + (|pb| - 1) == off - 1;
  }

  /** When the pair across the right boundary of block r belongs to phase t,
      the value rank r + 1 sends is the cell just after the block. */
  lemma NextNeighbour(bs: seq<seq<int>>, counts: seq<nat>, t: nat, r: nat)
    requires Fits(bs, counts) && EmptyOnlyAtEnd(counts) && r < |bs|
    requires Offset(counts, r + 1) < Offset(counts, |counts|) && Offset(counts, r + 1) % 2 != t % 2
    ensures r + 1 < |bs| && |bs[r + 1]| > 0 && Offset(counts, r + 1) < |Gather(bs)|
    ensures FromNext(bs, counts, t, r) == Gather(bs)[Offset(counts, r + 1)]
  {
    NextBlock(bs, counts, r);
    Locate(bs, counts, r + 1, 0);
    LocalCell(bs, counts, t, r + 1, 0);
  }

  /** Cell i of rank r after a corrected phase is cell displs[r] + i of the
      whole array after the serial phase. */
  lemma CorrectedCell(bs: seq<seq<int>>, counts: seq<nat>, t: nat, r: nat, i: nat)
    requires Fits(bs, counts) && EmptyOnlyAtEnd(counts) && r < |bs| && i < |bs[r]|
    ensures Offset(counts, r) + i < |Gather(bs)|
    ensures CorrectedBlock(bs, counts, t, r)[i] == PhaseAt(Gather(bs), t, Offset(counts, r) + i)
  {
    TradesMatchPhase(bs, counts, t, r, i);
  }

  /** The trades of rank r bring in exactly the neighbours phase t compares
      its boundary cells with, so each traded value is the serial phase's
      value of that cell. */
  lemma TradesMatchPhase(bs: seq<seq<int>>, counts: seq<nat>, t: nat, r: nat, i: nat)
    requires Fits(bs, counts) && EmptyOnlyAtEnd(counts) && r < |bs| && i < |bs[r]|
    ensures Offset(counts, r) + i < |Gather(bs)|
    ensures TradedValue(bs[r], Offset(counts, r), t, i,
                        TradesLeft(bs, counts, t, r), FromPrev(bs, counts, t, r),
                        TradesRight(bs, counts, t, r), FromNext(bs, counts, t, r))
            == PhaseAt(Gather(bs), t, Offset(counts, r) + i)
  {
    RankTrades(bs, counts, t, r);
    TradedValueIsPhaseAt(Gather(bs), bs[r], Offset(counts, r), t, i,
                         TradesLeft(bs, counts, t, r), FromPrev(bs, counts, t, r),
                         TradesRight(bs, counts, t, r), FromNext(bs, counts, t, r));
  }

  /** The trades rank r makes with its neighbours are those of phase t
      across the boundaries of its block in the gathered array. */
  lemma RankTrades(bs: seq<seq<int>>, counts: seq<nat>, t: nat, r: nat)
    requires Fits(bs, counts) && EmptyOnlyAtEnd(counts) && r < |bs| && |bs[r]| > 0
    ensures TradesFromNeighbours(Gather(bs), bs[r], Offset(counts, r), t,
                                 TradesLeft(bs, counts, t, r), FromPrev(bs, counts, t, r),
                                 TradesRight(bs, counts, t, r), FromNext(bs, counts, t, r))
  {
    BlockSitsInGather(bs, counts, r);
    LeftNeighbourInGather(bs, counts, t, r);
    RightNeighbourInGather(bs, counts, t, r);
  }

  /** Block r sits at displs[r] in the gathered array. */
  lemma BlockSitsInGather(bs: seq<seq<int>>, counts: seq<nat>, r: nat)
    requires Fits(bs, counts) && r < |bs|
    ensures SitsAt(Gather(bs), bs[r], Offset(counts, r))
  {
    BlockInGather(bs, counts, r);
  }

  /** Rank r's trade with rank r - 1 is phase t's across its left boundary. */
  lemma LeftNeighbourInGather(bs: seq<seq<int>>, counts: seq<nat>, t: nat, r: nat)
    requires Fits(bs, counts) && EmptyOnlyAtEnd(counts) && r < |bs| && |bs[r]| > 0
    ensures LeftNeighbour(Gather(bs), Offset(counts, r), t, TradesLeft(bs, counts, t, r), FromPrev(bs, counts, t, r))
  {
    LeftTrade(bs, counts, t, r);
  }

  /** Rank r's trade with rank r + 1 is phase t's across its right boundary. */
  lemma RightNeighbourInGather(bs: seq<seq<int>>, counts: seq<nat>, t: nat, r: nat)
    requires Fits(bs, counts) && EmptyOnlyAtEnd(counts) && r < |bs|
    ensures RightNeighbour(Gather(bs), Offset(counts, r) + |bs[r]|, t, TradesRight(bs, counts, t, r), FromNext(bs, counts, t, r))
  {
    RightTrade(bs, counts, t, r);
  }

  /** Block r sits in the gathered array at displs[r]. */
  lemma BlockInGather(bs: seq<seq<int>>, counts: seq<nat>, r: nat)
    requires Fits(bs, counts) && r < |bs|
    ensures Offset(counts, r) + |bs[r]| <= |Gather(bs)|
    ensures forall g :: Offset(counts, r) <= g < Offset(counts, r) + |bs[r]| ==>
              Gather(bs)[g] == bs[r][g - Offset(counts, r)]
  {
    var G := Gather(bs);
    var off, b := Offset(counts, r), bs[r];
    GatherLength(bs, counts, |bs|);
    assert bs[..|bs|] == bs;
    OffsetMonotone(counts, r + 1, |counts|);
    forall g | off <= g < off + |b| ensures G[g] == b[g - off] {
      Locate(bs, counts, r, g - off);
    }
  }

  /** Rank r trades with rank r - 1 exactly when its block is not at the
      start and the pair across the boundary belongs to phase t, and then it
      receives the cell just before its block. */
  lemma LeftTrade(bs: seq<seq<int>>, counts: seq<nat>, t: nat, r: nat)
    requires Fits(bs, counts) && EmptyOnlyAtEnd(counts) && r < |bs| && |bs[r]| > 0
    ensures TradesLeft(bs, counts, t, r) == (0 < Offset(counts, r) && Offset(counts, r) % 2 != t % 2)
    ensures TradesLeft(bs, counts, t, r) ==> Offset(counts, r) <= |Gather(bs)|
    ensures TradesLeft(bs, counts, t, r) ==> FromPrev(bs, counts, t, r) == Gather(bs)[Offset(counts, r) - 1]
  {
    PrevBlock(bs, counts, r);
    if TradesLeft(bs, counts, t, r) {
      PrevNeighbour(bs, counts, t, r);
    }
  }

  /** Rank r trades with rank r + 1 exactly when values follow its block and
      the pair across the boundary belongs to phase t, and then it receives
      the cell just after its block. */
  lemma RightTrade(bs: seq<seq<int>>, counts: seq<nat>, t: nat, r: nat)
    requires Fits(bs, counts) && EmptyOnlyAtEnd(counts) && r < |bs|
    ensures TradesRight(bs, counts, t, r)
            == (Offset(counts, r) + |bs[r]| < |Gather(bs)| && (Offset(counts, r) + |bs[r]|) % 2 != t % 2)
    ensures TradesRight(bs, counts, t, r) ==>
              FromNext(bs, counts, t, r) == Gather(bs)[Offset(counts, r) + |bs[r]|]
  {
    assert Offset(counts, r + 1) == Offset(counts, r) + |bs[r]|;
    GatherLength(bs, counts, |bs|);
    assert bs[..|bs|] == bs;
    NextBlock(bs, counts, r);
    if TradesRight(bs, counts, t, r) {
      NextNeighbour(bs, counts, t, r);
    }
  }

  /** A corrected phase on the blocks is the serial phase on the whole
      array. */
  lemma CorrectedPhaseIsPhase(bs: seq<seq<int>>, counts: seq<nat>, t: nat)
    requires Fits(bs, counts) && EmptyOnlyAtEnd(counts)
    ensures Gather(CorrectedPhase(bs, counts, t)) == Phase(Gather(bs), t)
  {
    var ns := CorrectedPhase(bs, counts, t);
    var G, H := Gather(bs), Gather(ns);
    var n := Offset(counts, |counts|);
    GatherLength(bs, counts, |bs|);
    GatherLength(ns, counts, |ns|);
    assert bs[..|bs|] == bs && ns[..|ns|] == ns;
    forall g | 0 <= g < n ensures H[g] == Phase(G, t)[g] {
      CorrectedPhaseCell(bs, counts, t, g);
    }
  }

  /** One cell of the gathered corrected phase. */
  lemma CorrectedPhaseCell(bs: seq<seq<int>>, counts: seq<nat>, t: nat, g: nat)
    requires Fits(bs, counts) && EmptyOnlyAtEnd(counts) && g < Offset(counts, |counts|)
    ensures g < |Gather(bs)| && g < |Gather(CorrectedPhase(bs, counts, t))|
    ensures Gather(CorrectedPhase(bs, counts, t))[g] == Phase(Gather(bs), t)[g]
  {
    var r := BlockFrom(counts, g, 0);
    var i := g - Offset(counts, r);
    var ns := CorrectedPhase(bs, counts, t);
    Locate(ns, counts, r, i);
    CorrectedCell(bs, counts, t, r, i);
  }

  /** The corrected run gathers to the serial phases on the whole array. */
  lemma {:induction false} CorrectedRunIsPhases(bs: seq<seq<int>>, counts: seq<nat>, k: nat)
    requires Fits(bs, counts) && EmptyOnlyAtEnd(counts)
    ensures Gather(CorrectedRun(bs, counts, k)) == Phases(Gather(bs), k)
  {
    if k > 0 {
      var j: nat := k - 1;
      CorrectedRunIsPhases(bs, counts, j);
      CorrectedPhaseIsPhase(CorrectedRun(bs, counts, j), counts, j);
    }
  }

  /** The corrected distributed sort computes what `odd_even_sort_serial`
      computes, for every number of ranks, so it sorts and permutes. */
  lemma CorrectedSortIsSerial(arr: seq<int>, size: nat)
    requires size > 0
    ensures CorrectedSort(arr, size) == SerialSort(arr)
    ensures Sorted(CorrectedSort(arr, size))
    ensures multiset(CorrectedSort(arr, size)) == multiset(arr)
  {
    CountsEmptyOnlyAtEnd(|arr|, size);
    CorrectedRunIsPhases(Scatter(arr, size), Counts(|arr|, size), |arr|);
    GatherScatter(arr, size);
    SerialSortCorrect(arr);
  }
}

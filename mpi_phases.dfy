/** The phase loop of the distributed program, as written, over the blocks
    of all ranks at once.  In phase t every rank runs
    `single_phase_odd_even(local_arr, local_n, t)` on its own block, with
    the LOCAL index parity, then trades one boundary value with its partner
    through `MPI_Sendrecv`: the lower rank of a pair keeps the smaller of its
    last value and the partner's first value, the higher rank the larger of
    its first value and the partner's last value.  A rank with an empty
    block that has a partner reads outside its block; the model reports that
    as a failed phase (`None`). */
module DistributedPhases {
  import opened OddEvenSpec
  import opened BlockLayout

  datatype Option<T> = None | Some(value: T)

  /** The partner of `rank` in phase `phase`: in even phases ranks pair as
      (0,1), (2,3), ...; in odd phases as (1,2), (3,4), ....  The higher
      neighbour is the partner exactly when the rank has the phase's parity. */
  function Partner(rank: nat, phase: nat): (p: int)
    ensures p == rank + 1 || p == rank - 1
    ensures p == rank + 1 <==> rank % 2 == phase % 2
  {
    if phase % 2 == 0 then (if rank % 2 == 0 then rank + 1 else rank - 1)
    else (if rank % 2 != 0 then rank + 1 else rank - 1)
  }

  /** The guard `partner >= 0 && partner < size`. */
  predicate HasPartner(rank: nat, size: nat, phase: nat) {
    0 <= Partner(rank, phase) < size
  }

  /** The partner of the partner is the rank itself. */
  lemma PartnerOfPartner(rank: nat, phase: nat)
    requires Partner(rank, phase) >= 0
    ensures Partner(Partner(rank, phase) as nat, phase) == rank
  {
  }

  /** Pairing is symmetric: a rank has a partner exactly when its partner
      has one, and the pair is the same seen from either side. */
  lemma PartnerSymmetric(rank: nat, size: nat, phase: nat)
    requires rank < size && HasPartner(rank, size, phase)
    ensures HasPartner(Partner(rank, phase) as nat, size, phase)
  {
    PartnerOfPartner(rank, phase);
  }

  /** The value a rank sends: the last value of its block when it is the
      lower rank of the pair, the first otherwise; `None` for an empty
      block, which has no such cell. */
  function SendValue(local: seq<int>, lower: bool): (v: Option<int>)
    ensures v.None? <==> |local| == 0
    ensures v.Some? && lower ==> v.value == local[|local| - 1]
    ensures v.Some? && !lower ==> v.value == local[0]
  {
    if |local| == 0 then None
    else if lower then Some(local[|local| - 1])
    else Some(local[0])
  }

  /** The update after `MPI_Sendrecv`: the lower rank overwrites its last
      value with the received one when that is smaller, the higher rank its
      first value when the received one is larger. */
  function Absorb(local: seq<int>, lower: bool, recv: int): (r: seq<int>)
    requires |local| > 0
    ensures lower ==> r == local[|local| - 1 := Min(local[|local| - 1], recv)]
    ensures !lower ==> r == local[0 := Max(recv, local[0])]
  {
    if lower then (if local[|local| - 1] > recv then local[|local| - 1 := recv] else local)
    else (if recv > local[0] then local[0 := recv] else local)
  }

  /** The boundary exchange between a lower block and a higher block keeps
      the values of the two blocks together: the two boundary values are
      swapped or left, nothing else changes. */
  lemma ExchangeKeepsValues(lo: seq<int>, hi: seq<int>)
    requires |lo| > 0 && |hi| > 0
    ensures multiset(Absorb(lo, true, hi[0])) + multiset(Absorb(hi, false, lo[|lo| - 1]))
         == multiset(lo) + multiset(hi)
  {
    var a, b := lo[|lo| - 1], hi[0];
    if a > b {
      assert lo == lo[..|lo| - 1] + [a];
      assert Absorb(lo, true, b) == lo[..|lo| - 1] + [b];
      assert hi == [b] + hi[1..];
      assert Absorb(hi, false, a) == [a] + hi[1..];
    }
  }

  /** The blocks after every rank ran `single_phase_odd_even` with the phase
      number itself, whatever the global position of its block. */
  function LocalPhases(bs: seq<seq<int>>, t: nat): (ls: seq<seq<int>>)
    ensures |ls| == |bs|
    ensures forall r :: 0 <= r < |bs| ==> |ls[r]| == |bs[r]|
  {
    seq(|bs|, r requires 0 <= r < |bs| => Phase(bs[r], t))
  }

  /** Every rank that has a partner in phase t has a non-empty block, so the
      boundary reads stay inside the blocks. */
  predicate Exchangeable(bs: seq<seq<int>>, t: nat) {
    forall r :: 0 <= r < |bs| && HasPartner(r, |bs|, t) ==> |bs[r]| > 0
  }

  /** Rank r's block at the end of phase t, given every rank's block after
      its local phase: it absorbs the value its partner sends. */
  function RankAfter(ls: seq<seq<int>>, t: nat, r: nat): (b: seq<int>)
    requires r < |ls| && Exchangeable(ls, t)
    ensures |b| == |ls[r]|
  {
    var p := Partner(r, t);
    if 0 <= p < |ls| then
      PartnerSymmetric(r, |ls|, t);
      var recv := SendValue(ls[p], p < r).value;
      Absorb(ls[r], r < p, recv)
    else ls[r]
  }

  /** One iteration of the phase loop on all ranks; `None` when a rank with
      a partner has an empty block. */
  function PhaseAsWritten(bs: seq<seq<int>>, t: nat): (r: Option<seq<seq<int>>>)
    ensures r.Some? <==> Exchangeable(bs, t)
    ensures r.Some? ==> |r.value| == |bs|
  {
    if Exchangeable(bs, t) then Some(ExchangeAll(LocalPhases(bs, t), t)) else None
  }

  /** A phase fails exactly when some rank with a partner has no value to
      send, its block being empty. */
  lemma PhaseFailsWhenSendMissing(bs: seq<seq<int>>, t: nat)
    ensures PhaseAsWritten(bs, t).None? <==>
              exists r :: 0 <= r < |bs| && HasPartner(r, |bs|, t)
                          && SendValue(LocalPhases(bs, t)[r], r < Partner(r, t)).None?
  {
    var ls := LocalPhases(bs, t);
    if PhaseAsWritten(bs, t).None? {
      var r :| 0 <= r < |bs| && HasPartner(r, |bs|, t) && |bs[r]| == 0;
      assert SendValue(ls[r], r < Partner(r, t)).None?;
    }
  }

  /** A phase that does not fail keeps the length of every block. */
  lemma PhaseAsWrittenShape(bs: seq<seq<int>>, t: nat, ns: seq<seq<int>>)
    requires PhaseAsWritten(bs, t) == Some(ns)
    ensures |ns| == |bs| && forall r :: 0 <= r < |bs| ==> |ns[r]| == |bs[r]|
  {
    var ls := LocalPhases(bs, t);
    forall r | 0 <= r < |bs| ensures |ns[r]| == |bs[r]| {
    }
  }

  /** Rank r's block after a phase that does not fail: its locally phased
      block, with the boundary value traded with its partner. */
  lemma PhaseAsWrittenAt(bs: seq<seq<int>>, t: nat, r: nat)
    requires Exchangeable(bs, t) && r < |bs|
    ensures Exchangeable(LocalPhases(bs, t), t)
    ensures PhaseAsWritten(bs, t).value[r] == RankAfter(LocalPhases(bs, t), t, r)
  {
  }

  /** Every rank's block after the boundary exchange. */
  function ExchangeAll(ls: seq<seq<int>>, t: nat): (ns: seq<seq<int>>)
    requires Exchangeable(ls, t)
    ensures |ns| == |ls|
  {
    seq(|ls|, r requires 0 <= r < |ls| => RankAfter(ls, t, r))
  }

  /** The k phases t..t+k-1 of the loop, run on the blocks `bs`; `None`
      from the first phase that fails on. */
  function RunAsWritten(bs: seq<seq<int>>, t: nat, k: nat): Option<seq<seq<int>>>
    decreases k
  {
    if k == 0 then Some(bs)
    else match PhaseAsWritten(bs, t)
      case None => None
      case Some(ns) => RunAsWritten(ns, t + 1, k - 1)
  }

  /** The whole distributed sort of `arr` over `size` ranks: scatter, n
      phases, gather. */
  function SortAsWritten(arr: seq<int>, size: nat): Option<seq<int>>
    requires size > 0
  {
    match RunAsWritten(Scatter(arr, size), 0, |arr|)
    case None => None
    case Some(bs) => Some(Gather(bs))
  }

  /** The values held by the first k blocks. */
  function BlockValues(bs: seq<seq<int>>, k: nat): multiset<int>
    requires k <= |bs|
  {
    if k == 0 then multiset{} else BlockValues(bs, k - 1) + multiset(bs[k - 1])
  }

  /** The gathered array holds the values of all blocks. */
  lemma {:induction false} GatherValues(bs: seq<seq<int>>)
    ensures multiset(Gather(bs)) == BlockValues(bs, |bs|)
  {
    if bs != [] {
      var init := bs[..|bs| - 1];
      GatherValues(init);
      assert forall k :: 0 <= k <= |init| ==> BlockValues(init, k) == BlockValues(bs, k) by {
        forall k | 0 <= k <= |init| ensures BlockValues(init, k) == BlockValues(bs, k) {
          BlockValuesPrefix(init, bs, k);
        }
      }
    }
  }

  lemma {:induction false} BlockValuesPrefix(a: seq<seq<int>>, b: seq<seq<int>>, k: nat)
    requires k <= |a| && k <= |b| && a[..k] == b[..k]
    ensures BlockValues(a, k) == BlockValues(b, k)
  {
    if k > 0 {
      assert a[..k - 1] == a[..k][..k - 1] == b[..k][..k - 1] == b[..k - 1];
      assert a[k - 1] == a[..k][k - 1] == b[k - 1];
      BlockValuesPrefix(a, b, k - 1);
    }
  }

  /** A rank without a partner keeps its locally phased block. */
  lemma LoneBlock(ls: seq<seq<int>>, t: nat, r: nat)
    requires Exchangeable(ls, t) && r < |ls| && !HasPartner(r, |ls|, t)
    ensures ExchangeAll(ls, t)[r] == ls[r]
  {
  }

  /** Two partners trade values only between themselves. */
  lemma PairBlocks(ls: seq<seq<int>>, t: nat, r: nat)
    requires Exchangeable(ls, t) && r + 1 < |ls| && r % 2 == t % 2
    ensures multiset(ExchangeAll(ls, t)[r]) + multiset(ExchangeAll(ls, t)[r + 1])
         == multiset(ls[r]) + multiset(ls[r + 1])
  {
    assert HasPartner(r, |ls|, t) && HasPartner(r + 1, |ls|, t);
    assert Partner(r + 1, t) == r;
    ExchangeKeepsValues(ls[r], ls[r + 1]);
  }

  /** `ns` differs from `ls` only by trades inside the pairs of phase t:
      a rank without a partner keeps its block, two partners keep their
      values between them. */
  predicate TradesWithinPairs(ls: seq<seq<int>>, ns: seq<seq<int>>, t: nat) {
    |ns| == |ls|
    && (forall r :: 0 <= r < |ls| && !HasPartner(r, |ls|, t) ==> ns[r] == ls[r])
    && (forall r :: 0 <= r && r + 1 < |ls| && r % 2 == t % 2 ==>
          multiset(ns[r]) + multiset(ns[r + 1]) == multiset(ls[r]) + multiset(ls[r + 1]))
  }

  /** The boundary exchange trades values only within pairs. */
  lemma ExchangeAllTrades(ls: seq<seq<int>>, t: nat)
    requires Exchangeable(ls, t)
    ensures TradesWithinPairs(ls, ExchangeAll(ls, t), t)
  {
    forall r | 0 <= r < |ls| && !HasPartner(r, |ls|, t) ensures ExchangeAll(ls, t)[r] == ls[r] {
      LoneBlock(ls, t, r);
    }
    forall r | 0 <= r && r + 1 < |ls| && r % 2 == t % 2
      ensures multiset(ExchangeAll(ls, t)[r]) + multiset(ExchangeAll(ls, t)[r + 1])
           == multiset(ls[r]) + multiset(ls[r + 1])
    {
      PairBlocks(ls, t, r);
    }
  }

  /** Up to every rank boundary that no pair of the phase straddles, trades
      within pairs keep the values of the blocks. */
  lemma {:induction false} TradesKeepCut(ls: seq<seq<int>>, ns: seq<seq<int>>, t: nat, k: nat)
    requires TradesWithinPairs(ls, ns, t)
    requires k <= |ls| && (k == 0 || k % 2 == t % 2 || k == |ls|)
    ensures BlockValues(ns, k) == BlockValues(ls, k)
  {
    if k == 0 {
    } else if k % 2 != t % 2 || k == 1 {
      // rank k - 1 sits out: it is the last rank, or rank 0 in an odd phase
      TradesKeepCut(ls, ns, t, k - 1);
      assert !HasPartner(k - 1, |ls|, t);
      BlockValuesStep(ns, ls, k - 1);
    } else {
      // ranks k - 2 and k - 1 are partners
      TradesKeepCut(ls, ns, t, k - 2);
      BlockValuesPairStep(ns, ls, k - 2);
    }
  }

  lemma BlockValuesStep(a: seq<seq<int>>, b: seq<seq<int>>, k: nat)
    requires k < |a| && k < |b|
    requires BlockValues(a, k) == BlockValues(b, k) && multiset(a[k]) == multiset(b[k])
    ensures BlockValues(a, k + 1) == BlockValues(b, k + 1)
  {
  }

  lemma BlockValuesPairStep(a: seq<seq<int>>, b: seq<seq<int>>, k: nat)
    requires k + 1 < |a| && k + 1 < |b|
    requires BlockValues(a, k) == BlockValues(b, k)
    requires multiset(a[k]) + multiset(a[k + 1]) == multiset(b[k]) + multiset(b[k + 1])
    ensures BlockValues(a, k + 2) == BlockValues(b, k + 2)
  {
    assert BlockValues(a, k + 2) == BlockValues(a, k) + (multiset(a[k]) + multiset(a[k + 1]));
    assert BlockValues(b, k + 2) == BlockValues(b, k) + (multiset(b[k]) + multiset(b[k + 1]));
  }

  /** A local phase on every block keeps the values of each block. */
  lemma {:induction false} LocalPhasesKeepValues(bs: seq<seq<int>>, t: nat, k: nat)
    requires k <= |bs|
    ensures BlockValues(LocalPhases(bs, t), k) == BlockValues(bs, k)
  {
    if k > 0 {
      var j: nat := k - 1;
      LocalPhasesKeepValues(bs, t, j);
      PhasePermutes(bs[j], t);
      BlockValuesStep(LocalPhases(bs, t), bs, j);
    }
  }

  /** A phase that does not fail keeps every block's length and only moves
      values around between the blocks. */
  lemma PhaseAsWrittenPermutes(bs: seq<seq<int>>, t: nat, ns: seq<seq<int>>)
    requires PhaseAsWritten(bs, t) == Some(ns)
    ensures BlockValues(ns, |ns|) == BlockValues(bs, |bs|)
  {
    var ls := LocalPhases(bs, t);
    ExchangeAllTrades(ls, t);
    TradesKeepCut(ls, ns, t, |ls|);
    LocalPhasesKeepValues(bs, t, |bs|);
  }

  /** Every run that does not fail keeps the number of blocks and their
      lengths. */
  lemma {:induction false} RunAsWrittenShape(bs: seq<seq<int>>, t: nat, k: nat, out: seq<seq<int>>)
    requires RunAsWritten(bs, t, k) == Some(out)
    ensures |out| == |bs|
    ensures forall r :: 0 <= r < |bs| ==> |out[r]| == |bs[r]|
    decreases k
  {
    if k > 0 {
      var ns := PhaseAsWritten(bs, t).value;
      PhaseAsWrittenShape(bs, t, ns);
      RunAsWrittenShape(ns, t + 1, k - 1, out);
    }
  }

  /** Every run that does not fail only moves values around. */
  lemma RunAsWrittenPermutes(bs: seq<seq<int>>, t: nat, k: nat, out: seq<seq<int>>)
    requires RunAsWritten(bs, t, k) == Some(out)
    ensures multiset(Gather(out)) == multiset(Gather(bs))
  {
    RunKeepsValues(bs, t, k, out);
    GatherValues(out);
    GatherValues(bs);
  }

  /** `out` holds the same values as `bs`, block boundaries aside. */
  predicate SameValues(bs: seq<seq<int>>, out: seq<seq<int>>)
  {
    BlockValues(out, |out|) == BlockValues(bs, |bs|)
  }

  lemma {:induction false} RunKeepsValues(bs: seq<seq<int>>, t: nat, k: nat, out: seq<seq<int>>)
    requires RunAsWritten(bs, t, k) == Some(out)
    ensures SameValues(bs, out)
    decreases k
  {
    if k > 0 {
      var ns := PhaseAsWritten(bs, t).value;
      PhaseAsWrittenPermutes(bs, t, ns);
      RunKeepsValues(ns, t + 1, k - 1, out);
    }
  }

  /** With at least as many values as ranks every block is non-empty, so no
      phase fails, and the gathered result is a permutation of the input. */
  lemma SortAsWrittenDefined(arr: seq<int>, size: nat)
    requires 0 < size <= |arr|
    ensures SortAsWritten(arr, size).Some?
    ensures multiset(SortAsWritten(arr, size).value) == multiset(arr)
    ensures |SortAsWritten(arr, size).value| == |arr|
  {
    var bs := Scatter(arr, size);
    forall r | 0 <= r < size ensures |bs[r]| > 0 {
      CountIsLocalN(|arr|, size, r);
      LocalNEmpty(|arr|, size, r);
    }
    NeverFails(bs, 0, |arr|);
    var out := RunAsWritten(bs, 0, |arr|).value;
    RunAsWrittenShape(bs, 0, |arr|, out);
    RunAsWrittenPermutes(bs, 0, |arr|, out);
    GatherScatter(arr, size);
    GatherLength(out, Counts(|arr|, size), |out|);
    assert out[..|out|] == out;
    DisplEnd(|arr|, size);
  }

  lemma {:induction false} NeverFails(bs: seq<seq<int>>, t: nat, k: nat)
    requires forall r :: 0 <= r < |bs| ==> |bs[r]| > 0
    ensures RunAsWritten(bs, t, k).Some?
    decreases k
  {
    if k > 0 {
      assert Exchangeable(bs, t);
      var ns := PhaseAsWritten(bs, t).value;
      PhaseAsWrittenShape(bs, t, ns);
      NeverFails(ns, t + 1, k - 1);
    }
  }

  /** With fewer values than ranks (but at least one) the run always fails:
      the first rank without values is partnered in phase 0, or, when it is
      the last rank and even, in phase 1. */
  lemma SortAsWrittenFails(arr: seq<int>, size: nat)
    requires 0 < |arr| < size
    ensures SortAsWritten(arr, size).None?
  {
    var n := |arr|;
    var bs := Scatter(arr, size);
    EmptyRankAt(arr, size);
    if n % 2 == 1 || n + 1 < size {
      assert HasPartner(n, size, 0);
      assert PhaseAsWritten(bs, 0).None?;
    } else {
      SecondPhaseFails(arr, size);
    }
  }

  /** With fewer values than ranks, rank n gets no values. */
  lemma EmptyRankAt(arr: seq<int>, size: nat)
    requires 0 < |arr| < size
    ensures |Scatter(arr, size)[|arr|]| == 0
  {
    CountIsLocalN(|arr|, size, |arr|);
    LocalNEmpty(|arr|, size, |arr|);
  }

  /** An even number n of values over n + 1 ranks: phase 0 goes through, as
      the empty rank n has no partner, but phase 1 pairs it with rank n - 1. */
  lemma SecondPhaseFails(arr: seq<int>, size: nat)
    requires 0 < |arr| && |arr| % 2 == 0 && size == |arr| + 1
    ensures SortAsWritten(arr, size).None?
  {
    var n := |arr|;
    var bs := Scatter(arr, size);
    EmptyRankAt(arr, size);
    FirstPhaseGoesThrough(arr, size);
    var b1 := PhaseAsWritten(bs, 0).value;
    PhaseAsWrittenShape(bs, 0, b1);
    assert |b1[n]| == 0;
    assert HasPartner(n, size, 1);
    assert PhaseAsWritten(b1, 1).None?;
    assert RunAsWritten(b1, 1, n - 1).None?;
  }

  /** An even number n of values over n + 1 ranks: every rank paired in
      phase 0 is below n and has a value. */
  lemma FirstPhaseGoesThrough(arr: seq<int>, size: nat)
    requires 0 < |arr| && |arr| % 2 == 0 && size == |arr| + 1
    ensures Exchangeable(Scatter(arr, size), 0)
  {
    var bs := Scatter(arr, size);
    forall r | 0 <= r < size && HasPartner(r, size, 0) ensures |bs[r]| > 0 {
      CountIsLocalN(|arr|, size, r);
      LocalNEmpty(|arr|, size, r);
    }
  }

  /** Four values over three ranks: the blocks [1, 2], [3], [0] come back as
      [1, 0], [2], [3].  The 0 moves one rank left per odd phase, but the
      pair (1, 0) inside rank 0's block is compared only in the even phases
      and the last phase is odd. */
  lemma AsWrittenCounterexample()
    ensures SortAsWritten([1, 2, 3, 0], 3) == Some([1, 0, 2, 3])
    ensures !Sorted([1, 0, 2, 3])
  {
    ExampleScatter();
    var b0, b1, b2, b3 := [[1, 2], [3], [0]], [[1, 2], [3], [0]], [[1, 2], [0], [3]], [[1, 0], [2], [3]];
    ExamplePhase0();
    ExamplePhase1();
    ExamplePhase2();
    ExamplePhase3();
    assert RunAsWritten(b3, 4, 0) == Some(b3);
    assert RunAsWritten(b3, 3, 1) == Some(b3);
    assert RunAsWritten(b2, 2, 2) == Some(b3);
    assert RunAsWritten(b1, 1, 3) == Some(b3);
    assert RunAsWritten(b0, 0, 4) == Some(b3);
    var g1, g2 := [[1, 0]], [[1, 0], [2]];
    assert g1[..0] == [] && g2[..1] == g1 && b3[..2] == g2;
    assert Gather(g1) == [1, 0];
    assert Gather(g2) == [1, 0, 2];
    assert Gather(b3) == [1, 0, 2, 3];
    var r := [1, 0, 2, 3];
    assert r[0] > r[1];
  }

  lemma ExampleScatter()
    ensures Scatter([1, 2, 3, 0], 3) == [[1, 2], [3], [0]]
  {
    var arr := [1, 2, 3, 0];
    var c := Counts(4, 3);
    assert c == [2, 1, 1];
    assert Offset(c, 1) == 2 && Offset(c, 2) == 3;
    assert BlockOf(arr, c, 0) == [1, 2];
    assert BlockOf(arr, c, 1) == [3];
    assert BlockOf(arr, c, 2) == [0];
  }

  lemma ExamplePhase0()
    ensures PhaseAsWritten([[1, 2], [3], [0]], 0) == Some([[1, 2], [3], [0]])
  {
    var b := [[1, 2], [3], [0]];
    assert Phase([1, 2], 0) == [1, 2] && Phase([3], 0) == [3] && Phase([0], 0) == [0];
    assert RankAfter(b, 0, 0) == [1, 2] && RankAfter(b, 0, 1) == [3] && RankAfter(b, 0, 2) == [0];
    ConcretePhase(b, 0, b, b);
  }

  lemma ExamplePhase1()
    ensures PhaseAsWritten([[1, 2], [3], [0]], 1) == Some([[1, 2], [0], [3]])
  {
    var b := [[1, 2], [3], [0]];
    assert Phase([1, 2], 1) == [1, 2] && Phase([3], 1) == [3] && Phase([0], 1) == [0];
    assert RankAfter(b, 1, 0) == [1, 2] && RankAfter(b, 1, 1) == [0] && RankAfter(b, 1, 2) == [3];
    ConcretePhase(b, 1, b, [[1, 2], [0], [3]]);
  }

  lemma ExamplePhase2()
    ensures PhaseAsWritten([[1, 2], [0], [3]], 2) == Some([[1, 0], [2], [3]])
  {
    var b := [[1, 2], [0], [3]];
    assert Phase([1, 2], 2) == [1, 2] && Phase([0], 2) == [0] && Phase([3], 2) == [3];
    assert RankAfter(b, 2, 0) == [1, 0] && RankAfter(b, 2, 1) == [2] && RankAfter(b, 2, 2) == [3];
    ConcretePhase(b, 2, b, [[1, 0], [2], [3]]);
  }

  lemma ExamplePhase3()
    ensures PhaseAsWritten([[1, 0], [2], [3]], 3) == Some([[1, 0], [2], [3]])
  {
    var b := [[1, 0], [2], [3]];
    assert Phase([1, 0], 3) == [1, 0] && Phase([2], 3) == [2] && Phase([3], 3) == [3];
    assert RankAfter(b, 3, 0) == [1, 0] && RankAfter(b, 3, 1) == [2] && RankAfter(b, 3, 2) == [3];
    ConcretePhase(b, 3, b, b);
  }

  /** Evaluates one phase on three non-empty blocks, given the blocks `ls`
      after the local phases. */
  lemma ConcretePhase(bs: seq<seq<int>>, t: nat, ls: seq<seq<int>>, ns: seq<seq<int>>)
    requires |bs| == 3 && |ls| == 3 && |ns| == 3
    requires |ls[0]| > 0 && |ls[1]| > 0 && |ls[2]| > 0
    requires forall r :: 0 <= r < 3 ==> ls[r] == Phase(bs[r], t)
    requires forall r :: 0 <= r < 3 ==> ns[r] == RankAfter(ls, t, r)
    ensures PhaseAsWritten(bs, t) == Some(ns)
  {
    assert Exchangeable(bs, t);
    forall r | 0 <= r < 3 ensures LocalPhases(bs, t)[r] == ls[r] {
    }
    assert LocalPhases(bs, t) == ls;
    forall r | 0 <= r < 3 ensures PhaseAsWritten(bs, t).value[r] == ns[r] {
      PhaseAsWrittenAt(bs, t, r);
    }
    assert PhaseAsWritten(bs, t).value == ns;
  }
}

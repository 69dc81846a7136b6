/** Odd-even transposition sort as functions over sequences.

    A phase `t` compares every adjacent pair (q, q + 1) whose left index q has
    the parity of t: an even phase compares (0,1), (2,3), ...; an odd phase
    compares (1,2), (3,4), ....  Each compared pair ends up as (min, max).
    The array methods of the serial, shared-memory and distributed programs
    are all proved against `Phase` and `Phases`. */
module OddEvenSpec {

  function Min(a: int, b: int): int { if a <= b then a else b }
  function Max(a: int, b: int): int { if a <= b then b else a }

  /** Adjacent pairs are in order: what `is_sorted` checks. */
  predicate Sorted(s: seq<int>) {
    forall i :: 0 <= i < |s| - 1 ==> s[i] <= s[i + 1]
  }

  /** The first `n` cells of `s`, or none when `n` is not positive. */
  function Prefix(s: seq<int>, n: int): (p: seq<int>)
    requires n <= |s|
    ensures |p| == if n < 0 then 0 else n
    ensures forall i :: 0 <= i < |p| ==> p[i] == s[i]
  {
    if n <= 0 then [] else s[..n]
  }

  /** The cells at and after index `n` (all of `s` when `n` is not positive). */
  function Rest(s: seq<int>, n: int): (r: seq<int>)
    requires n <= |s|
    ensures Prefix(s, n) + r == s
  {
    if n <= 0 then s else s[n..]
  }

  /** The first |s| cells are all of s. */
  lemma PrefixAll(s: seq<int>)
    ensures Prefix(s, |s|) == s
  {
  }

  /** Cell `i` after phase `t`: the smaller value of a compared pair on the
      left, the larger on the right, cells outside every pair unchanged. */
  function PhaseAt(s: seq<int>, t: nat, i: nat): int
    requires i < |s|
  {
    if i % 2 == t % 2 && i + 1 < |s| then Min(s[i], s[i + 1])
    else if i % 2 != t % 2 && 0 < i then Max(s[i - 1], s[i])
    else s[i]
  }

  /** One phase of the sort. */
  function Phase(s: seq<int>, t: nat): (r: seq<int>)
    ensures |r| == |s|
  {
    seq(|s|, i requires 0 <= i < |s| => PhaseAt(s, t, i))
  }

  /** Every pair a phase compares ends up in order. */
  lemma PhaseOrdersPairs(s: seq<int>, t: nat, q: nat)
    requires q + 1 < |s| && q % 2 == t % 2
    ensures Phase(s, t)[q] <= Phase(s, t)[q + 1]
  {
    assert Phase(s, t)[q] == Min(s[q], s[q + 1]);
    assert (q + 1) % 2 != t % 2;
  }

  /** Running phase k with the kernel of its parity (`p`) on the result
      `before` of phases 0..k-1 leaves `after`, the result of phases 0..k. */
  lemma PhasesNext(s: seq<int>, k: nat, before: seq<int>, p: nat, after: seq<int>)
    requires p == k % 2
    requires before == Phases(s, k)
    requires after == Phase(before, p)
    ensures after == Phases(s, k + 1)
  {
    PhaseParity(before, k);
  }

  /** A phase depends on its number only through its parity. */
  lemma PhaseParity(s: seq<int>, t: nat)
    ensures Phase(s, t) == Phase(s, t % 2)
  {
    forall i | 0 <= i < |s| ensures Phase(s, t)[i] == Phase(s, t % 2)[i] {
      assert Phase(s, t)[i] == PhaseAt(s, t, i);
      assert Phase(s, t % 2)[i] == PhaseAt(s, t % 2, i);
    }
  }

  /** Phases 0, 1, ..., k - 1 applied in order. */
  function Phases(s: seq<int>, k: nat): (r: seq<int>)
    ensures |r| == |s|
  {
    if k == 0 then s else Phase(Phases(s, k - 1), k - 1)
  }

  /** What `odd_even_sort_serial` computes: n phases over n cells. */
  function SerialSort(s: seq<int>): seq<int> {
    Phases(s, |s|)
  }

  /** The compare-and-swap of one pair: `if (arr[q] > arr[q+1]) swap(...)`.
      The pair ends up as (min, max), no other cell changes, and the values
      are only permuted. */
  function CompareSwap(s: seq<int>, q: nat): (r: seq<int>)
    requires q + 1 < |s|
    ensures r == s[q := Min(s[q], s[q + 1])][q + 1 := Max(s[q], s[q + 1])]
  {
    if s[q] > s[q + 1] then s[q := s[q + 1]][q + 1 := s[q]] else s
  }

  /** The left indices of the pairs phase `t` compares over `n` cells. */
  predicate PairOf(n: nat, t: nat, q: nat) {
    q + 1 < n && q % 2 == t % 2
  }

  /** Every listed left index starts a pair of phase `t` inside `n` cells. */
  predicate PairsOfPhase(n: nat, t: nat, qs: seq<nat>) {
    forall k :: 0 <= k < |qs| ==> qs[k] + 1 < n && qs[k] % 2 == t % 2
  }

  /** Compare-and-swap the pairs starting at `qs`, one after another, in the
      order listed. */
  function ApplyPairs(s: seq<int>, qs: seq<nat>): (r: seq<int>)
    requires forall k :: 0 <= k < |qs| ==> qs[k] + 1 < |s|
    ensures |r| == |s|
    ensures multiset(r) == multiset(s)
    decreases |qs|
  {
    if qs == [] then s
    else
      CompareSwapPermutes(s, qs[0]);
      ApplyPairs(CompareSwap(s, qs[0]), qs[1..])
  }

  lemma CompareSwapPermutes(s: seq<int>, q: nat)
    requires q + 1 < |s|
    ensures multiset(CompareSwap(s, q)) == multiset(s)
  {
    if s[q] > s[q + 1] {
      var r := s[q := s[q + 1]][q + 1 := s[q]];
      assert r == s[..q] + [s[q + 1], s[q]] + s[q + 2..];
      assert s == s[..q] + [s[q], s[q + 1]] + s[q + 2..];
    }
  }

  predicate Distinct(qs: seq<nat>) {
    forall j, k :: 0 <= j < k < |qs| ==> qs[j] != qs[k]
  }

  /** Two pairs of the same phase share no cell, so their compare-and-swaps
      commute. */
  lemma CompareSwapsCommute(s: seq<int>, q1: nat, q2: nat)
    requires q1 + 1 < |s| && q2 + 1 < |s|
    requires q1 != q2 && q1 % 2 == q2 % 2
    ensures CompareSwap(CompareSwap(s, q1), q2) == CompareSwap(CompareSwap(s, q2), q1)
  {
    var s1, s2 := CompareSwap(s, q1), CompareSwap(s, q2);
    var a, b := CompareSwap(s1, q2), CompareSwap(s2, q1);
    assert |a| == |s| == |b|;
    forall i | 0 <= i < |s| ensures a[i] == b[i] {
      if i == q1 || i == q1 + 1 {
        assert a[i] == s1[i] && b[i] == CompareSwap(s, q1)[i];
      } else if i == q2 || i == q2 + 1 {
        assert b[i] == s2[i] && a[i] == CompareSwap(s, q2)[i];
      } else {
        assert a[i] == s1[i] == s[i] == s2[i] == b[i];
      }
    }
  }

  /** Cell `i` once the listed pairs have been compare-and-swapped: the value
      its own pair gives it when that pair is listed, else its old value. */
  function PairedValue(s: seq<int>, t: nat, qs: seq<nat>, i: nat): int
    requires i < |s|
  {
    if i % 2 == t % 2 && i + 1 < |s| && i in qs then Min(s[i], s[i + 1])
    else if i % 2 != t % 2 && 0 < i && i - 1 in qs then Max(s[i - 1], s[i])
    else s[i]
  }

  /** Compare-and-swaps of distinct same-parity pairs, in any order, act on
      each cell as if that cell's own pair were the only one. */
  lemma {:induction false} ApplyPairsAt(s: seq<int>, t: nat, qs: seq<nat>)
    requires PairsOfPhase(|s|, t, qs)
    requires Distinct(qs)
    ensures forall i :: 0 <= i < |s| ==> ApplyPairs(s, qs)[i] == PairedValue(s, t, qs, i)
    decreases |qs|
  {
    if qs != [] {
      var q, rest := qs[0], qs[1..];
      assert qs == [q] + rest;
      var s' := CompareSwap(s, q);
      assert Distinct(rest) by {
        forall j, k | 0 <= j < k < |rest| ensures rest[j] != rest[k] {
          assert rest[j] == qs[j + 1] && rest[k] == qs[k + 1];
        }
      }
      assert q !in rest by {
        forall k | 0 <= k < |rest| ensures rest[k] != q {
          assert rest[k] == qs[k + 1];
        }
      }
      assert PairsOfPhase(|s|, t, rest) by {
        forall k | 0 <= k < |rest| ensures rest[k] + 1 < |s| && rest[k] % 2 == t % 2 {
          assert rest[k] == qs[k + 1];
        }
      }
      ApplyPairsAt(s', t, rest);
      forall i | 0 <= i < |s| ensures ApplyPairs(s, qs)[i] == PairedValue(s, t, qs, i) {
        PairedValueStep(s, t, q, rest, i);
      }
    }
  }

  /** One compare-and-swap followed by the rest of the list, seen from cell i. */
  lemma PairedValueStep(s: seq<int>, t: nat, q: nat, rest: seq<nat>, i: nat)
    requires q + 1 < |s| && q % 2 == t % 2
    requires PairsOfPhase(|s|, t, rest) && q !in rest
    requires i < |s|
    ensures PairedValue(CompareSwap(s, q), t, rest, i) == PairedValue(s, t, [q] + rest, i)
  {
    var s' := CompareSwap(s, q);
    assert forall x :: x in [q] + rest <==> x == q || x in rest;
    if i == q || i == q + 1 {
      assert i !in rest && (i > 0 ==> i - 1 !in rest) by {
        forall k | 0 <= k < |rest| ensures rest[k] != i && rest[k] + 1 != i {
        }
      }
    } else if i % 2 == t % 2 && i + 1 < |s| && i in rest {
      assert i + 1 != q;
    } else if i % 2 != t % 2 && 0 < i && i - 1 in rest {
      assert i - 1 != q;
    }
  }

  /** The order of the iterations inside one phase does not matter: applying
      the phase's compare-and-swaps in ANY duplicate-free order that lists
      them all yields the same array.  This is why the shared-memory variant
      may hand the iterations of a phase to threads under any schedule. */
  lemma ApplyPairsIsPhase(s: seq<int>, t: nat, qs: seq<nat>)
    requires PairsOfPhase(|s|, t, qs)
    requires forall q: nat :: PairOf(|s|, t, q) ==> q in qs
    requires Distinct(qs)
    ensures ApplyPairs(s, qs) == Phase(s, t)
  {
    ApplyPairsAt(s, t, qs);
    var r := ApplyPairs(s, qs);
    forall i | 0 <= i < |s| ensures r[i] == Phase(s, t)[i] {
      PairedValueIsPhaseAt(s, t, qs, i);
    }
  }

  lemma PairedValueIsPhaseAt(s: seq<int>, t: nat, qs: seq<nat>, i: nat)
    requires forall q: nat :: PairOf(|s|, t, q) ==> q in qs
    requires i < |s|
    ensures PairedValue(s, t, qs, i) == PhaseAt(s, t, i)
  {
    if i % 2 != t % 2 && 0 < i {
      assert PairOf(|s|, t, i - 1);
    } else if i % 2 == t % 2 && i + 1 < |s| {
      assert PairOf(|s|, t, i);
    }
  }

  /** The ascending list of a phase's left indices, the order of the
      source's inner `for` loop. */
  function PhasePairs(n: nat, t: nat): (qs: seq<nat>)
    ensures PairsOfPhase(n, t, qs)
    ensures forall q: nat :: PairOf(n, t, q) ==> q in qs
    ensures Distinct(qs)
  {
    PairsFrom(n, t % 2)
  }

  function PairsFrom(n: nat, q: nat): (qs: seq<nat>)
    ensures forall k :: 0 <= k < |qs| ==> q <= qs[k] && qs[k] + 1 < n && qs[k] % 2 == q % 2
    ensures forall p: nat :: q <= p && p + 1 < n && p % 2 == q % 2 ==> p in qs
    ensures forall j, k :: 0 <= j < k < |qs| ==> qs[j] < qs[k]
    decreases n - q
  {
    if q + 1 < n then [q] + PairsFrom(n, q + 2) else []
  }

  /** A phase permutes its input. */
  lemma PhasePermutes(s: seq<int>, t: nat)
    ensures multiset(Phase(s, t)) == multiset(s)
  {
    ApplyPairsIsPhase(s, t, PhasePairs(|s|, t));
  }

  /** Any number of phases permutes the input. */
  lemma PhasesPermute(s: seq<int>, k: nat)
    ensures multiset(Phases(s, k)) == multiset(s)
  {
    var j := 0;
    while j < k
      invariant j <= k
      invariant multiset(Phases(s, j)) == multiset(s)
    {
      NextPhasePermutes(s, j);
      j := j + 1;
    }
  }

  /** Phase k permutes what the first k phases left. */
  lemma NextPhasePermutes(s: seq<int>, k: nat)
    ensures multiset(Phases(s, k + 1)) == multiset(Phases(s, k))
  {
    PhasePermutes(Phases(s, k), k);
  }

  /** A phase leaves a sorted array as it is: the comparison is strict, and
      every pair it looks at is already in order. */
  lemma PhaseFixesSorted(s: seq<int>, t: nat)
    requires Sorted(s)
    ensures Phase(s, t) == s
  {
    forall i | 0 <= i < |s| ensures Phase(s, t)[i] == s[i] {
      if i % 2 != t % 2 && 0 < i { assert s[i - 1] <= s[i]; }
    }
  }

  /** Sorting an already sorted array changes nothing, for any number of
      phases. */
  lemma {:induction false} PhasesFixSorted(s: seq<int>, k: nat)
    requires Sorted(s)
    ensures Phases(s, k) == s
  {
    if k > 0 {
      PhasesFixSorted(s, k - 1);
      PhaseFixesSorted(s, k - 1);
    }
  }
}

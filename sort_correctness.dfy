/** Why n phases sort n cells.

    First for arrays of zeros and ones: counting the ones from the right, the
    j-th one is, after t phases, either home (every cell from it to the end is
    a one) or no further left than t - j, and once j <= t it sits where the
    next phase compares it with its right neighbour, so it moves one step per
    phase from then on.  After n phases every one is home: the array is
    sorted.

    Then for any array, by the 0-1 principle: cutting an array at a value v
    (1 for cells above v, 0 for the rest) commutes with every phase, and an
    unsorted result would give an unsorted 0-1 result at the cut v = the
    smaller value of an offending pair. */
module SortCorrectness {
  import opened OddEvenSpec

  predicate ZeroOne(s: seq<int>) {
    forall i :: 0 <= i < |s| ==> s[i] == 0 || s[i] == 1
  }

  /** The number of ones in s[m..]. */
  function Ones(s: seq<int>, m: nat): (c: nat)
    requires m <= |s|
    ensures c <= |s| - m
    decreases |s| - m
  {
    if m == |s| then 0 else (if s[m] == 1 then 1 else 0) + Ones(s, m + 1)
  }

  /** The invariant after t phases: the one at p, the Ones(s, p)-th from the
      right, is home, or it is no further left than t - Ones(s, p) and, when
      Ones(s, p) <= t, it has the parity of the next phase. */
  predicate OnTrack(s: seq<int>, t: nat) {
    forall p :: 0 <= p < |s| && s[p] == 1 ==>
      p + Ones(s, p) == |s| || (p + Ones(s, p) >= t && (Ones(s, p) <= t ==> p % 2 == t % 2))
  }

  lemma PhaseKeepsZeroOne(s: seq<int>, t: nat)
    requires ZeroOne(s)
    ensures ZeroOne(Phase(s, t))
  {
    var r := Phase(s, t);
    forall i | 0 <= i < |s| ensures r[i] == 0 || r[i] == 1 {
      assert r[i] == PhaseAt(s, t, i);
    }
  }

  /** A phase moves no value across a cell boundary that starts a pair, so it
      keeps the number of ones in every suffix starting at such a cell. */
  lemma {:induction false} OnesAligned(s: seq<int>, t: nat, m: nat)
    requires m <= |s| && m % 2 == t % 2
    ensures Ones(Phase(s, t), m) == Ones(s, m)
    decreases |s| - m
  {
    var r := Phase(s, t);
    if m + 1 == |s| {
      assert r[m] == s[m];
      assert Ones(r, m + 1) == 0 == Ones(s, m + 1);
    } else if m + 1 < |s| {
      OnesAligned(s, t, m + 2);
      assert r[m] == Min(s[m], s[m + 1]);
      assert r[m + 1] == Max(s[m], s[m + 1]);
      assert Ones(r, m) == (if r[m] == 1 then 1 else 0) + (if r[m + 1] == 1 then 1 else 0) + Ones(r, m + 2);
      assert Ones(s, m) == (if s[m] == 1 then 1 else 0) + (if s[m + 1] == 1 then 1 else 0) + Ones(s, m + 2);
    }
  }

  /** One phase keeps the invariant, the phase counter moving from t to t + 1. */
  lemma PhaseKeepsOnTrack(s: seq<int>, t: nat)
    requires ZeroOne(s) && OnTrack(s, t)
    ensures OnTrack(Phase(s, t), t + 1)
  {
    var r := Phase(s, t);
    forall p | 0 <= p < |r| && r[p] == 1
      ensures p + Ones(r, p) == |r| || (p + Ones(r, p) >= t + 1 && (Ones(r, p) <= t + 1 ==> p % 2 == (t + 1) % 2))
    {
      OneStaysOnTrack(s, t, p);
    }
  }

  lemma OneStaysOnTrack(s: seq<int>, t: nat, p: nat)
    requires ZeroOne(s) && OnTrack(s, t)
    requires p < |s| && Phase(s, t)[p] == 1
    ensures var r := Phase(s, t);
      p + Ones(r, p) == |r| || (p + Ones(r, p) >= t + 1 && (Ones(r, p) <= t + 1 ==> p % 2 == (t + 1) % 2))
  {
    var r, n := Phase(s, t), |s|;
    assert r[p] == PhaseAt(s, t, p);
    if p % 2 != t % 2 {
      if 0 < p {
        RightCellOnTrack(s, t, p);
      } else {
        // the odd phase leaves cell 0 alone
        OnesAligned(s, t, 1);
        assert r[0] == s[0];
        assert Ones(r, 0) == Ones(s, 0);
      }
    } else if p + 1 == n {
      assert Ones(r, p) == 1;
    } else {
      // p is the left cell of the pair (p, p + 1): both cells held ones.
      assert s[p] == 1 && s[p + 1] == 1;
      OnesAligned(s, t, p);
      assert Ones(s, p) == 1 + Ones(s, p + 1);
      assert (p + 1) + Ones(s, p + 1) == n || Ones(s, p + 1) > t;
    }
  }

  /** A one at the right cell p of a compared pair (p - 1, p) came from p or
      from p - 1, and the ones to its right were not moved. */
  lemma RightCellOnTrack(s: seq<int>, t: nat, p: nat)
    requires ZeroOne(s) && OnTrack(s, t)
    requires 0 < p < |s| && p % 2 != t % 2 && Phase(s, t)[p] == 1
    ensures var r := Phase(s, t);
      p + Ones(r, p) == |r| || (p + Ones(r, p) >= t + 1 && (Ones(r, p) <= t + 1 ==> p % 2 == (t + 1) % 2))
  {
    var r, n := Phase(s, t), |s|;
    assert r[p] == Max(s[p - 1], s[p]);
    OnesAligned(s, t, p + 1);
    assert Ones(r, p) == 1 + Ones(s, p + 1);
    if s[p] == 1 {
      assert Ones(s, p) == Ones(r, p);
    } else {
      assert s[p - 1] == 1;
      assert Ones(s, p - 1) == Ones(r, p);
      assert (p - 1) + Ones(s, p - 1) != n;
    }
  }

  /** The invariant holds after every number of phases. */
  lemma PhasesOnTrack(s: seq<int>, k: nat)
    requires ZeroOne(s)
    ensures ZeroOne(Phases(s, k)) && OnTrack(Phases(s, k), k)
  {
    var j := 0;
    while j < k
      invariant j <= k
      invariant ZeroOne(Phases(s, j)) && OnTrack(Phases(s, j), j)
    {
      NextPhaseOnTrack(s, j);
      j := j + 1;
    }
  }

  /** Phase j keeps the first j phases' result 0-1 and on track. */
  lemma NextPhaseOnTrack(s: seq<int>, j: nat)
    requires ZeroOne(Phases(s, j)) && OnTrack(Phases(s, j), j)
    ensures ZeroOne(Phases(s, j + 1)) && OnTrack(Phases(s, j + 1), j + 1)
  {
    PhaseKeepsZeroOne(Phases(s, j), j);
    PhaseKeepsOnTrack(Phases(s, j), j);
  }

  /** After |s| phases every one is home, so the array is sorted. */
  lemma OnTrackAtEndIsSorted(s: seq<int>)
    requires ZeroOne(s) && OnTrack(s, |s|)
    ensures Sorted(s)
  {
    var n := |s|;
    forall i | 0 <= i < n - 1 ensures s[i] <= s[i + 1] {
      if s[i] == 1 {
        assert i + Ones(s, i) == n;
        assert Ones(s, i) == 1 + Ones(s, i + 1);
        assert Ones(s, i + 1) == (if s[i + 1] == 1 then 1 else 0) + Ones(s, i + 2);
      }
    }
  }

  /** Odd-even transposition sort sorts every 0-1 array in n phases. */
  lemma ZeroOneSorted(s: seq<int>)
    requires ZeroOne(s)
    ensures Sorted(SerialSort(s))
  {
    PhasesOnTrack(s, |s|);
    OnTrackAtEndIsSorted(Phases(s, |s|));
  }

  /** The 0-1 image of `s` cut at v: 1 where the value exceeds v. */
  function Threshold(s: seq<int>, v: int): (z: seq<int>)
    ensures |z| == |s| && ZeroOne(z)
    ensures forall i :: 0 <= i < |s| ==> (z[i] == 1 <==> s[i] > v)
  {
    seq(|s|, i requires 0 <= i < |s| => if s[i] > v then 1 else 0)
  }

  /** A phase commutes with cutting at v, since min and max commute with the
      monotone cut. */
  lemma ThresholdPhase(s: seq<int>, v: int, t: nat)
    ensures Phase(Threshold(s, v), t) == Threshold(Phase(s, t), v)
  {
    var a, b := Phase(Threshold(s, v), t), Threshold(Phase(s, t), v);
    forall i | 0 <= i < |s| ensures a[i] == b[i] {
      assert a[i] == PhaseAt(Threshold(s, v), t, i);
      assert Phase(s, t)[i] == PhaseAt(s, t, i);
    }
  }

  lemma {:induction false} ThresholdPhases(s: seq<int>, v: int, k: nat)
    ensures Phases(Threshold(s, v), k) == Threshold(Phases(s, k), v)
  {
    if k > 0 {
      ThresholdPhases(s, v, k - 1);
      ThresholdPhase(Phases(s, k - 1), v, k - 1);
    }
  }

  /** The main theorem: after n phases the n cells are non-decreasing. */
  lemma SerialSortSorts(s: seq<int>)
    ensures Sorted(SerialSort(s))
  {
    var r := SerialSort(s);
    forall i | 0 <= i < |r| - 1 ensures r[i] <= r[i + 1] {
      // cut at the right value of the pair: the cut result is sorted, so the
      // left value cannot exceed it
      var v := r[i + 1];
      ThresholdPhases(s, v, |s|);
      ZeroOneSorted(Threshold(s, v));
      var z := Threshold(r, v);
      assert z == SerialSort(Threshold(s, v));
      assert z[i] <= z[i + 1];
    }
  }

  /** The sort returns a sorted permutation of its input. */
  lemma SerialSortCorrect(s: seq<int>)
    ensures Sorted(SerialSort(s))
    ensures multiset(SerialSort(s)) == multiset(s)
  {
    SerialSortSorts(s);
    PhasesPermute(s, |s|);
  }
}

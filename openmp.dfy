/** `odd_even_sort_openmp_static` of the shared-memory program, run
    sequentially.  Inside one phase the `omp for` iterations compare disjoint
    pairs of cells, so a parallel run of a phase has the effect of running
    its iterations one after another in some order.  The model takes that
    order as a parameter (`schedule(t)` lists the left cells of the pairs of
    phase t in the order they ran) and proves that every order gives the
    serial result. */
module SharedMemorySort {
  import opened OddEvenSpec
  import opened SortCorrectness
  import opened ArrayUtils
  import opened SerialKernels

  /** `order` runs each pair of phase t over n cells exactly once. */
  ghost predicate IsPhaseOrder(n: int, t: nat, order: seq<nat>) {
    0 <= n && PairsOfPhase(n, t, order) && Distinct(order)
    && forall q: nat :: PairOf(n, t, q) ==> q in order
  }

  /** `schedule` gives a valid order for each of the n phases. */
  ghost predicate IsSchedule(n: int, schedule: nat -> seq<nat>) {
    forall t: nat :: t < n ==> IsPhaseOrder(n, t, schedule(t))
  }

  /** The body of one `omp for` iteration:
      `if (arr[q] > arr[q + 1]) swap(&arr[q], &arr[q + 1])`. */
  method CompareSwapCells(a: array<int>, q: nat)
    requires q + 1 < a.Length
    modifies a
    ensures a[..] == CompareSwap(old(a[..]), q)
  {
    if a[q] > a[q + 1] {
      Swap(a, q, q + 1);
    }
  }

  /** One `omp for` loop of phase t over the n = a.Length cells, its
      iterations run in the order `order`: whatever the order, the result is
      the phase. */
  method ParallelPhase(a: array<int>, t: nat, order: seq<nat>)
    requires IsPhaseOrder(a.Length, t, order)
    modifies a
    ensures a[..] == Phase(old(a[..]), t)
  {
    ghost var s := a[..];
    var k := 0;
    while k < |order|
      invariant 0 <= k <= |order|
      invariant |a[..]| == |s|
      invariant ApplyPairs(a[..], order[k..]) == ApplyPairs(s, order)
    {
      assert order[k..][1..] == order[k + 1..];
      CompareSwapCells(a, order[k]);
      k := k + 1;
    }
    assert order[k..] == [];
    ApplyPairsIsPhase(s, t, order);
  }

  /** `odd_even_sort_openmp_static(arr, n, num_threads)`: n phases, each run
      by the thread team in the order `schedule(phase)`.  The result is the
      serial result, whatever the number of threads and the order. */
  method OddEvenSortOpenMPStatic(a: array<int>, numThreads: int, schedule: nat -> seq<nat>)
    requires IsSchedule(a.Length, schedule)
    modifies a
    ensures a[..] == SerialSort(old(a[..]))
  {
    ghost var s := a[..];
    var n := a.Length;
    var phase := 0;
    while phase < n
      invariant 0 <= phase <= n
      invariant a[..] == Phases(s, phase)
    {
      ghost var before := a[..];
      assert IsPhaseOrder(n, phase, schedule(phase));
      ParallelPhase(a, phase, schedule(phase));
      assert a[..] == Phases(s, phase + 1) by {
        PhaseParity(before, phase);
        PhasesNext(s, phase, before, phase % 2, a[..]);
      }
      phase := phase + 1;
    }
  }

  /** `main` of the shared-memory program: status 1 unless there are exactly
      two arguments; otherwise the random array is sorted and the final check
      always reports it sorted. */
  method OpenMPMain(argc: int, n: int, numThreads: int, rands: seq<int>, schedule: nat -> seq<nat>)
    returns (status: int, reportedSorted: bool)
    requires n <= |rands|
    requires IsSchedule(n, schedule)
    ensures status == (if argc != 3 then 1 else 0)
    ensures reportedSorted <==> argc == 3
  {
    if argc != 3 {
      return 1, false;
    }
    var a := new int[if n < 0 then 0 else n];
    GenerateRandomArray(a, n, 1000, rands);
    ghost var generated := a[..];
    OddEvenSortOpenMPStatic(a, numThreads, schedule);
    SerialSortCorrect(generated);
    PrefixAll(a[..]);
    var sorted := IsSorted(a, n);
    return 0, sorted == 1;
  }
}

/** The in-place array kernels of the serial program: `swap`, the two kinds
    of phase, `odd_even_sort_serial` and `single_phase_odd_even`.  Each is
    proved to leave exactly what the functions of `OddEvenSpec` describe. */
module SerialKernels {
  import opened OddEvenSpec
  import opened SortCorrectness
  import opened ArrayUtils

  /** `swap(&arr[i], &arr[j])`: the two cells trade values, nothing else changes. */
  method Swap(a: array<int>, i: int, j: int)
    requires 0 <= i < a.Length && 0 <= j < a.Length
    modifies a
    ensures a[..] == old(a[..])[i := old(a[j])][j := old(a[i])]
    ensures multiset(a[..]) == multiset(old(a[..]))
  {
    var temp := a[i];
    a[i] := a[j];
    a[j] := temp;
  }

  /** The even-phase inner loop over the n = a.Length cells: for odd i < n,
      order the pair (i - 1, i). */
  method EvenPhase(a: array<int>)
    modifies a
    ensures a[..] == Phase(old(a[..]), 0)
  {
    ghost var s := a[..];
    var n := a.Length;
    var i := 1;
    while i < n
      invariant i % 2 == 1 && 1 <= i && (i <= n + 1 || i == 1)
      invariant forall k :: 0 <= k < i - 1 && k < n ==> a[k] == PhaseAt(s, 0, k)
      invariant forall k :: i - 1 <= k < n ==> a[k] == s[k]
    {
      if a[i - 1] > a[i] {
        Swap(a, i - 1, i);
      }
      i := i + 2;
    }
  }

  /** The odd-phase inner loop: for odd i < n - 1, order the pair (i, i + 1). */
  method OddPhase(a: array<int>)
    modifies a
    ensures a[..] == Phase(old(a[..]), 1)
  {
    ghost var s := a[..];
    var n := a.Length;
    var i := 1;
    while i < n - 1
      invariant i % 2 == 1 && 1 <= i && (i <= n || i == 1)
      invariant forall k :: 1 <= k < i && k < n ==> a[k] == PhaseAt(s, 1, k)
      invariant forall k :: (k == 0 || i <= k) && k < n ==> a[k] == s[k]
    {
      if a[i] > a[i + 1] {
        Swap(a, i, i + 1);
      }
      i := i + 2;
    }
  }

  /** `single_phase_odd_even(arr, n, phase)` of the distributed program. */
  method SinglePhase(a: array<int>, phase: nat)
    modifies a
    ensures a[..] == Phase(old(a[..]), phase)
  {
    PhaseParity(a[..], phase);
    if phase % 2 == 0 {
      EvenPhase(a);
    } else {
      OddPhase(a);
    }
  }

  /** `odd_even_sort_serial(arr, n)` on the n = a.Length cells: n phases,
      which `SerialSortCorrect` shows to leave them sorted and permuted. */
  method OddEvenSortSerial(a: array<int>)
    modifies a
    ensures a[..] == SerialSort(old(a[..]))
  {
    ghost var s := a[..];
    var n := a.Length;
    var phase := 0;
    while phase < n
      invariant 0 <= phase <= n
      invariant a[..] == Phases(s, phase)
    {
      ghost var before := a[..];
      if phase % 2 == 0 {
        EvenPhase(a);
        PhasesNext(s, phase, before, 0, a[..]);
      } else {
        OddPhase(a);
        PhasesNext(s, phase, before, 1, a[..]);
      }
      phase := phase + 1;
    }
  }

  /** `main` of the serial program with the command line reduced to its
      argument count and the size parsed from it, and `rand()` to the values
      `rands`: a wrong argument count ends with status 1 before anything
      runs; otherwise the random array is sorted and the final check always
      reports it sorted. */
  method SerialMain(argc: int, n: int, rands: seq<int>) returns (status: int, reportedSorted: bool)
    requires n <= |rands|
    ensures status == (if argc != 2 then 1 else 0)
    ensures reportedSorted <==> argc == 2
  {
    if argc != 2 {
      return 1, false;
    }
    var a := new int[if n < 0 then 0 else n];
    GenerateRandomArray(a, n, 1000, rands);
    ghost var generated := a[..];
    OddEvenSortSerial(a);
    SerialSortCorrect(generated);
    PrefixAll(a[..]);
    var sorted := IsSorted(a, n);
    return 0, sorted == 1;
  }
}

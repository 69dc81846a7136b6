/** The serial benchmark program: for each size of a fixed table it
    allocates an array, fills it with random values, sorts it with the
    serial kernel and appends a "size,time" line to a CSV file that it
    truncated and headed first. Its own copies of `swap` and
    `odd_even_sort_serial` are the serial program's, modelled by
    `SerialKernels`. */
module SerialBenchmark {
  import opened OddEvenSpec
  import opened SortCorrectness
  import opened ArrayUtils
  import opened SerialKernels
  import opened Text
  import opened CsvResults

  /** The largest value of a 32-bit C `int`. */
  const IntMax := 0x7FFF_FFFF

  /** The bound `generate_random_array` is given. */
  const MaxVal := 1000

  /** The file the benchmark writes. */
  function CsvPath(): string { "data/serial.csv" }

  /** The table of sizes: every entry is positive and small enough for the
      `int` parameter of the sort and of the generator it is passed to. */
  function Sizes(): (s: seq<int>)
    ensures |s| == 5
    ensures forall k :: 0 <= k < |s| ==> 0 < s[k] <= IntMax
    ensures forall j, k :: 0 <= j < k < |s| ==> s[j] < s[k]
  {
    [1000, 5000, 10000, 50000, 100000]
  }

  /** The line `"%ld,%.6f"` for size n and a time of `time` millionths of a
      second. */
  function Row(n: int, time: int): string
  {
    Join(SerialFields(n, time), ',')
  }

  /** The data lines written for the first i sizes: one per size whose
      allocation succeeded, in table order. */
  function Rows(allocOk: seq<bool>, times: seq<int>, i: nat): seq<string>
    requires i <= |Sizes()| && |allocOk| == |Sizes()| && |times| == |Sizes()|
  {
    if i == 0 then []
    else Rows(allocOk, times, i - 1)
         + (if allocOk[i - 1] then [Row(Sizes()[i - 1], times[i - 1])] else [])
  }

  /** The sizes of the first i entries whose allocation succeeded. */
  function AllocatedSizes(allocOk: seq<bool>, i: nat): seq<int>
    requires i <= |Sizes()| && |allocOk| == |Sizes()|
  {
    Kept(Sizes(), allocOk, i)
  }

  /** The entries among the first i of xs whose flag in ok is set, in order. */
  function Kept(xs: seq<int>, ok: seq<bool>, i: nat): seq<int>
    requires i <= |xs| && |ok| == |xs|
  {
    if i == 0 then [] else Kept(xs, ok, i - 1) + (if ok[i - 1] then [xs[i - 1]] else [])
  }

  /** Keeping entries of an increasing table gives an increasing selection
      of it, and all of it when every flag is set. */
  lemma KeptInOrder(xs: seq<int>, ok: seq<bool>, i: nat)
    requires i <= |xs| && |ok| == |xs|
    requires forall j, k :: 0 <= j < k < |xs| ==> xs[j] < xs[k]
    ensures forall j :: 0 <= j < |Kept(xs, ok, i)| ==> Kept(xs, ok, i)[j] in xs[..i]
    ensures forall j, k :: 0 <= j < k < |Kept(xs, ok, i)| ==> Kept(xs, ok, i)[j] < Kept(xs, ok, i)[k]
    ensures (forall k :: 0 <= k < i ==> ok[k]) ==> Kept(xs, ok, i) == xs[..i]
  {
    KeptFromPrefix(xs, ok, i);
    KeptIncreasing(xs, ok, i);
    KeptAll(xs, ok, i);
  }

  /** Every kept entry comes from the first i of the table. */
  lemma {:induction false} KeptFromPrefix(xs: seq<int>, ok: seq<bool>, i: nat)
    requires i <= |xs| && |ok| == |xs|
    ensures forall j :: 0 <= j < |Kept(xs, ok, i)| ==> Kept(xs, ok, i)[j] in xs[..i]
  {
    if i > 0 {
      KeptFromPrefix(xs, ok, i - 1);
      var prev, cur := Kept(xs, ok, i - 1), Kept(xs, ok, i);
      assert xs[..i] == xs[..i - 1] + [xs[i - 1]];
      forall j | 0 <= j < |cur| ensures cur[j] in xs[..i] {
        if j < |prev| {
          assert cur[j] == prev[j];
        }
      }
    }
  }

  /** Entries kept from below a bound stay below it. */
  lemma {:induction false} KeptBelow(xs: seq<int>, ok: seq<bool>, i: nat, bound: int)
    requires i <= |xs| && |ok| == |xs|
    requires forall p :: 0 <= p < i ==> xs[p] < bound
    ensures forall j :: 0 <= j < |Kept(xs, ok, i)| ==> Kept(xs, ok, i)[j] < bound
  {
    if i > 0 {
      KeptBelow(xs, ok, i - 1, bound);
      var prev, cur := Kept(xs, ok, i - 1), Kept(xs, ok, i);
      forall j | 0 <= j < |cur| ensures cur[j] < bound {
        if j < |prev| {
          assert cur[j] == prev[j];
        }
      }
    }
  }

  /** Entries kept from an increasing table are increasing. */
  lemma {:induction false} KeptIncreasing(xs: seq<int>, ok: seq<bool>, i: nat)
    requires i <= |xs| && |ok| == |xs|
    requires forall j, k :: 0 <= j < k < |xs| ==> xs[j] < xs[k]
    ensures forall j, k :: 0 <= j < k < |Kept(xs, ok, i)| ==> Kept(xs, ok, i)[j] < Kept(xs, ok, i)[k]
  {
    if i > 0 {
      KeptIncreasing(xs, ok, i - 1);
      KeptBelow(xs, ok, i - 1, xs[i - 1]);
      var prev, cur := Kept(xs, ok, i - 1), Kept(xs, ok, i);
      forall j, k | 0 <= j < k < |cur| ensures cur[j] < cur[k] {
        assert cur[j] == prev[j];
        if k < |prev| {
          assert cur[k] == prev[k];
        }
      }
    }
  }

  /** With every flag set, the whole prefix is kept. */
  lemma {:induction false} KeptAll(xs: seq<int>, ok: seq<bool>, i: nat)
    requires i <= |xs| && |ok| == |xs|
    ensures (forall k :: 0 <= k < i ==> ok[k]) ==> Kept(xs, ok, i) == xs[..i]
  {
    if i > 0 && forall k :: 0 <= k < i ==> ok[k] {
      KeptAll(xs, ok, i - 1);
      assert xs[..i] == xs[..i - 1] + [xs[i - 1]];
    }
  }

  /** The text the benchmark has written once the first i sizes are done. */
  function WrittenAfter(allocOk: seq<bool>, times: seq<int>, i: nat): string
    requires i <= |Sizes()| && |allocOk| == |Sizes()| && |times| == |Sizes()|
  {
    Unlines([SerialHeader()] + Rows(allocOk, times, i))
  }

  /** The whole file the benchmark leaves: the header line, then the rows. */
  function BenchmarkCsv(allocOk: seq<bool>, times: seq<int>): string
    requires |allocOk| == |Sizes()| && |times| == |Sizes()|
  {
    WrittenAfter(allocOk, times, |Sizes()|)
  }

  /** A row holds no newline and splits into the size and the time. */
  lemma RowReadBack(n: int, time: int)
    ensures '\n' !in Row(n, time)
    ensures Split(Row(n, time), ',') == SerialFields(n, time)
    ensures ParseInt(Split(Row(n, time), ',')[0]) == n
  {
    RowHasOneLine(n, time);
    RowSplits(n, time);
  }

  /** A row holds no newline. */
  lemma RowHasOneLine(n: int, time: int)
    ensures '\n' !in Row(n, time)
  {
    SerialFieldsMatch(n, time);
    JoinAvoids(SerialFields(n, time), ',', '\n');
  }

  /** A row splits back into its fields, the first one the size. */
  lemma RowSplits(n: int, time: int)
    ensures Split(Row(n, time), ',') == SerialFields(n, time)
    ensures ParseInt(Split(Row(n, time), ',')[0]) == n
  {
    SerialFieldsMatch(n, time);
  }

  /** The i-th data line is the row of the i-th allocated size. */
  lemma RowsReadBack(allocOk: seq<bool>, times: seq<int>, i: nat)
    requires i <= |Sizes()| && |allocOk| == |Sizes()| && |times| == |Sizes()|
    ensures |Rows(allocOk, times, i)| == |AllocatedSizes(allocOk, i)|
    ensures forall j :: 0 <= j < |Rows(allocOk, times, i)| ==>
              '\n' !in Rows(allocOk, times, i)[j]
              && |Split(Rows(allocOk, times, i)[j], ',')| == 2
              && ParseInt(Split(Rows(allocOk, times, i)[j], ',')[0]) == AllocatedSizes(allocOk, i)[j]
  {
    var m := 0;
    while m < i
      invariant m <= i
      invariant |Rows(allocOk, times, m)| == |AllocatedSizes(allocOk, m)|
      invariant forall j :: 0 <= j < |Rows(allocOk, times, m)| ==>
                  '\n' !in Rows(allocOk, times, m)[j]
                  && |Split(Rows(allocOk, times, m)[j], ',')| == 2
                  && ParseInt(Split(Rows(allocOk, times, m)[j], ',')[0]) == AllocatedSizes(allocOk, m)[j]
    {
      RowReadBack(Sizes()[m], times[m]);
      m := m + 1;
    }
  }

  /** The allocated sizes come in the table's increasing order, and are all
      of it when every allocation succeeds. */
  lemma AllocatedInOrder(allocOk: seq<bool>, i: nat)
    requires i <= |Sizes()| && |allocOk| == |Sizes()|
    ensures forall j :: 0 <= j < |AllocatedSizes(allocOk, i)| ==>
              AllocatedSizes(allocOk, i)[j] in Sizes()[..i]
    ensures forall j, k :: 0 <= j < k < |AllocatedSizes(allocOk, i)| ==>
              AllocatedSizes(allocOk, i)[j] < AllocatedSizes(allocOk, i)[k]
    ensures (forall k :: 0 <= k < i ==> allocOk[k]) ==> AllocatedSizes(allocOk, i) == Sizes()[..i]
  {
    KeptInOrder(Sizes(), allocOk, i);
  }

  /** Reading the file back line by line gives the header, one line per
      allocated size carrying that size, and the empty text after the last
      newline. */
  lemma BenchmarkCsvLines(allocOk: seq<bool>, times: seq<int>)
    requires |allocOk| == |Sizes()| && |times| == |Sizes()|
    ensures var ls := Split(BenchmarkCsv(allocOk, times), '\n');
            var sizes := AllocatedSizes(allocOk, |Sizes()|);
            |ls| == |sizes| + 2 && ls[0] == SerialHeader() && ls[|ls| - 1] == ""
            && forall j :: 0 <= j < |sizes| ==> ParseInt(Split(ls[j + 1], ',')[0]) == sizes[j]
  {
    var rows := Rows(allocOk, times, |Sizes()|);
    RowsReadBack(allocOk, times, |Sizes()|);
    NoSeparator(SerialHeader(), '\n');
    var ls := [SerialHeader()] + rows;
    forall k | 0 <= k < |ls| ensures '\n' !in ls[k] {
      if k > 0 { assert ls[k] == rows[k - 1]; }
    }
    SplitUnlines(ls);
  }

  /** The values the benchmark sorts lie in [0, 1000), given that `rand()`
      returns non-negative values, and sorting keeps them there. */
  lemma SortedValuesInRange(rands: seq<int>, n: int)
    requires 0 <= n <= |rands|
    requires forall k :: 0 <= k < |rands| ==> 0 <= rands[k]
    ensures var r := SerialSort(Generated(rands, n, MaxVal));
            Sorted(r) && |r| == n
            && forall k :: 0 <= k < |r| ==> 0 <= r[k] < MaxVal
  {
    var g := Generated(rands, n, MaxVal);
    var r := SerialSort(g);
    SerialSortCorrect(g);
    forall k | 0 <= k < |r| ensures 0 <= r[k] < MaxVal {
      assert r[k] in multiset(g);
    }
  }

  /** Before the loop the file holds the header line alone. */
  lemma FileStart(allocOk: seq<bool>, times: seq<int>)
    requires |allocOk| == |Sizes()| && |times| == |Sizes()|
    ensures WrittenAfter(allocOk, times, 0) == SerialHeader() + "\n"
  {
    assert [SerialHeader()] + Rows(allocOk, times, 0) == [SerialHeader()];
    assert Unlines([SerialHeader()]) == SerialHeader() + "\n" + Unlines([]);
    assert SerialHeader() + "\n" + "" == SerialHeader() + "\n";
  }

  /** The file after the i-th size: the row is added exactly when its
      allocation succeeded. */
  lemma FileStep(allocOk: seq<bool>, times: seq<int>, i: nat)
    requires i < |Sizes()| && |allocOk| == |Sizes()| && |times| == |Sizes()|
    ensures allocOk[i] ==> Unlines([SerialHeader()] + Rows(allocOk, times, i + 1))
                           == Unlines([SerialHeader()] + Rows(allocOk, times, i))
                              + (Row(Sizes()[i], times[i]) + "\n")
    ensures !allocOk[i] ==> Rows(allocOk, times, i + 1) == Rows(allocOk, times, i)
  {
    var lines := [SerialHeader()] + Rows(allocOk, times, i);
    if allocOk[i] {
      var row := Row(Sizes()[i], times[i]);
      UnlinesAppend(lines, [row]);
      assert [SerialHeader()] + Rows(allocOk, times, i + 1) == lines + [row];
    } else {
      assert [SerialHeader()] + Rows(allocOk, times, i + 1) == lines;
    }
  }

  /** One pass of the loop for an array that was allocated: fill it with n
      random values and sort it. The array itself is freed afterwards, so
      only its final contents are returned, as a ghost. */
  method SortRandomArray(n: int, rands: seq<int>) returns (ghost sorted: seq<int>)
    requires 0 < n <= |rands|
    ensures sorted == SerialSort(Generated(rands, n, MaxVal))
  {
    var a := new int[n];
    GenerateRandomArray(a, n, MaxVal, rands);
    assert a[..] == Generated(rands, n, MaxVal);
    OddEvenSortSerial(a);
    sorted := a[..];
  }

  /** One pass of the loop over the sizes: a failed allocation is skipped;
      otherwise the array is filled and sorted and its row appended. */
  method BenchmarkSize(fs: FileSystem, allocOk: seq<bool>, rands: seq<int>, times: seq<int>, i: nat)
    returns (ghost sorted: seq<int>)
    requires i < |Sizes()| && |allocOk| == |Sizes()| && |times| == |Sizes()|
    requires Sizes()[i] <= |rands|
    requires CsvPath() in fs.files && fs.files[CsvPath()] == WrittenAfter(allocOk, times, i)
    modifies fs
    ensures fs.dirs == old(fs.dirs)
    ensures fs.files == old(fs.files)[CsvPath() := WrittenAfter(allocOk, times, i + 1)]
    ensures allocOk[i] ==> sorted == SerialSort(Generated(rands, Sizes()[i], MaxVal))
  {
    var n := Sizes()[i];
    FileStep(allocOk, times, i);
    if !allocOk[i] {
      sorted := [];
      assert fs.files == old(fs.files)[CsvPath() := WrittenAfter(allocOk, times, i + 1)];
    } else {
      sorted := SortRandomArray(n, rands);
      var line := Row(n, times[i]) + "\n";
      fs.files := fs.files[CsvPath() := fs.files[CsvPath()] + line];
    }
  }

  /** `main` of the benchmark. `openOk` is whether `fopen` of the CSV file
      succeeds, `allocOk[i]` whether `malloc` of the i-th array does,
      `rands[i]` the values `rand()` returns while that array is filled and
      `times[i]` the measured time in millionths of a second. A failed open
      ends with status 1 and no file changed; otherwise the file holds
      exactly the header and the rows of the allocated sizes, and every
      allocated array ends up as the serial sort of its random values. */
  method BenchmarkMain(fs: FileSystem, openOk: bool, allocOk: seq<bool>, rands: seq<seq<int>>,
                       times: seq<int>)
    returns (status: int, ghost sorted: seq<seq<int>>)
    requires |allocOk| == |Sizes()| && |rands| == |Sizes()| && |times| == |Sizes()|
    requires forall i :: 0 <= i < |Sizes()| ==> Sizes()[i] <= |rands[i]|
    modifies fs
    ensures status == if openOk then 0 else 1
    ensures fs.dirs == old(fs.dirs)
    ensures fs.files == if openOk then old(fs.files)[CsvPath() := BenchmarkCsv(allocOk, times)]
                        else old(fs.files)
    ensures openOk ==> |sorted| == |Sizes()|
    ensures openOk ==> forall i :: 0 <= i < |Sizes()| && allocOk[i] ==>
              sorted[i] == SerialSort(Generated(rands[i], Sizes()[i], MaxVal))
  {
    sorted := [];
    if !openOk {
      return 1, sorted;
    }
    fs.files := fs.files[CsvPath() := SerialHeader() + "\n"];
    FileStart(allocOk, times);
    var i := 0;
    while i < |Sizes()|
      invariant 0 <= i <= |Sizes()|
      invariant fs.dirs == old(fs.dirs)
      invariant fs.files == old(fs.files)[CsvPath() := WrittenAfter(allocOk, times, i)]
      invariant |sorted| == i
      invariant SortedSoFar(sorted, allocOk, rands)
    {
      ghost var s := BenchmarkSize(fs, allocOk, rands[i], times, i);
      SortedSoFarStep(sorted, s, allocOk, rands);
      sorted := sorted + [s];
      i := i + 1;
    }
    return 0, sorted;
  }

  /** Every allocated array among the first |sorted| ended up as the serial
      sort of its random values. */
  ghost predicate SortedSoFar(sorted: seq<seq<int>>, allocOk: seq<bool>, rands: seq<seq<int>>)
    requires |sorted| <= |Sizes()| && |allocOk| == |Sizes()| && |rands| == |Sizes()|
    requires forall i :: 0 <= i < |Sizes()| ==> Sizes()[i] <= |rands[i]|
  {
    forall k :: 0 <= k < |sorted| && allocOk[k] ==>
      sorted[k] == SerialSort(Generated(rands[k], Sizes()[k], MaxVal))
  }

  /** Appending the next size's outcome keeps SortedSoFar. */
  lemma SortedSoFarStep(sorted: seq<seq<int>>, s: seq<int>, allocOk: seq<bool>, rands: seq<seq<int>>)
    requires |sorted| < |Sizes()| && |allocOk| == |Sizes()| && |rands| == |Sizes()|
    requires forall i :: 0 <= i < |Sizes()| ==> Sizes()[i] <= |rands[i]|
    requires SortedSoFar(sorted, allocOk, rands)
    requires allocOk[|sorted|] ==> s == SerialSort(Generated(rands[|sorted|], Sizes()[|sorted|], MaxVal))
    ensures SortedSoFar(sorted + [s], allocOk, rands)
  {
    var next := sorted + [s];
    forall k | 0 <= k < |next| && allocOk[k]
      ensures next[k] == SerialSort(Generated(rands[k], Sizes()[k], MaxVal))
    {
      if k < |sorted| {
        assert next[k] == sorted[k];
      }
    }
  }
}

/** The helpers of `utils.h`: the sortedness check and the random fill.
    The serial and distributed programs include the header; the
    shared-memory program defines both helpers itself, and the benchmark
    only the random fill, with the same code apart from comments. */
module ArrayUtils {
  import opened OddEvenSpec

  function Abs(x: int): int { if x < 0 then -x else x }

  /** C's `x % m`: the remainder of division truncated toward zero, so it
      takes the sign of x and is smaller than m in magnitude. */
  function CRem(x: int, m: int): (r: int)
    requires m != 0
    ensures 0 <= x ==> 0 <= r < Abs(m)
    ensures x < 0 ==> -Abs(m) < r <= 0
  {
    if x >= 0 then x % m else -((-x) % m)
  }

  /** The values `generate_random_array(arr, n, max_val)` writes into cells
      0..n-1, given the values `rands` that successive `rand()` calls return. */
  function Generated(rands: seq<int>, n: int, maxVal: int): (g: seq<int>)
    requires maxVal != 0 && n <= |rands|
    ensures |g| == if n < 0 then 0 else n
    ensures forall i :: 0 <= i < |g| ==> g[i] == CRem(rands[i], maxVal)
    ensures 0 < maxVal && (forall i :: 0 <= i < |rands| ==> 0 <= rands[i]) ==>
              forall i :: 0 <= i < |g| ==> 0 <= g[i] < maxVal
  {
    if n <= 0 then [] else seq(n, i requires 0 <= i < n => CRem(rands[i], maxVal))
  }

  /** `generate_random_array(arr, n, max_val)`: cell i receives the i-th
      `rand()` value modulo `max_val`; cells from n on are not written. */
  method GenerateRandomArray(a: array<int>, n: int, maxVal: int, rands: seq<int>)
    requires n <= a.Length && n <= |rands|
    requires maxVal != 0
    modifies a
    ensures a[..] == Generated(rands, n, maxVal) + Rest(old(a[..]), n)
  {
    ghost var s := a[..];
    var i := 0;
    while i < n
      invariant 0 <= i && (i <= n || i == 0)
      invariant forall k :: 0 <= k < i ==> a[k] == CRem(rands[k], maxVal)
      invariant forall k :: i <= k < a.Length ==> a[k] == s[k]
    {
      a[i] := CRem(rands[i], maxVal);
      i := i + 1;
    }
    assert a[..] == Generated(rands, n, maxVal) + Rest(s, n);
  }

  /** `is_sorted(arr, n)`: 1 exactly when every adjacent pair among the first
      n cells is in order (so always for n <= 1), 0 otherwise; the scan
      stops at the first pair out of order and writes nothing. */
  method IsSorted(a: array<int>, n: int) returns (r: int)
    requires n <= a.Length
    ensures r == 0 || r == 1
    ensures r == 1 <==> Sorted(Prefix(a[..], n))
  {
    var i := 0;
    while i < n - 1
      invariant 0 <= i && (i <= n - 1 || i == 0)
      invariant forall k :: 0 <= k < i ==> a[k] <= a[k + 1]
    {
      if a[i] > a[i + 1] {
        assert Prefix(a[..], n)[i] > Prefix(a[..], n)[i + 1];
        return 0;
      }
      i := i + 1;
    }
    return 1;
  }
}

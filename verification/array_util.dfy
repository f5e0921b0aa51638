/** `ArrayUtil`: swapping two cells and three binary searches over the inclusive
    index range `[ini, end]` of an `int[]`. The searches only read the array, so
    it is modelled by its contents, a `seq<int>`. Index arithmetic is unbounded:
    the midpoint is the floor of the mean of the two non-negative bounds. That
    is exactly what `binSearchExact`'s `(end + ini) >>> 1` computes even when
    the sum wraps; the `(end + ini) >> 1` of the other two searches agrees
    only while the sum fits an `int`. */
module ArrayUtil {

  /** The range `[ini, end]` of `list` is in ascending order. */
  ghost predicate SortedRange(list: seq<int>, ini: int, end: int)
    requires 0 <= ini && end < |list|
  {
    forall a, b :: ini <= a <= b <= end ==> list[a] <= list[b]
  }

  /** `swap(xs, i, j)`: the contents after exchanging cells `i` and `j`. */
  function Swap(xs: seq<int>, i: int, j: int): (r: seq<int>)
    requires 0 <= i < |xs| && 0 <= j < |xs|
    ensures |r| == |xs|
    ensures r[i] == xs[j] && r[j] == xs[i]
    ensures forall k :: 0 <= k < |xs| && k != i && k != j ==> r[k] == xs[k]
    ensures multiset(r) == multiset(xs)
    ensures i == j ==> r == xs
  {
    var tmp := xs[i];
    xs[i := xs[j]][j := tmp]
  }

  /** Swapping the same two cells twice restores the array. */
  lemma SwapTwice(xs: seq<int>, i: int, j: int)
    requires 0 <= i < |xs| && 0 <= j < |xs|
    ensures Swap(Swap(xs, i, j), i, j) == xs
  {
  }

  /** `binSearchExact`: on a sorted range, an index in `[ini, end]` holding
      `sought`, or -1 exactly when `sought` does not occur there (in particular at
      once when `ini > end`). */
  method BinSearchExact(sought: int, list: seq<int>, ini: int, end: int) returns (r: int)
    requires 0 <= ini && end < |list|
    requires SortedRange(list, ini, end)
    ensures r == -1 || (ini <= r <= end && list[r] == sought)
    ensures r == -1 <==> forall k :: ini <= k <= end ==> list[k] != sought
  {
    var lo, hi := ini, end;
    while lo <= hi
      invariant ini <= lo && hi <= end
      invariant lo <= hi + 1 || (lo == ini && hi == end)
      invariant forall k :: ini <= k < lo ==> list[k] < sought
      invariant forall k :: hi < k <= end ==> list[k] > sought
      decreases hi - lo
    {
      var mid := (lo + hi) / 2;
      if list[mid] == sought {
        return mid;
      }
      if list[mid] > sought {
        hi := mid - 1;
      } else {
        lo := mid + 1;
      }
    }
    return -1;
  }

  /** `binSearchUpperEqual`. While `sought <= list[end]` it returns an index of
      `[ini, end]` holding `sought` when one exists, and otherwise the least index
      whose value exceeds `sought`. Past the last value it returns `end` or
      `end + 1`, with no guarantee about the value there. */
  method BinSearchUpperEqual(sought: int, list: seq<int>, ini: int, end: int) returns (r: int)
    requires 0 <= ini <= end < |list|
    requires SortedRange(list, ini, end)
    ensures sought <= list[end] ==>
      ini <= r <= end && list[r] >= sought && forall k :: ini <= k < r ==> list[k] <= sought
    ensures sought <= list[end] && list[r] != sought ==>
      forall k :: ini <= k < r ==> list[k] < sought
    ensures (exists k :: ini <= k <= end && list[k] == sought) ==> list[r] == sought
    ensures sought > list[end] ==> r == end || r == end + 1
  {
    var lo, hi := ini, end;
    var mid := (lo + hi) / 2;
    while list[mid] != sought && lo < mid && mid < hi
      invariant ini <= lo <= mid <= hi <= end
      invariant mid == (lo + hi) / 2
      invariant forall k :: ini <= k < lo ==> list[k] < sought
      invariant hi == end || list[hi] > sought
      decreases hi - lo
    {
      if list[mid] > sought {
        hi := mid;
      } else {
        lo := mid + 1;
      }
      mid := (lo + hi) / 2;
    }
    if list[mid] < sought {
      mid := mid + 1;
    }
    r := mid;
  }

  /** `binSearchLowerEqual`, safety only: it stops, reads only cells of
      `[ini, end]`, and its result is `ini - 1` or an index of the range whose
      value is not above `sought`. This holds even on an unsorted range. */
  method BinSearchLowerEqual(sought: int, list: seq<int>, ini: int, end: int) returns (r: int)
    requires 0 <= ini <= end < |list|
    ensures ini - 1 <= r <= end
    ensures r >= ini ==> list[r] <= sought
  {
    var lo, hi := ini, end;
    var mid := (lo + hi) / 2;
    while list[mid] != sought && lo < mid && mid < hi
      invariant ini <= lo <= mid <= hi <= end
      invariant mid == (lo + hi) / 2
      invariant lo == ini || list[lo] < sought
      decreases hi - lo
    {
      if list[mid] > sought {
        hi := mid - 1;
      } else {
        lo := mid;
      }
      mid := (lo + hi) / 2;
    }
    if list[mid] > sought {
      mid := mid - 1;
    }
    r := mid;
  }
}

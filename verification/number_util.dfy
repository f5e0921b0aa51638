/** `NumberUtil`: the least and the greatest of three `int`s. */
module NumberUtil {

  /** `min(i, j, k)`: the first comparison picks `i` only when it is strictly below
      both others; ties fall through to `j < k ? j : k`. */
  function Min3(i: int, j: int, k: int): (r: int)
    ensures r <= i && r <= j && r <= k
    ensures r == i || r == j || r == k
  {
    if i < j && i < k then i else if j < k then j else k
  }

  /** `max(i, j, k)`, the mirror image of `Min3`. */
  function Max3(i: int, j: int, k: int): (r: int)
    ensures r >= i && r >= j && r >= k
    ensures r == i || r == j || r == k
  {
    if i > j && i > k then i else if j > k then j else k
  }

  /** Neither result depends on the order of the arguments, and the least is never
      above the greatest. */
  lemma OrderIndependent(i: int, j: int, k: int)
    ensures Min3(i, j, k) == Min3(j, i, k) == Min3(k, j, i) == Min3(i, k, j)
    ensures Max3(i, j, k) == Max3(j, i, k) == Max3(k, j, i) == Max3(i, k, j)
    ensures Min3(i, j, k) <= Max3(i, j, k)
  {
  }
}

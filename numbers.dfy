/** Integer helpers shared by the retry policy and the row limit. */
module Numbers {

  /** `Math.max(1, n)` for an integer `n`. */
  function AtLeastOne(n: int): (r: nat)
    ensures r >= 1 && r >= n
    ensures r == n || r == 1
  {
    if n >= 1 then n else 1
  }
}

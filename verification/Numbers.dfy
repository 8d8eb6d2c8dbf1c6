module Numbers {
  /** Thresholds and tick counts configured as zero act as one. */
  function AtLeastOne(n: nat): (r: nat)
    ensures 1 <= r && n <= r && (r == 1 || r == n)
  {
    if n == 0 then 1 else n
  }
}

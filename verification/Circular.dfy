/** Indices of a circular list of n places. */
module Circular {

  /** The index `k` places after `base`. */
  function At(base: nat, k: nat, n: nat): nat
    requires base < n && k <= n
  {
    if base + k < n then base + k else base + k - n
  }
}

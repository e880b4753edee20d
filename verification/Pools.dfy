/** MEMB: a memory pool of n elements, some of which have been handed out. */
module Pools {
  import opened Bytes

  lemma {:induction false} AtMost(used: set<nat>, n: nat)
    requires forall k :: k in used ==> k < n
    ensures |used| <= n
  {
    if n == 0 {
      assert used == {};
    } else {
      AtMost(used - {n - 1}, n - 1);
      assert used <= (used - {n - 1}) + {n - 1};
    }
  }

  lemma {:induction false} AtLeast(used: set<nat>, n: nat)
    requires forall k :: 0 <= k < n ==> k in used
    ensures |used| >= n
  {
    if n > 0 {
      AtLeast(used - {n - 1}, n - 1);
      assert |used| == |used - {n - 1}| + 1;
    }
  }

  lemma HasRoom(used: set<nat>, n: nat, k: nat)
    requires (forall i :: i in used ==> i < n) && k < n && k !in used
    ensures |used| < n
  {
    AtMost(used + {k}, n);
  }

  /** An element that has not been handed out. */
  lemma FreeElement(used: set<nat>, n: nat) returns (k: nat)
    requires |used| < n
    ensures k < n && k !in used
  {
    if forall i :: 0 <= i < n ==> i in used { AtLeast(used, n); }
    k :| k < n && k !in used;
  }

  /** memb_alloc: an element that is free, or none exactly when all have been handed out. */
  method MembAlloc(used: set<nat>, n: nat) returns (k: Option<nat>)
    requires forall i :: i in used ==> i < n
    ensures k.Some? ==> k.value < n && k.value !in used
    ensures k.Some? <==> |used| < n
  {
    for i := 0 to n
      invariant forall j :: 0 <= j < i ==> j in used
    {
      if i !in used {
        HasRoom(used, n, i);
        return Some(i);
      }
    }
    AtLeast(used, n);
    return None;
  }
}

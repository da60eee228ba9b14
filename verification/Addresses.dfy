/** Explicit memory: maps from the addresses in use to what is stored there. */
module Addresses {

  const NULL: nat := 0

  ghost predicate Distinct(p: seq<nat>) {
    forall i, j :: 0 <= i < j < |p| ==> p[i] != p[j]
  }

  /** An allocation: an address that is not in use. */
  method FreshAddress<V>(memory: map<nat, V>) returns (a: nat)
    ensures a != NULL && a !in memory
  {
    a := 1;
    ghost var left := memory.Keys - {NULL};
    while a in memory
      invariant a >= 1 && forall x :: x in left <==> x in memory && x >= a
      decreases |left|
    {
      left := left - {a};
      a := a + 1;
    }
  }
}

/** Addresses for the two pointer-based lists. A raw pointer or a
    `NonNull` link is an address; a null pointer or a `None` link is
    `None`. The allocator is a counter owned by each list, so a freshly
    boxed node always gets an address no live node has. */
module Heap {
  import opened Wrappers

  type Addr = nat

  type Link = Option<Addr>

  /** No address occurs twice. */
  predicate Distinct(addrs: seq<Addr>)
  {
    forall i, j :: 0 <= i < j < |addrs| ==> addrs[i] != addrs[j]
  }

  /** The first position holding address `a`: dereferencing a pointer. */
  function Find(addrs: seq<Addr>, a: Addr): (r: Option<nat>)
    ensures r.Some? ==> r.value < |addrs| && addrs[r.value] == a
    ensures r.Some? ==> forall i :: 0 <= i < r.value ==> addrs[i] != a
    ensures r.None? <==> a !in addrs
  {
    if |addrs| == 0 then None
    else if addrs[0] == a then Some(0)
    else
      match Find(addrs[1..], a)
      case None => None
      case Some(i) => Some(i + 1)
  }

  /** Among distinct addresses each one is found where it is. */
  lemma FindDistinct(addrs: seq<Addr>, k: nat)
    requires Distinct(addrs) && k < |addrs|
    ensures Find(addrs, addrs[k]) == Some(k)
  {
    assert addrs[k] in addrs;
  }
}

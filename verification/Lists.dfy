/** Lists without duplicates. */
module Lists {

  predicate Distinct<T(==)>(list: seq<T>) {
    forall i, j :: 0 <= i < j < |list| ==> list[i] != list[j]
  }

  /** The first k + 1 elements of a list. */
  function Firsts<T(==)>(list: seq<T>, k: nat): (s: set<T>)
    requires k < |list|
    ensures forall i :: 0 <= i <= k ==> list[i] in s
  {
    set i | 0 <= i <= k :: list[i]
  }
}

/** Sequences and indices shared by the tables. */
module FirstFit {

  /** The least number from `k` on that is not in `used`. */
  function FirstFree(used: set<nat>, k: nat): (r: nat)
    ensures r >= k && r !in used
    ensures forall i :: k <= i < r ==> i in used
    decreases |used|
  {
    if k in used then
      var r := FirstFree(used - {k}, k + 1);
      assert forall i {:trigger i in used} :: k < i < r ==> i in used - {k};
      r
    else k
  }

  /** Deletes the first occurrence of `x`, if there is one (`gnl_list_delete`). */
  function DeleteFirst<T(==)>(s: seq<T>, x: T): (r: seq<T>)
    ensures multiset(r) == multiset(s) - multiset{x}
    ensures x !in s ==> r == s
  {
    if s == [] then []
    else
      assert s == [s[0]] + s[1..];
      if s[0] == x then s[1..] else [s[0]] + DeleteFirst(s[1..], x)
  }

  lemma DeletedIsPart<T>(s: seq<T>, x: T)
    ensures forall y :: y in DeleteFirst(s, x) ==> y in s
  {
    forall y | y in DeleteFirst(s, x)
      ensures y in s
    {
      assert y in multiset(DeleteFirst(s, x));
      assert y in multiset(s);
    }
  }
}

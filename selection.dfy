/** Picking out, in increasing order, the indices in a range that satisfy a test. */
module Selection {

  /** The indices `i` with `lo <= i < n` and `keep(i)`, in increasing order. */
  function Select(lo: nat, n: nat, keep: nat -> bool): (ix: seq<nat>)
    ensures forall k :: 0 <= k < |ix| ==> lo <= ix[k] < n
  {
    if n <= lo then [] else Select(lo, n - 1, keep) + if keep(n - 1) then [n - 1] else []
  }

  /** `Select` lists exactly the kept indices of the range, each once, in increasing order. */
  lemma {:induction false} SelectExact(lo: nat, n: nat, keep: nat -> bool)
    ensures forall k :: 0 <= k < |Select(lo, n, keep)| ==>
      lo <= Select(lo, n, keep)[k] < n && keep(Select(lo, n, keep)[k])
    ensures forall k, l :: 0 <= k < l < |Select(lo, n, keep)| ==> Select(lo, n, keep)[k] < Select(lo, n, keep)[l]
    ensures forall i :: lo <= i < n && keep(i) ==> i in Select(lo, n, keep)
  {
    if n > lo {
      SelectExact(lo, n - 1, keep);
    }
  }
}

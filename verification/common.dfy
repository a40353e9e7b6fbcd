/** Small shared vocabulary: an optional value and a deterministic arg-min scan. */
module Common {

  /** A value that may be missing: the model's stand-in for Python's `None`. */
  datatype Option<+T> = None | Some(value: T)

  /** The id in [lo, hi) that satisfies `ok` and has the least `key`; among equal keys the
      lowest id wins. This is the shape of every "filter, order by, first()" query of the
      app once rows are identified by their integer primary keys. */
  function ArgMin(lo: nat, hi: nat, ok: nat -> bool, key: nat -> int): (r: Option<nat>)
    decreases hi - lo
    ensures r.Some? ==> lo <= r.value < hi && ok(r.value)
    ensures r.Some? ==> forall i :: lo <= i < hi && ok(i) ==> key(r.value) <= key(i)
    ensures r.Some? ==> forall i :: lo <= i < r.value && ok(i) ==> key(r.value) < key(i)
    ensures r.None? <==> forall i :: lo <= i < hi ==> !ok(i)
  {
    if lo >= hi then None
    else
      var rest := ArgMin(lo + 1, hi, ok, key);
      if ok(lo) && (rest.None? || key(lo) <= key(rest.value)) then Some(lo) else rest
  }
}

/**
 The generic list reducer of the client: a pure state transition over a list,
 driven by a closed sum of three actions. Every branch builds a new list; the
 old one is never changed.
 */
module GenericReducer {

  /** The reducer's actions. An index is any integer: the source compares it
      with `===`/`!==` against each position and never range-checks it. */
  datatype Action<T> = Add(data: T) | Remove(idx: int) | Edit(idx: int, data: T)

  /** True when `i` is a position of `s`. */
  predicate InRange<T>(s: seq<T>, i: int)
  {
    0 <= i < |s|
  }

  /** The array `filter` with an index-aware callback: keeps, in order, each
      element `s[i]` for which `keep(s[i], i)` holds. */
  function FilterIndexed<T>(s: seq<T>, keep: (T, int) -> bool): (r: seq<T>)
    ensures |r| <= |s|
    ensures (forall i :: 0 <= i < |s| ==> keep(s[i], i)) ==> r == s
  {
    if s == [] then []
    else
      var n := |s| - 1;
      FilterIndexed(s[..n], keep) + (if keep(s[n], n) then [s[n]] else [])
  }

  /** The array `map` with an index-aware callback: position `i` of the result
      is `f(s[i], i)`, and the length is unchanged. */
  function MapIndexed<T>(s: seq<T>, f: (T, int) -> T): (r: seq<T>)
    ensures |r| == |s|
    ensures forall i :: 0 <= i < |s| ==> r[i] == f(s[i], i)
  {
    if s == [] then []
    else
      var n := |s| - 1;
      MapIndexed(s[..n], f) + [f(s[n], n)]
  }

  /** Filtering out exactly one position `k` splices that position out. */
  lemma {:induction false} FilterDropsOne<T>(s: seq<T>, keep: (T, int) -> bool, k: int)
    requires InRange(s, k)
    requires forall i :: 0 <= i < |s| ==> (keep(s[i], i) <==> i != k)
    ensures FilterIndexed(s, keep) == s[..k] + s[k + 1..]
  {
    var n := |s| - 1;
    if k == n {
      assert forall i :: 0 <= i < |s[..n]| ==> keep(s[..n][i], i);
      assert s[k + 1..] == [];
    } else {
      FilterDropsOne(s[..n], keep, k);
      assert s[..n][..k] == s[..k];
      assert s[..n][k + 1..] + [s[n]] == s[k + 1..];
    }
  }

  /** The reducer. The source's `default` branch is only a compile-time
      exhaustiveness check over the closed action type, so it has no
      counterpart here. */
  function Reduce<T>(state: seq<T>, action: Action<T>): (r: seq<T>)
    // Add: one longer, old list as the prefix, new element last
    ensures action.Add? ==>
      |r| == |state| + 1 && r[..|state|] == state && r[|state|] == action.data
    // Remove at a position: that element is spliced out, survivors keep order
    ensures action.Remove? && InRange(state, action.idx) ==>
      |r| == |state| - 1 && r == state[..action.idx] + state[action.idx + 1..]
    // Remove at any other index (negative or too large): nothing changes, no error
    ensures action.Remove? && !InRange(state, action.idx) ==> r == state
    // Edit: never changes the length; only the edited position differs
    ensures action.Edit? ==> |r| == |state|
    ensures action.Edit? ==> forall j :: 0 <= j < |state| ==>
      r[j] == (if j == action.idx then action.data else state[j])
    // Edit at any other index: nothing changes, nothing is appended
    ensures action.Edit? && !InRange(state, action.idx) ==> r == state
  {
    match action
    case Add(data) => state + [data]
    case Remove(idx) =>
      var keep := (_: T, i: int) => i != idx;
      var kept := FilterIndexed(state, keep);
      if InRange(state, idx) then (FilterDropsOne(state, keep, idx); kept) else kept
    case Edit(idx, data) =>
      MapIndexed(state, (it: T, i: int) => if i == idx then data else it)
  }

  /** Removing the last position after an Add gives back the original list. */
  lemma AddThenRemoveLast<T>(state: seq<T>, x: T)
    ensures Reduce(Reduce(state, Add(x)), Remove(|state|)) == state
  {
  }

  /** The last of two edits at the same index wins. */
  lemma LastEditWins<T>(state: seq<T>, i: int, a: T, b: T)
    ensures Reduce(Reduce(state, Edit(i, a)), Edit(i, b)) == Reduce(state, Edit(i, b))
  {
  }

  /** Applying the same edit twice is the same as applying it once. */
  lemma EditIdempotent<T>(state: seq<T>, i: int, d: T)
    ensures Reduce(Reduce(state, Edit(i, d)), Edit(i, d)) == Reduce(state, Edit(i, d))
  {
  }

  /** Edits at two different indices commute. */
  lemma EditsAtDistinctIndicesCommute<T>(state: seq<T>, i: int, a: T, j: int, b: T)
    requires i != j
    ensures Reduce(Reduce(state, Edit(i, a)), Edit(j, b))
         == Reduce(Reduce(state, Edit(j, b)), Edit(i, a))
  {
  }

  /** Editing a position to the value it already holds changes nothing. */
  lemma EditSameValueIsIdentity<T>(state: seq<T>, i: int)
    requires InRange(state, i)
    ensures Reduce(state, Edit(i, state[i])) == state
  {
  }

  /** Every survivor of a Remove was in the list before, at the same position
      if it came before the removed one and one position later otherwise. */
  lemma RemoveShiftsSurvivors<T>(state: seq<T>, idx: int, k: int)
    requires InRange(state, idx)
    requires 0 <= k < |state| - 1
    ensures Reduce(state, Remove(idx))[k] == (if k < idx then state[k] else state[k + 1])
  {
  }
}

/** The `Array` extension `subscript(safe:)`: an element lookup that yields
    `nil` instead of trapping when the index is out of range. */
module SafeIndex {
  import opened Wrappers

  /** `indices` of an array of `n` elements: the range `0..<n`, in order. */
  function Indices(n: nat): (r: seq<int>)
    ensures |r| == n
    ensures forall k :: 0 <= k < n ==> r[k] == k
  {
    if n == 0 then [] else Indices(n - 1) + [n - 1]
  }

  /** `indices.contains(i)` holds exactly for the in-bounds positions. */
  lemma {:induction false} IndicesContain(n: nat, i: int)
    ensures i in Indices(n) <==> 0 <= i < n
  {
    if n > 0 {
      IndicesContain(n - 1, i);
    }
  }

  /** `a[safe: index]`: the element at `index` when `indices` contains it,
      `nil` otherwise. */
  function SafeGet<T>(a: seq<T>, index: int): (r: Option<T>)
    ensures r.Some? <==> 0 <= index < |a|
    ensures r.Some? ==> r.value == a[index]
  {
    IndicesContain(|a|, index);
    if index in Indices(|a|) then Some(a[index]) else None
  }
}

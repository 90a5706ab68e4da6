/** Python list semantics that the core relies on: slice clamping and sums of counts. */
module PySeq {

  /** The length of `xs[:k]` for a list of length `n`: a negative `k` counts from the end, and the
      bound is clamped to `0..n`. */
  function SliceEnd(n: nat, k: int): (e: nat)
    ensures e <= n
    ensures 0 <= k <= n ==> e == k
    ensures n <= k ==> e == n
    ensures k < 0 ==> e < n || n == 0
    ensures k < 0 && 0 <= n + k ==> e == n + k
    ensures k < 0 && n + k < 0 ==> e == 0
  {
    if k >= 0 then (if k < n then k else n) else if n + k < 0 then 0 else n + k
  }

  /** `xs[:k]`. */
  function Take<T>(xs: seq<T>, k: int): (r: seq<T>)
    ensures |r| == SliceEnd(|xs|, k) && r == xs[..|r|]
  {
    xs[..SliceEnd(|xs|, k)]
  }

  /** The elements of `xs` are pairwise different. */
  predicate Distinct<T(==)>(xs: seq<T>)
  {
    forall i, j :: 0 <= i < j < |xs| ==> xs[i] != xs[j]
  }

  /** A Python `dict` together with its insertion order: `keys` lists every key once, oldest
      first, which is the order `items()` yields. */
  datatype Dict<K(==,!new), V> = Dict(keys: seq<K>, entries: map<K, V>) {

    ghost predicate Valid()
    {
      Distinct(keys) && (forall k :: k in entries <==> k in keys)
    }

    /** `d[k] = v`: a new key goes last; a key already present keeps its place and takes the
        new value. */
    function Put(k: K, v: V): (d: Dict<K, V>)
      requires Valid()
      ensures d.Valid()
      ensures d.entries == entries[k := v]
      ensures k in entries ==> d.keys == keys
      ensures k !in entries ==> d.keys == keys + [k]
    {
      Dict(if k in entries then keys else keys + [k], entries[k := v])
    }
  }

  function EmptyDict<K(==,!new), V>(): (d: Dict<K, V>)
    ensures d.Valid()
  {
    Dict([], map[])
  }
}

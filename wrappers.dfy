/** Option and Result, the two failure-carrying shapes the server's Rust code uses. */
module Wrappers {

  datatype Option<+T> = None | Some(value: T) {
    /** The contained value, or `default` when there is none. */
    function GetOr(default: T): T {
      match this
      case Some(v) => v
      case None => default
    }
  }

  datatype Result<+T, +E> = Ok(value: T) | Err(error: E)

  function Min(a: int, b: int): int {
    if a <= b then a else b
  }

  function Max(a: int, b: int): int {
    if a >= b then a else b
  }

  /** No element occurs twice. */
  predicate NoDup<T(==)>(s: seq<T>) {
    forall i, j :: 0 <= i < j < |s| ==> s[i] != s[j]
  }

  /** The elements among the first `k` of `s`. */
  function Taken<T>(s: seq<T>, k: nat): (r: set<T>)
    requires k <= |s|
    ensures forall j :: 0 <= j < k ==> s[j] in r
  {
    set j | 0 <= j < k :: s[j]
  }

  /** Taking one more element adds it, and it was new when `s` has no duplicates. */
  lemma TakenStep<T>(s: seq<T>, k: nat)
    requires k < |s| && NoDup(s)
    ensures Taken(s, k + 1) == Taken(s, k) + {s[k]} && s[k] !in Taken(s, k)
  {
  }

  /** Removing keys one more at a time. */
  lemma MapMinusStep<K, V>(m: map<K, V>, t: set<K>, x: K)
    ensures (m - t) - {x} == m - (t + {x})
  {
  }
}

/** Facts about sequences shared by the filters and the statistics:
    how often a value occurs, and what it means to be an order-preserving
    subsequence. */
module Sequences {

  /** Number of occurrences of `v` in `s` (pandas `value_counts` for one value). */
  function Count<T(==)>(s: seq<T>, v: T): (n: nat)
    ensures n <= |s|
    ensures n > 0 <==> v in s
  {
    if s == [] then 0
    else (if s[0] == v then 1 else 0) + Count(s[1..], v)
  }

  /** `a` is `b` with some elements removed and the rest kept in order. */
  predicate SubsequenceOf<T(==)>(a: seq<T>, b: seq<T>)
    decreases |b|
  {
    if a == [] then true
    else if b == [] then false
    else (a[0] == b[0] && SubsequenceOf(a[1..], b[1..])) || SubsequenceOf(a, b[1..])
  }
}

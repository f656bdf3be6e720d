/** Sequences that keep the order of others. */
module Sequences {

  /** `a` is what is left of `b` when some elements are taken away. */
  ghost predicate IsSubsequence<T>(a: seq<T>, b: seq<T>) {
    if a == [] then true
    else
      && b != []
      && var m, n := |a| - 1, |b| - 1;
         (a[m] == b[n] && IsSubsequence(a[..m], b[..n])) || IsSubsequence(a, b[..n])
  }
}

/** Definitions that several modules share. */
module Common {
  datatype Option<T> = Some(value: T) | None

  ghost predicate Distinct(s: seq<nat>) {
    forall i, j :: 0 <= i < j < |s| ==> s[i] != s[j]
  }

  ghost function Zeros(n: nat): (c: seq<nat>)
    ensures |c| == n && forall i :: 0 <= i < n ==> c[i] == 0
  {
    seq(n, i => 0)
  }

  /** What follows entry i of a list that ends in `end`. */
  ghost function After(s: seq<nat>, i: int, end: nat): nat
    requires 0 <= i < |s|
  {
    if i + 1 < |s| then s[i + 1] else end
  }
}

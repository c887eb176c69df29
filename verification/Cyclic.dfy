/** Walking round a table of n places. */
module Cyclic {

  /** Steps forward from one place to another, round the end. */
  function Ahead(from: nat, to: nat, n: nat): nat
    requires from < n && to < n
  {
    if from <= to then to - from else to + n - from
  }

  function Following(pos: nat, n: nat): nat {
    if pos + 1 >= n then 0 else pos + 1
  }

  /** pos is k steps after start. */
  predicate At(start: nat, k: nat, pos: nat, n: nat)
    requires start < n
  {
    pos < n && (pos == start + k || pos + n == start + k)
  }

  lemma StepsAhead(start: nat, k: nat, pos: nat, n: nat)
    requires start < n && k < n && At(start, k, pos, n)
    ensures Ahead(start, pos, n) == k
    ensures At(start, k + 1, Following(pos, n), n)
  {
  }

  /** Different places are different distances away. */
  lemma AheadInjective(start: nat, i: nat, j: nat, n: nat)
    requires start < n && i < n && j < n && Ahead(start, i, n) == Ahead(start, j, n)
    ensures i == j
  {
  }
}

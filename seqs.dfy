/** Small facts about sequences that the proofs of the loops use with
    abstract arguments, so that the solver does not have to rediscover them
    among the concrete terms of a loop body. */
module Seqs {

  lemma AppendAssoc<T>(a: seq<T>, b: seq<T>, c: seq<T>, ab: seq<T>)
    requires ab == a + b
    ensures ab + c == a + (b + c)
  {
  }

  lemma AppendPair<T>(s: seq<T>, a: T, b: T, sa: seq<T>, sab: seq<T>)
    requires sa == s + [a] && sab == sa + [b]
    ensures sab == s + [a, b]
  {
  }

  lemma SliceSnoc<T>(s: seq<T>, a: nat, b: nat)
    requires a <= b < |s|
    ensures s[a..b + 1] == s[a..b] + [s[b]]
  {
  }
}

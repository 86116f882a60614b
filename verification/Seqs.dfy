/** Small facts about concatenation, kept apart so that larger proofs need not rediscover them. */
module Seqs {

  lemma Assoc<T>(a: seq<T>, b: seq<T>, c: seq<T>)
    ensures (a + b) + c == a + (b + c)
  {
  }

  lemma Uncons<T>(a: seq<T>, b: seq<T>)
    requires a != []
    ensures a + b != [] && (a + b)[0] == a[0] && (a + b)[1..] == a[1..] + b
    ensures a == [a[0]] + a[1..]
  {
  }

  lemma Empty<T>(a: seq<T>)
    ensures [] + a == a && a + [] == a
  {
  }

  lemma Middle<T>(a: seq<T>, y: T, b: seq<T>)
    ensures a + [y] + b == a + ([y] + b)
    ensures (a + [y] + b)[|a|] == y
    ensures (a + [y] + b)[..|a|] == a && (a + [y] + b)[|a| + 1..] == b
  {
  }

  /** Two nested splits of one sequence, in the four ways a tree rotation regroups them. */
  lemma Regroup<T>(p: seq<T>, x: T, q: seq<T>, y: T, b: seq<T>)
    ensures (p + [x] + q) + [y] + b == p + [x] + (q + [y] + b)
    ensures (p + q) + [y] + b == p + (q + [y] + b)
    ensures b + [y] + (p + [x] + q) == (b + [y] + p) + [x] + q
    ensures b + [y] + (p + q) == (b + [y] + p) + q
  {
  }

  /** A subtree between a and b, opened at its root. */
  lemma Open<T>(a: seq<T>, l: seq<T>, y: T, r: seq<T>, b: seq<T>)
    ensures a + (l + [y] + r) + b == a + l + ([y] + r + b)
    ensures a + (l + [y] + r) + b == (a + l + [y]) + r + b
  {
  }
}

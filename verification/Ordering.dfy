/** Comparison callbacks, as both tree libraries receive them. */
module Ordering {

  datatype Cmp = Less | Eq | More

  type Comparator<!K> = (K, K) -> Cmp

  /** What every comparison callback must satisfy: a total order in which distinct keys may tie. */
  ghost predicate TotalOrder<K(!new)>(cmp: Comparator<K>) {
    && (forall a, b {:trigger cmp(a, b)} :: cmp(a, b) == Less <==> cmp(b, a) == More)
    && (forall a, b, c {:trigger cmp(a, b), cmp(b, c)} ::
          cmp(a, b) != More && cmp(b, c) != More ==> cmp(a, c) != More)
  }
}

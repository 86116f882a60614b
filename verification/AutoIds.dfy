/** The identifiers that insertion tries for a node that comes without one: from above the table
    size down in equal steps, then around below it, until one is not in use. */
module AutoIds {
  import opened Arithmetic
  import opened NodeStore
  import opened DoubleHashing
  import opened HashTable

  /** Identifiers are meant to start here, out of the way of the nodes of the standard. */
  const RESERVED := 50000

  function Increase(size: nat, count: nat): nat
    requires size > 2
  {
    Mod2(count + 1, size)
  }

  function NextId(size: nat, count: nat, id: nat): nat
    requires size > 2
  {
    var next := id + Increase(size, count);
    if next >= size then next - size else next
  }

  /** The identifier of round n. */
  function AutoId(size: nat, count: nat, n: nat): nat
    requires size > 2
  {
    if n == 0 then RESERVED + size + 1 else NextId(size, count, AutoId(size, count, n - 1))
  }

  ghost predicate InUse(live: map<NodeId, Addr>, ns: nat, size: nat, count: nat, n: nat)
    requires size > 2
  {
    forall j: nat :: j < n ==> Numeric(ns, AutoId(size, count, j)) in live
  }

  /** Round n is the first whose identifier is not in use. */
  ghost predicate FirstFree(live: map<NodeId, Addr>, ns: nat, size: nat, count: nat, n: nat)
    requires size > 2
  {
    Numeric(ns, AutoId(size, count, n)) !in live && InUse(live, ns, size, count, n)
  }

  // ---------- the search ends ----------


  /** The identifiers of the first m rounds are all in use; there are no more of them than entries. */
  ghost predicate Tried(live: map<NodeId, Addr>, ns: nat, start: nat, step: nat, size: nat, m: nat)
    requires size > 0
  {
    && start < size && 0 < step < size && m <= |live|
    && forall j: nat :: j < m ==> Numeric(ns, Walk(start, step, size, j)) in live
  }

  lemma TriedNone(live: map<NodeId, Addr>, ns: nat, start: nat, step: nat, size: nat)
    requires start < size && 0 < step < size
    ensures Tried(live, ns, start, step, size, 0) && Walk(start, step, size, 0) == start
  {
    WalkStart(start, step, size);
  }

  lemma {:induction false} DistinctIdsFit(live: map<NodeId, Addr>, ns: nat, values: set<nat>)
    requires forall v :: v in values ==> Numeric(ns, v) in live
    ensures |values| <= |live|
  {
    if values != {} {
      var v :| v in values;
      DropKey(live, Numeric(ns, v));
      DistinctIdsFit(live - {Numeric(ns, v)}, ns, values - {v});
    }
  }

  /** One more identifier in use: the walk has not met it before, so another entry is accounted for. */
  lemma TriedOne(live: map<NodeId, Addr>, ns: nat, start: nat, step: nat, size: nat, m: nat)
    requires Prime(size) && Tried(live, ns, start, step, size, m) && |live| < size
    requires Numeric(ns, Walk(start, step, size, m)) in live
    ensures Tried(live, ns, start, step, size, m + 1)
    ensures var i := Walk(start, step, size, m);
            Walk(start, step, size, m + 1) == if i + step >= size then i + step - size else i + step
  {
    WalkNext(start, step, size, m);
    VisitedCount(start, step, size, m + 1);
    var values := Visited(start, step, size, m + 1);
    forall v | v in values ensures Numeric(ns, v) in live {
      var j: nat :| j < m + 1 && v == Walk(start, step, size, j);
      assert j == m || j < m;
    }
    DistinctIdsFit(live, ns, values);
  }

  /** The state of the search in round n. Once below the table size, it has walked there since
      round below. */
  ghost predicate Searching(live: map<NodeId, Addr>, ns: nat, size: nat, count: nat, n: nat, below: nat)
    requires size > 2
  {
    var id := AutoId(size, count, n);
    && InUse(live, ns, size, count, n)
    && id <= AutoId(size, count, 0) && (n > 0 ==> id < AutoId(size, count, 0))
    && (id < size ==>
          && below <= n
          && Tried(live, ns, AutoId(size, count, below), Increase(size, count), size, n - below)
          && id == Walk(AutoId(size, count, below), Increase(size, count), size, n - below))
  }

  function Remaining(size: nat, count: nat, n: nat, below: nat): int
    requires size > 2
  {
    var id := AutoId(size, count, n);
    if id >= size then size + id else size - (n - below)
  }

  lemma SearchStarts(live: map<NodeId, Addr>, ns: nat, size: nat, count: nat)
    requires size > 2
    ensures Searching(live, ns, size, count, 0, 0)
  {
  }

  /** An identifier in use leads to another round, of which there are not arbitrarily many. */
  lemma SearchGoesOn(live: map<NodeId, Addr>, ns: nat, size: nat, count: nat, n: nat, below: nat) returns (below': nat)
    requires size > 2 && Prime(size) && |live| < size && Searching(live, ns, size, count, n, below)
    requires Numeric(ns, AutoId(size, count, n)) in live
    ensures Searching(live, ns, size, count, n + 1, below')
    ensures 0 <= Remaining(size, count, n + 1, below') < Remaining(size, count, n, below)
  {
    hide Prime, Walk, Tried;
    var id, step := AutoId(size, count, n), Increase(size, count);
    TriedFew(live, ns, AutoId(size, count, below), step, size, n - below, id < size);
    if id >= size {
      below' := n + 1;
      if AutoId(size, count, n + 1) < size {
        TriedNone(live, ns, AutoId(size, count, n + 1), step, size);
      }
    } else {
      below' := below;
      TriedOne(live, ns, AutoId(size, count, below), step, size, n - below);
      TriedFew(live, ns, AutoId(size, count, below), step, size, n + 1 - below, true);
    }
  }

  lemma TriedFew(live: map<NodeId, Addr>, ns: nat, start: nat, step: nat, size: nat, m: int, walked: bool)
    requires size > 0 && (walked ==> m >= 0 && Tried(live, ns, start, step, size, m))
    ensures walked ==> m <= |live|
  {
  }

  // ---------- which side of the reserved range ----------

  /** The chosen identifier is outside of the reserved range exactly when some identifier outside of
      it is free and comes before every free one inside. */
  lemma OutsideReserved(live: map<NodeId, Addr>, ns: nat, size: nat, count: nat, n: nat)
    requires size > 2 && FirstFree(live, ns, size, count, n)
    ensures AutoId(size, count, n) >= RESERVED <==>
            exists k: nat ::
              && AutoId(size, count, k) >= RESERVED && Numeric(ns, AutoId(size, count, k)) !in live
              && forall j: nat :: j < k && AutoId(size, count, j) < RESERVED ==> Numeric(ns, AutoId(size, count, j)) in live
  {
    if k: nat :|
      && AutoId(size, count, k) >= RESERVED && Numeric(ns, AutoId(size, count, k)) !in live
      && forall j: nat :: j < k && AutoId(size, count, j) < RESERVED ==> Numeric(ns, AutoId(size, count, j)) in live
    {
      assert n <= k;
    }
  }

  /** How far the search descends with each round above the table size. */
  function Descent(size: nat, count: nat): nat
    requires size > 2
  {
    size - Increase(size, count)
  }

  /** In a table of at most 50,000 slots, the identifiers outside of the reserved range are those of
      the first rounds: 50,001 plus the table size, less the descent for every round before. */
  lemma {:induction false} Descending(size: nat, count: nat, k: nat)
    requires 2 < size <= RESERVED
    ensures AutoId(size, count, k) >= RESERVED <==> k * Descent(size, count) <= size + 1
    ensures AutoId(size, count, k) >= RESERVED ==> AutoId(size, count, k) == RESERVED + size + 1 - k * Descent(size, count)
  {
    var d := Descent(size, count);
    if k > 0 {
      Descending(size, count, k - 1);
      assert k * d == (k - 1) * d + d;
    }
  }

  /** So there the chosen identifier is outside of the reserved range exactly when one of those few
      is not in use. */
  lemma OutsideReservedSmall(live: map<NodeId, Addr>, ns: nat, size: nat, count: nat, n: nat)
    requires 2 < size <= RESERVED && FirstFree(live, ns, size, count, n)
    ensures AutoId(size, count, n) >= RESERVED <==>
            exists k: nat :: k * Descent(size, count) <= size + 1
                             && Numeric(ns, RESERVED + size + 1 - k * Descent(size, count)) !in live
  {
    hide AutoId;
    if AutoId(size, count, n) >= RESERVED {
      Descending(size, count, n);
      assert n * Descent(size, count) <= size + 1;
    }
    if k: nat :|
      && k * Descent(size, count) <= size + 1
      && Numeric(ns, RESERVED + size + 1 - k * Descent(size, count)) !in live
    {
      Descending(size, count, k);
      assert n <= k;
      Descending(size, count, n);
      MoreDescent(n, k, Descent(size, count));
    }
  }

  lemma MoreDescent(n: nat, k: nat, d: nat)
    requires n <= k
    ensures n * d <= k * d
  {
  }

  /** The identifier of round n in closed form, for every table size: in equal steps down to the table
      size, and around modulo the table size from then on. */
  function ClosedId(size: nat, count: nat, n: nat): int
    requires size > 2
  {
    if Descends(size, count, n) then RESERVED + 1 + size - n * Descent(size, count)
    else Walk(RESERVED + 1, Increase(size, count), size, n)
  }

  /** Round n has not yet come below the table size. */
  predicate Descends(size: nat, count: nat, n: nat)
    requires size > 2
  {
    n * Descent(size, count) <= RESERVED + 1
  }

  lemma {:induction false} AutoIdClosed(size: nat, count: nat, n: nat)
    requires size > 2
    ensures AutoId(size, count, n) == ClosedId(size, count, n)
    ensures Descends(size, count, n) ==> AutoId(size, count, n) >= size
  {
    var d, step := Descent(size, count), Increase(size, count);
    if n > 0 {
      AutoIdClosed(size, count, n - 1);
      assert n * d == (n - 1) * d + d;
      hide Increase;
      if !Descends(size, count, n) {
        if Descends(size, count, n - 1) {
          assert n * d == n * size - n * step;
          var r := RESERVED + 1 + size - n * d;
          assert RESERVED + 1 + n * step == size * (n - 1) + r;
          Unique(RESERVED + 1 + n * step, size, n - 1, r);
        } else {
          WalkNext(RESERVED + 1, step, size, n - 1);
        }
      }
    }
  }

  /** In a larger table, the chosen identifier is outside of the reserved range exactly when one of those
      above the table size is not in use, or, around the table, one outside is not in use while all
      inside that come before it are. */
  lemma OutsideReservedLarge(live: map<NodeId, Addr>, ns: nat, size: nat, count: nat, n: nat)
    requires size > RESERVED && FirstFree(live, ns, size, count, n)
    ensures AutoId(size, count, n) >= RESERVED <==>
            || (exists k: nat :: Descends(size, count, k)
                                 && Numeric(ns, RESERVED + 1 + size - k * Descent(size, count)) !in live)
            || (exists k: nat :: FreeAround(live, ns, size, count, k))
  {
    hide AutoId, Walk, Increase;
    AutoIdClosed(size, count, n);
    if AutoId(size, count, n) >= RESERVED && !Descends(size, count, n) {
      InsideUsed(live, ns, size, count, n);
      assert FreeAround(live, ns, size, count, n);
    }
    if k: nat :| Descends(size, count, k) && Numeric(ns, RESERVED + 1 + size - k * Descent(size, count)) !in live {
      AutoIdClosed(size, count, k);
      assert n <= k;
      MoreDescent(n, k, Descent(size, count));
    }
    if k: nat :| FreeAround(live, ns, size, count, k) {
      AutoIdClosed(size, count, k);
      assert n <= k;
    }
  }

  /** An identifier outside of the reserved range is not in use, while all inside that the walk around the
      table meets before it are. */
  ghost predicate FreeAround(live: map<NodeId, Addr>, ns: nat, size: nat, count: nat, k: nat)
    requires size > 2
  {
    var step := Increase(size, count);
    && !Descends(size, count, k)
    && Walk(RESERVED + 1, step, size, k) >= RESERVED && Numeric(ns, Walk(RESERVED + 1, step, size, k)) !in live
    && forall j: nat :: j < k && !Descends(size, count, j) && Walk(RESERVED + 1, step, size, j) < RESERVED ==>
         Numeric(ns, Walk(RESERVED + 1, step, size, j)) in live
  }

  lemma InsideUsed(live: map<NodeId, Addr>, ns: nat, size: nat, count: nat, n: nat)
    requires size > 2 && InUse(live, ns, size, count, n)
    ensures forall j: nat :: j < n && !Descends(size, count, j) ==>
              Numeric(ns, Walk(RESERVED + 1, Increase(size, count), size, j)) in live
  {
    forall j: nat | j < n && !Descends(size, count, j)
      ensures Numeric(ns, Walk(RESERVED + 1, Increase(size, count), size, j)) in live
    {
      AutoIdClosed(size, count, j);
    }
  }

  /** Two nodes under the identifiers tried first, in the smallest table: the identifier chosen for a
      third is inside the reserved range. */
  lemma ReservedCanBeChosen(live: map<NodeId, Addr>, ns: nat)
    requires forall id :: id in live <==> id == Numeric(ns, 50128) || id == Numeric(ns, 50005)
    ensures AutoId(127, 2, 0) == 50128 && AutoId(127, 2, 1) == 50005 && AutoId(127, 2, 2) == 49882
    ensures FirstFree(live, ns, 127, 2, 2)
  {
    FirstThree();
  }

  lemma FirstThree()
    ensures AutoId(127, 2, 0) == 50128 && AutoId(127, 2, 1) == 50005 && AutoId(127, 2, 2) == 49882
  {
    assert AutoId(127, 2, 1) == NextId(127, 2, 50128);
    assert AutoId(127, 2, 2) == NextId(127, 2, 50005);
  }

  lemma OneFirst(live: map<NodeId, Addr>, ns: nat, size: nat, count: nat, n: nat, m: nat)
    requires size > 2 && FirstFree(live, ns, size, count, n) && FirstFree(live, ns, size, count, m)
    ensures n == m
  {
    assert !(n < m) && !(m < n);
  }
}

/** The counter of holders has 16 bits and no check. What happens when it wraps around, and that this
    is the one way in which a held version can be freed. */
module HolderLimit {
  import opened Options
  import opened NodeStore
  import opened NodeLifecycle
  import opened NodeReplacement

  /** Somebody holds what has been freed. */
  ghost predicate Dangling(y: System) {
    exists a :: a in y.held && a !in y.store.heap
  }

  /** A run in which the number of holders stays below the limit from the start on. */
  ghost predicate BoundedRun(y: System, ops: seq<Op>, y': System)
    decreases |ops|
  {
    if ops == [] then y' == y
    else Consistent(y.store) && Enabled(y, ops[0]) && BoundedRun(Apply(y, ops[0]), ops[1..], y')
  }

  lemma {:induction false} BoundedRunSound(y: System, ops: seq<Op>, y': System)
    requires Inv(y) && BoundedRun(y, ops, y')
    ensures Inv(y') && !Dangling(y')
    decreases |ops|
  {
    hide Apply, Consistent, PhaseAt;
    if ops != [] {
      StepSound(y, ops[0]);
      BoundedRunSound(Apply(y, ops[0]), ops[1..], y');
    }
  }

  /** A get keeps the ledger right, and nothing that is held is freed in any bounded run after it, if
      and only if it does not take the last number the counter can count. */
  lemma GetLimit(y: System, id: NodeId)
    requires Inv(y) && id in y.store.live
    ensures var y', n := Apply(y, Get(id)), y.held[y.store.live[id]];
            && (Inv(y') <==> n + 1 < 65536)
            && ((exists ops, z :: BoundedRun(y', ops, z) && Dangling(z)) <==> n + 1 == 65536)
  {
    var y' := Apply(y, Get(id));
    LessThanLimit(y, y.store.live[id]);
    if y.held[y.store.live[id]] + 1 < 65536 {
      StepSound(y, Get(id));
      hide Apply, Consistent, Inv;
      forall ops, z | BoundedRun(y', ops, z) ensures !Dangling(z) {
        BoundedRunSound(y', ops, z);
      }
    } else {
      Wrapped(y, id);
      hide *;
      RemoveDangles(y', id, y.store.live[id]);
    }
  }

  lemma RemoveDangles(y: System, id: NodeId, a: Addr)
    requires Consistent(y.store) && Enabled(y, Remove(id))
    requires a in Apply(y, Remove(id)).held && a !in Apply(y, Remove(id)).store.heap
    ensures exists ops, z :: BoundedRun(y, ops, z) && Dangling(z)
  {
    hide Apply, Enabled, Consistent;
    var z := Apply(y, Remove(id));
    assert [Remove(id)][1..] == [];
    assert BoundedRun(z, [], z);
    assert BoundedRun(y, [Remove(id)], z) && Dangling(z);
  }

  /** The counter is zero again, and removing the node frees it under all who hold it. */
  lemma Wrapped(y: System, id: NodeId)
    requires Inv(y) && id in y.store.live && y.held[y.store.live[id]] + 1 == 65536
    ensures var a, y' := y.store.live[id], Apply(y, Get(id));
            && a in y'.store.heap && y'.store.heap[a].refCount == 0 && y'.held[a] == 65536 && !Inv(y')
            && Consistent(y'.store) && Enabled(y', Remove(id))
            && a in Apply(y', Remove(id)).held && a !in Apply(y', Remove(id)).store.heap
  {
  }

  // ---------- a run ----------

  /** A run without any bound on the number of holders. */
  ghost predicate AnyRun(y: System, ops: seq<Op>, y': System)
    decreases |ops|
  {
    if ops == [] then y' == y
    else Consistent(y.store) && Callable(y, ops[0]) && AnyRun(Apply(y, ops[0]), ops[1..], y')
  }

  function Gets(n: nat): seq<Op> {
    if n == 0 then [] else [Get(NODE)] + Gets(n - 1)
  }

  /** One node, held n times. */
  function HeldTimes(n: nat): System {
    System(Store(map[NODE := 10], map[10 := Node(None).(refCount := n % 65536)], []), multiset{}[10 := n],
           map[10 := 1], map[])
  }

  lemma OneMoreGet(n: nat)
    ensures Consistent(HeldTimes(n).store) && Callable(HeldTimes(n), Get(NODE))
    ensures Apply(HeldTimes(n), Get(NODE)) == HeldTimes(n + 1)
  {
  }

  lemma {:induction false} GetsRun(k: nat, n: nat, ops: seq<Op>, z: System)
    requires AnyRun(HeldTimes(k + n), ops, z)
    ensures AnyRun(HeldTimes(k), Gets(n) + ops, z)
    decreases n
  {
    hide HeldTimes, Apply, Callable, Consistent;
    if n == 0 {
      assert Gets(0) + ops == ops;
    } else {
      OneMoreGet(k);
      GetsRun(k + 1, n - 1, ops, z);
      assert (Gets(n) + ops)[0] == Get(NODE) && (Gets(n) + ops)[1..] == Gets(n - 1) + ops;
    }
  }

  lemma FreedUnderAll()
    ensures var y := HeldTimes(65536);
            && Consistent(y.store) && Callable(y, Remove(NODE))
            && Apply(y, Remove(NODE)).held[10] == 65536 && 10 !in Apply(y, Remove(NODE)).store.heap
  {
  }

  lemma MadeAndListed()
    ensures Consistent(EMPTY.store) && Callable(EMPTY, New(10, NODE, 0, false))
    ensures var y := Apply(EMPTY, New(10, NODE, 0, false));
            Consistent(y.store) && Callable(y, Insert(10, NODE)) && Apply(y, Insert(10, NODE)) == HeldTimes(0)
  {
    Creates();
    LeadsSound(EMPTY, New(10, NODE, 0, false), Fresh());
    Lists();
    assert HeldTimes(0) == Listed();
  }

  /** A node is made, published, held by 65536 consumers at a time and removed: it is freed while all of
      them hold it. */
  lemma HeldAndFreed() returns (ops: seq<Op>, z: System)
    ensures ops == [New(10, NODE, 0, false)] + ([Insert(10, NODE)] + (Gets(65536) + [Remove(NODE)]))
    ensures AnyRun(EMPTY, ops, z) && z.held[10] == 65536 && 10 !in z.store.heap
  {
    var y, last := HeldTimes(65536), Gets(65536) + [Remove(NODE)];
    FreedUnderAll();
    MadeAndListed();
    hide HeldTimes, Apply, Callable, Consistent, Gets;
    z := Apply(y, Remove(NODE));
    assert AnyRun(z, [Remove(NODE)][1..], z);
    GetsRun(0, 65536, [Remove(NODE)], z);
    ops := [New(10, NODE, 0, false)] + ([Insert(10, NODE)] + last);
    assert ([Insert(10, NODE)] + last)[1..] == last;
    assert ops[1..] == [Insert(10, NODE)] + last;
  }
}

/** The slot table of the hash-map node store as a value: what keeps every live entry findable by
    double hashing, across tombstones, and what each single-slot update does to that. */
module HashTable {
  import opened Options
  import opened NodeStore
  import opened DoubleHashing
  import opened Words

  type Hash = NodeId -> UInt32

  datatype SlotEntry = Null | Tombstone | Ptr(addr: Addr)

  datatype Slot = Slot(entry: SlotEntry, nodeIdHash: nat)

  /** A used slot names a live entry and caches the hash of its id. */
  predicate Backed(slot: Slot, hash: Hash, store: Store) {
    slot.entry.Ptr? ==>
      && slot.entry.addr in store.heap
      && var id := store.heap[slot.entry.addr].nodeId;
         id in store.live && store.live[id] == slot.entry.addr && slot.nodeIdHash == hash(id)
  }

  /** Round k of the search for id ends at its entry, with no empty slot on the way. */
  ghost predicate FoundIn(s: seq<Slot>, hash: Hash, store: Store, id: NodeId, k: nat)
    requires |s| > 2 && id in store.live
  {
    && k < |s| && s[Probe(hash(id), |s|, k)].entry == Ptr(store.live[id])
    && ClearPath(s, hash(id), k)
  }

  ghost predicate ClearPath(s: seq<Slot>, h: nat, k: nat)
    requires |s| > 2
  {
    forall j: nat :: j < k ==> s[Probe(h, |s|, j)].entry != Null
  }

  /** Slot i is free, and is reached in round k without meeting an empty slot before. */
  ghost predicate FreeAt(s: seq<Slot>, h: nat, i: nat, k: nat)
    requires |s| > 2
  {
    k < |s| && i == Probe(h, |s|, k) && !s[i].entry.Ptr? && ClearPath(s, h, k)
  }

  ghost predicate Full(s: seq<Slot>) {
    forall i :: 0 <= i < |s| ==> s[i].entry.Ptr?
  }

  ghost predicate OncePerEntry(s: seq<Slot>) {
    forall i, j :: 0 <= i < j < |s| && s[i].entry.Ptr? ==> s[i].entry != s[j].entry
  }

  /** The invariant of the table. */
  ghost predicate Table(s: seq<Slot>, hash: Hash, store: Store) {
    && |s| > 2 && Consistent(store) && OncePerEntry(s)
    && (forall i :: 0 <= i < |s| ==> Backed(s[i], hash, store))
    && (forall id :: id in store.live ==> exists k: nat :: FoundIn(s, hash, store, id, k))
  }

  lemma EmptyTable(s: seq<Slot>, hash: Hash, store: Store)
    requires |s| > 2 && store.live == map[]
    requires forall i :: 0 <= i < |s| ==> s[i].entry == Null
    ensures Table(s, hash, store)
  {
  }

  /** Publishing an entry in a slot that is not in use, reached without meeting an empty slot. */
  lemma PlaceKeeps(s: seq<Slot>, hash: Hash, store: Store, a: Addr, i: nat, k: nat)
    requires Table(s, hash, store) && a in store.heap && !store.heap[a].deleted
    requires var id := store.heap[a].nodeId; id !in store.live && FreeAt(s, hash(id), i, k)
    ensures var id := store.heap[a].nodeId;
            Table(s[i := Slot(Ptr(a), hash(id))], hash, store.(live := store.live[id := a]))
  {
    var id := store.heap[a].nodeId;
    var s', store' := s[i := Slot(Ptr(a), hash(id))], store.(live := store.live[id := a]);
    forall j | 0 <= j < |s'| ensures Backed(s'[j], hash, store') {
      assert Backed(s[j], hash, store);
    }
    forall x | x in store'.live ensures exists n: nat :: FoundIn(s', hash, store', x, n) {
      if x == id {
        assert FoundIn(s', hash, store', id, k);
      } else {
        var n: nat :| FoundIn(s, hash, store, x, n);
        assert FoundIn(s', hash, store', x, n);
      }
    }
    forall m, n | 0 <= m < n < |s'| && s'[m].entry.Ptr? ensures s'[m].entry != s'[n].entry {
      assert Backed(s[m], hash, store) && Backed(s[n], hash, store);
    }
  }

  /** Taking an entry out leaves a tombstone, so nobody else's path is cut. */
  lemma TombstoneKeeps(s: seq<Slot>, hash: Hash, store: Store, id: NodeId, i: nat)
    requires Table(s, hash, store) && id in store.live && i < |s| && s[i].entry == Ptr(store.live[id])
    ensures Table(s[i := s[i].(entry := Tombstone)], hash, store.(live := store.live - {id}))
  {
    var s', store' := s[i := s[i].(entry := Tombstone)], store.(live := store.live - {id});
    forall j | 0 <= j < |s'| ensures Backed(s'[j], hash, store') {
      assert Backed(s[j], hash, store);
      if j != i && s[j].entry.Ptr? {
        assert s[j].entry != s[i].entry;
      }
    }
    forall x | x in store'.live ensures exists n: nat :: FoundIn(s', hash, store', x, n) {
      var n: nat :| FoundIn(s, hash, store, x, n);
      assert store.heap[store.live[x]].nodeId == x && store.heap[store.live[id]].nodeId == id;
      assert FoundIn(s', hash, store', x, n);
    }
  }

  /** Replacing the entry of an id in its slot. */
  lemma SwapKeeps(s: seq<Slot>, hash: Hash, store: Store, a: Addr, i: nat)
    requires Table(s, hash, store) && a in store.heap && !store.heap[a].deleted
    requires var id := store.heap[a].nodeId;
             id in store.live && store.live[id] != a && i < |s| && s[i].entry == Ptr(store.live[id])
    ensures var id := store.heap[a].nodeId;
            Table(s[i := s[i].(entry := Ptr(a))], hash, store.(live := store.live[id := a]))
  {
    var id := store.heap[a].nodeId;
    var s', store' := s[i := s[i].(entry := Ptr(a))], store.(live := store.live[id := a]);
    forall x | x in store'.live ensures exists n: nat :: FoundIn(s', hash, store', x, n) {
      var n: nat :| FoundIn(s, hash, store, x, n);
      SwapFound(s, hash, store, a, i, x, n);
    }
    forall j | 0 <= j < |s'| ensures Backed(s'[j], hash, store') {
      assert Backed(s[j], hash, store) && Backed(s[i], hash, store);
      if j != i && s[j].entry.Ptr? {
        assert s[j].entry != s[i].entry;
      }
    }
    hide FoundIn;
    forall m, n | 0 <= m < n < |s'| && s'[m].entry.Ptr? ensures s'[m].entry != s'[n].entry {
      assert Backed(s[m], hash, store) && Backed(s[n], hash, store);
    }
  }

  /** Every id is found at the same round as before. */
  lemma SwapFound(s: seq<Slot>, hash: Hash, store: Store, a: Addr, i: nat, x: NodeId, n: nat)
    requires Table(s, hash, store) && a in store.heap && i < |s|
    requires var id := store.heap[a].nodeId; id in store.live && s[i].entry == Ptr(store.live[id])
    requires x in store.live && FoundIn(s, hash, store, x, n)
    ensures var id := store.heap[a].nodeId;
            FoundIn(s[i := s[i].(entry := Ptr(a))], hash, store.(live := store.live[id := a]), x, n)
  {
    var id := store.heap[a].nodeId;
    if x == id {
      var j := Probe(hash(id), |s|, n);
      assert j == i by {
        assert i < j || j < i || i == j;
      }
    } else {
      assert store.heap[store.live[x]].nodeId == x && store.heap[store.live[id]].nodeId == id;
    }
  }

  /** The table does not care about the rest of an entry, nor about entries that are not live. */
  ghost predicate SameLive(store: Store, store': Store) {
    && store'.live == store.live
    && forall id :: id in store.live ==>
         && store.live[id] in store.heap && store.live[id] in store'.heap
         && store'.heap[store.live[id]].nodeId == store.heap[store.live[id]].nodeId
         && !store'.heap[store.live[id]].deleted
  }

  lemma HeapChangeKeeps(s: seq<Slot>, hash: Hash, store: Store, store': Store)
    requires Table(s, hash, store) && SameLive(store, store')
    ensures Table(s, hash, store')
  {
    forall j | 0 <= j < |s| ensures Backed(s[j], hash, store') {
      assert Backed(s[j], hash, store);
    }
    forall x | x in store'.live ensures exists n: nat :: FoundIn(s, hash, store', x, n) {
      var n: nat :| FoundIn(s, hash, store, x, n);
      assert FoundIn(s, hash, store', x, n);
    }
  }

  // ---------- counting ----------

  /** The ids whose entries sit in the first n slots. */
  ghost function IdsUpTo(s: seq<Slot>, store: Store, n: nat): set<NodeId>
    requires n <= |s| && forall i :: 0 <= i < n && s[i].entry.Ptr? ==> s[i].entry.addr in store.heap
    decreases n
  {
    if n == 0 then {}
    else IdsUpTo(s, store, n - 1) + if s[n - 1].entry.Ptr? then {store.heap[s[n - 1].entry.addr].nodeId} else {}
  }

  lemma {:induction false} IdsUpToFacts(s: seq<Slot>, hash: Hash, store: Store, n: nat)
    requires Table(s, hash, store) && n <= |s|
    requires forall i :: 0 <= i < n && s[i].entry.Ptr? ==> s[i].entry.addr in store.heap
    ensures forall id :: id in IdsUpTo(s, store, n) <==>
              id in store.live && exists i :: 0 <= i < n && s[i].entry == Ptr(store.live[id])
  {
    if n > 0 {
      IdsUpToFacts(s, hash, store, n - 1);
      assert Backed(s[n - 1], hash, store);
    }
  }

  ghost function UsedUpTo(s: seq<Slot>, n: nat): nat
    requires n <= |s|
  {
    if n == 0 then 0 else UsedUpTo(s, n - 1) + if s[n - 1].entry.Ptr? then 1 else 0
  }

  lemma NotSeenBefore(s: seq<Slot>, hash: Hash, store: Store, n: nat)
    requires Table(s, hash, store) && n < |s| && s[n].entry.Ptr?
    requires forall i :: 0 <= i < |s| && s[i].entry.Ptr? ==> s[i].entry.addr in store.heap
    ensures store.heap[s[n].entry.addr].nodeId !in IdsUpTo(s, store, n)
  {
    assert Backed(s[n], hash, store);
    IdsUpToFacts(s, hash, store, n);
  }

  /** Each used slot among the first n shows an id not seen in an earlier slot. */
  ghost predicate AllNew(s: seq<Slot>, store: Store, n: nat)
    requires n <= |s|
  {
    && (forall i :: 0 <= i < n && s[i].entry.Ptr? ==> s[i].entry.addr in store.heap)
    && (forall i :: 0 <= i < n && s[i].entry.Ptr? ==> store.heap[s[i].entry.addr].nodeId !in IdsUpTo(s, store, i))
  }

  lemma {:induction false} UsedIsIds(s: seq<Slot>, store: Store, n: nat)
    requires n <= |s| && AllNew(s, store, n)
    ensures |IdsUpTo(s, store, n)| == UsedUpTo(s, n)
  {
    if n > 0 {
      UsedIsIds(s, store, n - 1);
      if s[n - 1].entry.Ptr? {
        AddOne(IdsUpTo(s, store, n - 1), store.heap[s[n - 1].entry.addr].nodeId);
      }
    }
  }

  lemma AddOne<T>(a: set<T>, x: T)
    requires x !in a
    ensures |a + {x}| == |a| + 1
  {
  }

  lemma {:induction false} AllUsed(s: seq<Slot>, n: nat)
    requires n <= |s| && forall i :: 0 <= i < n ==> s[i].entry.Ptr?
    ensures UsedUpTo(s, n) == n
  {
    if n > 0 {
      AllUsed(s, n - 1);
    }
  }

  lemma AllSeen(s: seq<Slot>, hash: Hash, store: Store)
    requires Table(s, hash, store)
    ensures forall i :: 0 <= i < |s| && s[i].entry.Ptr? ==> s[i].entry.addr in store.heap
    ensures IdsUpTo(s, store, |s|) == store.live.Keys
  {
    assert forall i :: 0 <= i < |s| ==> Backed(s[i], hash, store);
    IdsUpToFacts(s, hash, store, |s|);
    forall id | id in store.live ensures id in IdsUpTo(s, store, |s|) {
      var k: nat :| FoundIn(s, hash, store, id, k);
    }
  }

  /** The number of live entries is the number of used slots; below capacity some slot is free. */
  lemma LiveCount(s: seq<Slot>, hash: Hash, store: Store)
    requires Table(s, hash, store)
    ensures |store.live| == UsedUpTo(s, |s|)
    ensures |store.live| < |s| ==> exists i :: 0 <= i < |s| && !s[i].entry.Ptr?
  {
    AllSeen(s, hash, store);
    forall i | 0 <= i < |s| && s[i].entry.Ptr? ensures store.heap[s[i].entry.addr].nodeId !in IdsUpTo(s, store, i) {
      NotSeenBefore(s, hash, store, i);
    }
    UsedIsIds(s, store, |s|);
    if forall i :: 0 <= i < |s| ==> s[i].entry.Ptr? {
      AllUsed(s, |s|);
    }
  }

  // ---------- searching ----------

  /** The first n rounds of a search met neither an empty slot nor the entry of the id. */
  ghost predicate NotSeen(s: seq<Slot>, hash: Hash, store: Store, id: NodeId, n: nat)
    requires |s| > 2
  {
    && ClearPath(s, hash(id), n)
    && (id in store.live ==> forall j: nat :: j < n ==> s[Probe(hash(id), |s|, j)].entry != Ptr(store.live[id]))
  }

  /** A search may stop at an empty slot, or when it has been all around. */
  lemma StopMeansAbsent(s: seq<Slot>, hash: Hash, store: Store, id: NodeId, n: nat)
    requires Table(s, hash, store) && NotSeen(s, hash, store, id, n) && n <= |s|
    requires n < |s| ==> s[Probe(hash(id), |s|, n)].entry == Null
    ensures id !in store.live
  {
    if id in store.live {
      var k: nat :| FoundIn(s, hash, store, id, k);
      assert false;
    }
  }

  /** What the comparison of cached hash and id at a used slot decides. */
  lemma MatchMeansFound(s: seq<Slot>, hash: Hash, store: Store, id: NodeId, i: nat)
    requires Table(s, hash, store) && i < |s| && s[i].entry.Ptr?
    ensures s[i].entry.addr in store.heap
    ensures (s[i].nodeIdHash == hash(id) && store.heap[s[i].entry.addr].nodeId == id)
            <==> (id in store.live && s[i].entry == Ptr(store.live[id]))
  {
    assert Backed(s[i], hash, store);
  }

  /** The index arithmetic of one round, and when the walk is back at its start. */
  lemma Advance(h: nat, size: nat, n: nat)
    requires Prime(size) && size > 2 && n < size
    ensures var i, step := Probe(h, size, n), 1 + h % (size - 2);
            var next := if i + step >= size then i + step - size else i + step;
            next == Probe(h, size, n + 1) && (next == h % size <==> n + 1 == size)
  {
    var start, step := h % size, 1 + h % (size - 2);
    WalkNext(start, step, size, n);
    WalkStart(start, step, size);
    if n + 1 < size {
      WalkInjective(start, step, size, 0, n + 1);
    }
  }

  /** The first free slot among the first n rounds, if any, and its round. */
  ghost predicate Candidate(s: seq<Slot>, h: nat, n: nat, candidate: Option<nat>, k: nat)
    requires |s| > 2
  {
    if candidate.None? then
      forall j: nat :: j < n ==> s[Probe(h, |s|, j)].entry.Ptr?
    else
      k < n && candidate.value == Probe(h, |s|, k) && !s[candidate.value].entry.Ptr?
  }

  lemma SearchStart(s: seq<Slot>, hash: Hash, store: Store, id: NodeId)
    requires |s| > 2
    ensures NotSeen(s, hash, store, id, 0) && Candidate(s, hash(id), 0, None, 0)
    ensures Probe(hash(id), |s|, 0) == hash(id) % |s|
  {
    WalkStart(hash(id) % |s|, 1 + hash(id) % (|s| - 2), |s|);
  }

  lemma CandidateNext(s: seq<Slot>, h: nat, n: nat, c: Option<nat>, k: nat)
    requires |s| > 2 && n < |s| && Candidate(s, h, n, c, k)
    ensures var i := Probe(h, |s|, n);
            if s[i].entry.Ptr? || c.Some? then Candidate(s, h, n + 1, c, k)
            else Candidate(s, h, n + 1, Some(i), n)
  {
  }

  /** What a finished search for a free slot has established. */
  lemma CandidateFinal(s: seq<Slot>, hash: Hash, store: Store, id: NodeId, n: nat, c: Option<nat>, k: nat)
    requires Table(s, hash, store) && Prime(|s|) && NotSeen(s, hash, store, id, n) && n <= |s|
    requires if n < |s| then s[Probe(hash(id), |s|, n)].entry == Null && Candidate(s, hash(id), n + 1, c, k)
             else Candidate(s, hash(id), n, c, k)
    ensures id !in store.live
    ensures if c.None? then Full(s) else FreeAt(s, hash(id), c.value, k)
  {
    StopMeansAbsent(s, hash, store, id, n);
    if n == |s| && c.None? {
      AllRoundsAllSlots(s, hash(id));
    }
  }

  /** One more round without a hit. */
  lemma RoundDone(s: seq<Slot>, hash: Hash, store: Store, id: NodeId, n: nat)
    requires |s| > 2 && n < |s| && Prime(|s|) && NotSeen(s, hash, store, id, n)
    requires var e := s[Probe(hash(id), |s|, n)].entry;
             e != Null && (id in store.live ==> e != Ptr(store.live[id]))
    ensures NotSeen(s, hash, store, id, n + 1)
    ensures var h, size := hash(id), |s|;
            var i, step := Probe(h, size, n), 1 + h % (size - 2);
            var next := if i + step >= size then i + step - size else i + step;
            next == Probe(h, size, n + 1) && (next == h % size <==> n + 1 == size)
  {
    Advance(hash(id), |s|, n);
  }

  lemma FreeAtIndex(s: seq<Slot>, h: nat, i: nat, k: nat)
    requires |s| > 2 && FreeAt(s, h, i, k)
    ensures i < |s| && !s[i].entry.Ptr?
  {
  }

  lemma AllRoundsAllSlots(s: seq<Slot>, h: nat)
    requires |s| > 2 && Prime(|s|)
    requires forall j: nat :: j < |s| ==> s[Probe(h, |s|, j)].entry.Ptr?
    ensures forall i :: 0 <= i < |s| ==> s[i].entry.Ptr?
  {
    forall i | 0 <= i < |s| ensures s[i].entry.Ptr? {
      var k := WalkReaches(h % |s|, 1 + h % (|s| - 2), |s|, i);
      assert Probe(h, |s|, k) == i;
    }
  }

  // ---------- rehashing ----------

  /** Part of the live map, the rest of the store unchanged. */
  ghost predicate PartOf(store: Store, all: Store) {
    && store == all.(live := store.live)
    && forall id :: id in store.live ==> id in all.live && store.live[id] == all.live[id]
  }

  /** The ids moved so far are those of the first n old slots. */
  ghost predicate Moved(os: seq<Slot>, hash: Hash, all: Store, store: Store, n: nat)
    requires Table(os, hash, all) && n <= |os|
  {
    AllSeen(os, hash, all);
    PartOf(store, all) && store.live.Keys == IdsUpTo(os, all, n) && |store.live| == UsedUpTo(os, n)
  }

  lemma MovedNone(os: seq<Slot>, hash: Hash, all: Store, store: Store)
    requires Table(os, hash, all) && store == all.(live := map[])
    ensures Moved(os, hash, all, store, 0)
  {
  }

  lemma MovedFacts(os: seq<Slot>, hash: Hash, all: Store, n: nat)
    requires Table(os, hash, all) && n < |os| && os[n].entry.Ptr?
    ensures os[n].entry.addr in all.heap
    ensures var a := os[n].entry.addr; var id := all.heap[a].nodeId;
            && id in all.live && all.live[id] == a && !all.heap[a].deleted
            && os[n] == Slot(Ptr(a), hash(id))
  {
    assert Backed(os[n], hash, all);
  }

  lemma MovedPast(os: seq<Slot>, hash: Hash, all: Store, store: Store, n: nat)
    requires Table(os, hash, all) && n < |os| && Moved(os, hash, all, store, n) && !os[n].entry.Ptr?
    ensures Moved(os, hash, all, store, n + 1)
  {
    hide Table, Consistent, PartOf, Backed;
    AllSeen(os, hash, all);
  }

  lemma MovedAdd(os: seq<Slot>, hash: Hash, all: Store, store: Store, n: nat)
    requires Table(os, hash, all) && n < |os| && Moved(os, hash, all, store, n) && os[n].entry.Ptr?
    ensures os[n].entry.addr in all.heap
    ensures var a := os[n].entry.addr; var id := all.heap[a].nodeId;
            && id !in store.live && Moved(os, hash, all, store.(live := store.live[id := a]), n + 1)
  {
    hide Table, Consistent, PartOf, Backed;
    AllSeen(os, hash, all);
    MovedFacts(os, hash, all, n);
    NotSeenBefore(os, hash, all, n);
    var a := os[n].entry.addr;
    var id := all.heap[a].nodeId;
    AddKey(store.live, id, a);
    PartAdd(all, store, id);
  }

  /** The effect of one old slot. */
  lemma MovedNext(os: seq<Slot>, hash: Hash, all: Store, store: Store, n: nat)
    requires Table(os, hash, all) && n < |os| && Moved(os, hash, all, store, n)
    ensures !os[n].entry.Ptr? ==> Moved(os, hash, all, store, n + 1)
    ensures os[n].entry.Ptr? ==>
              && os[n].entry.addr in all.heap
              && var a := os[n].entry.addr; var id := all.heap[a].nodeId;
                 && id in all.live && all.live[id] == a && id !in store.live && !all.heap[a].deleted
                 && os[n] == Slot(Ptr(a), hash(id))
                 && Moved(os, hash, all, store.(live := store.live[id := a]), n + 1)
  {
    hide Table, Consistent, Moved;
    if os[n].entry.Ptr? {
      MovedFacts(os, hash, all, n);
      MovedAdd(os, hash, all, store, n);
    } else {
      MovedPast(os, hash, all, store, n);
    }
  }

  lemma PartAdd(all: Store, store: Store, id: NodeId)
    requires PartOf(store, all) && id in all.live
    ensures PartOf(store.(live := store.live[id := all.live[id]]), all)
  {
  }

  lemma AddKey<K, V>(m: map<K, V>, k: K, v: V)
    requires k !in m
    ensures m[k := v].Keys == m.Keys + {k} && |m[k := v]| == |m| + 1
  {
    assert m[k := v].Keys == m.Keys + {k};
    AddOne(m.Keys, k);
  }

  /** All moved: the loop ends at the last old slot, or as soon as as many entries were moved as
      are live. */
  lemma MovedAll(os: seq<Slot>, hash: Hash, all: Store, store: Store, n: nat)
    requires Table(os, hash, all) && n <= |os| && Moved(os, hash, all, store, n)
    requires n == |os| || |store.live| == |all.live|
    ensures store == all
  {
    AllSeen(os, hash, all);
    hide *;
    MovedPart(os, hash, all, store, n);
    if n < |os| {
      PartOfEqualSize(store, all);
    } else {
      PartWithAllIds(store, all);
    }
  }

  lemma MovedPart(os: seq<Slot>, hash: Hash, all: Store, store: Store, n: nat)
    requires Table(os, hash, all) && n <= |os| && Moved(os, hash, all, store, n)
    ensures PartOf(store, all) && (n == |os| ==> store.live.Keys == all.live.Keys)
  {
    AllSeen(os, hash, all);
    hide Table, PartOf;
  }

  lemma PartOfEqualSize(store: Store, all: Store)
    requires PartOf(store, all) && |store.live| == |all.live|
    ensures store == all
  {
    assert |store.live.Keys| == |store.live| && |all.live.Keys| == |all.live|;
    SubsetOfEqualSize(store.live.Keys, all.live.Keys);
    PartWithAllIds(store, all);
  }

  lemma PartWithAllIds(store: Store, all: Store)
    requires PartOf(store, all) && store.live.Keys == all.live.Keys
    ensures store == all
  {
    assert store.live == all.live;
  }

  lemma RoomForOne(s: seq<Slot>, hash: Hash, store: Store)
    requires Table(s, hash, store) && |store.live| < |s|
    ensures !Full(s)
  {
    LiveCount(s, hash, store);
  }

  // ---------- changes of the heap ----------

  lemma TableLive(s: seq<Slot>, hash: Hash, store: Store)
    requires Table(s, hash, store)
    ensures Consistent(store)
    ensures forall id :: id in store.live ==>
              store.live[id] in store.heap && store.heap[store.live[id]].nodeId == id && !store.heap[store.live[id]].deleted
  {
  }

  /** Whatever happens at an address that is not live is no concern of the table. */
  lemma DetachedChange(store: Store, store': Store, a: Addr)
    requires Consistent(store) && store'.live == store.live
    requires a !in store.heap || !(store.heap[a].nodeId in store.live && store.live[store.heap[a].nodeId] == a)
    requires forall b :: b != a && b in store.heap ==> b in store'.heap && store'.heap[b] == store.heap[b]
    ensures SameLive(store, store')
  {
  }

  /** An entry that is no longer live can be marked as deleted and, without holders, freed. */
  lemma RetiredKeeps(s: seq<Slot>, hash: Hash, store: Store, a: Addr)
    requires Table(s, hash, store) && a in store.heap && forall id :: id in store.live ==> store.live[id] != a
    ensures Table(s, hash, Retired(store, a))
  {
    hide Table;
    TableLive(s, hash, store);
    HeapChangeKeeps(s, hash, store, Retired(store, a));
  }

  lemma DetachedNotLive(store: Store, a: Addr)
    requires Consistent(store) && Detached(store, a)
    ensures forall id :: id in store.live ==> store.live[id] != a
  {
  }

  /** Numbering a reference type while it is published does not concern the table. */
  lemma PublishedKeeps(s: seq<Slot>, hash: Hash, store: Store, a: Addr)
    requires a in store.heap && Table(s, hash, store.(live := store.live[store.heap[a].nodeId := a]))
    ensures Table(s, hash, Published(store, a))
  {
    hide Table;
    var store1 := store.(live := store.live[store.heap[a].nodeId := a]);
    TableLive(s, hash, store1);
    HeapChangeKeeps(s, hash, store1, Published(store, a).(referenceTypes := store1.referenceTypes));
    OtherFieldsKeep(s, hash, Published(store, a).(referenceTypes := store1.referenceTypes), Published(store, a));
  }

  lemma OtherFieldsKeep(s: seq<Slot>, hash: Hash, store: Store, store': Store)
    requires Table(s, hash, store) && store'.live == store.live && store'.heap == store.heap
    ensures Table(s, hash, store')
  {
    HeapChangeKeeps(s, hash, store, store');
  }

  lemma DropKey<K, V>(m: map<K, V>, k: K)
    requires k in m
    ensures |m - {k}| == |m| - 1
  {
    assert (m - {k}).Keys == m.Keys - {k};
  }

  lemma SetKey<K, V>(m: map<K, V>, k: K, v: V)
    requires k in m
    ensures |m[k := v]| == |m|
  {
    assert m[k := v].Keys == m.Keys;
  }
}

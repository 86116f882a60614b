/** The hash-map node store: an open-addressing table that is probed by double hashing, grown,
    shrunk and littered with tombstones in place, proved to behave as the plain map of NodeStore. */
module NodeMap {
  import opened Options
  import opened NodeStore
  import opened DoubleHashing
  import opened AutoIds
  import opened HashTable
  import opened Words

  const NODEMAP_MINSIZE := 64

  const PRIMES: seq<nat> := [
    7, 13, 31, 61, 127, 251,
    509, 1021, 2039, 4093, 8191, 16381,
    32749, 65521, 131071, 262139, 524287, 1048573,
    2097143, 4194301, 8388593, 16777213, 33554393, 67108859,
    134217689, 268435399, 536870909, 1073741789, 2147483647, 4294967291
  ]

  /** The largest table for which none of the 32-bit size computations wraps around. */
  const LARGEST_INDEX := 26

  const COUNT_BOUND := 402653182

  /** The sizes really are primes; taken as a premise. */
  ghost predicate PrimeSizes() {
    forall i :: 0 <= i < |PRIMES| ==> Prime(PRIMES[i])
  }

  lemma PrimesAscend(i: nat, j: nat)
    requires i <= j < |PRIMES|
    ensures PRIMES[i] <= PRIMES[j] && PRIMES[i] >= 7
    decreases j - i
  {
    assert forall k :: 0 <= k < 29 ==> PRIMES[k] < PRIMES[k + 1];
    assert forall k :: 0 <= k < 30 ==> PRIMES[k] >= 7;
    if i < j {
      PrimesAscend(i, j - 1);
    }
  }

  /** Only the largest table exceeds half of the next one's bound. */
  lemma SizeStep(i: nat)
    requires i <= LARGEST_INDEX
    ensures i < LARGEST_INDEX ==> 2 * PRIMES[i] <= PRIMES[LARGEST_INDEX]
    ensures i == LARGEST_INDEX ==> PRIMES[i] == 536870909
  {
    if i < LARGEST_INDEX {
      PrimesAscend(i, LARGEST_INDEX - 1);
    }
  }

  /** The size with this index is the least of the table that is as large. */
  ghost predicate LeastFor(index: nat, n: nat) {
    index < |PRIMES| && n <= PRIMES[index] && forall i :: 0 <= i < index ==> PRIMES[i] < n
  }

  /** The first table size that is at least n, by bisection. */
  method HigherPrimeIndex(n: nat) returns (low: nat)
    ensures low <= |PRIMES|
    ensures forall i :: 0 <= i < low ==> PRIMES[i] < n
    ensures forall i :: low <= i < |PRIMES| ==> n <= PRIMES[i]
  {
    low := 0;
    var high := |PRIMES|;
    while low != high
      invariant low <= high <= |PRIMES|
      invariant forall i :: 0 <= i < low ==> PRIMES[i] < n
      invariant forall i :: high <= i < |PRIMES| ==> n <= PRIMES[i]
      decreases high - low
    {
      var mid := low + (high - low) / 2;
      forall i | 0 <= i <= mid ensures PRIMES[i] <= PRIMES[mid] {
        PrimesAscend(i, mid);
      }
      forall i | mid <= i < |PRIMES| ensures PRIMES[mid] <= PRIMES[i] {
        PrimesAscend(mid, i);
      }
      if n > PRIMES[mid] {
        low := mid + 1;
      } else {
        high := mid;
      }
    }
  }

  /** The first two rounds of the automatic identifiers, computed in 32 bits. */
  lemma FirstRounds(size: nat, count: nat)
    requires 7 <= size <= 536870909 && count < size
    ensures Mod(U32(50000 + size + 1), 0xffff_ffff) == AutoId(size, count, 0)
    ensures Mod2(U32(count + 1), size) == Increase(size, count)
  {
    Fits(50000 + size + 1);
    Fits(count + 1);
  }

  lemma NextRound(live: map<NodeId, Addr>, ns: nat, size: nat, count: nat, n: nat, below: nat)
    requires size > 2 && Searching(live, ns, size, count, n + 1, below)
    ensures AutoId(size, count, n + 1) == NextId(size, count, AutoId(size, count, n))
    ensures AutoId(size, count, n + 1) != AutoId(size, count, 0)
  {
  }

  lemma FoundFree(live: map<NodeId, Addr>, ns: nat, size: nat, count: nat, n: nat, below: nat)
    requires size > 2 && Searching(live, ns, size, count, n, below) && Numeric(ns, AutoId(size, count, n)) !in live
    ensures FirstFree(live, ns, size, count, n)
  {
  }

  /** The identifier is that of the first round that finds one not in use. */
  ghost predicate ChosenFirst(live: map<NodeId, Addr>, ns: nat, size: nat, count: nat, id: NodeId)
    requires size > 2
  {
    exists n: nat :: FirstFree(live, ns, size, count, n) && id == Numeric(ns, AutoId(size, count, n))
  }

  class NodeMap {
    const hash: Hash
    var slots: array<Slot>
    var size: nat
    var count: nat
    var sizePrimeIndex: nat
    var heap: map<Addr, Entry>
    var referenceTypes: seq<NodeId>
    ghost var live: map<NodeId, Addr>

    /** The abstract value: the node store this table implements. */
    ghost function Abs(): Store
      reads this
    {
      Store(live, heap, referenceTypes)
    }

    /** The table is searchable, and its size is one of the primes. */
    ghost predicate Searchable()
      reads this, slots
    {
      && 7 <= size == slots.Length
      && Table(slots[..], hash, Abs())
    }

    ghost predicate Valid()
      reads this, slots
    {
      && Searchable() && count == |live| < size
      && sizePrimeIndex <= LARGEST_INDEX && size == PRIMES[sizePrimeIndex]
    }

    constructor (hash: Hash)
      ensures Valid() && fresh(slots) && Abs() == Store(map[], map[], []) && this.hash == hash && size == 127
    {
      this.hash := hash;
      var index := HigherPrimeIndex(NODEMAP_MINSIZE);
      assert PRIMES[3] == 61 && PRIMES[4] == 127;
      sizePrimeIndex := index;
      size := PRIMES[index];
      slots := new Slot[PRIMES[index]](_ => Slot(Null, 0));
      count, heap, referenceTypes, live := 0, map[], [], map[];
      new;
      EmptyTable(slots[..], hash, Abs());
    }

    /** A free slot for the id, or nothing if the id exists or every slot is in use. */
    method FindFreeSlot(id: NodeId) returns (r: Option<nat>, ghost k: nat)
      requires Prime(size) && Searchable()
      ensures r.Some? ==> id !in live && FreeAt(slots[..], hash(id), r.value, k)
      ensures r.None? ==> id in live || Full(slots[..])
    {
      hide Table, NotSeen, Candidate, ClearPath, FreeAt, Full, Probe, Prime;
      var h := hash(id);
      var idx := Mod(h, size);
      var startIdx := idx;
      var hash2 := Mod2(h, size);
      var candidate: Option<nat> := None;
      k := 0;
      ghost var n, s, store := 0, slots[..], Abs();
      SearchStart(s, hash, store, id);
      while true
        invariant n < size && idx == Probe(h, size, n) && NotSeen(s, hash, store, id, n)
        invariant Candidate(s, h, n, candidate, k)
        decreases size - n
      {
        var slot := slots[idx];
        CandidateNext(s, h, n, candidate, k);
        if slot.entry.Ptr? {
          MatchMeansFound(s, hash, store, id, idx);
          if slot.nodeIdHash == h && heap[slot.entry.addr].nodeId == id {
            return None, 0;
          }
        } else {
          if candidate.None? {
            candidate, k := Some(idx), n;
          }
          if slot.entry == Null {
            break;
          }
        }
        RoundDone(s, hash, store, id, n);
        idx := if idx + hash2 >= size then idx + hash2 - size else idx + hash2;
        n := n + 1;
        if idx == startIdx {
          break;
        }
      }
      CandidateFinal(s, hash, store, id, n, candidate, k);
      return candidate, k;
    }

    /** The slot of a live entry, past any tombstones. */
    method FindOccupiedSlot(id: NodeId) returns (r: Option<nat>)
      requires Prime(size) && Searchable()
      ensures r.Some? <==> id in live
      ensures r.Some? ==> r.value < size && slots[r.value].entry == Ptr(live[id])
    {
      hide Table, NotSeen, Candidate, ClearPath, FreeAt, Full, Probe, Prime;
      var h := hash(id);
      var idx := Mod(h, size);
      var hash2 := Mod2(h, size);
      var startIdx := idx;
      ghost var n, s, store := 0, slots[..], Abs();
      SearchStart(s, hash, store, id);
      while true
        invariant n < size && idx == Probe(h, size, n) && NotSeen(s, hash, store, id, n)
        decreases size - n
      {
        var slot := slots[idx];
        assert slot == s[idx];
        if slot.entry.Ptr? {
          MatchMeansFound(s, hash, store, id, idx);
          if slot.nodeIdHash == h && heap[slot.entry.addr].nodeId == id {
            return Some(idx);
          }
        } else if slot.entry == Null {
          StopMeansAbsent(s, hash, store, id, n);
          return None;
        }
        RoundDone(s, hash, store, id, n);
        idx := if idx + hash2 >= size then idx + hash2 - size else idx + hash2;
        n := n + 1;
        if idx == startIdx {
          break;
        }
      }
      StopMeansAbsent(s, hash, store, id, n);
      return None;
    }

    /** Moves every entry of the old table to its place in the new, empty one. */
    method Rehash(oslots: array<Slot>, ghost os: seq<Slot>, ghost all: Store)
      requires Prime(size) && Searchable() && slots != oslots && oslots[..] == os
      requires Table(os, hash, all) && Abs() == all.(live := map[]) && count == |all.live| <= size
      modifies this`live, slots
      ensures Searchable() && Abs() == all
    {
      hide Table, Moved, Prime, Consistent;
      var osize := oslots.Length;
      var i, j := 0, 0;
      MovedNone(os, hash, all, Abs());
      while i < osize && j < count
        invariant 0 <= i <= osize && oslots[..] == os
        invariant Searchable() && Moved(os, hash, all, Abs(), i) && j == |live| <= count
      {
        MovedNext(os, hash, all, Abs(), i);
        var slot := oslots[i];
        assert slot == os[i];
        if slot.entry.Ptr? {
          MoveOne(slot);
          j := j + 1;
        }
        i := i + 1;
      }
      MovedAll(os, hash, all, Abs(), i);
    }

    method MoveOne(slot: Slot)
      requires Prime(size) && Searchable() && |live| < size
      requires slot.entry.Ptr? && slot.entry.addr in heap && !heap[slot.entry.addr].deleted
      requires var id := heap[slot.entry.addr].nodeId; id !in live && slot.nodeIdHash == hash(id)
      modifies this`live, slots
      ensures Searchable() && live == old(live)[heap[slot.entry.addr].nodeId := slot.entry.addr]
    {
      hide Table, FreeAt, Full, Prime, Consistent;
      ghost var s, store, a := slots[..], Abs(), slot.entry.addr;
      var r, k := FindFreeSlot(heap[slot.entry.addr].nodeId);
      RoomForOne(s, hash, store);
      FreeAtIndex(s, slot.nodeIdHash, r.value, k);
      PlaceKeeps(s, hash, store, a, r.value, k);
      slots[r.value] := slot;
      live := live[heap[a].nodeId := a];
      assert slots[..] == s[r.value := Slot(Ptr(a), hash(heap[a].nodeId))];
    }

    /** Resizes to the prime next to twice the count when the table is too full or too empty. */
    method Expand()
      requires PrimeSizes() && Searchable() && count == |live| < size && count < COUNT_BOUND
      requires sizePrimeIndex <= LARGEST_INDEX && size == PRIMES[sizePrimeIndex]
      requires 2 * count <= PRIMES[LARGEST_INDEX]
      modifies this
      ensures Searchable() && count == old(count) && Abs() == old(Abs())
      ensures sizePrimeIndex <= LARGEST_INDEX && size == PRIMES[sizePrimeIndex]
      ensures slots == old(slots) || fresh(slots)
      ensures if 2 * count < old(size) && (8 * count > old(size) || old(size) <= NODEMAP_MINSIZE) then
                slots == old(slots) && size == old(size)
              else LeastFor(sizePrimeIndex, 2 * count) && 2 * count <= size && (2 * count > 0 ==> count < size)
    {
      hide Table, Prime, Consistent, PrimeSizes, U32;
      var osize := size;
      SizeFacts();
      Fits(count * 2);
      if count * 2 < osize {
        Fits(count * 8);
      }
      if U32(count * 2) < osize && (U32(count * 8) > osize || osize <= NODEMAP_MINSIZE) {
        return;
      }
      var oslots := slots;
      var nindex := HigherPrimeIndex(U32(count * 2));
      PrimesAscend(nindex, LARGEST_INDEX);
      var nsize := PRIMES[nindex];
      ghost var os, all := slots[..], Abs();
      var nslots := new Slot[nsize](_ => Slot(Null, 0));
      slots := nslots;
      size := nsize;
      sizePrimeIndex := nindex;
      live := map[];
      EmptyTable(slots[..], hash, Abs());
      Rehash(oslots, os, all);
    }

    lemma SizeFacts()
      requires PrimeSizes() && sizePrimeIndex <= LARGEST_INDEX && size == PRIMES[sizePrimeIndex]
      ensures Prime(size) && 7 <= size <= 536870909
    {
      PrimesAscend(sizePrimeIndex, LARGEST_INDEX);
    }

    // ---------- the interface ----------

    method NewNode(a: Addr, id: NodeId, content: nat, isReferenceType: bool)
      requires Valid() && a !in heap
      modifies this`heap
      ensures Valid() && Abs() == Created(old(Abs()), a, id, content, isReferenceType)
    {
      hide Table, Consistent;
      TableLive(slots[..], hash, Abs());
      ghost var s' := Created(Abs(), a, id, content, isReferenceType);
      DetachedChange(Abs(), s', a);
      HeapChangeKeeps(slots[..], hash, Abs(), s');
      heap := heap[a := Entry(id, content, isReferenceType, 0, None, 0, false)];
    }

    method DeleteNode(a: Addr)
      requires Valid() && Detached(Abs(), a)
      modifies this`heap
      ensures Valid() && Abs() == Free(old(Abs()), a)
    {
      hide Table, Consistent;
      TableLive(slots[..], hash, Abs());
      ghost var s' := Free(Abs(), a);
      DetachedChange(Abs(), s', a);
      HeapChangeKeeps(slots[..], hash, Abs(), s');
      heap := heap - {a};
    }

    method GetNode(id: NodeId) returns (r: Option<Addr>)
      requires PrimeSizes() && Valid()
      modifies this`heap
      ensures Valid() && (Abs(), r) == Got(old(Abs()), id)
    {
      hide Table, Consistent, Prime;
      SizeFacts();
      var slot := FindOccupiedSlot(id);
      TableLive(slots[..], hash, Abs());
      if slot.None? {
        return None;
      }
      var a := slots[slot.value].entry.addr;
      ghost var s' := Held(Abs(), a);
      HeapChangeKeeps(slots[..], hash, Abs(), s');
      heap := heap[a := heap[a].(refCount := (heap[a].refCount + 1) % COUNT_LIMIT)];
      r := Some(a);
    }

    method ReleaseNode(a: Addr)
      requires Valid() && a in heap && heap[a].refCount > 0
      modifies this`heap
      ensures Valid() && Abs() == Released(old(Abs()), a)
    {
      hide Table, Consistent;
      TableLive(slots[..], hash, Abs());
      ghost var s' := Released(Abs(), a);
      HeapChangeKeeps(slots[..], hash, Abs(), s');
      heap := heap[a := heap[a].(refCount := heap[a].refCount - 1)];
      CleanupEntry(a);
    }

    method CleanupEntry(a: Addr)
      requires a in heap
      modifies this`heap
      ensures Abs() == Cleanup(old(Abs()), a)
    {
      if heap[a].refCount > 0 {
        return;
      }
      if heap[a].deleted {
        heap := heap - {a};
      }
    }

    method GetNodeCopy(id: NodeId, a: Addr) returns (r: Status)
      requires PrimeSizes() && Valid() && a !in heap
      modifies this`heap
      ensures Valid() && (Abs(), r) == Copied(old(Abs()), id, a)
    {
      hide Table, Consistent, Prime;
      SizeFacts();
      var slot := FindOccupiedSlot(id);
      TableLive(slots[..], hash, Abs());
      if slot.None? {
        return BadNodeIdUnknown;
      }
      var orig := slots[slot.value].entry.addr;
      ghost var s' := Copied(Abs(), id, a).0;
      DetachedChange(Abs(), s', a);
      HeapChangeKeeps(slots[..], hash, Abs(), s');
      heap := heap[a := heap[orig].(orig := Some(orig), refCount := 0, deleted := false)];
      r := Good;
    }

    method RemoveNode(id: NodeId) returns (r: Status)
      requires PrimeSizes() && Valid()
      modifies this, slots
      ensures Valid() && (Abs(), r) == Removed(old(Abs()), id)
      ensures if r.Good? && count * 8 < old(size) && old(size) > 64 then LeastFor(sizePrimeIndex, 2 * count)
              else size == old(size)
      ensures slots == old(slots) || fresh(slots)
    {
      hide Table, Consistent, Prime, PrimeSizes, Retired, U32, LeastFor;
      SizeFacts();
      var slot := FindOccupiedSlot(id);
      TableLive(slots[..], hash, Abs());
      if slot.None? {
        return BadNodeIdUnknown;
      }
      Bury(slot.value, id);
      count := count - 1;
      Fits(count * 8);
      if U32(count * 8) < size && size > NODEMAP_MINSIZE {
        Expand();
      }
      r := Good;
    }

    /** Puts a tombstone in the slot, then marks the entry as deleted. */
    method Bury(i: nat, id: NodeId)
      requires Searchable() && i < size && id in live && slots[i].entry == Ptr(live[id])
      modifies this`heap, this`live, slots
      ensures Searchable() && (Abs(), Good) == Removed(old(Abs()), id) && |live| == |old(live)| - 1
    {
      hide Table, Consistent;
      ghost var s, store := slots[..], Abs();
      var a := slots[i].entry.addr;
      TableLive(s, hash, store);
      TombstoneKeeps(s, hash, store, id, i);
      ghost var store1 := store.(live := store.live - {id});
      DropKey(store.live, id);
      slots[i] := slots[i].(entry := Tombstone);
      assert slots[..] == s[i := s[i].(entry := Tombstone)];
      RetiredKeeps(slots[..], hash, store1, a);
      live := live - {id};
      heap := heap[a := heap[a].(deleted := true)];
      CleanupEntry(a);
    }

    method ReplaceNode(a: Addr) returns (r: Status)
      requires PrimeSizes() && Valid() && Detached(Abs(), a)
      modifies this, slots
      ensures Valid() && (Abs(), r) == Replaced(old(Abs()), a)
      ensures slots == old(slots)
    {
      hide Table, Consistent, Prime, PrimeSizes;
      SizeFacts();
      var id := heap[a].nodeId;
      var slot := FindOccupiedSlot(id);
      TableLive(slots[..], hash, Abs());
      if slot.None? {
        DeleteNode(a);
        return BadNodeIdUnknown;
      }
      var oldEntry := slots[slot.value].entry.addr;
      if heap[a].orig != Some(oldEntry) {
        DeleteNode(a);
        return BadInternalError;
      }
      Swap(slot.value, a);
      r := Good;
    }

    method Swap(i: nat, a: Addr)
      requires Searchable() && i < size && Detached(Abs(), a)
      requires var id := heap[a].nodeId; id in live && slots[i].entry == Ptr(live[id]) && heap[a].orig == Some(live[id])
      modifies this`heap, this`live, slots
      ensures Searchable() && (Abs(), Good) == Replaced(old(Abs()), a) && |live| == |old(live)|
    {
      hide Table, Consistent;
      ghost var s, store := slots[..], Abs();
      var id := heap[a].nodeId;
      var oldEntry := slots[i].entry.addr;
      TableLive(s, hash, store);
      SwapKeeps(s, hash, store, a, i);
      ghost var store1 := store.(live := store.live[id := a]);
      SetKey(store.live, id, a);
      slots[i] := slots[i].(entry := Ptr(a));
      assert slots[..] == s[i := s[i].(entry := Ptr(a))];
      RetiredKeeps(slots[..], hash, store1, oldEntry);
      live := live[id := a];
      heap := heap[oldEntry := heap[oldEntry].(deleted := true)];
      CleanupEntry(oldEntry);
    }

    /** Tries identifiers for a node that came without one, starting above the table size and then
        walking around below it by a fixed increase, until one is not in use. */
    method PickId(a: Addr) returns (slot: nat, ghost k: nat, ghost n: nat)
      requires Prime(size) && Searchable() && size <= 536870909 && count == |live| < size
      requires a in heap && heap[a].nodeId.Numeric? && forall id :: id in live ==> live[id] != a
      modifies this`heap
      ensures Searchable() && a in old(heap)
      ensures heap == old(heap)[a := old(heap)[a].(nodeId := Numeric(old(heap)[a].nodeId.ns, AutoId(size, count, n)))]
      ensures FirstFree(live, old(heap)[a].nodeId.ns, size, count, n)
      ensures slot < size && FreeAt(slots[..], hash(heap[a].nodeId), slot, k)
    {
      hide Table, Consistent, Prime, FreeAt, Full, U32, Searching, Remaining, FirstFree, AutoId;
      FirstRounds(size, count);
      var ns := heap[a].nodeId.ns;
      var identifier := Mod(U32(50000 + size + 1), 0xffff_ffff);
      var increase := Mod2(U32(count + 1), size);
      var startId := identifier;
      slot, k, n := 0, 0, 0;
      ghost var below := 0;
      SearchStarts(live, ns, size, count);
      var first := true;
      while first || identifier != startId
        invariant Searchable() && a in heap && heap[a := old(heap)[a]] == old(heap)
        invariant heap[a] == old(heap)[a].(nodeId := heap[a].nodeId)
        invariant identifier == AutoId(size, count, n) && Searching(live, ns, size, count, n, below)
        invariant first || identifier != startId
        decreases Remaining(size, count, n, below)
      {
        var r;
        r, k := TryId(a, Numeric(ns, identifier));
        if r.Some? {
          FoundFree(live, ns, size, count, n, below);
          return r.value, k, n;
        }
        below := SearchGoesOn(live, ns, size, count, n, below);
        NextRound(live, ns, size, count, n, below);
        identifier := if identifier + increase >= size then identifier + increase - size else identifier + increase;
        n := n + 1;
        first := false;
      }
      assert false;
    }

    /** Gives the node the identifier and looks for a slot: there is one unless the id is in use. */
    method TryId(a: Addr, id: NodeId) returns (slot: Option<nat>, ghost k: nat)
      requires Prime(size) && Searchable() && |live| < size
      requires a in heap && forall x :: x in live ==> live[x] != a
      modifies this`heap
      ensures Searchable() && heap == old(heap)[a := old(heap)[a].(nodeId := id)]
      ensures slot.None? <==> id in live
      ensures slot.Some? ==> slot.value < size && FreeAt(slots[..], hash(id), slot.value, k)
    {
      hide Table, Consistent, Prime, FreeAt, Full;
      SetId(a, id);
      RoomForOne(slots[..], hash, Abs());
      slot, k := FindFreeSlot(id);
      if slot.Some? {
        FreeAtIndex(slots[..], hash(id), slot.value, k);
      }
    }

    /** Inserts a node under its own id, or under a fresh one when it came with the numeric id zero.
        Without a free slot the id exists: the load rules always leave room. */
    method InsertNode(a: Addr) returns (r: Status, ghost chosen: NodeId)
      requires PrimeSizes() && Valid() && Detached(Abs(), a) && count < COUNT_BOUND
      modifies this, slots
      ensures Valid() && (Abs(), r) == Inserted(Named(old(Abs()), a, chosen), a)
      ensures Chosen(old(Abs()), old(heap)[a].nodeId, chosen)
      ensures var own := old(heap)[a].nodeId;
              if own == Numeric(own.ns, 0) then ChosenFirst(old(live), own.ns, size, old(count), chosen) else chosen == own
      ensures if old(size) * 3 > old(count) * 4 then size == old(size) else LeastFor(sizePrimeIndex, 2 * old(count))
      ensures slots == old(slots) || fresh(slots)
    {
      hide Table, Consistent, Prime, PrimeSizes, FreeAt, Full, U32, InUse, AutoId, LeastFor;
      ghost var store := Abs();
      MakeRoom();
      SizeFacts();
      TableLive(slots[..], hash, Abs());
      DetachedNotLive(Abs(), a);
      chosen := heap[a].nodeId;
      var slot: Option<nat>;
      ghost var k;
      if WantsId(heap[a].nodeId) {
        var i;
        ghost var n;
        i, k, n := PickId(a);
        chosen := heap[a].nodeId;
        slot := Some(i);
      } else {
        slot, k := FindFreeSlot(heap[a].nodeId);
      }
      assert Abs() == Named(store, a, chosen);
      if slot.None? {
        RoomForOne(slots[..], hash, Abs());
        DeleteNode(a);
        return BadNodeIdExists, chosen;
      }
      r := Publish(slot.value, k, a);
    }

    /** Grows the table when it is three quarters full. */
    method MakeRoom()
      requires PrimeSizes() && Valid() && count < COUNT_BOUND
      modifies this
      ensures Valid() && count + 1 < size && Abs() == old(Abs()) && count == old(count)
      ensures if old(size) * 3 > old(count) * 4 then size == old(size) else LeastFor(sizePrimeIndex, 2 * count)
      ensures slots == old(slots) || fresh(slots)
    {
      hide Table, Consistent, Prime, PrimeSizes, U32, LeastFor;
      SizeFacts();
      Fits(size * 3);
      Fits(count * 4);
      if U32(size * 3) <= U32(count * 4) {
        SizeStep(sizePrimeIndex);
        Expand();
      }
    }

    /** Gives a reference type its index and puts the entry into the free slot. */
    method Publish(i: nat, ghost k: nat, a: Addr) returns (r: Status)
      requires Valid() && count + 1 < size && Detached(Abs(), a) && heap[a].nodeId !in live
      requires FreeAt(slots[..], hash(heap[a].nodeId), i, k)
      modifies this`heap, this`live, this`count, this`referenceTypes, slots
      ensures Valid() && (Abs(), r) == Inserted(old(Abs()), a)
    {
      hide Table, Consistent, FreeAt;
      ghost var s, store := slots[..], Abs();
      var id := heap[a].nodeId;
      FreeAtIndex(s, hash(id), i, k);
      TableLive(s, hash, store);
      if heap[a].isReferenceType && |referenceTypes| >= REFERENCETYPESET_MAX {
        DeleteNode(a);
        return BadInternalError;
      }
      PlaceKeeps(s, hash, store, a, i, k);
      PublishedKeeps(s[i := Slot(Ptr(a), hash(id))], hash, store, a);
      AddKey(live, id, a);
      if heap[a].isReferenceType {
        heap := heap[a := heap[a].(referenceTypeIndex := |referenceTypes|)];
        referenceTypes := referenceTypes + [id];
      }
      slots[i] := Slot(Ptr(a), hash(id));
      assert slots[..] == s[i := Slot(Ptr(a), hash(id))];
      live := live[id := a];
      count := count + 1;
      r := Good;
      assert Abs().live == Published(store, a).live;
      assert Abs().heap == Published(store, a).heap;
    }

    method SetId(a: Addr, id: NodeId)
      requires Searchable() && a in heap && forall x :: x in live ==> live[x] != a
      modifies this`heap
      ensures Searchable() && heap == old(heap)[a := old(heap)[a].(nodeId := id)]
    {
      hide Table, Consistent;
      TableLive(slots[..], hash, Abs());
      ghost var s' := Abs().(heap := heap[a := heap[a].(nodeId := id)]);
      HeapChangeKeeps(slots[..], hash, Abs(), s');
      heap := heap[a := heap[a].(nodeId := id)];
    }
  }

  lemma ChosenIs(live: map<NodeId, Addr>, ns: nat, size: nat, count: nat, id: NodeId, n: nat)
    requires size > 2 && ChosenFirst(live, ns, size, count, id) && FirstFree(live, ns, size, count, n)
    ensures id == Numeric(ns, AutoId(size, count, n))
  {
    var m: nat :| FirstFree(live, ns, size, count, m) && id == Numeric(ns, AutoId(size, count, m));
    OneFirst(live, ns, size, count, n, m);
  }

  lemma NewIsInserted(s: Store, a: Addr, id: NodeId)
    requires Consistent(s) && a !in s.heap
    ensures var s1 := Created(s, a, id, 0, false);
            && Detached(s1, a) && s1.heap[a].nodeId == id && s1.live == s.live
            && forall chosen :: chosen !in s.live ==>
                 var s2 := Inserted(Named(s1, a, chosen), a).0;
                 s2.live == s.live[chosen := a] && s2.heap.Keys == s.heap.Keys + {a}
  {
  }

  /** Adds a fresh node to a store with a table of the smallest size. */
  method InsertUnder(m: NodeMap, a: Addr, id: NodeId) returns (ghost chosen: NodeId)
    requires PrimeSizes() && m.Valid() && a !in m.heap && m.size == 127 && m.count < 90
    requires !WantsId(id) ==> id !in m.live
    modifies m, m.slots
    ensures m.Valid() && m.size == 127 && m.count == old(m.count) + 1 && (m.slots == old(m.slots) || fresh(m.slots))
    ensures m.live == old(m.live)[chosen := a] && m.heap.Keys == old(m.heap).Keys + {a}
    ensures if WantsId(id) then ChosenFirst(old(m.live), id.ns, 127, old(m.count), chosen) else chosen == id
  {
    hide Table, Consistent, PrimeSizes, ChosenFirst, Created, Named, Inserted, Detached;
    TableLive(m.slots[..], m.hash, m.Abs());
    NewIsInserted(m.Abs(), a, id);
    m.NewNode(a, id, 0, false);
    var r;
    r, chosen := m.InsertNode(a);
  }

  /** A new store that ends up with a node under an automatic identifier below 50,000. */
  method ChoosesReserved(hash: Hash) returns (m: NodeMap)
    requires PrimeSizes()
    ensures m.Valid() && Numeric(0, 49882) in m.live && m.live[Numeric(0, 49882)] == 3
  {
    hide NodeMap.Valid, PrimeSizes, FirstFree, AutoId;
    m := new NodeMap(hash);
    ghost var id;
    id := InsertUnder(m, 1, Numeric(0, 50128));
    id := InsertUnder(m, 2, Numeric(0, 50005));
    ghost var live := m.live;
    id := InsertUnder(m, 3, Numeric(0, 0));
    ReservedCanBeChosen(live, 0);
    ChosenIs(live, 0, 127, 2, id, 2);
  }
}

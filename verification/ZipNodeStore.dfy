/** The zip-tree node store: the same interface over a randomised tree, ordered by the hash of the
    node id and then by the id itself, proved to behave as the plain map of NodeStore. The tree is
    the value that ZipTreeInPlace's routines are proved to build in place. */
module ZipNodeStore {
  import opened Options
  import opened Words
  import opened Ordering
  import opened NodeStore
  import opened ZipTree
  import HashTable

  datatype Key = Key(nodeIdHash: nat, nodeId: NodeId)

  /** The absolute ordering of node ids: by hash, ties in detail. */
  function CmpNodeId(order: Comparator<NodeId>): Comparator<Key> {
    (a: Key, b: Key) =>
      if a.nodeIdHash < b.nodeIdHash then Less
      else if a.nodeIdHash > b.nodeIdHash then More
      else order(a.nodeId, b.nodeId)
  }

  /** The rank of a drawn number: the position of its lowest set bit, and 255 for zero. */
  function Rank(v: nat): nat {
    if v == 0 then 255 else if v % 2 == 1 then 0 else 1 + Rank(v / 2)
  }

  lemma RankOf(v: UInt32)
    ensures Rank(v) <= 255 && (Rank(v) == 255 <==> v == 0)
  {
    if v > 0 {
      EightMore(0);
      EightMore(8);
      EightMore(16);
      EightMore(24);
      RankBelow(v, 32);
    }
  }

  function Pow2(k: nat): nat {
    if k == 0 then 1 else 2 * Pow2(k - 1)
  }

  /** Bit k of the number is set and those below are not; m is what the bits above it make. */
  ghost predicate LowestSet(v: nat, k: nat, m: nat) {
    v == (2 * m + 1) * Pow2(k)
  }

  lemma {:induction false} RankOfMultiple(k: nat, m: nat)
    ensures (2 * m + 1) * Pow2(k) > 0 && Rank((2 * m + 1) * Pow2(k)) == k
  {
    if k > 0 {
      RankOfMultiple(k - 1, m);
      Doubled(2 * m + 1, Pow2(k - 1));
      RankOfDouble((2 * m + 1) * Pow2(k - 1));
    }
  }

  lemma Doubled(n: nat, p: nat)
    ensures n * (2 * p) == 2 * (n * p)
  {
  }

  lemma RankOfDouble(v: nat)
    requires v > 0
    ensures Rank(2 * v) == 1 + Rank(v)
  {
  }

  lemma {:induction false} LowestOf(v: nat) returns (m: nat)
    requires v > 0
    ensures LowestSet(v, Rank(v), m)
  {
    if v % 2 == 1 {
      m := v / 2;
    } else {
      m := LowestOf(v / 2);
      Doubled(2 * m + 1, Pow2(Rank(v / 2)));
    }
  }

  /** The rank of every other number is the position of its lowest set bit. */
  lemma RankExactly(v: nat, k: nat)
    requires v > 0
    ensures Rank(v) == k <==> exists m: nat :: LowestSet(v, k, m)
  {
    var _ := LowestOf(v);
    if m: nat :| LowestSet(v, k, m) {
      RankOfMultiple(k, m);
    }
  }

  lemma EightMore(k: nat)
    ensures Pow2(k + 8) == 0x100 * Pow2(k)
  {
    assert Pow2(k + 8) == 4 * Pow2(k + 6) && Pow2(k + 6) == 4 * Pow2(k + 4);
    assert Pow2(k + 4) == 4 * Pow2(k + 2) && Pow2(k + 2) == 4 * Pow2(k);
  }

  lemma {:induction false} RankBelow(v: nat, bits: nat)
    requires 0 < v < Pow2(bits)
    ensures Rank(v) < bits
  {
    if v % 2 == 0 {
      RankBelow(v / 2, bits - 1);
    }
  }

  /** Some draw is an id not in use; without one the loop over the draws does not end. */
  ghost predicate CanPick(live: map<NodeId, Addr>, ns: nat, random: nat -> nat) {
    exists n: nat :: Unused(live, ns, random, n)
  }

  ghost predicate Unused(live: map<NodeId, Addr>, ns: nat, random: nat -> nat, n: nat) {
    Numeric(ns, random(n)) !in live
  }

  ghost predicate FirstUnused(live: map<NodeId, Addr>, ns: nat, random: nat -> nat, n: nat) {
    Unused(live, ns, random, n) && forall k: nat :: k < n ==> !Unused(live, ns, random, k)
  }

  /** A detached node can be renamed without disturbing what is live. */
  lemma NamedConsistent(s: Store, a: Addr, id: NodeId)
    requires Consistent(s) && Detached(s, a)
    ensures Consistent(Named(s, a, id)) && (id !in s.live ==> Detached(Named(s, a, id), a))
  {
  }

  /** The order of the ids themselves is a premise: total, and tied only by the same id. */
  ghost predicate StrictOrder(order: Comparator<NodeId>) {
    TotalOrder(order) && forall a, b {:trigger order(a, b)} :: order(a, b) == Eq <==> a == b
  }

  lemma KeysOrdered(order: Comparator<NodeId>)
    requires StrictOrder(order)
    ensures TotalOrder(CmpNodeId(order))
    ensures forall a, b :: CmpNodeId(order)(a, b) == Eq <==> a == b
  {
    var cmp := CmpNodeId(order);
    forall a, b ensures cmp(a, b) == Less <==> cmp(b, a) == More {
      assert order(a.nodeId, b.nodeId) == Less <==> order(b.nodeId, a.nodeId) == More;
    }
    forall a, b, c | cmp(a, b) != More && cmp(b, c) != More ensures cmp(a, c) != More {
      KeysTransitive(order, a, b, c);
    }
    forall a, b ensures cmp(a, b) == Eq <==> a == b {
      assert order(a.nodeId, b.nodeId) == Eq <==> a.nodeId == b.nodeId;
    }
  }

  lemma KeysTransitive(order: Comparator<NodeId>, a: Key, b: Key, c: Key)
    requires StrictOrder(order) && CmpNodeId(order)(a, b) != More && CmpNodeId(order)(b, c) != More
    ensures CmpNodeId(order)(a, c) != More
  {
    assert order(a.nodeId, b.nodeId) != More && order(b.nodeId, c.nodeId) != More ==> order(a.nodeId, c.nodeId) != More;
  }

  function KeyOf(hash: HashTable.Hash, id: NodeId): Key {
    Key(hash(id), id)
  }

  /** The items are exactly the live entries, each under the key of its id. */
  ghost predicate Listed(s: seq<Item<Addr, Key>>, hash: HashTable.Hash, live: map<NodeId, Addr>) {
    && (forall x :: x in s ==> x.key.nodeId in live && live[x.key.nodeId] == x.id && x.key == KeyOf(hash, x.key.nodeId))
    && (forall id :: id in live ==> Lists(s, id))
  }

  ghost predicate Lists(s: seq<Item<Addr, Key>>, id: NodeId) {
    exists x :: x in s && x.key.nodeId == id
  }

  ghost predicate Searchable(t: Tree<Addr, Key>, order: Comparator<NodeId>) {
    Shaped(t) && Sorted(CmpNodeId(order), InOrder(t)) && Distinct(InOrder(t))
  }

  /** The invariant of the index. */
  ghost predicate Indexed(t: Tree<Addr, Key>, hash: HashTable.Hash, order: Comparator<NodeId>, live: map<NodeId, Addr>) {
    StrictOrder(order) && Searchable(t, order) && Listed(InOrder(t), hash, live)
  }

  lemma FindLive(t: Tree<Addr, Key>, hash: HashTable.Hash, order: Comparator<NodeId>, live: map<NodeId, Addr>, id: NodeId)
    requires Indexed(t, hash, order, live)
    ensures var f := Find(CmpNodeId(order), t, KeyOf(hash, id));
            if id in live then f.Node? && f.item.id == live[id] && f.item in InOrder(t) && f.item.key == KeyOf(hash, id)
            else f.Nil?
  {
    var cmp, key, s := CmpNodeId(order), KeyOf(hash, id), InOrder(t);
    KeysOrdered(order);
    var i := FindTopmost(cmp, t, key);
    if id in live {
      assert Lists(s, id);
      var x :| x in s && x.key.nodeId == id;
      assert cmp(key, x.key) == Eq;
    }
  }

  lemma {:induction false} InInsertSorted<E, K>(cmp: Comparator<K>, s: seq<Item<E, K>>, x: Item<E, K>)
    ensures forall y :: y in InsertSorted(cmp, s, x) <==> y in s || y == x
  {
    if s != [] && cmp(x.key, s[0].key) != Less {
      InInsertSorted(cmp, s[1..], x);
      assert forall y :: y in s <==> y == s[0] || y in s[1..];
    }
  }

  lemma {:induction false} InWithout<E, K>(s: seq<Item<E, K>>, id: E)
    ensures forall y :: y in Without(s, id) <==> y in s && y.id != id
  {
    if s != [] {
      InWithout(s[1..], id);
      assert forall y :: y in s <==> y == s[0] || y in s[1..];
    }
  }

  lemma InsertSearchable(t: Tree<Addr, Key>, order: Comparator<NodeId>, x: Item<Addr, Key>)
    requires StrictOrder(order) && Searchable(t, order) && Absent(InOrder(t), x.id)
    ensures Searchable(Insert(CmpNodeId(order), t, x), order)
    ensures InOrder(Insert(CmpNodeId(order), t, x)) == InsertSorted(CmpNodeId(order), InOrder(t), x)
  {
    KeysOrdered(order);
    var cmp := CmpNodeId(order);
    InsertShaped(cmp, t, x);
    InsertInOrder(cmp, t, x);
    var _ := InsertSortedKeeps(cmp, InOrder(t), x);
  }

  lemma RemoveSearchable(t: Tree<Addr, Key>, order: Comparator<NodeId>, x: Item<Addr, Key>)
    requires StrictOrder(order) && Searchable(t, order) && x in InOrder(t)
    ensures Searchable(Remove(CmpNodeId(order), t, x.id, x.key), order)
    ensures InOrder(Remove(CmpNodeId(order), t, x.id, x.key)) == Without(InOrder(t), x.id)
  {
    KeysOrdered(order);
    var cmp := CmpNodeId(order);
    WithoutKeeps(cmp, InOrder(t), x);
    RemoveShaped(cmp, t, x.id, x.key);
    RemoveInOrder(cmp, t, x.id, x.key);
  }

  /** Inserting the entry of an id that is not live. */
  lemma InsertKeeps(t: Tree<Addr, Key>, hash: HashTable.Hash, order: Comparator<NodeId>, live: map<NodeId, Addr>,
                    a: Addr, id: NodeId, rank: nat)
    requires Indexed(t, hash, order, live) && id !in live && forall x :: x in live ==> live[x] != a
    ensures Indexed(Insert(CmpNodeId(order), t, Item(a, KeyOf(hash, id), rank)), hash, order, live[id := a])
  {
    hide Searchable, Listed, StrictOrder;
    var x := Item(a, KeyOf(hash, id), rank);
    AbsentFresh(InOrder(t), hash, live, a);
    InsertSearchable(t, order, x);
    InInsertSorted(CmpNodeId(order), InOrder(t), x);
    ListedMore(InOrder(t), InsertSorted(CmpNodeId(order), InOrder(t), x), hash, live, x);
  }

  lemma AbsentFresh(s: seq<Item<Addr, Key>>, hash: HashTable.Hash, live: map<NodeId, Addr>, a: Addr)
    requires Listed(s, hash, live) && forall x :: x in live ==> live[x] != a
    ensures Absent(s, a)
  {
    forall i | 0 <= i < |s| ensures s[i].id != a {
      assert s[i] in s;
    }
  }

  lemma ListedMore(s: seq<Item<Addr, Key>>, s': seq<Item<Addr, Key>>, hash: HashTable.Hash, live: map<NodeId, Addr>,
                   x: Item<Addr, Key>)
    requires Listed(s, hash, live) && x.key.nodeId !in live && x.key == KeyOf(hash, x.key.nodeId)
    requires forall y :: y in s' <==> y in s || y == x
    ensures Listed(s', hash, live[x.key.nodeId := x.id])
  {
    var live' := live[x.key.nodeId := x.id];
    forall id | id in live' ensures Lists(s', id) {
      if id in live {
        assert Lists(s, id);
      }
    }
  }

  /** Removing the entry of a live id. */
  lemma RemoveKeeps(t: Tree<Addr, Key>, hash: HashTable.Hash, order: Comparator<NodeId>, live: map<NodeId, Addr>,
                    x: Item<Addr, Key>)
    requires Indexed(t, hash, order, live) && x in InOrder(t)
    ensures Indexed(Remove(CmpNodeId(order), t, x.id, x.key), hash, order, live - {x.key.nodeId})
  {
    hide Listed, StrictOrder;
    RemoveSearchable(t, order, x);
    InWithout(InOrder(t), x.id);
    ListedLess(InOrder(t), Without(InOrder(t), x.id), hash, live, x);
  }

  lemma ListedLess(s: seq<Item<Addr, Key>>, s': seq<Item<Addr, Key>>, hash: HashTable.Hash, live: map<NodeId, Addr>,
                   x: Item<Addr, Key>)
    requires Listed(s, hash, live) && Distinct(s) && x in s
    requires forall y :: y in s' <==> y in s && y.id != x.id
    ensures Listed(s', hash, live - {x.key.nodeId})
  {
    var live' := live - {x.key.nodeId};
    forall id | id in live' ensures Lists(s', id) {
      assert Lists(s, id);
      var y :| y in s && y.key.nodeId == id;
      OneEntry(s, x, y);
      assert y in s';
    }
  }

  lemma OneEntry<E, K>(s: seq<Item<E, K>>, x: Item<E, K>, y: Item<E, K>)
    requires Distinct(s) && x in s && y in s && x != y
    ensures x.id != y.id
  {
    var i :| 0 <= i < |s| && s[i] == x;
    var j :| 0 <= j < |s| && s[j] == y;
    assert i < j || j < i;
  }

  /** The highest rank belongs to exactly these ids. */
  ghost predicate Ranked(s: seq<Item<Addr, Key>>, atTop: set<NodeId>) {
    forall x :: x in s ==> x.rank <= 255 && (x.rank == 255 <==> x.key.nodeId in atTop)
  }

  lemma InsertRanked(t: Tree<Addr, Key>, hash: HashTable.Hash, order: Comparator<NodeId>, live: map<NodeId, Addr>,
                     a: Addr, id: NodeId, drawn: UInt32, atTop: set<NodeId>)
    requires Indexed(t, hash, order, live) && id !in live && (forall x :: x in live ==> live[x] != a)
    requires Ranked(InOrder(t), atTop) && atTop <= live.Keys
    ensures Ranked(InOrder(Insert(CmpNodeId(order), t, Item(a, KeyOf(hash, id), Rank(drawn)))),
                   if drawn == 0 then atTop + {id} else atTop)
  {
    hide Searchable, StrictOrder, Rank, Listed, Ranked;
    var x := Item(a, KeyOf(hash, id), Rank(drawn));
    RankOf(drawn);
    AbsentFresh(InOrder(t), hash, live, a);
    InsertSearchable(t, order, x);
    InInsertSorted(CmpNodeId(order), InOrder(t), x);
    RankedMore(InOrder(t), InsertSorted(CmpNodeId(order), InOrder(t), x), hash, live, x, atTop);
  }

  lemma RankedMore(s: seq<Item<Addr, Key>>, s': seq<Item<Addr, Key>>, hash: HashTable.Hash, live: map<NodeId, Addr>,
                   x: Item<Addr, Key>, atTop: set<NodeId>)
    requires Listed(s, hash, live) && Ranked(s, atTop) && atTop <= live.Keys && x.key.nodeId !in live && x.rank <= 255
    requires forall y :: y in s' <==> y in s || y == x
    ensures Ranked(s', if x.rank == 255 then atTop + {x.key.nodeId} else atTop)
  {
  }

  lemma RemoveRanked(t: Tree<Addr, Key>, hash: HashTable.Hash, order: Comparator<NodeId>, live: map<NodeId, Addr>,
                     x: Item<Addr, Key>, atTop: set<NodeId>)
    requires Indexed(t, hash, order, live) && x in InOrder(t) && Ranked(InOrder(t), atTop)
    ensures Ranked(InOrder(Remove(CmpNodeId(order), t, x.id, x.key)), atTop - {x.key.nodeId})
  {
    hide StrictOrder, Listed, Ranked;
    RemoveSearchable(t, order, x);
    InWithout(InOrder(t), x.id);
    RankedLess(InOrder(t), Without(InOrder(t), x.id), hash, live, x, atTop);
  }

  lemma RankedLess(s: seq<Item<Addr, Key>>, s': seq<Item<Addr, Key>>, hash: HashTable.Hash, live: map<NodeId, Addr>,
                   x: Item<Addr, Key>, atTop: set<NodeId>)
    requires Listed(s, hash, live) && Ranked(s, atTop) && x in s && forall y :: y in s' <==> y in s && y.id != x.id
    ensures Ranked(s', atTop - {x.key.nodeId})
  {
  }

  lemma ConsistentNow(store: Store)
    requires Consistent(store)
    ensures forall id :: id in store.live ==>
              store.live[id] in store.heap && store.heap[store.live[id]].nodeId == id && !store.heap[store.live[id]].deleted
  {
  }

  /** Replacing while the old version is held for the time being comes to the same. */
  lemma ReplacedHeld(s: Store, a: Addr, o: Addr)
    requires Consistent(s) && Detached(s, a) && s.heap[a].nodeId in s.live && s.live[s.heap[a].nodeId] == o
    requires s.heap[o].refCount + 1 < COUNT_LIMIT
    ensures var e, held := s.heap[a], Held(s, o);
            && o in held.heap && o != a && held.heap[a] == e && held.heap[o].refCount > 0
            && if e.orig != Some(o) then Replaced(s, a) == (Released(Free(held, a), o), BadInternalError)
               else
                 var gone := held.(heap := held.heap[o := held.heap[o].(deleted := true)], live := s.live[e.nodeId := a]);
                 Replaced(s, a) == (Released(gone, o), Good)
  {
    var e, held := s.heap[a], Held(s, o);
    if e.orig != Some(o) {
      assert Released(Free(held, a), o).heap == Free(s, a).heap;
    } else {
      var gone := held.(heap := held.heap[o := held.heap[o].(deleted := true)], live := s.live[e.nodeId := a]);
      assert Released(gone, o).heap == Replaced(s, a).0.heap;
    }
  }

  class ZipContext {
    const hash: HashTable.Hash
    const order: Comparator<NodeId>
    var root: Tree<Addr, Key>
    var heap: map<Addr, Entry>
    var referenceTypes: seq<NodeId>
    ghost var live: map<NodeId, Addr>
    /** The live ids whose entries were put into the tree with the number zero: by every replacement,
        and by an insertion that happened to draw it. */
    ghost var atTop: set<NodeId>

    ghost function Abs(): Store
      reads this
    {
      Store(live, heap, referenceTypes)
    }

    ghost predicate Valid()
      reads this
    {
      && Consistent(Abs()) && Indexed(root, hash, order, live)
      && Ranked(InOrder(root), atTop) && atTop <= live.Keys
    }

    constructor (hash: HashTable.Hash, order: Comparator<NodeId>)
      requires StrictOrder(order)
      ensures Valid() && Abs() == Store(map[], map[], []) && this.hash == hash && this.order == order && atTop == {}
    {
      this.hash, this.order := hash, order;
      root, heap, referenceTypes, live, atTop := Nil, map[], [], map[], {};
    }

    method FindEntry(id: NodeId) returns (r: Option<Item<Addr, Key>>)
      requires Valid()
      ensures r.Some? <==> id in live
      ensures r.Some? ==> r.value.id == live[id] && live[id] in heap && r.value in InOrder(root) && r.value.key == KeyOf(hash, id)
    {
      FindLive(root, hash, order, live, id);
      var t := Find(CmpNodeId(order), root, KeyOf(hash, id));
      r := if t.Nil? then None else Some(t.item);
    }

    method NewNode(a: Addr, id: NodeId, content: nat, isReferenceType: bool)
      requires Valid() && a !in heap
      modifies this`heap
      ensures Valid() && Abs() == Created(old(Abs()), a, id, content, isReferenceType)
    {
      heap := heap[a := Entry(id, content, isReferenceType, 0, None, 0, false)];
    }

    method DeleteNode(a: Addr)
      requires Valid() && Detached(Abs(), a)
      modifies this`heap
      ensures Valid() && Abs() == Free(old(Abs()), a)
    {
      heap := heap - {a};
    }

    method GetNode(id: NodeId) returns (r: Option<Addr>)
      requires Valid()
      modifies this`heap
      ensures Valid() && (Abs(), r) == Got(old(Abs()), id)
    {
      hide Indexed, Ranked, InOrder;
      var x := FindEntry(id);
      if x.None? {
        return None;
      }
      var a := x.value.id;
      heap := heap[a := heap[a].(refCount := (heap[a].refCount + 1) % COUNT_LIMIT)];
      r := Some(a);
    }

    method ReleaseNode(a: Addr)
      requires Valid() && a in heap && heap[a].refCount > 0
      modifies this`heap
      ensures Valid() && Abs() == Released(old(Abs()), a)
    {
      hide Indexed, Ranked, InOrder;
      heap := heap[a := heap[a].(refCount := heap[a].refCount - 1)];
      CleanupEntry(a);
    }

    method CleanupEntry(a: Addr)
      requires a in heap
      modifies this`heap
      ensures Abs() == Cleanup(old(Abs()), a)
    {
      if heap[a].refCount > 0 {
        return;
      }
      if heap[a].deleted {
        heap := heap - {a};
      }
    }

    /** The original is held while it is copied. */
    method GetNodeCopy(id: NodeId, a: Addr) returns (r: Status)
      requires Valid() && a !in heap
      requires id in live && live[id] in heap ==> heap[live[id]].refCount + 1 < COUNT_LIMIT
      modifies this`heap
      ensures Valid() && (Abs(), r) == Copied(old(Abs()), id, a)
    {
      hide Indexed, Ranked, InOrder;
      ghost var heap0 := heap;
      var node := GetNode(id);
      if node.None? {
        return BadNodeIdUnknown;
      }
      var copy := heap[node.value].(refCount := 0, deleted := false, orig := None);
      ReleaseNode(node.value);
      assert heap == heap0;
      heap := heap[a := copy.(orig := Some(node.value))];
      r := Good;
    }

    /** Draws ids until one is not in use. */
    method PickId(a: Addr, ns: nat, random: nat -> nat, ghost store: Store, ghost own: NodeId) returns (ghost n: nat)
      requires Tried(store, a, own) && CanPick(live, ns, random)
      modifies this`heap
      ensures FirstUnused(live, ns, random, n) && Tried(store, a, Numeric(ns, random(n)))
    {
      hide Valid, Consistent, Tried;
      ghost var last: nat :| Unused(live, ns, random, last);
      n := 0;
      var drawn := 0;
      var taken := Try(a, own, Numeric(ns, random(drawn)), store);
      while taken
        invariant drawn == n <= last && Tried(store, a, Numeric(ns, random(n)))
        invariant forall k: nat :: k < n ==> !Unused(live, ns, random, k)
        invariant taken <==> !Unused(live, ns, random, n)
        decreases last - n
      {
        n, drawn := n + 1, drawn + 1;
        taken := Try(a, Numeric(ns, random(n - 1)), Numeric(ns, random(drawn)), store);
      }
    }

    /** The detached node goes by this id; all else is as before. */
    ghost predicate Tried(store: Store, a: Addr, id: NodeId)
      reads this
    {
      && Consistent(store) && Detached(store, a) && Abs() == Named(store, a, id) && Valid()
      && (id !in live ==> Detached(Abs(), a))
    }

    /** Renames the node and looks for the id. */
    method Try(a: Addr, ghost was: NodeId, id: NodeId, ghost store: Store) returns (taken: bool)
      requires Tried(store, a, was)
      modifies this`heap
      ensures Tried(store, a, id) && (taken <==> id in live) && live == old(live)
    {
      hide Indexed, Ranked, InOrder;
      heap := heap[a := heap[a].(nodeId := id)];
      NamedConsistent(store, a, id);
      var found := FindEntry(id);
      taken := found.Some?;
    }

    /** Inserts a node under its own id, or under one drawn at random when it came with the numeric id
        zero, and with a rank drawn by the caller. */
    method InsertNode(a: Addr, drawn: UInt32, random: nat -> nat) returns (r: Status, ghost chosen: NodeId)
      requires Valid() && Detached(Abs(), a)
      requires WantsId(heap[a].nodeId) ==> CanPick(live, heap[a].nodeId.ns, random)
      modifies this
      ensures Valid() && (Abs(), r) == Inserted(Named(old(Abs()), a, chosen), a)
      ensures Chosen(old(Abs()), old(heap)[a].nodeId, chosen)
      ensures var own := old(heap)[a].nodeId;
              if own == Numeric(own.ns, 0) then
                exists n :: FirstUnused(old(live), own.ns, random, n) && chosen == Numeric(own.ns, random(n))
              else chosen == own
      ensures atTop == old(atTop) + if r.Good? && drawn == 0 then {chosen} else {}
    {
      hide Indexed, Ranked, InOrder;
      ghost var store := Abs();
      chosen := heap[a].nodeId;
      if WantsId(heap[a].nodeId) {
        ghost var n := PickId(a, heap[a].nodeId.ns, random, store, chosen);
        chosen := Numeric(chosen.ns, random(n));
      } else {
        var found := FindEntry(heap[a].nodeId);
        if found.Some? {
          assert Abs() == Named(store, a, chosen);
          DeleteNode(a);
          return BadNodeIdExists, chosen;
        }
      }
      assert Abs() == Named(store, a, chosen);
      r := Publish(a, drawn);
    }

    /** Inserts a node under its own id, which is not in use. */
    method Publish(a: Addr, drawn: UInt32) returns (r: Status)
      requires Valid() && Detached(Abs(), a) && heap[a].nodeId !in live
      modifies this
      ensures Valid() && (Abs(), r) == Inserted(old(Abs()), a)
      ensures atTop == old(atTop) + if r.Good? && drawn == 0 then {old(heap)[a].nodeId} else {}
    {
      hide Indexed, Ranked, InOrder;
      ghost var store := Abs();
      var id := heap[a].nodeId;
      if heap[a].isReferenceType {
        if |referenceTypes| >= REFERENCETYPESET_MAX {
          DeleteNode(a);
          return BadInternalError;
        }
        heap := heap[a := heap[a].(referenceTypeIndex := |referenceTypes|)];
        referenceTypes := referenceTypes + [id];
      }
      Place(a, id, drawn);
      r := Good;
      assert Abs().heap == Published(store, a).heap && Abs().live == Published(store, a).live;
    }

    method Place(a: Addr, id: NodeId, drawn: UInt32)
      requires Valid() && a in heap && !heap[a].deleted && heap[a].nodeId == id && id !in live
      modifies this`root, this`live, this`atTop
      ensures Valid() && live == old(live)[id := a] && atTop == old(atTop) + if drawn == 0 then {id} else {}
    {
      hide Indexed, Ranked, Rank, InOrder;
      ConsistentNow(Abs());
      InsertKeeps(root, hash, order, live, a, id, Rank(drawn));
      InsertRanked(root, hash, order, live, a, id, drawn, atTop);
      root := Insert(CmpNodeId(order), root, Item(a, KeyOf(hash, id), Rank(drawn)));
      live, atTop := live[id := a], if drawn == 0 then atTop + {id} else atTop;
    }

    method Displace(x: Item<Addr, Key>)
      requires Valid() && x in InOrder(root)
      modifies this`root, this`live, this`atTop
      ensures Valid() && live == old(live) - {x.key.nodeId} && atTop == old(atTop) - {x.key.nodeId}
    {
      hide Indexed, Ranked, InOrder;
      RemoveKeeps(root, hash, order, live, x);
      RemoveRanked(root, hash, order, live, x, atTop);
      root := Remove(CmpNodeId(order), root, x.id, x.key);
      live, atTop := live - {x.key.nodeId}, atTop - {x.key.nodeId};
    }

    /** The old version is held while it is compared and exchanged; the release at the end frees it
        when nobody else holds it. A node made as a copy still has the drawn number zero. */
    method ReplaceNode(a: Addr) returns (r: Status)
      requires Valid() && Detached(Abs(), a)
      requires var id := heap[a].nodeId; id in live && live[id] in heap ==> heap[live[id]].refCount + 1 < COUNT_LIMIT
      modifies this
      ensures Valid() && (Abs(), r) == Replaced(old(Abs()), a)
      ensures atTop == old(atTop) + if r.Good? then {old(heap)[a].nodeId} else {}
    {
      hide Indexed, Ranked, InOrder;
      ghost var store := Abs();
      var id := heap[a].nodeId;
      var x := FindEntry(id);
      var oldNode := GetNode(id);
      if oldNode.None? {
        DeleteNode(a);
        return BadNodeIdUnknown;
      }
      ReplacedHeld(store, a, oldNode.value);
      hide Replaced, Consistent, Released;
      if heap[a].orig != oldNode {
        DeleteNode(a);
        ReleaseNode(oldNode.value);
        return BadInternalError;
      }
      Exchange(x.value, a, id);
      ReleaseNode(oldNode.value);
      r := Good;
    }

    method Exchange(x: Item<Addr, Key>, a: Addr, id: NodeId)
      requires Valid() && x in InOrder(root) && x.key.nodeId == id && id in live && x.id == live[id] && x.id != a
      requires a in heap && !heap[a].deleted && heap[a].nodeId == id && x.id in heap
      modifies this`root, this`live, this`heap, this`atTop
      ensures Valid() && live == old(live)[id := a] && atTop == old(atTop) + {id}
      ensures x.id in old(heap) && heap == old(heap)[x.id := old(heap)[x.id].(deleted := true)]
    {
      hide Indexed, Ranked, InOrder;
      ghost var live0 := live;
      Displace(x);
      Place(a, id, 0);
      assert live == live0[id := a];
      ConsistentNow(Abs());
      heap := heap[x.id := heap[x.id].(deleted := true)];
    }

    method RemoveNode(id: NodeId) returns (r: Status)
      requires Valid()
      modifies this
      ensures Valid() && (Abs(), r) == Removed(old(Abs()), id) && atTop == old(atTop) - {id}
    {
      hide Indexed, Ranked, InOrder;
      var x := FindEntry(id);
      if x.None? {
        return BadNodeIdUnknown;
      }
      var entry := x.value.id;
      Displace(x.value);
      ConsistentNow(Abs());
      heap := heap[entry := heap[entry].(deleted := true)];
      CleanupEntry(entry);
      r := Good;
    }
  }
}

/** The timer: every entry is held in two AA trees, by due time and by id, and its due time
    changes only while it is out of the first. Entries are records in a memory map indexed by
    their address. */
module Timer {
  import Seqs
  import opened Options
  import opened Ordering
  import A = AaTree
  import opened Schedule
  import opened Callbacks

  const MAX_TIME: int := 0x7fff_ffff_ffff_ffff

  datatype DueKey = DueKey(time: int, addr: nat)

  /** Equal due times are told apart by the address, so two entries never tie. */
  function CmpDateTime(a: DueKey, b: DueKey): Cmp {
    if a.time < b.time then Less
    else if a.time > b.time then More
    else if a.addr == b.addr then Eq
    else if a.addr < b.addr then Less
    else More
  }

  function CmpId(a: nat, b: nat): Cmp {
    if a < b then Less else if a == b then Eq else More
  }

  lemma ComparatorsAreOrders()
    ensures TotalOrder(CmpDateTime) && TotalOrder(CmpId)
  {
  }

  type DueTree = A.Tree<nat, DueKey>

  type IdTree = A.Tree<nat, nat>

  function DueItem(x: Rec): A.Item<nat, DueKey> {
    A.Item(x.addr, DueKey(x.time, x.addr), x.addr)
  }

  function IdItem(x: Rec): A.Item<nat, nat> {
    A.Item(x.addr, x.id, x.addr)
  }

  function DueItems(s: seq<Rec>): (r: seq<A.Item<nat, DueKey>>)
    ensures |r| == |s| && forall i :: 0 <= i < |s| ==> r[i] == DueItem(s[i])
  {
    if s == [] then [] else [DueItem(s[0])] + DueItems(s[1..])
  }

  ghost predicate NoAddr(s: seq<Rec>, addr: nat) {
    forall i :: 0 <= i < |s| ==> s[i].addr != addr
  }

  // ---------- what the two trees hold ----------

  /** The due tree lists exactly the schedule, in due order. */
  ghost predicate HoldsDue(t: DueTree, s: seq<Rec>) {
    A.InOrder(t) == DueItems(s) && A.Sorted(CmpDateTime, DueItems(s)) && A.Distinct(DueItems(s))
  }

  ghost predicate SameIds(items: seq<A.Item<nat, nat>>, s: seq<Rec>) {
    && (forall x :: x in s ==> IdItem(x) in items)
    && (forall y :: y in items ==> exists x :: x in s && y == IdItem(x))
  }

  /** The id tree lists the same entries, by id. */
  ghost predicate HoldsIds(t: IdTree, s: seq<Rec>) {
    SameIds(A.InOrder(t), s) && A.Sorted(CmpId, A.InOrder(t)) && A.Distinct(A.InOrder(t))
  }

  lemma {:induction false} EnqueueItems(s: seq<Rec>, x: Rec)
    ensures DueItems(Enqueue(s, x)) == A.InsertSorted(CmpDateTime, DueItems(s), DueItem(x))
  {
    if s != [] {
      assert A.Before(CmpDateTime, DueItem(x), DueItem(s[0])) <==> Earlier(x, s[0]);
      Seqs.Uncons(DueItems(s), []);
      if Earlier(x, s[0]) {
        Seqs.Uncons([x], s);
      } else {
        EnqueueItems(s[1..], x);
        Seqs.Uncons([s[0]], Enqueue(s[1..], x));
      }
    }
  }

  lemma {:induction false} WithoutItems(s: seq<Rec>, addr: nat)
    ensures DueItems(WithoutAddr(s, addr)) == A.Without(DueItems(s), addr)
  {
    if s != [] {
      WithoutItems(s[1..], addr);
      Seqs.Uncons([s[0]], WithoutAddr(s[1..], addr));
      Seqs.Empty(WithoutAddr(s[1..], addr));
    }
  }

  lemma InsertDue(t: DueTree, s: seq<Rec>, x: Rec)
    requires HoldsDue(t, s) && NoAddr(s, x.addr)
    ensures HoldsDue(A.Insert(CmpDateTime, t, DueItem(x)), Enqueue(s, x))
  {
    ComparatorsAreOrders();
    EnqueueItems(s, x);
    A.InsertInOrder(CmpDateTime, t, DueItem(x));
    A.InsertSortedKeeps(CmpDateTime, DueItems(s), DueItem(x));
  }

  lemma RemoveDue(t: DueTree, s: seq<Rec>, x: Rec)
    requires HoldsDue(t, s) && x in s
    ensures HoldsDue(A.Remove(CmpDateTime, t, DueKey(x.time, x.addr), x.addr), WithoutAddr(s, x.addr))
  {
    ComparatorsAreOrders();
    var items := DueItems(s);
    var k :| 0 <= k < |s| && s[k] == x;
    forall i | 0 <= i < |items| && i != k ensures items[i].addr != x.addr {
      assert items[k].addr == x.addr && (i < k || k < i);
    }
    A.RemoveInOrder(CmpDateTime, t, DueKey(x.time, x.addr), x.addr);
    WithoutItems(s, x.addr);
    A.WithoutKeeps(CmpDateTime, items, x.addr);
  }

  lemma {:induction false} EnqueueMembers(s: seq<Rec>, x: Rec, y: Rec)
    ensures y in Enqueue(s, x) <==> y in s || y == x
  {
    if s != [] && !Earlier(x, s[0]) {
      EnqueueMembers(s[1..], x, y);
      Seqs.Uncons(s, []);
    }
  }

  lemma {:induction false} WithoutMembers(s: seq<Rec>, addr: nat, y: Rec)
    ensures y in WithoutAddr(s, addr) <==> y in s && y.addr != addr
  {
    if s != [] {
      WithoutMembers(s[1..], addr, y);
      Seqs.Uncons(s, []);
    }
  }

  lemma {:induction false} InsertSortedMembers(s: seq<A.Item<nat, nat>>, x: A.Item<nat, nat>, y: A.Item<nat, nat>)
    ensures y in A.InsertSorted(CmpId, s, x) <==> y in s || y == x
  {
    if s != [] && !A.Before(CmpId, x, s[0]) {
      InsertSortedMembers(s[1..], x, y);
      Seqs.Uncons(s, []);
    }
  }

  lemma {:induction false} WithoutItemMembers(s: seq<A.Item<nat, nat>>, addr: nat, y: A.Item<nat, nat>)
    ensures y in A.Without(s, addr) <==> y in s && y.addr != addr
  {
    if s != [] {
      WithoutItemMembers(s[1..], addr, y);
      Seqs.Uncons(s, []);
    }
  }

  lemma InsertIds(t: IdTree, s: seq<Rec>, x: Rec)
    requires HoldsIds(t, s) && NoAddr(s, x.addr)
    ensures HoldsIds(A.Insert(CmpId, t, IdItem(x)), Enqueue(s, x))
  {
    ComparatorsAreOrders();
    var items := A.InOrder(t);
    forall i | 0 <= i < |items| ensures items[i].addr != x.addr {
      assert items[i] in items;
    }
    A.InsertInOrder(CmpId, t, IdItem(x));
    A.InsertSortedKeeps(CmpId, items, IdItem(x));
    var items' := A.InsertSorted(CmpId, items, IdItem(x));
    forall r | r in Enqueue(s, x) ensures IdItem(r) in items' {
      EnqueueMembers(s, x, r);
      InsertSortedMembers(items, IdItem(x), IdItem(r));
    }
    forall y | y in items' ensures exists r :: r in Enqueue(s, x) && y == IdItem(r) {
      InsertSortedMembers(items, IdItem(x), y);
      var r :| (r in s || r == x) && y == IdItem(r);
      EnqueueMembers(s, x, r);
    }
  }

  lemma RemoveIds(t: IdTree, s: seq<Rec>, x: Rec)
    requires HoldsIds(t, s) && x in s && (forall y :: y in s && y.addr == x.addr ==> y == x)
    ensures HoldsIds(A.Remove(CmpId, t, x.id, x.addr), WithoutAddr(s, x.addr))
  {
    ComparatorsAreOrders();
    var items, s' := A.InOrder(t), WithoutAddr(s, x.addr);
    forall i | 0 <= i < |items| && items[i].addr == x.addr ensures items[i].key == x.id {
      assert items[i] in items;
    }
    A.RemoveInOrder(CmpId, t, x.id, x.addr);
    A.WithoutKeeps(CmpId, items, x.addr);
    forall r | r in s' ensures IdItem(r) in A.Without(items, x.addr) {
      WithoutMembers(s, x.addr, r);
      WithoutItemMembers(items, x.addr, IdItem(r));
    }
    forall y | y in A.Without(items, x.addr) ensures exists r :: r in s' && y == IdItem(r) {
      WithoutItemMembers(items, x.addr, y);
      var r :| r in s && y == IdItem(r);
      WithoutMembers(s, x.addr, r);
    }
  }

  /** Moving an entry to another due time leaves the id tree right as it is. */
  lemma MovedIds(t: IdTree, s: seq<Rec>, x: Rec, x': Rec)
    requires HoldsIds(t, s) && x in s && IdItem(x) == IdItem(x')
    requires forall y :: y in s && y.addr == x.addr ==> y == x
    ensures HoldsIds(t, Enqueue(WithoutAddr(s, x.addr), x'))
  {
    var items, s' := A.InOrder(t), Enqueue(WithoutAddr(s, x.addr), x');
    forall r ensures r in s' <==> (r in s && r.addr != x.addr) || r == x' {
      EnqueueMembers(WithoutAddr(s, x.addr), x', r);
      WithoutMembers(s, x.addr, r);
    }
    forall y | y in items ensures exists r :: r in s' && y == IdItem(r) {
      var r :| r in s && y == IdItem(r);
      if r == x {
        assert x' in s' && y == IdItem(x');
      } else {
        assert r in s';
      }
    }
  }

  lemma DueFacts(t: DueTree, s: seq<Rec>)
    requires HoldsDue(t, s)
    ensures InDueOrder(s)
    ensures forall x, y :: x in s && y in s && x.addr == y.addr ==> x == y
  {
    var items := DueItems(s);
    forall i, j | 0 <= i < j < |s| ensures s[i].time <= s[j].time {
      assert A.Before(CmpDateTime, items[i], items[j]);
    }
    forall x, y | x in s && y in s && x.addr == y.addr ensures x == y {
      var i :| 0 <= i < |s| && s[i] == x;
      var j :| 0 <= j < |s| && s[j] == y;
      assert items[i].addr == items[j].addr;
    }
  }

  lemma {:induction false} WithoutIds(s: seq<Rec>, x: Rec)
    requires UniqueIds(s) && x in s && (forall y :: y in s && y.addr == x.addr ==> y == x)
    ensures UniqueIds(WithoutAddr(s, x.addr)) && NoId(WithoutAddr(s, x.addr), x.id) && NoAddr(WithoutAddr(s, x.addr), x.addr)
    ensures s[0] == x ==> WithoutAddr(s, x.addr) == s[1..]
    ensures forall id: nat :: id != x.id ==> Lookup(WithoutAddr(s, x.addr), id) == Lookup(s, id)
  {
    var s' := WithoutAddr(s, x.addr);
    forall i | 0 <= i < |s'| ensures s'[i].id != x.id && s'[i].addr != x.addr {
      WithoutMembers(s, x.addr, s'[i]);
      var j :| 0 <= j < |s| && s[j] == s'[i];
      var k :| 0 <= k < |s| && s[k] == x;
      assert j != k && s[j].id != s[k].id;
    }
    WithoutLookup(s, x.addr);
    forall id: nat | id != x.id ensures Lookup(s', id) == Lookup(s, id) {
      WithoutOther(s, x, id);
    }
    if s[0] == x {
      forall i | 0 <= i < |s[1..]| ensures s[1..][i].addr != x.addr {
        assert s[1..][i] == s[i + 1] && s[0].id != s[i + 1].id && s[i + 1] in s;
      }
      WithoutNone(s[1..], x.addr);
    }
  }

  lemma {:induction false} LookupUnique(s: seq<Rec>, x: Rec)
    requires UniqueIds(s) && x in s
    ensures Lookup(s, x.id) == Some(x)
  {
    if s[0] != x {
      Seqs.Uncons(s, []);
      ConsIds(s[0], s[1..], x.id);
      var i :| 0 <= i < |s[1..]| && s[1..][i] == x;
      assert s[i + 1] == x;
      LookupUnique(s[1..], x);
    }
  }

  lemma {:induction false} LookupMember(s: seq<Rec>, id: nat)
    ensures Lookup(s, id).Some? ==> Lookup(s, id).value in s && Lookup(s, id).value.id == id
  {
    if s != [] {
      LookupMember(s[1..], id);
    }
  }

  lemma {:induction false} WithoutNone(s: seq<Rec>, addr: nat)
    requires NoAddr(s, addr)
    ensures WithoutAddr(s, addr) == s
  {
    if s != [] {
      WithoutNone(s[1..], addr);
    }
  }

  lemma {:induction false} WithoutLookup(s: seq<Rec>, addr: nat)
    requires UniqueIds(s)
    ensures UniqueIds(WithoutAddr(s, addr))
    ensures forall id: nat :: NoId(s, id) ==> NoId(WithoutAddr(s, addr), id)
  {
    if s != [] {
      Seqs.Uncons(s, []);
      ConsIds(s[0], s[1..], s[0].id);
      WithoutLookup(s[1..], addr);
      var r := WithoutAddr(s[1..], addr);
      ConsIds(s[0], r, s[0].id);
      Seqs.Empty(r);
      forall id: nat | NoId(s, id) ensures NoId(WithoutAddr(s, addr), id) {
        ConsIds(s[0], s[1..], id);
        ConsIds(s[0], r, id);
      }
    }
  }

  lemma {:induction false} WithoutOther(s: seq<Rec>, x: Rec, id: nat)
    requires id != x.id && (forall y :: y in s && y.addr == x.addr ==> y == x)
    ensures Lookup(WithoutAddr(s, x.addr), id) == Lookup(s, id)
  {
    if s != [] {
      WithoutOther(s[1..], x, id);
      var r := WithoutAddr(s[1..], x.addr);
      Seqs.Uncons([s[0]], r);
      Seqs.Empty(r);
    }
  }

  datatype Status = Good | BadInternalError | BadNotFound

  function WithCallback(log: seq<Rec>): seq<Rec> {
    if log == [] then [] else (if log[0].callback then [log[0]] else []) + WithCallback(log[1..])
  }

  lemma NothingRan()
    ensures WithCallback([]) == []
  {
  }

  lemma {:induction false} WithCallbackAppend(a: seq<Rec>, x: Rec)
    ensures WithCallback(a + [x]) == WithCallback(a) + if x.callback then [x] else []
  {
    if a == [] {
      Seqs.Empty([x]);
      Seqs.Uncons([x], []);
    } else {
      Seqs.Uncons(a, [x]);
      WithCallbackAppend(a[1..], x);
      Seqs.Assoc(if a[0].callback then [a[0]] else [], WithCallback(a[1..]), if x.callback then [x] else []);
    }
  }

  /** Both trees and the entry memory describe the same schedule, and ids are unique. */
  ghost predicate Consistent(root: DueTree, idRoot: IdTree, idCounter: nat, entries: map<nat, Rec>, s: seq<Rec>) {
    && HoldsDue(root, s) && HoldsIds(idRoot, s) && UniqueIds(s) && Stored(idCounter, entries, s)
  }

  ghost predicate Stored(idCounter: nat, entries: map<nat, Rec>, s: seq<Rec>) {
    && (forall x :: x in s ==> x.addr in entries && entries[x.addr] == x && 0 < x.id <= idCounter)
    && (forall a :: a in entries ==> entries[a] in s && entries[a].addr == a)
  }

  lemma AddStored(idCounter: nat, entries: map<nat, Rec>, s: seq<Rec>, x: Rec)
    requires Stored(idCounter, entries, s) && x.addr !in entries && x.id == idCounter + 1
    ensures Stored(idCounter + 1, entries[x.addr := x], Enqueue(s, x))
    ensures NoAddr(s, x.addr) && NoId(s, x.id)
  {
    assert forall i :: 0 <= i < |s| ==> s[i] in s;
    forall y ensures y in Enqueue(s, x) <==> y in s || y == x {
      EnqueueMembers(s, x, y);
    }
  }

  lemma MoveStored(idCounter: nat, entries: map<nat, Rec>, s: seq<Rec>, x: Rec, x': Rec)
    requires Stored(idCounter, entries, s) && x in s && x'.addr == x.addr && x'.id == x.id
    ensures Stored(idCounter, entries[x.addr := x'], Enqueue(WithoutAddr(s, x.addr), x'))
  {
    forall y ensures y in Enqueue(WithoutAddr(s, x.addr), x') <==> (y in s && y.addr != x.addr) || y == x' {
      EnqueueMembers(WithoutAddr(s, x.addr), x', y);
      WithoutMembers(s, x.addr, y);
    }
  }

  lemma FreeStored(idCounter: nat, entries: map<nat, Rec>, s: seq<Rec>, x: Rec)
    requires Stored(idCounter, entries, s)
    ensures Stored(idCounter, entries - {x.addr}, WithoutAddr(s, x.addr))
  {
    forall y ensures y in WithoutAddr(s, x.addr) <==> y in s && y.addr != x.addr {
      WithoutMembers(s, x.addr, y);
    }
  }

  lemma AddConsistent(root: DueTree, idRoot: IdTree, idCounter: nat, entries: map<nat, Rec>, s: seq<Rec>, x: Rec)
    requires Consistent(root, idRoot, idCounter, entries, s) && x.addr !in entries && x.id == idCounter + 1
    ensures Consistent(A.Insert(CmpDateTime, root, DueItem(x)), A.Insert(CmpId, idRoot, IdItem(x)),
                       idCounter + 1, entries[x.addr := x], Enqueue(s, x))
    ensures NoId(s, x.id)
  {
    AddStored(idCounter, entries, s, x);
    InsertDue(root, s, x);
    InsertIds(idRoot, s, x);
    EnqueueLookup(s, x, x.id);
  }

  lemma FreeConsistent(root: DueTree, idRoot: IdTree, idCounter: nat, entries: map<nat, Rec>, s: seq<Rec>, x: Rec)
    requires Consistent(root, idRoot, idCounter, entries, s) && x in s
    ensures Consistent(A.Remove(CmpDateTime, root, DueKey(x.time, x.addr), x.addr), A.Remove(CmpId, idRoot, x.id, x.addr),
                       idCounter, entries - {x.addr}, WithoutAddr(s, x.addr))
    ensures Moved(s, WithoutAddr(s, x.addr), x.id, None)
    ensures s[0] == x ==> WithoutAddr(s, x.addr) == s[1..]
  {
    DueFacts(root, s);
    WithoutIds(s, x);
    LookupAbsent(WithoutAddr(s, x.addr), x.id);
    RemoveDue(root, s, x);
    RemoveIds(idRoot, s, x);
    FreeStored(idCounter, entries, s, x);
  }

  /** The entry is out of the due tree, and still in the id tree, while its due time changes. */
  lemma MoveConsistent(root: DueTree, idRoot: IdTree, idCounter: nat, entries: map<nat, Rec>, s: seq<Rec>, x: Rec, x': Rec)
    requires Consistent(root, idRoot, idCounter, entries, s) && x in s && x'.addr == x.addr && x'.id == x.id
    ensures var out := A.Remove(CmpDateTime, root, DueKey(x.time, x.addr), x.addr);
            Consistent(A.Insert(CmpDateTime, out, DueItem(x')), idRoot, idCounter, entries[x.addr := x'],
                       Enqueue(WithoutAddr(s, x.addr), x'))
    ensures Moved(s, Enqueue(WithoutAddr(s, x.addr), x'), x.id, Some(x'))
    ensures s[0] == x ==> WithoutAddr(s, x.addr) == s[1..]
  {
    var rest := WithoutAddr(s, x.addr);
    DueFacts(root, s);
    WithoutIds(s, x);
    MovedIds(idRoot, s, x, x');
    RemoveDue(root, s, x);
    InsertDue(A.Remove(CmpDateTime, root, DueKey(x.time, x.addr), x.addr), rest, x');
    MoveStored(idCounter, entries, s, x, x');
    EnqueueLookup(rest, x', x'.id);
    forall k: nat ensures Lookup(Enqueue(rest, x'), k) == if k == x.id then Some(x') else Lookup(s, k) {
      EnqueueLookup(rest, x', k);
    }
  }

  /** A search by id returns the entry with that id, wherever it is in the schedule. */
  lemma FindConsistent(idRoot: IdTree, idCounter: nat, entries: map<nat, Rec>, s: seq<Rec>, id: nat)
    requires HoldsIds(idRoot, s) && UniqueIds(s) && Stored(idCounter, entries, s)
    ensures var f := A.Search(CmpId, idRoot, id);
            if f.Nil? then Lookup(s, id) == None
            else f.item.addr in entries && Lookup(s, id) == Some(entries[f.item.addr])
  {
    var f := A.Search(CmpId, idRoot, id);
    var items := A.InOrder(idRoot);
    ComparatorsAreOrders();
    A.SearchFinds(CmpId, idRoot, id);
    LookupAbsent(s, id);
    if f.Nil? {
      forall i | 0 <= i < |s| ensures s[i].id != id {
        assert s[i] in s;
        var k :| 0 <= k < |items| && items[k] == IdItem(s[i]);
        assert CmpId(id, items[k].key) != Eq;
      }
    } else {
      var x :| x in s && f.item == IdItem(x);
      LookupUnique(s, x);
    }
  }

  /** The minimum of the due tree is the head of the schedule. */
  lemma FirstIsDue(root: DueTree, idCounter: nat, entries: map<nat, Rec>, s: seq<Rec>)
    requires HoldsDue(root, s) && Stored(idCounter, entries, s)
    ensures root.Nil? <==> s == []
    ensures root.Node? ==>
              && A.MinItem(root).addr in entries
              && entries[A.MinItem(root).addr] == s[0]
              && A.MinItem(root).key.time == s[0].time
              && forall x :: x in s ==> s[0].time <= x.time
  {
    assert |A.InOrder(root)| == |s|;
    if root.Node? {
      A.MinIsFirst(root);
      assert s[0] in s;
      DueFacts(root, s);
      assert forall i :: 0 < i < |s| ==> s[0].time <= s[i].time;
    }
  }

  lemma FirstNow(root: DueTree, idRoot: IdTree, idCounter: nat, entries: map<nat, Rec>, s: seq<Rec>)
    requires Consistent(root, idRoot, idCounter, entries, s)
    ensures root.Nil? <==> s == []
    ensures root.Node? ==> A.MinItem(root).key.time == s[0].time && forall x :: x in s ==> s[0].time <= x.time
  {
    FirstIsDue(root, idCounter, entries, s);
  }

  /** Every entry that is still allocated is listed in the id tree. */
  ghost predicate AllListed(t: IdTree, entries: map<nat, Rec>) {
    && A.Sorted(CmpId, A.InOrder(t)) && A.Distinct(A.InOrder(t))
    && forall a :: a in entries ==> ListsAddr(A.InOrder(t), a)
  }

  ghost predicate ListsAddr(items: seq<A.Item<nat, nat>>, a: nat) {
    exists y :: y in items && y.addr == a
  }

  lemma ListedAtFirst(idRoot: IdTree, idCounter: nat, entries: map<nat, Rec>, s: seq<Rec>)
    requires HoldsIds(idRoot, s) && Stored(idCounter, entries, s)
    ensures AllListed(idRoot, entries)
  {
    forall a | a in entries ensures ListsAddr(A.InOrder(idRoot), a) {
      assert IdItem(entries[a]) in A.InOrder(idRoot);
    }
  }

  /** Freeing the entry with the least id takes just that one off the tree. */
  lemma FreeLeast(t: IdTree, entries: map<nat, Rec>)
    requires t.Node? && AllListed(t, entries)
    ensures var top := A.MinItem(t); var t' := A.Remove(CmpId, t, top.key, top.addr);
            AllListed(t', entries - {top.addr}) && |A.InOrder(t')| < |A.InOrder(t)|
  {
    var top, items := A.MinItem(t), A.InOrder(t);
    ComparatorsAreOrders();
    A.MinIsFirst(t);
    assert items[0] == top;
    assert A.Keyed(items, top.key, top.addr);
    A.RemoveInOrder(CmpId, t, top.key, top.addr);
    A.WithoutKeeps(CmpId, items, top.addr);
    forall a | a in entries - {top.addr} ensures ListsAddr(A.Without(items, top.addr), a) {
      var y :| y in items && y.addr == a;
      WithoutItemMembers(items, top.addr, y);
    }
    WithoutShorter(items, top.addr);
  }

  lemma {:induction false} WithoutShorter(items: seq<A.Item<nat, nat>>, addr: nat)
    ensures |A.Without(items, addr)| <= |items|
    ensures items != [] && items[0].addr == addr ==> |A.Without(items, addr)| < |items|
  {
    if items != [] {
      WithoutShorter(items[1..], addr);
    }
  }

  /** The allocator never returns an address in use. */
  ghost predicate Allocates(alloc: set<nat> -> nat) {
    forall inUse: set<nat> :: alloc(inUse) !in inUse
  }

  lemma SoundNow(root: DueTree, idRoot: IdTree, idCounter: nat, entries: map<nat, Rec>, s: seq<Rec>)
    requires Consistent(root, idRoot, idCounter, entries, s)
    ensures Sound(State(s, idCounter))
  {
    DueFacts(root, s);
    assert forall i :: 0 <= i < |s| ==> s[i] in s;
  }

  class Timer {
    var root: DueTree
    var idRoot: IdTree
    var idCounter: nat
    var entries: map<nat, Rec>
    /** All entries in due order: the abstract value of the timer. */
    ghost var schedule: seq<Rec>

    ghost predicate Valid()
      reads this
    {
      Consistent(root, idRoot, idCounter, entries, schedule)
    }

    constructor ()
      ensures Valid() && schedule == [] && idCounter == 0
    {
      root, idRoot, idCounter, entries, schedule := A.Nil, A.Nil, 0, map[], [];
    }

    /** Adds a filled record; its address is the one the allocator returned. */
    method AddEntry(te: Rec) returns (callbackId: nat)
      requires Valid() && te.addr !in entries
      modifies this
      ensures Valid() && callbackId == idCounter == old(idCounter) + 1
      ensures schedule == Enqueue(old(schedule), te.(id := callbackId))
      ensures NoId(old(schedule), callbackId)
    {
      var x := te.(id := idCounter + 1);
      AddConsistent(root, idRoot, idCounter, entries, schedule, x);
      idCounter := idCounter + 1;
      callbackId := x.id;
      root := A.Insert(CmpDateTime, root, DueItem(x));
      idRoot := A.Insert(CmpId, idRoot, IdItem(x));
      entries := entries[x.addr := x];
      schedule := Enqueue(schedule, x);
    }

    method AddTimedCallback(addr: nat, hasCallback: bool, date: int) returns (r: Status, callbackId: nat)
      requires Valid() && addr !in entries
      modifies this
      ensures Valid() && (r == Good <==> hasCallback) && (r == Good || r == BadInternalError)
      ensures if r == Good then
                && NoId(old(schedule), callbackId) && callbackId == idCounter == old(idCounter) + 1
                && schedule == Enqueue(old(schedule), Rec(addr, callbackId, date, 0, CurrentTime, true))
              else schedule == old(schedule) && idCounter == old(idCounter)
    {
      callbackId := 0;
      if !hasCallback {
        return BadInternalError, 0;
      }
      callbackId := AddEntry(Rec(addr, 0, date, 0, CurrentTime, true));
      r := Good;
    }

    method AddRepeatedCallback(addr: nat, hasCallback: bool, intervalMs: real, base: Option<int>, policy: Policy, now: int)
      returns (r: Status, callbackId: nat)
      requires Valid() && addr !in entries
      modifies this
      ensures Valid() && (r == Good <==> IntervalOf(intervalMs) > 0 && hasCallback)
      ensures if r == Good then
                var interval := IntervalOf(intervalMs);
                && NoId(old(schedule), callbackId) && callbackId == idCounter == old(idCounter) + 1
                && FirstDue(FirstTime(now, base, interval), now, base, interval)
                && schedule == Enqueue(old(schedule),
                                       Rec(addr, callbackId, FirstTime(now, base, interval), interval, policy, true))
              else r == BadInternalError && schedule == old(schedule) && idCounter == old(idCounter)
    {
      callbackId := 0;
      if intervalMs <= 0.0 {
        return BadInternalError, 0;
      }
      var interval := IntervalOf(intervalMs);
      if interval == 0 {
        return BadInternalError, 0;
      }
      var nextTime := if base.None? then now + interval else CalculateNextTime(now, base.value, interval);
      if !hasCallback {
        return BadInternalError, 0;
      }
      FirstTimeExactly(now, base, interval, nextTime);
      callbackId := AddEntry(Rec(addr, 0, nextTime, interval, policy, true));
      r := Good;
    }

    /** Looks an entry up in the id tree. */
    method FindById(id: nat) returns (te: Option<Rec>)
      requires Valid()
      ensures te == Lookup(schedule, id)
    {
      var f := A.Search(CmpId, idRoot, id);
      FindConsistent(idRoot, idCounter, entries, schedule, id);
      te := if f.Nil? then None else Some(entries[f.item.addr]);
    }

    method ChangeRepeatedCallback(id: nat, intervalMs: real, base: Option<int>, policy: Policy, now: int) returns (r: Status)
      requires Valid()
      modifies this
      ensures Valid() && idCounter == old(idCounter)
      ensures r == if IntervalOf(intervalMs) == 0 then BadInternalError
                   else if Lookup(old(schedule), id).None? then BadNotFound else Good
      ensures r != Good ==> schedule == old(schedule)
      ensures r == Good ==>
                var interval := IntervalOf(intervalMs);
                var x := Lookup(old(schedule), id).value;
                var x' := x.(time := FirstTime(now, base, interval), interval := interval, policy := policy);
                && FirstDue(x'.time, now, base, interval) && Moved(old(schedule), schedule, id, Some(x'))
                && schedule == Enqueue(WithoutAddr(old(schedule), x.addr), x')
    {
      if intervalMs <= 0.0 {
        return BadInternalError;
      }
      var interval := IntervalOf(intervalMs);
      if interval == 0 {
        return BadInternalError;
      }
      var found := FindById(id);
      if found.None? {
        return BadNotFound;
      }
      LookupMember(schedule, id);
      FirstTimeExactly(now, base, interval, FirstTime(now, base, interval));
      Reschedule(found.value, interval, base, policy, now);
      r := Good;
    }

    method Reschedule(te: Rec, interval: nat, base: Option<int>, policy: Policy, now: int)
      requires Valid() && te in schedule && interval > 0
      modifies this
      ensures Valid() && idCounter == old(idCounter)
      ensures var x' := te.(time := FirstTime(now, base, interval), interval := interval, policy := policy);
              && Moved(old(schedule), schedule, te.id, Some(x'))
              && schedule == Enqueue(WithoutAddr(old(schedule), te.addr), x')
    {
      var nextTime := if base.None? then now + interval else CalculateNextTime(now, base.value, interval);
      MoveEntry(te, te.(time := nextTime, interval := interval, policy := policy));
    }

    /** The due time changes while the entry is out of the due tree and still in the id tree. */
    method MoveEntry(x: Rec, x': Rec)
      requires Valid() && x in schedule && x'.addr == x.addr && x'.id == x.id
      modifies this
      ensures Valid() && idCounter == old(idCounter)
      ensures schedule == Enqueue(WithoutAddr(old(schedule), x.addr), x')
      ensures old(schedule)[0] == x ==> schedule == Enqueue(old(schedule)[1..], x')
      ensures Moved(old(schedule), schedule, x.id, Some(x'))
    {
      hide Consistent, Moved, WithoutAddr, Enqueue;
      MoveConsistent(root, idRoot, idCounter, entries, schedule, x, x');
      root := A.Remove(CmpDateTime, root, DueKey(x.time, x.addr), x.addr);
      entries := entries[x.addr := x'];
      root := A.Insert(CmpDateTime, root, DueItem(x'));
      schedule := Enqueue(WithoutAddr(schedule, x.addr), x');
    }

    /** Takes an entry out of both trees and frees it. */
    method FreeEntry(x: Rec)
      requires Valid() && x in schedule
      modifies this
      ensures Valid() && idCounter == old(idCounter)
      ensures schedule == WithoutAddr(old(schedule), x.addr)
      ensures old(schedule)[0] == x ==> schedule == old(schedule)[1..]
      ensures Moved(old(schedule), schedule, x.id, None)
    {
      hide Consistent, Moved, WithoutAddr;
      FreeConsistent(root, idRoot, idCounter, entries, schedule, x);
      root := A.Remove(CmpDateTime, root, DueKey(x.time, x.addr), x.addr);
      idRoot := A.Remove(CmpId, idRoot, x.id, x.addr);
      entries := entries - {x.addr};
      schedule := WithoutAddr(schedule, x.addr);
    }

    /** Frees every entry, by way of the id tree alone. */
    method Clear()
      requires Valid()
      modifies this
      ensures Valid() && schedule == [] && entries == map[] && root.Nil? && idRoot.Nil? && idCounter == old(idCounter)
    {
      ListedAtFirst(idRoot, idCounter, entries, schedule);
      while idRoot.Node?
        invariant AllListed(idRoot, entries) && idCounter == old(idCounter)
        decreases |A.InOrder(idRoot)|
      {
        FreeLeast(idRoot, entries);
        var top := A.MinItem(idRoot);
        idRoot := A.Remove(CmpId, idRoot, top.key, top.addr);
        entries := entries - {top.addr};
      }
      assert forall a :: a in entries ==> ListsAddr(A.InOrder(idRoot), a);
      root, idRoot, schedule := A.Nil, A.Nil, [];
    }

    method RemoveCallback(id: nat)
      requires Valid()
      modifies this
      ensures Valid() && idCounter == old(idCounter)
      ensures Moved(old(schedule), schedule, id, None)
      ensures var x := Lookup(old(schedule), id);
              schedule == if x.Some? then WithoutAddr(old(schedule), x.value.addr) else old(schedule)
    {
      var te := FindById(id);
      if te.Some? {
        LookupMember(schedule, id);
        FreeEntry(te.value);
      }
    }

    /** The timer as its callers see it. */
    ghost function Now(): State
      reads this
    {
      State(schedule, idCounter)
    }

    /** One call of a callback into the timer; the allocator picks addresses not in use. */
    method Perform(c: Command, alloc: set<nat> -> nat)
      requires Valid() && Allocates(alloc)
      modifies this
      ensures Valid() && Effect(old(Now()), Now(), c)
    {
      hide Consistent, Moved, WithoutAddr, Enqueue, Lookup, IntervalOf, FirstTime;
      var addr := alloc(entries.Keys);
      match c {
        case AddTimed(hasCallback, date) =>
          var _, _ := AddTimedCallback(addr, hasCallback, date);
        case AddRepeated(hasCallback, intervalMs, base, policy, now) =>
          var _, _ := AddRepeatedCallback(addr, hasCallback, intervalMs, base, policy, now);
        case Change(id, intervalMs, base, policy, now) =>
          var _ := ChangeRepeatedCallback(id, intervalMs, base, policy, now);
        case Remove(id) =>
          RemoveCallback(id);
      }
    }

    /** What a callback does, call by call. */
    method PerformAll(cs: seq<Command>, alloc: set<nat> -> nat)
      requires Valid() && Allocates(alloc)
      modifies this
      ensures Valid() && Effects(old(Now()), Now(), cs)
      decreases |cs|
    {
      hide Consistent, Effect;
      if cs != [] {
        Perform(cs[0], alloc);
        SoundNow(root, idRoot, idCounter, entries, schedule);
        PerformAll(cs[1..], alloc);
      }
    }

    /** Runs everything that is due at the given clock, and reports when to be called next. The
        callbacks run are returned in order. The callback of the k-th turn does what line k of the
        script says. */
    method Process(now: int, script: seq<seq<Command>>, alloc: set<nat> -> nat)
      returns (next: int, ran: seq<Rec>, ghost states: seq<State>, ghost log: seq<Rec>)
      requires Valid() && now <= MAX_TIME && Allocates(alloc)
      modifies this
      ensures Valid() && PassRun(states, log, now, script) && Ended(states, now)
      ensures states[0] == old(Now()) && states[|log|] == Now() && ran == WithCallback(log)
      ensures if schedule == [] then next == MAX_TIME
              else next > now && next == schedule[0].time && forall x :: x in schedule ==> next <= x.time
    {
      hide Consistent, PassRun, Turn, WithCallback, CommandsOf, Pending, Sound, IsDue, DueFrom, Effects, Allocates;
      ran, states, log := [], [Now()], [];
      NothingRan();
      var turn := 0;
      SoundNow(root, idRoot, idCounter, entries, schedule);
      NoTurnYet(Now(), now, script);
      while IsDue(now)
        invariant Valid() && turn == |log| && |states| == |log| + 1
        invariant PassRun(states, log, now, script) && states[0] == old(Now()) && states[|log|] == Now()
        invariant ran == WithCallback(log)
        decreases if turn < |script| then |script| - turn else 0, Pending(schedule, now)
      {
        var first := TakeTurn(now, CommandsOf(script, turn), alloc);
        TurnDecreases(states[|log|], Now(), first, now, script, turn);
        WithCallbackAppend(log, first);
        if first.callback {
          ran := ran + [first];
        }
        OneMoreTurn(states, log, now, script, first, Now());
        states, log, turn := states + [Now()], log + [first], turn + 1;
      }
      next := NextDue(now);
    }

    /** When the first entry is due, once nothing is due any more. */
    method NextDue(now: int) returns (next: int)
      requires Valid() && !IsDue(now) && now <= MAX_TIME
      ensures DueFrom(schedule, now + 1)
      ensures if schedule == [] then next == MAX_TIME
              else next > now && next == schedule[0].time && forall x :: x in schedule ==> next <= x.time
    {
      hide Consistent;
      FirstNow(root, idRoot, idCounter, entries, schedule);
      next := if root.Node? then A.MinItem(root).key.time else MAX_TIME;
      if next < now {
        next := now;
      }
    }

    predicate IsDue(now: int)
      reads this
    {
      root.Node? && A.MinItem(root).key.time <= now
    }

    /** One turn: the first entry is taken out and reinserted or freed, then its callback runs. */
    method TakeTurn(now: int, cs: seq<Command>, alloc: set<nat> -> nat) returns (first: Rec)
      requires Valid() && IsDue(now) && Allocates(alloc)
      modifies this
      ensures Valid() && Sound(Now()) && Turn(old(Now()), Now(), first, now, cs)
    {
      hide Consistent, Sound, Effects;
      FirstNow(root, idRoot, idCounter, entries, schedule);
      first := DispatchFirst(now);
      NothingDone(Now());
      if first.callback {
        PerformAll(cs, alloc);
      }
      SoundNow(root, idRoot, idCounter, entries, schedule);
    }

    /** Takes the first entry out, and reinserts it at its next due time or frees it. */
    method DispatchFirst(now: int) returns (first: Rec)
      requires Valid() && schedule != [] && schedule[0].time <= now
      modifies this
      ensures Valid() && idCounter == old(idCounter)
      ensures first == old(schedule)[0] && schedule == Dispatched(old(schedule), now)
    {
      FirstIsDue(root, idCounter, entries, schedule);
      first := entries[A.MinItem(root).addr];
      if first.interval == 0 {
        FreeEntry(first);
      } else {
        var x' := NextTurn(first, now);
        MoveEntry(first, x');
      }
    }

    /** Sets the time of the next execution, always at or after the clock. */
    method NextTurn(first: Rec, now: int) returns (x': Rec)
      requires first.interval > 0
      ensures x' == Rearmed(first, now)
    {
      var t := first.time + first.interval;
      if t < now {
        if first.policy == BaseTime {
          t := CalculateNextTime(now, t, first.interval);
        } else {
          t := now + first.interval;
        }
      }
      x' := first.(time := t);
    }
  }
}

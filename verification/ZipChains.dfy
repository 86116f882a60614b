/** What replacing nodes does to the shape of the zip-tree store: every replacement inserts with the
    number zero, which gives the highest rank there is. */
module ZipChains {
  import opened Ordering
  import opened NodeStore
  import opened ZipTree
  import opened ZipDepth
  import opened ZipNodeStore
  import HashTable

  function CountIn(s: seq<Item<Addr, Key>>, ids: set<NodeId>): nat {
    if s == [] then 0 else (if s[0].key.nodeId in ids then 1 else 0) + CountIn(s[1..], ids)
  }

  lemma {:induction false} CountRanks(s: seq<Item<Addr, Key>>, atTop: set<NodeId>)
    requires Ranked(s, atTop)
    ensures HowMany(s, 255) == CountIn(s, atTop)
  {
    if s != [] {
      assert s[0] in s && forall x :: x in s[1..] ==> x in s;
      CountRanks(s[1..], atTop);
    }
  }

  lemma RanksBounded(s: seq<Item<Addr, Key>>, atTop: set<NodeId>, n: nat)
    requires Ranked(s, atTop) && n <= |s|
    ensures RanksBelow(s, 256) && Ranked(s[..n], atTop)
    ensures forall i :: 0 <= i < |s| ==> (s[i].rank == 255 <==> s[i].key.nodeId in atTop)
  {
    assert forall i :: 0 <= i < |s| ==> s[i] in s;
    assert forall x :: x in s[..n] ==> x in s;
  }

  /** No two entries of the index have the same key. */
  lemma KeysAscend(t: Tree<Addr, Key>, hash: HashTable.Hash, order: Comparator<NodeId>, live: map<NodeId, Addr>)
    requires Indexed(t, hash, order, live)
    ensures TotalOrder(CmpNodeId(order)) && Ascending(CmpNodeId(order), InOrder(t))
  {
    var s, cmp := InOrder(t), CmpNodeId(order);
    KeysOrdered(order);
    forall i, j | 0 <= i < j < |s| ensures cmp(s[i].key, s[j].key) == Less {
      assert s[i] in s && s[j] in s && s[i].id != s[j].id;
    }
  }

  /** A search for a replaced node visits all nodes replaced before it in the order of the keys, and
      only those. */
  lemma ReplacedDepth(t: Tree<Addr, Key>, hash: HashTable.Hash, order: Comparator<NodeId>, live: map<NodeId, Addr>,
                      atTop: set<NodeId>, i: nat)
    requires Indexed(t, hash, order, live) && Ranked(InOrder(t), atTop)
    requires i < |InOrder(t)| && InOrder(t)[i].key.nodeId in atTop
    ensures Visits(CmpNodeId(order), t, InOrder(t)[i].key) == 1 + CountIn(InOrder(t)[..i], atTop)
  {
    var s := InOrder(t);
    KeysAscend(t, hash, order, live);
    RanksBounded(s, atTop, i);
    hide Ranked, Listed, StrictOrder, InOrder;
    VisitsAreDepth(CmpNodeId(order), t, i);
    TopRankDepth(t, i, 255);
    CountRanks(s[..i], atTop);
  }

  lemma {:induction false} NoneIn(s: seq<Item<Addr, Key>>, ids: set<NodeId>)
    ensures CountIn(s, ids) == 0 <==> forall j :: 0 <= j < |s| ==> s[j].key.nodeId !in ids
  {
    if s != [] {
      NoneIn(s[1..], ids);
      assert forall j :: 0 <= j < |s[1..]| ==> s[1..][j] == s[j + 1];
    }
  }

  /** So a replaced node is the root exactly when no node before it has been replaced. */
  lemma ReplacedAtRoot(t: Tree<Addr, Key>, hash: HashTable.Hash, order: Comparator<NodeId>, live: map<NodeId, Addr>,
                       atTop: set<NodeId>, i: nat)
    requires Indexed(t, hash, order, live) && Ranked(InOrder(t), atTop)
    requires i < |InOrder(t)| && InOrder(t)[i].key.nodeId in atTop
    ensures t.item == InOrder(t)[i] <==> forall j :: 0 <= j < i ==> InOrder(t)[j].key.nodeId !in atTop
  {
    var s := InOrder(t);
    RanksBounded(s, atTop, i);
    RootPlace(t, i);
    CountRanks(s[..i], atTop);
    NoneIn(s[..i], atTop);
    hide Ranked, Listed, StrictOrder, InOrder, DepthAt;
    TopRankDepth(t, i, 255);
    assert forall j :: 0 <= j < i ==> s[..i][j] == s[j];
  }

  lemma RootPlace(t: Tree<Addr, Key>, i: nat)
    requires i < |InOrder(t)| && Distinct(InOrder(t))
    ensures DepthAt(t, i) == 0 <==> t.item == InOrder(t)[i]
  {
    var s, n := InOrder(t), |InOrder(t.left)|;
    assert s[n] == t.item;
    assert i != n ==> s[i].id != s[n].id;
  }

  /** One entry for each live id. */
  lemma {:induction false} ListedSize(s: seq<Item<Addr, Key>>, hash: HashTable.Hash, live: map<NodeId, Addr>)
    requires Listed(s, hash, live) && Distinct(s)
    ensures |s| == |live|
    decreases |s|
  {
    if s == [] {
      assert forall id :: id in live ==> Lists(s, id);
      assert live == map[];
    } else {
      var id := s[0].key.nodeId;
      assert s[0] in s;
      ListedTail(s, hash, live);
      ListedSize(s[1..], hash, live - {id});
      assert live.Keys == (live - {id}).Keys + {id};
    }
  }

  lemma ListedTail(s: seq<Item<Addr, Key>>, hash: HashTable.Hash, live: map<NodeId, Addr>)
    requires s != [] && Listed(s, hash, live) && Distinct(s)
    ensures Listed(s[1..], hash, live - {s[0].key.nodeId}) && Distinct(s[1..])
  {
    assert s[0] in s;
    forall y ensures y in s[1..] <==> y in s && y.id != s[0].id {
      if y in s[1..] {
        var k :| 0 <= k < |s[1..]| && s[1..][k] == y;
        assert s[k + 1] == y;
      }
      if y in s && y.id != s[0].id {
        var k :| 0 <= k < |s| && s[k] == y;
        assert s[1..][k - 1] == y;
      }
    }
    ListedLess(s, s[1..], hash, live, s[0]);
  }

  /** When every live node has been replaced, the tree is a chain, and a search is a walk along the
      list of all nodes. */
  lemma AllReplaced(t: Tree<Addr, Key>, hash: HashTable.Hash, order: Comparator<NodeId>, live: map<NodeId, Addr>,
                    atTop: set<NodeId>)
    requires Indexed(t, hash, order, live) && Ranked(InOrder(t), atTop) && atTop == live.Keys
    ensures Height(t) == |live| == |InOrder(t)|
    ensures forall i :: 0 <= i < |InOrder(t)| ==> Visits(CmpNodeId(order), t, InOrder(t)[i].key) == i + 1
  {
    var s := InOrder(t);
    ListedSize(s, hash, live);
    RanksBounded(s, atTop, 0);
    forall i | 0 <= i < |s| ensures s[i].key.nodeId in atTop {
      assert s[i] in s;
    }
    EqualRanksChain(t, 255);
    forall i: nat | i < |s| ensures Visits(CmpNodeId(order), t, s[i].key) == i + 1 {
      ReplacedDepth(t, hash, order, live, atTop, i);
      AllIn(s[..i], atTop);
    }
  }

  lemma {:induction false} AllIn(s: seq<Item<Addr, Key>>, ids: set<NodeId>)
    requires forall j :: 0 <= j < |s| ==> s[j].key.nodeId in ids
    ensures CountIn(s, ids) == |s|
  {
    if s != [] {
      AllIn(s[1..], ids);
    }
  }

  // ---------- a run ----------

  /** What the four calls below make of a store. */
  lemma AddedReplaced(s: Store, id: NodeId, a: Addr)
    requires Consistent(s) && a !in s.heap && a + 1 !in s.heap && id !in s.live
    ensures var s1 := Created(s, a, id, 0, false);
            && Detached(s1, a) && s1.heap[a].nodeId == id && Named(s1, a, id) == s1
            && Inserted(s1, a).1 == Good && Consistent(Inserted(s1, a).0)
            && var s2 := Inserted(s1, a).0;
               && s2.live == s.live[id := a] && a + 1 !in s2.heap && s2.heap[a].refCount == 0
               && var s3 := Copied(s2, id, a + 1).0;
                  && Consistent(s3) && Detached(s3, a + 1) && s3.heap[a + 1].nodeId == id && s3.heap[a].refCount == 0
                  && s3.live == s2.live && Replaced(s3, a + 1).1 == Good
                  && var s4 := Replaced(s3, a + 1).0;
                     s4.live == s.live[id := a + 1] && s4.heap.Keys <= s.heap.Keys + {a + 1}
  {
  }

  /** Adds a node, takes a copy of it and replaces it by the copy. */
  method AddReplaced(ctx: ZipContext, id: NodeId, a: Addr)
    requires ctx.Valid() && a !in ctx.heap && a + 1 !in ctx.heap && !WantsId(id) && id !in ctx.live
    modifies ctx
    ensures ctx.Valid() && ctx.live == old(ctx.live)[id := a + 1] && ctx.atTop == old(ctx.atTop) + {id}
    ensures ctx.heap.Keys <= old(ctx.heap).Keys + {a + 1}
  {
    hide Created, Inserted, Named, Copied, Replaced, Detached, Consistent, Indexed, Ranked, InOrder;
    AddedReplaced(ctx.Abs(), id, a);
    ctx.NewNode(a, id, 0, false);
    ghost var chosen;
    var r;
    r, chosen := ctx.InsertNode(a, 1, n => n);
    r := ctx.GetNodeCopy(id, a + 1);
    r := ctx.ReplaceNode(a + 1);
  }

  /** For every n there is a run that ends with n nodes in a tree of height n. */
  method BuildChain(hash: HashTable.Hash, order: Comparator<NodeId>, n: nat) returns (ctx: ZipContext)
    requires StrictOrder(order)
    ensures ctx.Valid() && |ctx.live| == n && Height(ctx.root) == n
  {
    hide Indexed, Ranked, InOrder, Consistent, Height, Visits;
    ctx := new ZipContext(hash, order);
    for i := 0 to n
      invariant fresh(ctx) && ctx.Valid() && ctx.atTop == ctx.live.Keys && |ctx.live| == i
      invariant forall a :: a in ctx.heap ==> a < 2 * i
      invariant forall id :: id in ctx.live ==> id.Numeric? && id.value <= i
    {
      AddReplaced(ctx, Numeric(0, i + 1), 2 * i);
    }
    AllReplaced(ctx.root, ctx.hash, ctx.order, ctx.live, ctx.atTop);
  }
}

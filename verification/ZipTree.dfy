/** Zip trees as values: the shape that insert, zip and remove build, and why it
    depends only on the in-order elements and their ranks.

    An item is the entry itself (its identity), its key and its rank. Keys are
    compared by the callback handed to the tree; several items may have equal keys. */
module ZipTree {
  import Seqs
  import opened Ordering

  datatype Item<E, K> = Item(id: E, key: K, rank: nat)

  datatype Tree<E, K> = Nil | Node(left: Tree<E, K>, item: Item<E, K>, right: Tree<E, K>)

  function InOrder<E, K>(t: Tree<E, K>): seq<Item<E, K>> {
    match t
    case Nil => []
    case Node(l, x, r) => InOrder(l) + [x] + InOrder(r)
  }

  // ---------- the operations, branch by branch as the program takes them ----------

  function Insert<E(==), K>(cmp: Comparator<K>, t: Tree<E, K>, x: Item<E, K>): (t': Tree<E, K>)
    ensures t'.Node?
  {
    match t
    case Nil => Node(Nil, x, Nil)
    case Node(l, y, r) =>
      if cmp(x.key, y.key) == Less then
        var l' := Insert(cmp, l, x);
        if l'.item.id == x.id && x.rank >= y.rank then
          Node(l'.left, l'.item, Node(l'.right, y, r))
        else
          Node(l', y, r)
      else
        var r' := Insert(cmp, r, x);
        if r'.item.id == x.id && x.rank > y.rank then
          Node(Node(l, y, r'.left), r'.item, r'.right)
        else
          Node(l, y, r')
  }

  function Zip<E, K>(x: Tree<E, K>, y: Tree<E, K>): Tree<E, K> {
    if x.Nil? then y
    else if y.Nil? then x
    else if x.item.rank < y.item.rank then Node(Zip(x, y.left), y.item, y.right)
    else Node(x.left, x.item, Zip(x.right, y))
  }

  function Remove<E(==), K>(cmp: Comparator<K>, t: Tree<E, K>, id: E, key: K): Tree<E, K> {
    match t
    case Nil => Nil
    case Node(l, y, r) =>
      if y.id == id then Zip(l, r)
      else match cmp(key, y.key)
        case Less => Node(Remove(cmp, l, id, key), y, r)
        case More => Node(l, y, Remove(cmp, r, id, key))
        case Eq => Node(Remove(cmp, l, id, key), y, Remove(cmp, r, id, key))
  }

  function Find<E, K>(cmp: Comparator<K>, t: Tree<E, K>, key: K): Tree<E, K> {
    match t
    case Nil => Nil
    case Node(l, y, r) =>
      match cmp(key, y.key)
      case Eq => t
      case Less => Find(cmp, l, key)
      case More => Find(cmp, r, key)
  }

  // ---------- the reference definitions: plain sequences and a canonical tree ----------

  /** The position of the leftmost item of highest rank. */
  function Top<E, K>(s: seq<Item<E, K>>): (i: nat)
    requires s != []
    ensures i < |s|
    ensures forall j :: 0 <= j < i ==> s[j].rank < s[i].rank
    ensures forall j :: i <= j < |s| ==> s[j].rank <= s[i].rank
  {
    if |s| == 1 then 0
    else
      var j := Top(s[1..]);
      assert forall k :: 1 <= k < |s| ==> s[k] == s[1..][k - 1];
      if s[0].rank < s[j + 1].rank then j + 1 else 0
  }

  /** The one tree over a sequence: its root is the leftmost item of highest rank, and so on below. */
  function Canonical<E, K>(s: seq<Item<E, K>>): Tree<E, K>
    decreases |s|
  {
    if s == [] then Nil
    else
      var i := Top(s);
      Node(Canonical(s[..i]), s[i], Canonical(s[i + 1..]))
  }

  /** Insertion into a sorted sequence, behind every item whose key is not greater. */
  function InsertSorted<E, K>(cmp: Comparator<K>, s: seq<Item<E, K>>, x: Item<E, K>): seq<Item<E, K>> {
    if s == [] then [x]
    else if cmp(x.key, s[0].key) == Less then [x] + s
    else [s[0]] + InsertSorted(cmp, s[1..], x)
  }

  function Without<E(==), K>(s: seq<Item<E, K>>, id: E): seq<Item<E, K>> {
    if s == [] then []
    else (if s[0].id == id then [] else [s[0]]) + Without(s[1..], id)
  }

  ghost predicate Sorted<E, K>(cmp: Comparator<K>, s: seq<Item<E, K>>) {
    forall i, j :: 0 <= i < j < |s| ==> cmp(s[i].key, s[j].key) != More
  }

  ghost predicate Distinct<E, K>(s: seq<Item<E, K>>) {
    forall i, j :: 0 <= i < j < |s| ==> s[i].id != s[j].id
  }

  ghost predicate RanksBelow<E, K>(s: seq<Item<E, K>>, rank: int) {
    forall i :: 0 <= i < |s| ==> s[i].rank < rank
  }

  /** The rank rule of the tree: strictly smaller on the left, not greater on the right. */
  ghost predicate Shaped<E, K>(t: Tree<E, K>) {
    match t
    case Nil => true
    case Node(l, y, r) =>
      && RanksBelow(InOrder(l), y.rank)
      && RanksBelow(InOrder(r), y.rank + 1)
      && Shaped(l) && Shaped(r)
  }

  // ---------- the shape is canonical ----------

  lemma {:induction false} CanonicalSplit<E, K>(a: seq<Item<E, K>>, y: Item<E, K>, b: seq<Item<E, K>>)
    requires RanksBelow(a, y.rank) && RanksBelow(b, y.rank + 1)
    ensures Canonical(a + [y] + b) == Node(Canonical(a), y, Canonical(b))
  {
    var s := a + [y] + b;
    var i := Top(s);
    assert s[|a|] == y;
    assert i == |a|;
    assert s[..i] == a && s[i + 1..] == b;
  }

  /** Any tree that keeps the rank rule is the canonical tree of its own in-order sequence. */
  lemma {:induction false} ShapeIsCanonical<E, K>(t: Tree<E, K>)
    requires Shaped(t)
    ensures t == Canonical(InOrder(t))
  {
    match t
    case Nil =>
    case Node(l, y, r) =>
      ShapeIsCanonical(l);
      ShapeIsCanonical(r);
      CanonicalSplit(InOrder(l), y, InOrder(r));
  }

  lemma {:induction false} TopSplits<E, K>(s: seq<Item<E, K>>)
    requires s != []
    ensures var i := Top(s); RanksBelow(s[..i], s[i].rank) && RanksBelow(s[i + 1..], s[i].rank + 1)
    ensures var i := Top(s); s[..i] + [s[i]] + s[i + 1..] == s
  {
    var i := Top(s);
    var b := s[i + 1..];
    forall j | 0 <= j < |b| ensures b[j].rank < s[i].rank + 1 {
      assert b[j] == s[i + 1 + j];
    }
  }

  /** Conversely every sequence has such a tree, so the rank rule and the sequence determine the tree. */
  lemma {:induction false} CanonicalIsShaped<E, K>(s: seq<Item<E, K>>)
    ensures Shaped(Canonical(s))
    ensures InOrder(Canonical(s)) == s
    decreases |s|
  {
    if s != [] {
      var i := Top(s);
      CanonicalIsShaped(s[..i]);
      CanonicalIsShaped(s[i + 1..]);
      TopSplits(s);
    }
  }

  // ---------- insertion ----------

  ghost predicate Absent<E, K>(s: seq<Item<E, K>>, id: E) {
    forall i :: 0 <= i < |s| ==> s[i].id != id
  }

  lemma PartsAbsent<E, K>(a: seq<Item<E, K>>, y: Item<E, K>, b: seq<Item<E, K>>, id: E)
    ensures Absent(a + [y] + b, id) <==> Absent(a, id) && y.id != id && Absent(b, id)
  {
    var s := a + [y] + b;
    assert s[|a|] == y;
    assert forall i :: 0 <= i < |a| ==> s[i] == a[i];
    assert forall i :: 0 <= i < |b| ==> s[|a| + 1 + i] == b[i];
  }

  /** Item x sits between p and q; as a root it splits the tree there. */
  ghost predicate Landed<E, K>(t': Tree<E, K>, p: seq<Item<E, K>>, x: Item<E, K>, q: seq<Item<E, K>>) {
    && InOrder(t') == p + [x] + q
    && (t'.Node? && t'.item.id == x.id ==> t'.item == x && InOrder(t'.left) == p && InOrder(t'.right) == q)
  }

  /** Where an insertion lands: the other items keep their order, and if the new item becomes
      the root then the items before it form the left subtree and those behind it the right one. */
  lemma {:induction false} InsertPosition<E, K>(cmp: Comparator<K>, t: Tree<E, K>, x: Item<E, K>)
    returns (p: seq<Item<E, K>>, q: seq<Item<E, K>>)
    requires Absent(InOrder(t), x.id)
    ensures InOrder(t) == p + q && Landed(Insert(cmp, t, x), p, x, q)
    ensures Insert(cmp, t, x).item.id != x.id ==> t.Node? && Insert(cmp, t, x).item == t.item
  {
    match t
    case Nil => p, q := [], [];
    case Node(l, y, r) =>
      var a, b := InOrder(l), InOrder(r);
      PartsAbsent(a, y, b, x.id);
      if cmp(x.key, y.key) == Less {
        p, q := InsertPosition(cmp, l, x);
        Seqs.Regroup(p, x, q, y, b);
        q := q + [y] + b;
      } else {
        p, q := InsertPosition(cmp, r, x);
        Seqs.Regroup(p, x, q, y, a);
        p := a + [y] + p;
      }
  }

  lemma BelowParts<E, K>(a: seq<Item<E, K>>, y: Item<E, K>, b: seq<Item<E, K>>, rank: int)
    ensures RanksBelow(a + [y] + b, rank) <==> RanksBelow(a, rank) && y.rank < rank && RanksBelow(b, rank)
  {
    var s := a + [y] + b;
    assert s[|a|] == y;
    assert forall i :: 0 <= i < |a| ==> s[i] == a[i];
    assert forall i :: 0 <= i < |b| ==> s[|a| + 1 + i] == b[i];
  }

  lemma BelowAppend<E, K>(a: seq<Item<E, K>>, b: seq<Item<E, K>>, rank: int)
    ensures RanksBelow(a + b, rank) <==> RanksBelow(a, rank) && RanksBelow(b, rank)
  {
    var s := a + b;
    assert forall i :: 0 <= i < |a| ==> s[i] == a[i];
    assert forall i :: 0 <= i < |b| ==> s[|a| + i] == b[i];
  }

  lemma RootIsHighest<E, K>(t: Tree<E, K>)
    requires t.Node? && Shaped(t)
    ensures RanksBelow(InOrder(t), t.item.rank + 1)
  {
    BelowParts(InOrder(t.left), t.item, InOrder(t.right), t.item.rank + 1);
  }

  /** One step of the rotation: what the subtree looks like from a parent whose rank bounds it. */
  lemma {:induction false} InsertShapedBelow<E, K>(cmp: Comparator<K>, t: Tree<E, K>, x: Item<E, K>, bound: int)
    requires Absent(InOrder(t), x.id) && RanksBelow(InOrder(t), bound) && Shaped(Insert(cmp, t, x))
    ensures var t' := Insert(cmp, t, x);
            && (x.rank < bound ==> RanksBelow(InOrder(t'), bound))
            && (t'.item.id != x.id ==> x.rank < bound)
            && (t'.item.id == x.id ==>
                  t'.item == x && RanksBelow(InOrder(t'.left), bound) && RanksBelow(InOrder(t'.right), bound))
  {
    var t' := Insert(cmp, t, x);
    var p, q := InsertPosition(cmp, t, x);
    BelowAppend(p, q, bound);
    BelowParts(p, x, q, bound);
    if t'.item.id != x.id {
      RootIsHighest(t');
      BelowParts(InOrder(t.left), t.item, InOrder(t.right), bound);
      BelowParts(p, x, q, t'.item.rank + 1);
    }
  }

  lemma InsertShapedLeft<E, K>(cmp: Comparator<K>, l: Tree<E, K>, y: Item<E, K>, r: Tree<E, K>, x: Item<E, K>)
    requires cmp(x.key, y.key) == Less
    requires Shaped(Node(l, y, r)) && Absent(InOrder(l), x.id) && Shaped(Insert(cmp, l, x))
    ensures Shaped(Insert(cmp, Node(l, y, r), x))
  {
    InsertShapedBelow(cmp, l, x, y.rank);
    var l' := Insert(cmp, l, x);
    if l'.item.id == x.id && x.rank >= y.rank {
      BelowParts(InOrder(l'.right), y, InOrder(r), x.rank + 1);
      assert Shaped(Node(l'.right, y, r));
    }
  }

  lemma InsertShapedRight<E, K>(cmp: Comparator<K>, l: Tree<E, K>, y: Item<E, K>, r: Tree<E, K>, x: Item<E, K>)
    requires cmp(x.key, y.key) != Less
    requires Shaped(Node(l, y, r)) && Absent(InOrder(r), x.id) && Shaped(Insert(cmp, r, x))
    ensures Shaped(Insert(cmp, Node(l, y, r), x))
  {
    InsertShapedBelow(cmp, r, x, y.rank + 1);
    var r' := Insert(cmp, r, x);
    if r'.item.id == x.id && x.rank > y.rank {
      BelowParts(InOrder(l), y, InOrder(r'.left), x.rank);
      assert Shaped(Node(l, y, r'.left));
    }
  }

  /** Insertion keeps the rank rule. */
  lemma {:induction false} InsertShaped<E, K>(cmp: Comparator<K>, t: Tree<E, K>, x: Item<E, K>)
    requires Shaped(t) && Absent(InOrder(t), x.id)
    ensures Shaped(Insert(cmp, t, x))
  {
    match t
    case Nil =>
    case Node(l, y, r) =>
      PartsAbsent(InOrder(l), y, InOrder(r), x.id);
      if cmp(x.key, y.key) == Less {
        InsertShaped(cmp, l, x);
        InsertShapedLeft(cmp, l, y, r, x);
      } else {
        InsertShaped(cmp, r, x);
        InsertShapedRight(cmp, l, y, r, x);
      }
  }

  lemma {:induction false} SortedParts<E, K>(cmp: Comparator<K>, a: seq<Item<E, K>>, y: Item<E, K>, b: seq<Item<E, K>>)
    requires Sorted(cmp, a + [y] + b)
    ensures Sorted(cmp, a) && Sorted(cmp, b)
    ensures forall i :: 0 <= i < |a| ==> cmp(a[i].key, y.key) != More
    ensures forall i :: 0 <= i < |b| ==> cmp(y.key, b[i].key) != More
  {
    var s := a + [y] + b;
    assert s[|a|] == y;
    assert forall i :: 0 <= i < |a| ==> s[i] == a[i];
    assert forall i :: 0 <= i < |b| ==> s[|a| + 1 + i] == b[i];
  }

  lemma {:induction false} InsertSortedLeft<E, K>(cmp: Comparator<K>, a: seq<Item<E, K>>, b: seq<Item<E, K>>, x: Item<E, K>)
    requires b != [] && cmp(x.key, b[0].key) == Less
    ensures InsertSorted(cmp, a + b, x) == InsertSorted(cmp, a, x) + b
  {
    if a == [] {
      Seqs.Empty(b);
    } else {
      InsertSortedLeft(cmp, a[1..], b, x);
      Seqs.Uncons(a, b);
      Seqs.Assoc([a[0]], InsertSorted(cmp, a[1..], x), b);
      Seqs.Assoc([x], a, b);
    }
  }

  lemma {:induction false} InsertSortedRight<E, K>(cmp: Comparator<K>, a: seq<Item<E, K>>, b: seq<Item<E, K>>, x: Item<E, K>)
    requires forall i :: 0 <= i < |a| ==> cmp(x.key, a[i].key) != Less
    ensures InsertSorted(cmp, a + b, x) == a + InsertSorted(cmp, b, x)
  {
    if a == [] {
      Seqs.Empty(b);
      Seqs.Empty(InsertSorted(cmp, b, x));
    } else {
      InsertSortedRight(cmp, a[1..], b, x);
      Seqs.Uncons(a, b);
      Seqs.Assoc([a[0]], a[1..], InsertSorted(cmp, b, x));
    }
  }

  /** Insertion adds the item behind all items that are not greater and moves nothing else. */
  lemma {:induction false} InsertInOrder<E, K(!new)>(cmp: Comparator<K>, t: Tree<E, K>, x: Item<E, K>)
    requires TotalOrder(cmp) && Sorted(cmp, InOrder(t)) && Absent(InOrder(t), x.id)
    ensures InOrder(Insert(cmp, t, x)) == InsertSorted(cmp, InOrder(t), x)
  {
    match t
    case Nil =>
    case Node(l, y, r) =>
      var a, b := InOrder(l), InOrder(r);
      SortedParts(cmp, a, y, b);
      PartsAbsent(a, y, b, x.id);
      if cmp(x.key, y.key) == Less {
        InsertInOrder(cmp, l, x);
        InsertSortedLeft(cmp, a, [y] + b, x);
        Seqs.Middle(a, y, b);
        Seqs.Assoc(InsertSorted(cmp, a, x), [y], b);
        NodeInOrder(Insert(cmp, l, x), y, r);
      } else {
        InsertInOrder(cmp, r, x);
        NotLessThanAll(cmp, a, y, x);
        InsertSortedRight(cmp, a + [y], b, x);
        NodeInOrder(l, y, Insert(cmp, r, x));
      }
  }

  lemma {:induction false} NotLessThanAll<E, K(!new)>(cmp: Comparator<K>, a: seq<Item<E, K>>, y: Item<E, K>, x: Item<E, K>)
    requires TotalOrder(cmp) && cmp(x.key, y.key) != Less
    requires forall i :: 0 <= i < |a| ==> cmp(a[i].key, y.key) != More
    ensures forall i :: 0 <= i < |a| ==> cmp(x.key, a[i].key) != Less
  {
    forall i | 0 <= i < |a| ensures cmp(x.key, a[i].key) != Less {
      assert cmp(y.key, x.key) != More;
      assert cmp(a[i].key, x.key) != More;
    }
  }

  /** Both rotations leave the in-order sequence alone. */
  lemma NodeInOrder<E, K>(l: Tree<E, K>, y: Item<E, K>, r: Tree<E, K>)
    ensures l.Node? ==> InOrder(Node(l.left, l.item, Node(l.right, y, r))) == InOrder(Node(l, y, r))
    ensures r.Node? ==> InOrder(Node(Node(l, y, r.left), r.item, r.right)) == InOrder(Node(l, y, r))
  {
  }

  /** Inserting into the canonical tree of a sequence gives the canonical tree of the longer sequence. */
  lemma InsertCanonical<E, K(!new)>(cmp: Comparator<K>, s: seq<Item<E, K>>, x: Item<E, K>)
    requires TotalOrder(cmp) && Sorted(cmp, s) && Absent(s, x.id)
    ensures Insert(cmp, Canonical(s), x) == Canonical(InsertSorted(cmp, s, x))
  {
    CanonicalIsShaped(s);
    InsertInOrder(cmp, Canonical(s), x);
    InsertShaped(cmp, Canonical(s), x);
    ShapeIsCanonical(Insert(cmp, Canonical(s), x));
  }

  // ---------- removal ----------

  lemma {:induction false} ZipInOrder<E, K>(x: Tree<E, K>, y: Tree<E, K>)
    ensures InOrder(Zip(x, y)) == InOrder(x) + InOrder(y)
  {
    if x.Node? && y.Node? {
      if x.item.rank < y.item.rank {
        ZipInOrder(x, y.left);
      } else {
        ZipInOrder(x.right, y);
      }
    }
  }

  lemma {:induction false} ZipShaped<E, K>(x: Tree<E, K>, y: Tree<E, K>)
    requires Shaped(x) && Shaped(y)
    ensures Shaped(Zip(x, y))
  {
    if x.Node? && y.Node? {
      if x.item.rank < y.item.rank {
        ZipShaped(x, y.left);
        ZipInOrder(x, y.left);
        RootIsHighest(x);
      } else {
        ZipShaped(x.right, y);
        ZipInOrder(x.right, y);
        RootIsHighest(y);
      }
    }
  }

  /** The entry being removed carries the key it was inserted with. */
  ghost predicate Keyed<E, K>(s: seq<Item<E, K>>, id: E, key: K) {
    forall i :: 0 <= i < |s| && s[i].id == id ==> s[i].key == key
  }

  lemma KeyedParts<E, K>(a: seq<Item<E, K>>, y: Item<E, K>, b: seq<Item<E, K>>, id: E, key: K)
    requires Keyed(a + [y] + b, id, key)
    ensures Keyed(a, id, key) && (y.id == id ==> y.key == key) && Keyed(b, id, key)
  {
    var s := a + [y] + b;
    assert s[|a|] == y;
    assert forall i :: 0 <= i < |a| ==> s[i] == a[i];
    assert forall i :: 0 <= i < |b| ==> s[|a| + 1 + i] == b[i];
  }

  lemma DistinctParts<E, K>(a: seq<Item<E, K>>, y: Item<E, K>, b: seq<Item<E, K>>)
    requires Distinct(a + [y] + b)
    ensures Distinct(a) && Distinct(b) && Absent(a, y.id) && Absent(b, y.id)
  {
    var s := a + [y] + b;
    assert s[|a|] == y;
    assert forall i :: 0 <= i < |a| ==> s[i] == a[i];
    assert forall i :: 0 <= i < |b| ==> s[|a| + 1 + i] == b[i];
  }

  lemma {:induction false} WithoutAbsent<E, K>(s: seq<Item<E, K>>, id: E)
    requires Absent(s, id)
    ensures Without(s, id) == s
  {
    if s != [] {
      WithoutAbsent(s[1..], id);
    }
  }

  lemma {:induction false} WithoutAppend<E, K>(a: seq<Item<E, K>>, b: seq<Item<E, K>>, id: E)
    ensures Without(a + b, id) == Without(a, id) + Without(b, id)
  {
    if a == [] {
      Seqs.Empty(b);
    } else {
      WithoutAppend(a[1..], b, id);
      Seqs.Uncons(a, b);
      Seqs.Assoc(if a[0].id == id then [] else [a[0]], Without(a[1..], id), Without(b, id));
    }
  }

  lemma WithoutConcat<E, K>(a: seq<Item<E, K>>, y: Item<E, K>, b: seq<Item<E, K>>, id: E)
    ensures Without(a + [y] + b, id) == Without(a, id) + (if y.id == id then [] else [y]) + Without(b, id)
  {
    WithoutAppend(a + [y], b, id);
    WithoutAppend(a, [y], id);
  }

  lemma {:induction false} WithoutBelow<E, K>(s: seq<Item<E, K>>, id: E, rank: int)
    requires RanksBelow(s, rank)
    ensures RanksBelow(Without(s, id), rank)
  {
    if s != [] {
      WithoutBelow(s[1..], id, rank);
    }
  }

  ghost predicate Removable<E, K>(cmp: Comparator<K>, s: seq<Item<E, K>>, id: E, key: K) {
    Sorted(cmp, s) && Distinct(s) && Keyed(s, id, key)
  }

  /** Where the entry cannot be: beside itself, or beyond a key that differs from its own. */
  lemma RemovableParts<E, K(!new)>(cmp: Comparator<K>, a: seq<Item<E, K>>, y: Item<E, K>, b: seq<Item<E, K>>, id: E, key: K)
    requires TotalOrder(cmp) && Removable(cmp, a + [y] + b, id, key)
    ensures Removable(cmp, a, id, key) && Removable(cmp, b, id, key)
    ensures y.id == id || cmp(key, y.key) == Less ==> Without(b, id) == b
    ensures y.id == id || cmp(key, y.key) == More ==> Without(a, id) == a
  {
    SortedParts(cmp, a, y, b);
    KeyedParts(a, y, b, id, key);
    DistinctParts(a, y, b);
    if y.id == id || cmp(key, y.key) == Less {
      assert Absent(b, id);
      WithoutAbsent(b, id);
    }
    if y.id == id || cmp(key, y.key) == More {
      assert Absent(a, id);
      WithoutAbsent(a, id);
    }
  }

  lemma {:induction false} RemoveNode<E, K>(cmp: Comparator<K>, l: Tree<E, K>, y: Item<E, K>, r: Tree<E, K>, id: E, key: K)
    requires y.id == id || cmp(key, y.key) == Less ==> Without(InOrder(r), id) == InOrder(r)
    requires y.id == id || cmp(key, y.key) == More ==> Without(InOrder(l), id) == InOrder(l)
    requires InOrder(Remove(cmp, l, id, key)) == Without(InOrder(l), id)
    requires InOrder(Remove(cmp, r, id, key)) == Without(InOrder(r), id)
    ensures InOrder(Remove(cmp, Node(l, y, r), id, key)) == Without(InOrder(Node(l, y, r)), id)
  {
    WithoutConcat(InOrder(l), y, InOrder(r), id);
    ZipInOrder(l, r);
  }

  /** Removal takes out exactly the given entry, and the others keep their order. Equal keys are
      searched on both sides. */
  lemma {:induction false} RemoveInOrder<E, K(!new)>(cmp: Comparator<K>, t: Tree<E, K>, id: E, key: K)
    requires TotalOrder(cmp) && Removable(cmp, InOrder(t), id, key)
    ensures InOrder(Remove(cmp, t, id, key)) == Without(InOrder(t), id)
  {
    match t
    case Nil =>
    case Node(l, y, r) =>
      RemovableParts(cmp, InOrder(l), y, InOrder(r), id, key);
      RemoveInOrder(cmp, l, id, key);
      RemoveInOrder(cmp, r, id, key);
      RemoveNode(cmp, l, y, r, id, key);
  }

  lemma {:induction false} RemoveShaped<E, K(!new)>(cmp: Comparator<K>, t: Tree<E, K>, id: E, key: K)
    requires TotalOrder(cmp) && Removable(cmp, InOrder(t), id, key)
    requires Shaped(t)
    ensures Shaped(Remove(cmp, t, id, key))
  {
    match t
    case Nil =>
    case Node(l, y, r) =>
      var a, b := InOrder(l), InOrder(r);
      RemovableParts(cmp, a, y, b, id, key);
      if y.id == id {
        ZipShaped(l, r);
      } else {
        RemoveShaped(cmp, l, id, key);
        RemoveShaped(cmp, r, id, key);
        RemoveInOrder(cmp, l, id, key);
        RemoveInOrder(cmp, r, id, key);
        WithoutBelow(a, id, y.rank);
        WithoutBelow(b, id, y.rank + 1);
      }
  }

  /** Removing from the canonical tree of a sequence gives the canonical tree of the shorter sequence. */
  lemma RemoveCanonical<E, K(!new)>(cmp: Comparator<K>, s: seq<Item<E, K>>, id: E, key: K)
    requires TotalOrder(cmp) && Removable(cmp, s, id, key)
    ensures Remove(cmp, Canonical(s), id, key) == Canonical(Without(s, id))
  {
    CanonicalIsShaped(s);
    RemoveInOrder(cmp, Canonical(s), id, key);
    RemoveShaped(cmp, Canonical(s), id, key);
    ShapeIsCanonical(Remove(cmp, Canonical(s), id, key));
  }

  // ---------- search ----------

  /** Item i is the topmost of the items that tie with the key: highest rank, leftmost among those. */
  ghost predicate Topmost<E, K>(cmp: Comparator<K>, s: seq<Item<E, K>>, key: K, i: nat) {
    && i < |s| && cmp(key, s[i].key) == Eq
    && forall j :: 0 <= j < |s| && j != i && cmp(key, s[j].key) == Eq ==>
         s[j].rank < s[i].rank || (i < j && s[j].rank == s[i].rank)
  }

  ghost predicate NoTie<E, K>(cmp: Comparator<K>, s: seq<Item<E, K>>, key: K) {
    forall j :: 0 <= j < |s| ==> cmp(key, s[j].key) != Eq
  }

  lemma TopmostParts<E, K(!new)>(cmp: Comparator<K>, a: seq<Item<E, K>>, y: Item<E, K>, b: seq<Item<E, K>>, key: K)
    requires TotalOrder(cmp) && Sorted(cmp, a + [y] + b)
    requires RanksBelow(a, y.rank) && RanksBelow(b, y.rank + 1)
    ensures cmp(key, y.key) == Eq ==> Topmost(cmp, a + [y] + b, key, |a|)
    ensures cmp(key, y.key) == Less ==> NoTie(cmp, [y] + b, key)
    ensures cmp(key, y.key) == More ==> NoTie(cmp, a + [y], key)
  {
    SortedParts(cmp, a, y, b);
    if cmp(key, y.key) == Less {
      forall j | 0 <= j < |b| ensures cmp(key, b[j].key) != Eq {
        NoTieBeyond(cmp, key, y.key, b[j].key);
      }
    } else if cmp(key, y.key) == More {
      forall j | 0 <= j < |a| ensures cmp(key, a[j].key) != Eq {
        NoTieBefore(cmp, a[j].key, y.key, key);
      }
    }
  }

  lemma TopmostShift<E, K>(cmp: Comparator<K>, a: seq<Item<E, K>>, b: seq<Item<E, K>>, key: K, i: nat)
    ensures NoTie(cmp, a, key) && Topmost(cmp, b, key, i) ==> Topmost(cmp, a + b, key, |a| + i)
    ensures NoTie(cmp, b, key) && Topmost(cmp, a, key, i) ==> Topmost(cmp, a + b, key, i)
    ensures NoTie(cmp, a, key) && NoTie(cmp, b, key) ==> NoTie(cmp, a + b, key)
  {
    assert forall j :: 0 <= j < |a| ==> (a + b)[j] == a[j];
    assert forall j :: |a| <= j < |a| + |b| ==> (a + b)[j] == b[j - |a|];
  }

  /** A search misses only keys that are not there, and among ties it returns the topmost. */
  lemma {:induction false} FindTopmost<E, K(!new)>(cmp: Comparator<K>, t: Tree<E, K>, key: K) returns (i: nat)
    requires TotalOrder(cmp) && Sorted(cmp, InOrder(t)) && Shaped(t)
    ensures var s, f := InOrder(t), Find(cmp, t, key);
            if f.Nil? then NoTie(cmp, s, key) else Topmost(cmp, s, key, i) && s[i] == f.item
  {
    i := 0;
    match t
    case Nil =>
    case Node(l, y, r) =>
      var a, b := InOrder(l), InOrder(r);
      SortedParts(cmp, a, y, b);
      TopmostParts(cmp, a, y, b, key);
      match cmp(key, y.key)
      case Eq =>
        i := |a|;
      case Less =>
        i := FindTopmost(cmp, l, key);
        TopmostShift(cmp, a, [y] + b, key, i);
        Seqs.Middle(a, y, b);
      case More =>
        var k := FindTopmost(cmp, r, key);
        i := |a| + 1 + k;
        TopmostShift(cmp, a + [y], b, key, k);
  }

  lemma NoTieBeyond<K(!new)>(cmp: Comparator<K>, key: K, y: K, z: K)
    requires TotalOrder(cmp) && cmp(key, y) == Less && cmp(y, z) != More
    ensures cmp(key, z) != Eq
  {
    assert cmp(y, key) == More;
    assert cmp(z, key) == More;
  }

  lemma NoTieBefore<K(!new)>(cmp: Comparator<K>, z: K, y: K, key: K)
    requires TotalOrder(cmp) && cmp(key, y) == More && cmp(z, y) != More
    ensures cmp(key, z) != Eq
  {
    assert cmp(key, z) == More;
  }

  // ---------- whole histories ----------

  datatype Op<E, K> = Add(item: Item<E, K>) | Drop(item: Item<E, K>)

  /** Only entries outside the tree are added and only entries inside it are dropped. */
  ghost predicate Admissible<E, K>(cmp: Comparator<K>, ops: seq<Op<E, K>>, s: seq<Item<E, K>>) {
    ops == [] ||
    ((if ops[0].Add? then Absent(s, ops[0].item.id) else ops[0].item in s)
     && Admissible(cmp, ops[1..], ListStep(cmp, ops[0], s)))
  }

  function ListStep<E(==), K>(cmp: Comparator<K>, op: Op<E, K>, s: seq<Item<E, K>>): seq<Item<E, K>> {
    if op.Add? then InsertSorted(cmp, s, op.item) else Without(s, op.item.id)
  }

  function TreeStep<E(==), K>(cmp: Comparator<K>, op: Op<E, K>, t: Tree<E, K>): Tree<E, K> {
    if op.Add? then Insert(cmp, t, op.item) else Remove(cmp, t, op.item.id, op.item.key)
  }

  function ListRun<E(==), K>(cmp: Comparator<K>, ops: seq<Op<E, K>>, s: seq<Item<E, K>>): seq<Item<E, K>> {
    if ops == [] then s else ListRun(cmp, ops[1..], ListStep(cmp, ops[0], s))
  }

  function TreeRun<E(==), K>(cmp: Comparator<K>, ops: seq<Op<E, K>>, t: Tree<E, K>): Tree<E, K> {
    if ops == [] then t else TreeRun(cmp, ops[1..], TreeStep(cmp, ops[0], t))
  }

  ghost predicate NoneAbove<E, K>(cmp: Comparator<K>, s: seq<Item<E, K>>, key: K) {
    forall j :: 0 <= j < |s| ==> cmp(s[j].key, key) != More
  }

  ghost predicate AllAbove<E, K>(cmp: Comparator<K>, s: seq<Item<E, K>>, key: K) {
    forall j :: 0 <= j < |s| ==> cmp(key, s[j].key) == Less
  }

  lemma {:induction false} InsertSortedAt<E, K(!new)>(cmp: Comparator<K>, s: seq<Item<E, K>>, x: Item<E, K>) returns (i: nat)
    requires TotalOrder(cmp) && Sorted(cmp, s)
    ensures i <= |s| && InsertSorted(cmp, s, x) == s[..i] + [x] + s[i..]
    ensures NoneAbove(cmp, s[..i], x.key) && AllAbove(cmp, s[i..], x.key)
  {
    if s == [] {
      i := 0;
    } else if cmp(x.key, s[0].key) == Less {
      i := 0;
      AllAboveFirst(cmp, s, x);
    } else {
      var k := InsertSortedAt(cmp, s[1..], x);
      i := k + 1;
      ConsSlices(s, k);
      NoneAboveCons(cmp, s[0], s[1..][..k], x.key);
    }
  }

  lemma ConsSlices<T>(s: seq<T>, k: nat)
    requires k < |s|
    ensures s[..k + 1] == [s[0]] + s[1..][..k] && s[k + 1..] == s[1..][k..]
  {
  }

  lemma NoneAboveCons<E, K(!new)>(cmp: Comparator<K>, y: Item<E, K>, a: seq<Item<E, K>>, key: K)
    requires TotalOrder(cmp) && cmp(key, y.key) != Less && NoneAbove(cmp, a, key)
    ensures NoneAbove(cmp, [y] + a, key)
  {
    assert cmp(y.key, key) != More;
  }

  lemma AllAboveFirst<E, K(!new)>(cmp: Comparator<K>, s: seq<Item<E, K>>, x: Item<E, K>)
    requires TotalOrder(cmp) && Sorted(cmp, s) && s != [] && cmp(x.key, s[0].key) == Less
    ensures AllAbove(cmp, s, x.key)
  {
    forall j | 0 < j < |s| ensures cmp(x.key, s[j].key) == Less {
      LessThanAll(cmp, x.key, s[0].key, s[j].key);
    }
  }

  lemma LessThanAll<K(!new)>(cmp: Comparator<K>, x: K, y: K, z: K)
    requires TotalOrder(cmp) && cmp(x, y) == Less && cmp(y, z) != More
    ensures cmp(x, z) == Less
  {
    assert cmp(y, x) == More;
    assert cmp(z, x) == More;
  }

  lemma DistinctWhole<E, K>(a: seq<Item<E, K>>, x: Item<E, K>, b: seq<Item<E, K>>)
    requires Distinct(a + b) && Absent(a + b, x.id)
    ensures Distinct(a + [x] + b) && Absent(a, x.id) && Absent(b, x.id)
  {
    var s, s' := a + b, a + [x] + b;
    assert forall j :: 0 <= j < |a| ==> s[j] == a[j];
    assert forall j :: 0 <= j < |b| ==> s[|a| + j] == b[j];
    assert forall j :: 0 <= j < |s'| ==> s'[j] == if j < |a| then s[j] else if j == |a| then x else s[j - 1];
  }

  lemma SortedWhole<E, K(!new)>(cmp: Comparator<K>, a: seq<Item<E, K>>, x: Item<E, K>, b: seq<Item<E, K>>)
    requires Sorted(cmp, a + b) && NoneAbove(cmp, a, x.key) && AllAbove(cmp, b, x.key)
    ensures Sorted(cmp, a + [x] + b)
  {
    var s, s' := a + b, a + [x] + b;
    assert forall j :: 0 <= j < |s'| ==> s'[j] == if j < |a| then s[j] else if j == |a| then x else s[j - 1];
    forall i, j | 0 <= i < j < |s'| ensures cmp(s'[i].key, s'[j].key) != More {
      if j == |a| {
        assert s'[i] == a[i];
      } else if i == |a| {
        assert s'[j] == b[j - |a| - 1];
      } else {
        var i', j' := if i < |a| then i else i - 1, if j < |a| then j else j - 1;
        assert s'[i] == s[i'] && s'[j] == s[j'];
      }
    }
  }

  lemma InsertSortedKeeps<E, K(!new)>(cmp: Comparator<K>, s: seq<Item<E, K>>, x: Item<E, K>) returns (i: nat)
    requires TotalOrder(cmp) && Sorted(cmp, s) && Distinct(s) && Absent(s, x.id)
    ensures var s' := InsertSorted(cmp, s, x);
            Sorted(cmp, s') && Distinct(s') && Without(s', x.id) == s && i < |s'| && s'[i] == x
  {
    i := InsertSortedAt(cmp, s, x);
    var a, b := s[..i], s[i..];
    assert a + b == s;
    SortedWhole(cmp, a, x, b);
    DistinctWhole(a, x, b);
    WithoutConcat(a, x, b, x.id);
    WithoutAbsent(a, x.id);
    WithoutAbsent(b, x.id);
  }

  lemma {:induction false} WithoutAt<E, K>(s: seq<Item<E, K>>, i: nat)
    requires i < |s| && Distinct(s)
    ensures Without(s, s[i].id) == s[..i] + s[i + 1..]
  {
    hide Without, Distinct;
    var a, b := s[..i], s[i + 1..];
    assert s == a + [s[i]] + b;
    DistinctParts(a, s[i], b);
    WithoutConcat(a, s[i], b, s[i].id);
    WithoutAbsent(a, s[i].id);
    WithoutAbsent(b, s[i].id);
  }

  lemma WithoutKeeps<E, K>(cmp: Comparator<K>, s: seq<Item<E, K>>, x: Item<E, K>)
    requires Sorted(cmp, s) && Distinct(s) && x in s
    ensures Sorted(cmp, Without(s, x.id)) && Distinct(Without(s, x.id))
    ensures Keyed(s, x.id, x.key)
  {
    var i :| 0 <= i < |s| && s[i] == x;
    WithoutAt(s, i);
    var s' := s[..i] + s[i + 1..];
    assert forall j :: 0 <= j < |s'| ==> s'[j] == if j < i then s[j] else s[j + 1];
  }

  /** After any history the tree is the canonical tree of the sequence the same history leaves. */
  lemma {:induction false} HistoryCanonical<E, K(!new)>(cmp: Comparator<K>, ops: seq<Op<E, K>>, s: seq<Item<E, K>>)
    requires TotalOrder(cmp) && Sorted(cmp, s) && Distinct(s) && Admissible(cmp, ops, s)
    ensures TreeRun(cmp, ops, Canonical(s)) == Canonical(ListRun(cmp, ops, s))
    ensures Sorted(cmp, ListRun(cmp, ops, s)) && Distinct(ListRun(cmp, ops, s))
    decreases |ops|
  {
    if ops != [] {
      var x := ops[0].item;
      if ops[0].Add? {
        InsertCanonical(cmp, s, x);
        var _ := InsertSortedKeeps(cmp, s, x);
      } else {
        WithoutKeeps(cmp, s, x);
        RemoveCanonical(cmp, s, x.id, x.key);
      }
      HistoryCanonical(cmp, ops[1..], ListStep(cmp, ops[0], s));
    }
  }

  /** History independence: two histories from the empty tree that leave the same in-order
      sequence of entries and ranks have built the same tree. */
  lemma HistoryIndependence<E, K(!new)>(cmp: Comparator<K>, ops1: seq<Op<E, K>>, ops2: seq<Op<E, K>>)
    requires TotalOrder(cmp) && Admissible(cmp, ops1, []) && Admissible(cmp, ops2, [])
    ensures InOrder(TreeRun(cmp, ops1, Nil)) == InOrder(TreeRun(cmp, ops2, Nil))
            <==> TreeRun(cmp, ops1, Nil) == TreeRun(cmp, ops2, Nil)
  {
    HistoryCanonical(cmp, ops1, []);
    HistoryCanonical(cmp, ops2, []);
    CanonicalIsShaped(ListRun(cmp, ops1, []));
    CanonicalIsShaped(ListRun(cmp, ops2, []));
  }

  lemma KeyedAt<E, K>(s: seq<Item<E, K>>, i: nat)
    requires i < |s| && Distinct(s)
    ensures Keyed(s, s[i].id, s[i].key)
  {
    forall j | 0 <= j < |s| && j != i ensures s[j].id != s[i].id {
      assert j < i || i < j;
    }
  }

  /** Inserting an entry and removing it again restores the exact tree, ties or not. */
  lemma InsertThenRemove<E, K(!new)>(cmp: Comparator<K>, t: Tree<E, K>, x: Item<E, K>)
    requires TotalOrder(cmp) && Shaped(t) && Sorted(cmp, InOrder(t)) && Distinct(InOrder(t)) && Absent(InOrder(t), x.id)
    ensures Remove(cmp, Insert(cmp, t, x), x.id, x.key) == t
  {
    var s := InOrder(t);
    ShapeIsCanonical(t);
    InsertCanonical(cmp, s, x);
    var i := InsertSortedKeeps(cmp, s, x);
    KeyedAt(InsertSorted(cmp, s, x), i);
    RemoveCanonical(cmp, InsertSorted(cmp, s, x), x.id, x.key);
  }
}

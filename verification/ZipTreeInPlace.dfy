/** The zip tree operations as the program runs them: recursive routines that rewrite the left and
    right links of the entries in place. Each is proved to leave exactly the tree that the
    function of the same name in ZipTree describes. */
module ZipTreeInPlace {
  import opened Ordering
  import opened ZipTree

  class Entry<K(==)> {
    var key: K
    var left: Entry?<K>
    var right: Entry?<K>
    var rank: nat

    constructor (key: K)
      ensures this.key == key
    {
      this.key := key;
      left, right, rank := null, null, 0;
    }

    /** The entry as the value tree knows it. */
    ghost function Itself(): Item<Entry<K>, K>
      reads this
    {
      Item(this, key, rank)
    }
  }

  type Shape<!K> = Tree<Entry<K>, K>

  ghost function Entries<K>(t: Shape<K>): set<Entry<K>> {
    match t
    case Nil => {}
    case Node(l, x, r) => Entries(l) + {x.id} + Entries(r)
  }

  /** The links reachable from p form the tree t, and no entry occurs in it twice. */
  ghost predicate Linked<K>(p: Entry?<K>, t: Shape<K>)
    reads Entries(t)
  {
    match t
    case Nil => p == null
    case Node(l, x, r) =>
      && p == x.id && x.id.key == x.key && x.id.rank == x.rank
      && x.id !in Entries(l) && x.id !in Entries(r) && Entries(l) !! Entries(r)
      && Linked(x.id.left, l) && Linked(x.id.right, r)
  }

  lemma {:induction false} InsertEntries<K>(cmp: Comparator<K>, t: Shape<K>, x: Item<Entry<K>, K>)
    ensures Entries(Insert(cmp, t, x)) == Entries(t) + {x.id}
  {
    match t
    case Nil =>
    case Node(l, y, r) =>
      if cmp(x.key, y.key) == Less {
        InsertEntries(cmp, l, x);
      } else {
        InsertEntries(cmp, r, x);
      }
  }

  lemma {:induction false} InsertRoot<K>(cmp: Comparator<K>, t: Shape<K>, x: Item<Entry<K>, K>)
    requires x.id !in Entries(t)
    ensures var y := Insert(cmp, t, x).item; y == x || (t.Node? && y == t.item)
  {
    match t
    case Nil =>
    case Node(l, y, r) =>
      if cmp(x.key, y.key) == Less {
        InsertRoot(cmp, l, x);
      } else {
        InsertRoot(cmp, r, x);
      }
  }

  /** The new entry has become the root of the left subtree and outranks its parent: it takes the
      parent as its right child and hands over its former right subtree. */
  method HoistFromLeft<K>(root: Entry<K>, elm: Entry<K>, ghost l: Shape<K>, ghost y: Item<Entry<K>, K>, ghost r: Shape<K>)
    requires l.Node? && Linked(elm, l) && Linked(root.right, r) && y == root.Itself()
    requires root !in Entries(l) && root !in Entries(r) && Entries(l) !! Entries(r)
    modifies root`left, elm`right
    ensures Linked(elm, Node(l.left, l.item, Node(l.right, y, r)))
  {
    root.left := elm.right;
    assert Linked(root, Node(l.right, y, r));
    elm.right := root;
    assert Linked(root, Node(l.right, y, r));
  }

  method HoistFromRight<K>(root: Entry<K>, elm: Entry<K>, ghost l: Shape<K>, ghost y: Item<Entry<K>, K>, ghost r: Shape<K>)
    requires r.Node? && Linked(elm, r) && Linked(root.left, l) && y == root.Itself()
    requires root !in Entries(l) && root !in Entries(r) && Entries(l) !! Entries(r)
    modifies root`right, elm`left
    ensures Linked(elm, Node(Node(l, y, r.left), r.item, r.right))
  {
    root.right := elm.left;
    assert Linked(root, Node(l, y, r.left));
    elm.left := root;
    assert Linked(root, Node(l, y, r.left));
  }

  /** One level of the insertion. */
  lemma InsertStep<K>(cmp: Comparator<K>, t: Shape<K>, x: Item<Entry<K>, K>)
    ensures t.Nil? ==> Insert(cmp, t, x) == Node(Nil, x, Nil)
    ensures t.Node? ==>
              var l, r := Insert(cmp, t.left, x), Insert(cmp, t.right, x);
              Insert(cmp, t, x)
              == if cmp(x.key, t.item.key) == Less then
                   if l.item.id == x.id && x.rank >= t.item.rank then Node(l.left, l.item, t.(left := l.right))
                   else t.(left := l)
                 else
                   if r.item.id == x.id && x.rank > t.item.rank then Node(t.(right := r.left), r.item, r.right)
                   else t.(right := r)
  {
  }

  method InsertAt<K>(cmp: Comparator<K>, root: Entry?<K>, elm: Entry<K>, ghost t: Shape<K>) returns (r: Entry<K>)
    requires Linked(root, t) && elm !in Entries(t)
    modifies Entries(t)`left, Entries(t)`right, elm`left, elm`right
    ensures Linked(r, Insert(cmp, t, elm.Itself()))
    ensures Entries(Insert(cmp, t, elm.Itself())) == Entries(t) + {elm}
    decreases t
  {
    hide Insert;
    ghost var x := elm.Itself();
    InsertStep(cmp, t, x);
    InsertEntries(cmp, t, x);
    if root == null {
      elm.left := null;
      elm.right := null;
      return elm;
    }
    var order := cmp(elm.key, root.key);
    if order == Less {
      InsertEntries(cmp, t.left, x);
      InsertRoot(cmp, t.left, x);
      assert allocated(Entries(t.right)) && Linked(root.right, t.right);
      var sub := InsertAt(cmp, root.left, elm, t.left);
      if sub == elm {
        if elm.rank < root.rank {
          root.left := elm;
        } else {
          HoistFromLeft(root, elm, Insert(cmp, t.left, x), t.item, t.right);
          return elm;
        }
      }
    } else {
      InsertEntries(cmp, t.right, x);
      InsertRoot(cmp, t.right, x);
      assert allocated(Entries(t.left)) && Linked(root.left, t.left);
      var sub := InsertAt(cmp, root.right, elm, t.right);
      if sub == elm {
        if elm.rank <= root.rank {
          root.right := elm;
        } else {
          HoistFromRight(root, elm, t.left, t.item, Insert(cmp, t.right, x));
          return elm;
        }
      }
    }
    return root;
  }

  lemma {:induction false} ZipEntries<K>(x: Shape<K>, y: Shape<K>)
    ensures Entries(Zip(x, y)) == Entries(x) + Entries(y)
  {
    if x.Node? && y.Node? {
      if x.item.rank < y.item.rank {
        ZipEntries(x, y.left);
      } else {
        ZipEntries(x.right, y);
      }
    }
  }

  lemma {:induction false} RemoveEntries<K>(cmp: Comparator<K>, t: Shape<K>, id: Entry<K>, key: K)
    ensures Entries(Remove(cmp, t, id, key)) <= Entries(t)
    ensures t.Node? && t.item.id != id ==> Remove(cmp, t, id, key).Node? && Remove(cmp, t, id, key).item == t.item
  {
    match t
    case Nil =>
    case Node(l, y, r) =>
      if y.id == id {
        ZipEntries(l, r);
      } else {
        RemoveEntries(cmp, l, id, key);
        RemoveEntries(cmp, r, id, key);
      }
  }

  method ZipUp<K>(x: Entry?<K>, y: Entry?<K>, ghost s: Shape<K>, ghost t: Shape<K>) returns (r: Entry?<K>)
    requires Linked(x, s) && Linked(y, t) && Entries(s) !! Entries(t)
    modifies Entries(s)`right, Entries(t)`left
    ensures Linked(r, Zip(s, t))
    decreases s, t
  {
    if x == null { return y; }
    if y == null { return x; }
    if x.rank < y.rank {
      assert allocated(Entries(t.right)) && Linked(y.right, t.right);
      ZipEntries(s, t.left);
      var sub := ZipUp(x, y.left, s, t.left);
      y.left := sub;
      return y;
    } else {
      assert allocated(Entries(s.left)) && Linked(x.left, s.left);
      ZipEntries(s.right, t);
      var sub := ZipUp(x.right, y, s.right, t);
      x.right := sub;
      return x;
    }
  }

  /** One level of the removal. */
  lemma RemoveStep<K>(cmp: Comparator<K>, t: Shape<K>, elm: Entry<K>, key: K)
    ensures t.Nil? ==> Remove(cmp, t, elm, key) == Nil
    ensures t.Node? && t.item.id == elm ==> Remove(cmp, t, elm, key) == Zip(t.left, t.right)
    ensures t.Node? && t.item.id != elm ==>
              Remove(cmp, t, elm, key)
              == Node(if cmp(key, t.item.key) == More then t.left else Remove(cmp, t.left, elm, key), t.item,
                      if cmp(key, t.item.key) == Less then t.right else Remove(cmp, t.right, elm, key))
  {
  }

  method RemoveFrom<K>(cmp: Comparator<K>, root: Entry<K>, elm: Entry<K>, ghost t: Shape<K>) returns (r: Entry?<K>)
    requires Linked(root, t)
    modifies Entries(t)`left, Entries(t)`right
    ensures Linked(r, Remove(cmp, t, elm, elm.key))
    decreases t, 2
  {
    hide Remove;
    RemoveStep(cmp, t, elm, elm.key);
    if root == elm {
      r := ZipUp(root.left, root.right, t.left, t.right);
      return;
    }
    var eq := cmp(elm.key, root.key);
    if eq == Less {
      RemoveFromLess(cmp, root, elm, t);
    } else if eq == More {
      RemoveFromMore(cmp, root, elm, t);
    } else {
      RemoveFromBoth(cmp, root, elm, t);
    }
    return root;
  }

  method RemoveFromLess<K>(cmp: Comparator<K>, root: Entry<K>, elm: Entry<K>, ghost t: Shape<K>)
    requires Linked(root, t)
    modifies Entries(t)`left, Entries(t)`right
    ensures Linked(root, t.(left := Remove(cmp, t.left, elm, elm.key)))
    decreases t, 1
  {
    hide Remove;
    RemoveStep(cmp, t.left, elm, elm.key);
    RemoveEntries(cmp, t.left, elm, elm.key);
    assert allocated(Entries(t.right)) && Linked(root.right, t.right);
    var left := root.left;
    if elm == left {
      var sub := ZipUp(left.left, left.right, t.left.left, t.left.right);
      root.left := sub;
    } else if left != null {
      var _ := RemoveFrom(cmp, left, elm, t.left);
    }
  }

  method RemoveFromMore<K>(cmp: Comparator<K>, root: Entry<K>, elm: Entry<K>, ghost t: Shape<K>)
    requires Linked(root, t)
    modifies Entries(t)`left, Entries(t)`right
    ensures Linked(root, t.(right := Remove(cmp, t.right, elm, elm.key)))
    decreases t, 1
  {
    hide Remove;
    RemoveStep(cmp, t.right, elm, elm.key);
    RemoveEntries(cmp, t.right, elm, elm.key);
    assert allocated(Entries(t.left)) && Linked(root.left, t.left);
    var right := root.right;
    if elm == right {
      var sub := ZipUp(right.left, right.right, t.right.left, t.right.right);
      root.right := sub;
    } else if right != null {
      var _ := RemoveFrom(cmp, right, elm, t.right);
    }
  }

  method RemoveFromBoth<K>(cmp: Comparator<K>, root: Entry<K>, elm: Entry<K>, ghost t: Shape<K>)
    requires Linked(root, t) && root != elm && cmp(elm.key, root.key) == Eq
    modifies Entries(t)`left, Entries(t)`right
    ensures Linked(root, Remove(cmp, t, elm, elm.key))
    decreases t, 1
  {
    hide Remove;
    RemoveStep(cmp, t, elm, elm.key);
    RemoveEntries(cmp, t.right, elm, elm.key);
    RemoveRight(cmp, root, elm, t);
    RemoveLeft(cmp, root, elm, t.(right := Remove(cmp, t.right, elm, elm.key)));
  }

  method RemoveRight<K>(cmp: Comparator<K>, root: Entry<K>, elm: Entry<K>, ghost t: Shape<K>)
    requires Linked(root, t)
    modifies Entries(t)`left, Entries(t)`right
    ensures Linked(root, t.(right := Remove(cmp, t.right, elm, elm.key)))
    decreases t.right, 3
  {
    hide Remove;
    RemoveStep(cmp, t.right, elm, elm.key);
    RemoveEntries(cmp, t.right, elm, elm.key);
    assert allocated(Entries(t.left)) && Linked(root.left, t.left);
    if root.right != null {
      var sub := RemoveFrom(cmp, root.right, elm, t.right);
      root.right := sub;
    }
  }

  method RemoveLeft<K>(cmp: Comparator<K>, root: Entry<K>, elm: Entry<K>, ghost t: Shape<K>)
    requires Linked(root, t)
    modifies Entries(t)`left, Entries(t)`right
    ensures Linked(root, t.(left := Remove(cmp, t.left, elm, elm.key)))
    decreases t.left, 3
  {
    hide Remove;
    RemoveStep(cmp, t.left, elm, elm.key);
    RemoveEntries(cmp, t.left, elm, elm.key);
    assert allocated(Entries(t.right)) && Linked(root.right, t.right);
    if root.left != null {
      var sub := RemoveFrom(cmp, root.left, elm, t.left);
      root.left := sub;
    }
  }

  method FindIn<K>(cmp: Comparator<K>, root: Entry?<K>, key: K, ghost t: Shape<K>) returns (r: Entry?<K>)
    requires Linked(root, t)
    ensures Linked(r, Find(cmp, t, key))
    decreases t
  {
    if root == null { return null; }
    var eq := cmp(key, root.key);
    if eq == Eq { return root; }
    if eq == Less {
      r := FindIn(cmp, root.left, key, t.left);
    } else {
      r := FindIn(cmp, root.right, key, t.right);
    }
  }

  method Min<K>(elm: Entry?<K>, ghost t: Shape<K>) returns (r: Entry?<K>)
    requires Linked(elm, t)
    ensures if t.Nil? then r == null else r == InOrder(t)[0].id
  {
    if elm == null { return null; }
    r := elm;
    ghost var u := t;
    while r.left != null
      invariant r != null && Linked(r, u) && InOrder(u)[0].id == InOrder(t)[0].id
      decreases u
    {
      r, u := r.left, u.left;
    }
  }

  method Max<K>(elm: Entry?<K>, ghost t: Shape<K>) returns (r: Entry?<K>)
    requires Linked(elm, t)
    ensures if t.Nil? then r == null else r == InOrder(t)[|InOrder(t)| - 1].id
  {
    if elm == null { return null; }
    r := elm;
    ghost var u := t;
    while r.right != null
      invariant r != null && Linked(r, u) && InOrder(u)[|InOrder(u)| - 1].id == InOrder(t)[|InOrder(t)| - 1].id
      decreases u
    {
      r, u := r.right, u.right;
    }
  }

  lemma {:induction false} EntriesAreItems<K>(t: Shape<K>, e: Entry<K>)
    ensures e !in Entries(t) <==> Absent(InOrder(t), e)
  {
    match t
    case Nil =>
    case Node(l, y, r) =>
      EntriesAreItems(l, e);
      EntriesAreItems(r, e);
      PartsAbsent(InOrder(l), y, InOrder(r), e);
  }

  lemma {:induction false} LinkedKeys<K>(p: Entry?<K>, t: Shape<K>, e: Entry<K>)
    requires Linked(p, t)
    ensures Keyed(InOrder(t), e, e.key)
  {
    match t
    case Nil =>
    case Node(l, y, r) =>
      LinkedKeys(p.left, l, e);
      LinkedKeys(p.right, r, e);
      var a, b, s := InOrder(l), InOrder(r), InOrder(t);
      forall i | 0 <= i < |s| && s[i].id == e ensures s[i].key == e.key {
        assert s[i] == if i < |a| then a[i] else if i == |a| then y else b[i - |a| - 1];
      }
  }

  /** What insertion and removal make of a well-formed tree, in one place for the tree head. */
  lemma InsertFacts<K(!new)>(cmp: Comparator<K>, t: Shape<K>, x: Item<Entry<K>, K>)
    requires TotalOrder(cmp) && Shaped(t) && Sorted(cmp, InOrder(t)) && Distinct(InOrder(t)) && x.id !in Entries(t)
    ensures var t' := Insert(cmp, t, x);
            && InOrder(t') == InsertSorted(cmp, InOrder(t), x) && t' == Canonical(InOrder(t'))
            && Shaped(t') && Sorted(cmp, InOrder(t')) && Distinct(InOrder(t'))
  {
    EntriesAreItems(t, x.id);
    InsertInOrder(cmp, t, x);
    InsertShaped(cmp, t, x);
    ShapeIsCanonical(Insert(cmp, t, x));
    var _ := InsertSortedKeeps(cmp, InOrder(t), x);
  }

  lemma RemoveFacts<K(!new)>(cmp: Comparator<K>, p: Entry?<K>, t: Shape<K>, e: Entry<K>)
    requires TotalOrder(cmp) && Shaped(t) && Sorted(cmp, InOrder(t)) && Distinct(InOrder(t))
    requires Linked(p, t) && e in Entries(t)
    ensures var t' := Remove(cmp, t, e, e.key);
            && InOrder(t') == Without(InOrder(t), e) && t' == Canonical(InOrder(t'))
            && Shaped(t') && Sorted(cmp, InOrder(t')) && Distinct(InOrder(t'))
  {
    EntriesAreItems(t, e);
    LinkedKeys(p, t, e);
    RemoveInOrder(cmp, t, e, e.key);
    RemoveShaped(cmp, t, e, e.key);
    ShapeIsCanonical(Remove(cmp, t, e, e.key));
    var s := InOrder(t);
    var i :| 0 <= i < |s| && s[i].id == e;
    WithoutKeeps(cmp, s, s[i]);
  }

  // ---------- the tree head ----------

  class Head<K(==, !new)> {
    const cmp: Comparator<K>
    var root: Entry?<K>
    ghost var shape: Shape<K>

    ghost predicate Valid()
      reads this, Entries(shape)
    {
      && TotalOrder(cmp) && Linked(root, shape)
      && Shaped(shape) && Sorted(cmp, InOrder(shape)) && Distinct(InOrder(shape))
    }

    constructor (cmp: Comparator<K>)
      requires TotalOrder(cmp)
      ensures Valid() && InOrder(shape) == []
    {
      this.cmp := cmp;
      root, shape := null, Nil;
    }

    /** The rank is drawn by the caller. */
    method Insert(elm: Entry<K>, rank: nat)
      requires Valid() && elm !in Entries(shape)
      modifies this, Entries(shape), elm
      ensures Valid() && elm.key == old(elm.key) && elm.rank == rank
      ensures InOrder(shape) == InsertSorted(cmp, old(InOrder(shape)), elm.Itself())
      ensures shape == Canonical(InOrder(shape))
    {
      hide Sorted, Distinct, Shaped, TotalOrder, Canonical;
      assert allocated(Entries(shape)) && Linked(root, shape);
      elm.rank := rank;
      ghost var x := elm.Itself();
      InsertFacts(cmp, shape, x);
      var r := InsertAt(cmp, root, elm, shape);
      shape := ZipTree.Insert(cmp, shape, x);
      root := r;
    }

    method Remove(elm: Entry<K>)
      requires Valid() && elm in Entries(shape)
      modifies this, Entries(shape)
      ensures Valid()
      ensures InOrder(shape) == Without(old(InOrder(shape)), elm)
      ensures shape == Canonical(InOrder(shape))
    {
      hide Sorted, Distinct, Shaped, TotalOrder, Canonical, Without;
      assert allocated(Entries(shape)) && Linked(root, shape);
      RemoveFacts(cmp, root, shape, elm);
      ghost var t' := ZipTree.Remove(cmp, shape, elm, elm.key);
      RemoveEntries(cmp, shape, elm, elm.key);
      var r := RemoveFrom(cmp, root, elm, shape);
      shape := t';
      root := r;
    }

    method FindTop(key: K) returns (r: Entry?<K>)
      requires Valid()
      ensures if r == null then NoTie(cmp, InOrder(shape), key)
              else exists i: nat :: Topmost(cmp, InOrder(shape), key, i) && InOrder(shape)[i].id == r
    {
      ghost var i := FindTopmost(cmp, shape, key);
      r := FindIn(cmp, root, key, shape);
    }
  }
}

/** The AA tree routines as the program runs them, rewriting links and levels of the entries in
    place. Each is proved to leave exactly the tree of the function of the same name in AaTree. */
module AaTreeInPlace {
  import Seqs
  import opened Ordering
  import opened AaTree

  class Entry<K(==)> {
    const addr: nat
    var key: K
    var left: Entry?<K>
    var right: Entry?<K>
    var level: nat

    constructor (key: K, addr: nat)
      ensures this.key == key && this.addr == addr
    {
      this.key, this.addr := key, addr;
      left, right, level := null, null, 0;
    }

    ghost function Itself(): Item<Entry<K>, K>
      reads this
    {
      Item(this, key, addr)
    }
  }

  type Shape<!K> = Tree<Entry<K>, K>

  type Items<!K> = seq<Item<Entry<K>, K>>

  ghost function Entries<K>(t: Shape<K>): set<Entry<K>> {
    match t
    case Nil => {}
    case Node(l, x, _, r) => Entries(l) + {x.id} + Entries(r)
  }

  /** The links reachable from p form the tree t, and no entry occurs in it twice. */
  ghost predicate Linked<K>(p: Entry?<K>, t: Shape<K>)
    reads Entries(t)
  {
    match t
    case Nil => p == null
    case Node(l, x, level, r) =>
      && p == x.id && x.id.key == x.key && x.id.addr == x.addr && x.id.level == level
      && x.id !in Entries(l) && x.id !in Entries(r) && Entries(l) !! Entries(r)
      && Linked(x.id.left, l) && Linked(x.id.right, r)
  }

  /** The comparison of a descent, with ties broken by address. */
  predicate TurnsLeft<K>(cmp: Comparator<K>, elem: Entry<K>, n: Entry<K>)
    reads elem, n
  {
    var eq := cmp(elem.key, n.key);
    eq == Less || (eq == Eq && !(elem.addr > n.addr))
  }

  // ---------- rebalancing ----------

  lemma RebalanceEntries<K>(t: Shape<K>)
    ensures Entries(Skew(t)) == Entries(t)
    ensures Entries(Split(t)) == Entries(t)
  {
  }

  lemma FixupEntries<K>(t: Shape<K>)
    requires t.Node?
    ensures Entries(Lowered(t)) == Entries(t)
    ensures Entries(SkewRight(t)) == Entries(t)
    ensures Entries(SkewRightRight(t)) == Entries(t)
    ensures Entries(SplitRight(t)) == Entries(t)
    ensures Entries(Fixup(t)) == Entries(t)
  {
    StepEntries(t);
    StepEntries(Lowered(t));
    RebalanceEntries(Lowered(t));
    StepEntries(Skew(Lowered(t)));
    StepEntries(SkewRight(Skew(Lowered(t))));
    RebalanceEntries(SkewRightRight(SkewRight(Skew(Lowered(t)))));
    StepEntries(Split(SkewRightRight(SkewRight(Skew(Lowered(t))))));
  }

  lemma StepEntries<K>(t: Shape<K>)
    requires t.Node?
    ensures Entries(Lowered(t)) == Entries(t)
    ensures Entries(SkewRight(t)) == Entries(t)
    ensures Entries(SkewRightRight(t)) == Entries(t)
    ensures Entries(SplitRight(t)) == Entries(t)
  {
    RebalanceEntries(t.right);
    if t.right.Node? {
      RebalanceEntries(t.right.right);
    }
  }

  method SkewAt<K>(n: Entry?<K>, ghost t: Shape<K>) returns (r: Entry?<K>)
    requires Linked(n, t)
    modifies Entries(t)`left, Entries(t)`right
    ensures Linked(r, Skew(t))
  {
    if n == null { return null; }
    if n.left != null && n.level == n.left.level {
      var l := n.left;
      n.left := l.right;
      assert Linked(n, t.(left := t.left.right));
      l.right := n;
      return l;
    }
    return n;
  }

  method SplitAt<K>(n: Entry?<K>, ghost t: Shape<K>) returns (r: Entry?<K>)
    requires Linked(n, t)
    modifies Entries(t)`left, Entries(t)`right, Entries(t)`level
    ensures Linked(r, Split(t))
  {
    if n == null { return null; }
    assert n.right != null ==> Linked(n.right.right, t.right.right);
    if n.right != null && n.right.right != null && n.right.right.level == n.level {
      var m := n.right;
      n.right := m.left;
      assert Linked(n, t.(right := t.right.left)) && Linked(m.right, t.right.right);
      m.left := n;
      m.level := m.level + 1;
      assert Linked(n, t.(right := t.right.left)) && Linked(m.right, t.right.right);
      return m;
    }
    return n;
  }

  method LowerAt<K>(n: Entry<K>, ghost t: Shape<K>)
    requires Linked(n, t)
    modifies Entries(t)`level
    ensures Linked(n, Lowered(t))
  {
    var shouldBe := 0;
    if n.left != null {
      shouldBe := n.left.level;
    }
    if n.right != null && n.right.level < shouldBe {
      shouldBe := n.right.level;
    }
    shouldBe := shouldBe + 1;
    if shouldBe < n.level {
      n.level := shouldBe;
    }
    if n.right != null && n.right.level > shouldBe {
      n.right.level := shouldBe;
    }
  }

  method SkewRightAt<K>(n: Entry<K>, ghost t: Shape<K>)
    requires Linked(n, t)
    modifies Entries(t)`left, Entries(t)`right
    ensures Linked(n, SkewRight(t))
  {
    assert allocated(Entries(t.left)) && Linked(n.left, t.left);
    RebalanceEntries(t.right);
    var sub := SkewAt(n.right, t.right);
    n.right := sub;
  }

  method SkewRightRightAt<K>(n: Entry<K>, ghost t: Shape<K>)
    requires Linked(n, t)
    modifies Entries(t)`left, Entries(t)`right
    ensures Linked(n, SkewRightRight(t))
  {
    if n.right != null {
      assert allocated(Entries(t.left)) && Linked(n.left, t.left);
      StepEntries(t.right);
      SkewRightAt(n.right, t.right);
    }
  }

  method SplitRightAt<K>(n: Entry<K>, ghost t: Shape<K>)
    requires Linked(n, t)
    modifies Entries(t)`left, Entries(t)`right, Entries(t)`level
    ensures Linked(n, SplitRight(t))
  {
    assert allocated(Entries(t.left)) && Linked(n.left, t.left);
    RebalanceEntries(t.right);
    var sub := SplitAt(n.right, t.right);
    n.right := sub;
  }

  method FixupAt<K>(n0: Entry<K>, ghost t: Shape<K>) returns (n: Entry<K>)
    requires Linked(n0, t)
    modifies Entries(t)`left, Entries(t)`right, Entries(t)`level
    ensures Linked(n, Fixup(t))
  {
    LowerAt(n0, t);
    ghost var a := Lowered(t);
    StepEntries(t);
    var sub := SkewAt(n0, a);
    ghost var b := Skew(a);
    RebalanceEntries(a);
    n := sub;
    SkewRightAt(n, b);
    ghost var c := SkewRight(b);
    StepEntries(b);
    SkewRightRightAt(n, c);
    ghost var d := SkewRightRight(c);
    StepEntries(c);
    sub := SplitAt(n, d);
    ghost var e := Split(d);
    RebalanceEntries(d);
    n := sub;
    SplitRightAt(n, e);
  }

  // ---------- insertion ----------

  lemma {:induction false} InsertEntries<K>(cmp: Comparator<K>, t: Shape<K>, x: Item<Entry<K>, K>)
    ensures Entries(Insert(cmp, t, x)) == Entries(t) + {x.id}
  {
    match t
    case Nil =>
    case Node(l, y, _, r) =>
      InsertEntries(cmp, l, x);
      InsertEntries(cmp, r, x);
      var t1, t2 := t.(left := Insert(cmp, l, x)), t.(right := Insert(cmp, r, x));
      RebalanceEntries(t1);
      RebalanceEntries(t2);
      RebalanceEntries(Skew(t1));
      RebalanceEntries(Skew(t2));
  }

  method RebalanceAt<K>(n: Entry<K>, ghost t: Shape<K>) returns (r: Entry<K>)
    requires Linked(n, t)
    modifies Entries(t)`left, Entries(t)`right, Entries(t)`level
    ensures Linked(r, Split(Skew(t)))
  {
    RebalanceEntries(t);
    var s := SkewAt(n, t);
    r := SplitAt(s, Skew(t));
  }

  /** One level of the insertion. */
  lemma InsertStep<K>(cmp: Comparator<K>, t: Shape<K>, x: Item<Entry<K>, K>)
    ensures t.Nil? ==> Insert(cmp, t, x) == Node(Nil, x, 1, Nil)
    ensures t.Node? ==>
              Insert(cmp, t, x) == Split(Skew(if GoesLeft(cmp, x.key, x.addr, t.item) then t.(left := Insert(cmp, t.left, x))
                                              else t.(right := Insert(cmp, t.right, x))))
  {
  }

  method InsertAt<K>(cmp: Comparator<K>, n: Entry?<K>, elem: Entry<K>, ghost t: Shape<K>) returns (r: Entry<K>)
    requires Linked(n, t) && elem !in Entries(t)
    modifies Entries(t)`left, Entries(t)`right, Entries(t)`level, elem`left, elem`right, elem`level
    ensures Linked(r, Insert(cmp, t, elem.Itself()))
    decreases t
  {
    hide Insert;
    ghost var x := elem.Itself();
    InsertStep(cmp, t, x);
    if n == null {
      elem.left := null;
      elem.right := null;
      elem.level := 1;
      return elem;
    }
    assert allocated(Entries(t.left)) && allocated(Entries(t.right));
    if TurnsLeft(cmp, elem, n) {
      assert Linked(n.right, t.right);
      InsertEntries(cmp, t.left, x);
      var sub := InsertAt(cmp, n.left, elem, t.left);
      n.left := sub;
      r := RebalanceAt(n, t.(left := Insert(cmp, t.left, x)));
    } else {
      assert Linked(n.left, t.left);
      InsertEntries(cmp, t.right, x);
      var sub := InsertAt(cmp, n.right, elem, t.right);
      n.right := sub;
      r := RebalanceAt(n, t.(right := Insert(cmp, t.right, x)));
    }
  }

  // ---------- removal ----------

  lemma {:induction false} UnlinkSuccEntries<K>(t: Shape<K>)
    requires t.Node?
    ensures var (t', succ) := UnlinkSucc(t); Entries(t') + {succ.id} == Entries(t)
  {
    if t.left.Node? {
      UnlinkSuccEntries(t.left);
      FixupEntries(t.(left := UnlinkSucc(t.left).0));
    }
  }

  lemma {:induction false} UnlinkPredEntries<K>(t: Shape<K>)
    requires t.Node?
    ensures var (t', pred) := UnlinkPred(t); Entries(t') + {pred.id} == Entries(t)
  {
    if t.right.Node? {
      UnlinkPredEntries(t.right);
      FixupEntries(t.(right := UnlinkPred(t.right).0));
    }
  }

  lemma RemoveRootEntries<K>(cmp: Comparator<K>, t: Shape<K>, key: K)
    requires t.Node?
    ensures Entries(Remove(cmp, t, key, t.item.addr)) <= Entries(t)
  {
    if t.left.Node? {
      UnlinkPredEntries(t.left);
      var (l', pred) := UnlinkPred(t.left);
      FixupEntries(t.(left := l', item := pred));
    } else if t.right.Node? {
      UnlinkSuccEntries(t.right);
      var (r', succ) := UnlinkSucc(t.right);
      FixupEntries(t.(right := r', item := succ));
    }
  }

  lemma {:induction false} RemoveEntries<K>(cmp: Comparator<K>, t: Shape<K>, key: K, addr: nat)
    ensures Entries(Remove(cmp, t, key, addr)) <= Entries(t)
  {
    match t
    case Nil =>
    case Node(l, y, _, r) =>
      RemoveEntries(cmp, l, key, addr);
      RemoveEntries(cmp, r, key, addr);
      FixupEntries(t.(left := Remove(cmp, l, key, addr)));
      FixupEntries(t.(right := Remove(cmp, r, key, addr)));
      if y.addr == addr {
        RemoveRootEntries(cmp, t, key);
      }
  }

  /** The unlinked successor is the one entry of t that no longer occurs in what is left of it. */
  method UnlinkSuccAt<K>(n: Entry<K>, ghost t: Shape<K>) returns (r: Entry?<K>, succ: Entry<K>)
    requires Linked(n, t)
    modifies Entries(t)`left, Entries(t)`right, Entries(t)`level
    ensures Linked(r, UnlinkSucc(t).0) && succ.Itself() == UnlinkSucc(t).1
    ensures succ !in Entries(UnlinkSucc(t).0)
    decreases t
  {
    if n.left == null {
      return n.right, n;
    }
    assert allocated(Entries(t.right)) && Linked(n.right, t.right);
    UnlinkSuccEntries(t.left);
    var sub;
    sub, succ := UnlinkSuccAt(n.left, t.left);
    n.left := sub;
    ghost var t' := t.(left := UnlinkSucc(t.left).0);
    FixupEntries(t');
    r := FixupAt(n, t');
  }

  method UnlinkPredAt<K>(n: Entry<K>, ghost t: Shape<K>) returns (r: Entry?<K>, pred: Entry<K>)
    requires Linked(n, t)
    modifies Entries(t)`left, Entries(t)`right, Entries(t)`level
    ensures Linked(r, UnlinkPred(t).0) && pred.Itself() == UnlinkPred(t).1
    ensures pred !in Entries(UnlinkPred(t).0)
    decreases t
  {
    if n.right == null {
      return n.left, n;
    }
    assert allocated(Entries(t.left)) && Linked(n.left, t.left);
    UnlinkPredEntries(t.right);
    var sub;
    sub, pred := UnlinkPredAt(n.right, t.right);
    n.right := sub;
    ghost var t' := t.(right := UnlinkPred(t.right).0);
    FixupEntries(t');
    r := FixupAt(n, t');
  }

  /** The entry itself has been found: its predecessor or successor takes its place and level. */
  method RemoveHere<K>(n: Entry<K>, ghost cmp: Comparator<K>, ghost t: Shape<K>) returns (r: Entry?<K>)
    requires Linked(n, t)
    modifies Entries(t)`left, Entries(t)`right, Entries(t)`level
    ensures Linked(r, Remove(cmp, t, n.key, n.addr))
  {
    if n.left == null && n.right == null {
      return null;
    }
    if n.left == null {
      UnlinkSuccEntries(t.right);
      var sub, replace := UnlinkSuccAt(n.right, t.right);
      n.right := sub;
      ghost var t' := t.(right := UnlinkSucc(t.right).0, item := UnlinkSucc(t.right).1);
      TakePlace(replace, n, t');
      r := FixupAt(replace, t');
    } else {
      assert allocated(Entries(t.right)) && Linked(n.right, t.right);
      UnlinkPredEntries(t.left);
      var sub, replace := UnlinkPredAt(n.left, t.left);
      n.left := sub;
      ghost var t' := t.(left := UnlinkPred(t.left).0, item := UnlinkPred(t.left).1);
      TakePlace(replace, n, t');
      r := FixupAt(replace, t');
    }
  }

  method TakePlace<K>(replace: Entry<K>, n: Entry<K>, ghost t: Shape<K>)
    requires t.Node? && Linked(n.left, t.left) && Linked(n.right, t.right)
    requires replace.Itself() == t.item && n.level == t.level && n != replace
    requires replace !in Entries(t.left) && replace !in Entries(t.right) && Entries(t.left) !! Entries(t.right)
    modifies replace`left, replace`right, replace`level
    ensures Linked(replace, t)
  {
    replace.left := n.left;
    replace.right := n.right;
    replace.level := n.level;
  }

  method RemoveAt<K>(cmp: Comparator<K>, elem: Entry<K>, n: Entry?<K>, ghost t: Shape<K>) returns (r: Entry?<K>)
    requires Linked(n, t)
    requires forall e :: e in Entries(t) && e.addr == elem.addr ==> e == elem
    modifies Entries(t)`left, Entries(t)`right, Entries(t)`level
    ensures Linked(r, Remove(cmp, t, elem.key, elem.addr))
    decreases t
  {
    if n == null {
      return null;
    }
    if n == elem {
      r := RemoveHere(n, cmp, t);
      return;
    }
    assert allocated(Entries(t.left)) && allocated(Entries(t.right));
    if TurnsLeft(cmp, elem, n) {
      assert Linked(n.right, t.right);
      RemoveEntries(cmp, t.left, elem.key, elem.addr);
      var sub := RemoveAt(cmp, elem, n.left, t.left);
      n.left := sub;
      r := FixupAt(n, t.(left := Remove(cmp, t.left, elem.key, elem.addr)));
    } else {
      assert Linked(n.left, t.left);
      RemoveEntries(cmp, t.right, elem.key, elem.addr);
      var sub := RemoveAt(cmp, elem, n.right, t.right);
      n.right := sub;
      r := FixupAt(n, t.(right := Remove(cmp, t.right, elem.key, elem.addr)));
    }
  }

  // ---------- searching and walking ----------

  method Find<K>(cmp: Comparator<K>, root: Entry?<K>, key: K, ghost t: Shape<K>) returns (n: Entry?<K>)
    requires Linked(root, t)
    ensures Linked(n, Search(cmp, t, key))
  {
    n := root;
    ghost var u := t;
    while n != null
      invariant Linked(n, u) && Search(cmp, u, key) == Search(cmp, t, key)
      decreases u
    {
      var eq := cmp(key, n.key);
      if eq == Eq {
        return;
      }
      if eq == Less {
        n, u := n.left, u.left;
      } else {
        n, u := n.right, u.right;
      }
    }
  }

  method Min<K>(root: Entry?<K>, ghost t: Shape<K>) returns (e: Entry?<K>)
    requires Linked(root, t)
    ensures e == First(InOrder(t))
  {
    e := root;
    if e == null { return; }
    ghost var u := t;
    while e.left != null
      invariant e != null && Linked(e, u) && InOrder(u)[0].id == InOrder(t)[0].id
      decreases u
    {
      e, u := e.left, u.left;
    }
  }

  method Max<K>(root: Entry?<K>, ghost t: Shape<K>) returns (e: Entry?<K>)
    requires Linked(root, t)
    ensures e == Last(InOrder(t))
  {
    e := root;
    if e == null { return; }
    ghost var u := t;
    while e.right != null
      invariant e != null && Linked(e, u) && InOrder(u)[|InOrder(u)| - 1].id == InOrder(t)[|InOrder(t)| - 1].id
      decreases u
    {
      e, u := e.right, u.right;
    }
  }

  lemma {:induction false} EntryIsItem<K>(p: Entry?<K>, t: Shape<K>, e: Entry<K>)
    requires Linked(p, t) && e in Entries(t)
    ensures e.Itself() in InOrder(t)
  {
    if p != e {
      if e in Entries(t.left) {
        EntryIsItem(p.left, t.left, e);
      } else {
        EntryIsItem(p.right, t.right, e);
      }
    }
  }

  lemma {:induction false} ItemIsEntry<K>(p: Entry?<K>, t: Shape<K>, x: Item<Entry<K>, K>)
    requires Linked(p, t) && x in InOrder(t)
    ensures x.id in Entries(t) && x == x.id.Itself()
  {
    if x != t.item {
      if x in InOrder(t.left) {
        ItemIsEntry(p.left, t.left, x);
      } else {
        ItemIsEntry(p.right, t.right, x);
      }
    }
  }

  /** The comparisons of a descent always take the side that holds the entry. */
  lemma RightSide<K(!new)>(cmp: Comparator<K>, a: Items<K>, y: Item<Entry<K>, K>, b: Items<K>, x: Item<Entry<K>, K>)
    requires TotalOrder(cmp) && Sorted(cmp, a + [y] + b) && x in a + [y] + b && x != y
    ensures if GoesLeft(cmp, x.key, x.addr, y) then x in a else x in b
  {
    BeforeParts(cmp, a, y, b);
    assert x in a || x in b;
    assert cmp(x.key, y.key) == Eq <==> cmp(y.key, x.key) == Eq;
  }

  /** Where a descent towards x stands: a before the subtree u, b behind it, together the whole tree. */
  ghost predicate Towards<K>(cmp: Comparator<K>, x: Item<Entry<K>, K>, t: Shape<K>, a: Items<K>, u: Shape<K>, b: Items<K>) {
    InOrder(t) == a + InOrder(u) + b && x in InOrder(u) && Sorted(cmp, InOrder(u))
  }

  lemma Start<K>(cmp: Comparator<K>, root: Entry?<K>, t: Shape<K>, elem: Entry<K>)
    requires Linked(root, t) && Sorted(cmp, InOrder(t)) && elem in Entries(t)
    ensures Towards(cmp, elem.Itself(), t, [], t, [])
  {
    EntryIsItem(root, t, elem);
    Seqs.Empty(InOrder(t));
  }

  ghost function Passed<K>(a: Items<K>, u: Shape<K>): (s: Items<K>)
    requires u.Node?
    ensures s != [] && s[|s| - 1] == u.item
  {
    a + InOrder(u.left) + [u.item]
  }

  ghost function Ahead<K>(u: Shape<K>, b: Items<K>): (s: Items<K>)
    requires u.Node?
    ensures s != [] && s[0] == u.item
  {
    [u.item] + InOrder(u.right) + b
  }

  lemma Descend<K(!new)>(cmp: Comparator<K>, x: Item<Entry<K>, K>, t: Shape<K>, a: Items<K>, u: Shape<K>, b: Items<K>)
    requires TotalOrder(cmp) && u.Node? && Towards(cmp, x, t, a, u, b) && x != u.item
    ensures if GoesLeft(cmp, x.key, x.addr, u.item) then Towards(cmp, x, t, a, u.left, Ahead(u, b))
            else Towards(cmp, x, t, Passed(a, u), u.right, b)
  {
    RightSide(cmp, InOrder(u.left), u.item, InOrder(u.right), x);
    BeforeParts(cmp, InOrder(u.left), u.item, InOrder(u.right));
    Seqs.Open(a, InOrder(u.left), u.item, InOrder(u.right), b);
  }

  /** Every entry of a tree is the root of one of its subtrees. */
  lemma {:induction false} Locate<K>(p: Entry?<K>, t: Shape<K>, e: Entry<K>)
    returns (a: Items<K>, u: Shape<K>, b: Items<K>)
    requires Linked(p, t) && e in Entries(t)
    ensures Linked(e, u) && InOrder(t) == a + InOrder(u) + b
  {
    if p == e {
      a, u, b := [], t, [];
      Seqs.Empty(InOrder(t));
    } else if e in Entries(t.left) {
      a, u, b := Locate(p.left, t.left, e);
      Seqs.Assoc(a + InOrder(u), b, [t.item]);
      Seqs.Assoc(a + InOrder(u), b + [t.item], InOrder(t.right));
      b := b + [t.item] + InOrder(t.right);
    } else {
      a, u, b := Locate(p.right, t.right, e);
      Seqs.Assoc(InOrder(t.left) + [t.item], a + InOrder(u), b);
      Seqs.Assoc(InOrder(t.left) + [t.item], a, InOrder(u));
      a := InOrder(t.left) + [t.item] + a;
    }
  }

  ghost function First<K>(s: Items<K>): Entry?<K> {
    if s == [] then null else s[0].id
  }

  ghost function Last<K>(s: Items<K>): Entry?<K> {
    if s == [] then null else s[|s| - 1].id
  }

  lemma Neighbours<K>(t: Shape<K>, a: Items<K>, u: Shape<K>, b: Items<K>) returns (p: Items<K>, q: Items<K>)
    requires u.Node? && InOrder(t) == a + InOrder(u) + b
    ensures InOrder(t) == p + [u.item] + q
    ensures First(q) == if u.right.Nil? then First(b) else First(InOrder(u.right))
    ensures Last(p) == if u.left.Nil? then Last(a) else Last(InOrder(u.left))
  {
    p, q := a + InOrder(u.left), InOrder(u.right) + b;
    Seqs.Open(a, InOrder(u.left), u.item, InOrder(u.right), b);
    Seqs.Assoc([u.item], InOrder(u.right), b);
    Seqs.Assoc(p, [u.item], q);
  }

  /** The entry right behind, and right before, the given one. */
  ghost function Follower<K>(s: Items<K>, elem: Entry<K>): Entry?<K> {
    if s == [] then null else if s[0].id == elem then First(s[1..]) else Follower(s[1..], elem)
  }

  ghost function Leader<K>(s: Items<K>, elem: Entry<K>): Entry?<K> {
    if |s| < 2 then null else if s[1].id == elem then s[0].id else Leader(s[1..], elem)
  }

  ghost predicate OnceEach<K>(s: Items<K>) {
    forall i, j :: 0 <= i < j < |s| ==> s[i].id != s[j].id
  }

  lemma {:induction false} AfterSplit<K>(p: Items<K>, x: Item<Entry<K>, K>, q: Items<K>)
    requires OnceEach(p + [x] + q)
    ensures Follower(p + [x] + q, x.id) == First(q) && Leader(p + [x] + q, x.id) == Last(p)
    decreases |p|
  {
    var s := p + [x] + q;
    if p == [] {
      assert s[1..] == q && s[0] == x;
      NotLeader(s, x.id);
    } else {
      assert s[0] == p[0] && s[|p|] == x && s[1..] == p[1..] + [x] + q;
      if |p| > 1 {
        assert s[1] == p[1];
      }
      assert OnceEach(s[1..]) by {
        assert forall i :: 0 <= i < |s[1..]| ==> s[1..][i] == s[i + 1];
      }
      AfterSplit(p[1..], x, q);
    }
  }

  lemma {:induction false} NotLeader<K>(s: Items<K>, elem: Entry<K>)
    requires forall i :: 0 < i < |s| ==> s[i].id != elem
    ensures Leader(s, elem) == null
    decreases |s|
  {
    if |s| >= 2 {
      NotLeader(s[1..], elem);
    }
  }

  lemma EntriesOnce<K(!new)>(cmp: Comparator<K>, root: Entry?<K>, t: Shape<K>)
    requires TotalOrder(cmp) && Linked(root, t) && Sorted(cmp, InOrder(t))
    ensures OnceEach(InOrder(t))
  {
    var s := InOrder(t);
    forall i, j | 0 <= i < j < |s| ensures s[i].id != s[j].id {
      ItemIsEntry(root, t, s[i]);
      ItemIsEntry(root, t, s[j]);
    }
  }

  /** Stepping from each entry to the one after it, and back, goes through all of them in order. */
  lemma StepsInOrder<K(!new)>(cmp: Comparator<K>, root: Entry?<K>, t: Shape<K>, i: nat)
    requires TotalOrder(cmp) && Linked(root, t) && Sorted(cmp, InOrder(t)) && i < |InOrder(t)|
    ensures var s := InOrder(t);
            && Follower(s, s[i].id) == (if i + 1 < |s| then s[i + 1].id else null)
            && Leader(s, s[i].id) == (if i > 0 then s[i - 1].id else null)
  {
    var s := InOrder(t);
    EntriesOnce(cmp, root, t);
    assert s == s[..i] + [s[i]] + s[i + 1..];
    AfterSplit(s[..i], s[i], s[i + 1..]);
  }

  method Next<K(!new)>(cmp: Comparator<K>, root: Entry?<K>, elem: Entry<K>, ghost t: Shape<K>) returns (r: Entry?<K>)
    requires TotalOrder(cmp) && Linked(root, t) && Sorted(cmp, InOrder(t)) && elem in Entries(t)
    ensures r == Follower(InOrder(t), elem)
  {
    ghost var p, q;
    EntriesOnce(cmp, root, t);
    if elem.right != null {
      r, p, q := NextBelow(root, elem, t);
    } else {
      assert Towards(cmp, elem.Itself(), t, [], t, []) by {
        Start(cmp, root, t, elem);
      }
      r, p, q := LastLeftTurn(cmp, root, elem, t);
    }
    AfterSplit(p, elem.Itself(), q);
  }

  method NextBelow<K>(root: Entry?<K>, elem: Entry<K>, ghost t: Shape<K>)
    returns (r: Entry?<K>, ghost p: Items<K>, ghost q: Items<K>)
    requires Linked(root, t) && elem in Entries(t) && elem.right != null
    ensures InOrder(t) == p + [elem.Itself()] + q && r == First(q)
  {
    ghost var a, u, b := Locate(root, t, elem);
    p, q := Neighbours(t, a, u, b);
    r := Min(elem.right, u.right);
  }

  /** Without a right child the successor is the last entry where the search for elem turned left. */
  method LastLeftTurn<K(!new)>(cmp: Comparator<K>, root: Entry?<K>, elem: Entry<K>, ghost t: Shape<K>)
    returns (next: Entry?<K>, ghost p: Items<K>, ghost q: Items<K>)
    requires TotalOrder(cmp) && Linked(root, t) && Towards(cmp, elem.Itself(), t, [], t, []) && elem.right == null
    ensures InOrder(t) == p + [elem.Itself()] + q && next == First(q)
  {
    next := null;
    var n := root;
    ghost var a, u, b := [], t, [];
    while n != elem
      invariant Linked(n, u) && Towards(cmp, elem.Itself(), t, a, u, b)
      invariant next == First(b)
      decreases u
    {
      Descend(cmp, elem.Itself(), t, a, u, b);
      if TurnsLeft(cmp, elem, n) {
        b, next := Ahead(u, b), n;
        u, n := u.left, n.left;
      } else {
        a, u, n := Passed(a, u), u.right, n.right;
      }
    }
    p, q := Neighbours(t, a, u, b);
  }

  method Prev<K(!new)>(cmp: Comparator<K>, root: Entry?<K>, elem: Entry<K>, ghost t: Shape<K>) returns (r: Entry?<K>)
    requires TotalOrder(cmp) && Linked(root, t) && Sorted(cmp, InOrder(t)) && elem in Entries(t)
    ensures r == Leader(InOrder(t), elem)
  {
    ghost var p, q;
    EntriesOnce(cmp, root, t);
    if elem.left != null {
      r, p, q := PrevBelow(root, elem, t);
    } else {
      assert Towards(cmp, elem.Itself(), t, [], t, []) by {
        Start(cmp, root, t, elem);
      }
      r, p, q := LastRightTurn(cmp, root, elem, t);
    }
    AfterSplit(p, elem.Itself(), q);
  }

  method PrevBelow<K>(root: Entry?<K>, elem: Entry<K>, ghost t: Shape<K>)
    returns (r: Entry?<K>, ghost p: Items<K>, ghost q: Items<K>)
    requires Linked(root, t) && elem in Entries(t) && elem.left != null
    ensures InOrder(t) == p + [elem.Itself()] + q && r == Last(p)
  {
    ghost var a, u, b := Locate(root, t, elem);
    p, q := Neighbours(t, a, u, b);
    r := Max(elem.left, u.left);
  }

  method LastRightTurn<K(!new)>(cmp: Comparator<K>, root: Entry?<K>, elem: Entry<K>, ghost t: Shape<K>)
    returns (prev: Entry?<K>, ghost p: Items<K>, ghost q: Items<K>)
    requires TotalOrder(cmp) && Linked(root, t) && Towards(cmp, elem.Itself(), t, [], t, []) && elem.left == null
    ensures InOrder(t) == p + [elem.Itself()] + q && prev == Last(p)
  {
    prev := null;
    var n := root;
    ghost var a, u, b := [], t, [];
    while n != elem
      invariant Linked(n, u) && Towards(cmp, elem.Itself(), t, a, u, b)
      invariant prev == Last(a)
      decreases u
    {
      Descend(cmp, elem.Itself(), t, a, u, b);
      if TurnsLeft(cmp, elem, n) {
        b, u, n := Ahead(u, b), u.left, n.left;
      } else {
        a, prev := Passed(a, u), n;
        u, n := u.right, n.right;
      }
    }
    p, q := Neighbours(t, a, u, b);
  }

  // ---------- the tree head ----------

  lemma AddressAbsent<K>(p: Entry?<K>, t: Shape<K>, addr: nat)
    requires Linked(p, t) && forall e :: e in Entries(t) ==> e.addr != addr
    ensures Absent(InOrder(t), addr)
  {
    forall i | 0 <= i < |InOrder(t)| ensures InOrder(t)[i].addr != addr {
      ItemIsEntry(p, t, InOrder(t)[i]);
    }
  }

  lemma AddressKeyed<K>(p: Entry?<K>, t: Shape<K>, elem: Entry<K>)
    requires Linked(p, t) && forall e :: e in Entries(t) && e.addr == elem.addr ==> e == elem
    ensures Keyed(InOrder(t), elem.key, elem.addr)
  {
    forall i | 0 <= i < |InOrder(t)| && InOrder(t)[i].addr == elem.addr ensures InOrder(t)[i].key == elem.key {
      ItemIsEntry(p, t, InOrder(t)[i]);
    }
  }

  class Head<K(==, !new)> {
    const cmp: Comparator<K>
    var root: Entry?<K>
    ghost var shape: Shape<K>

    ghost predicate Valid()
      reads this, Entries(shape)
    {
      TotalOrder(cmp) && Linked(root, shape) && Sorted(cmp, InOrder(shape)) && Distinct(InOrder(shape))
    }

    constructor (cmp: Comparator<K>)
      requires TotalOrder(cmp)
      ensures Valid() && InOrder(shape) == [] && Levelled(shape)
    {
      this.cmp := cmp;
      root, shape := null, Nil;
    }

    method Add(elem: Entry<K>)
      requires Valid() && elem !in Entries(shape)
      requires forall e :: e in Entries(shape) ==> e.addr != elem.addr
      modifies this, Entries(shape), elem
      ensures Valid() && elem.key == old(elem.key)
      ensures InOrder(shape) == InsertSorted(cmp, old(InOrder(shape)), elem.Itself())
      ensures old(Levelled(shape)) ==> Levelled(shape)
    {
      ghost var x := elem.Itself();
      AddressAbsent(root, shape, elem.addr);
      InsertInOrder(cmp, shape, x);
      InsertSortedKeeps(cmp, InOrder(shape), x);
      if Levelled(shape) {
        InsertLevelled(cmp, shape, x);
      }
      var r := InsertAt(cmp, root, elem, shape);
      root := r;
      shape := Insert(cmp, shape, x);
    }

    method Drop(elem: Entry<K>)
      requires Valid()
      requires forall e :: e in Entries(shape) && e.addr == elem.addr ==> e == elem
      modifies this, Entries(shape)
      ensures Valid()
      ensures InOrder(shape) == Without(old(InOrder(shape)), elem.addr)
    {
      AddressKeyed(root, shape, elem);
      RemoveInOrder(cmp, shape, elem.key, elem.addr);
      WithoutKeeps(cmp, InOrder(shape), elem.addr);
      var r := RemoveAt(cmp, elem, root, shape);
      root := r;
      shape := Remove(cmp, shape, elem.key, elem.addr);
    }
  }
}

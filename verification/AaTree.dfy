/** AA trees as values: rebalancing, insertion and removal, and what they keep.

    An item is the entry itself, its key and the address of that key. Keys that compare equal are
    ordered by address, so no two items of a tree ever tie. */
module AaTree {
  import Seqs
  import opened Ordering

  datatype Item<E, K> = Item(id: E, key: K, addr: nat)

  datatype Tree<E, K> = Nil | Node(left: Tree<E, K>, item: Item<E, K>, level: nat, right: Tree<E, K>)

  function Level<E, K>(t: Tree<E, K>): nat {
    if t.Nil? then 0 else t.level
  }

  function InOrder<E, K>(t: Tree<E, K>): seq<Item<E, K>> {
    match t
    case Nil => []
    case Node(l, x, _, r) => InOrder(l) + [x] + InOrder(r)
  }

  /** The order in which insertion and removal descend. */
  predicate Before<E, K>(cmp: Comparator<K>, x: Item<E, K>, y: Item<E, K>) {
    cmp(x.key, y.key) == Less || (cmp(x.key, y.key) == Eq && x.addr < y.addr)
  }

  // ---------- the operations ----------

  function Skew<E, K>(t: Tree<E, K>): Tree<E, K> {
    if t.Node? && t.left.Node? && t.level == t.left.level then
      var l := t.left;
      l.(right := t.(left := l.right))
    else t
  }

  function Split<E, K>(t: Tree<E, K>): Tree<E, K> {
    if t.Node? && t.right.Node? && t.right.right.Node? && t.right.right.level == t.level then
      var r := t.right;
      r.(left := t.(right := r.left), level := r.level + 1)
    else t
  }

  /** The level a node should have: one above its lower child, where only a present right child counts. */
  function ShouldBe<E, K>(t: Tree<E, K>): nat
    requires t.Node?
  {
    1 + if t.right.Node? && t.right.level < Level(t.left) then t.right.level else Level(t.left)
  }

  function Lowered<E, K>(t: Tree<E, K>): (t': Tree<E, K>)
    requires t.Node?
    ensures t'.Node?
  {
    var s := ShouldBe(t);
    t.(level := if s < t.level then s else t.level,
       right := if t.right.Node? && t.right.level > s then t.right.(level := s) else t.right)
  }

  function SkewRight<E, K>(t: Tree<E, K>): (t': Tree<E, K>)
    requires t.Node?
    ensures t'.Node?
  {
    t.(right := Skew(t.right))
  }

  function SkewRightRight<E, K>(t: Tree<E, K>): (t': Tree<E, K>)
    requires t.Node?
    ensures t'.Node?
  {
    if t.right.Node? then t.(right := SkewRight(t.right)) else t
  }

  function SplitRight<E, K>(t: Tree<E, K>): (t': Tree<E, K>)
    requires t.Node?
    ensures t'.Node?
  {
    t.(right := Split(t.right))
  }

  function Fixup<E, K>(t: Tree<E, K>): (t': Tree<E, K>)
    requires t.Node?
    ensures t'.Node?
  {
    SplitRight(Split(SkewRightRight(SkewRight(Skew(Lowered(t))))))
  }

  function Insert<E, K>(cmp: Comparator<K>, t: Tree<E, K>, x: Item<E, K>): (t': Tree<E, K>)
    ensures t'.Node?
  {
    match t
    case Nil => Node(Nil, x, 1, Nil)
    case Node(l, y, _, r) =>
      var eq := cmp(x.key, y.key);
      if eq == Less || (eq == Eq && x.addr <= y.addr) then
        Split(Skew(t.(left := Insert(cmp, l, x))))
      else
        Split(Skew(t.(right := Insert(cmp, r, x))))
  }

  function UnlinkSucc<E, K>(t: Tree<E, K>): (Tree<E, K>, Item<E, K>)
    requires t.Node?
  {
    if t.left.Nil? then (t.right, t.item)
    else
      var (l, succ) := UnlinkSucc(t.left);
      (Fixup(t.(left := l)), succ)
  }

  function UnlinkPred<E, K>(t: Tree<E, K>): (Tree<E, K>, Item<E, K>)
    requires t.Node?
  {
    if t.right.Nil? then (t.left, t.item)
    else
      var (r, pred) := UnlinkPred(t.right);
      (Fixup(t.(right := r)), pred)
  }

  function Remove<E, K>(cmp: Comparator<K>, t: Tree<E, K>, key: K, addr: nat): Tree<E, K> {
    match t
    case Nil => Nil
    case Node(l, y, _, r) =>
      if y.addr == addr then
        if l.Nil? && r.Nil? then Nil
        else if l.Nil? then
          var (r', succ) := UnlinkSucc(r);
          Fixup(t.(right := r', item := succ))
        else
          var (l', pred) := UnlinkPred(l);
          Fixup(t.(left := l', item := pred))
      else
        var eq := cmp(key, y.key);
        if eq == Less || (eq == Eq && addr <= y.addr) then
          Fixup(t.(left := Remove(cmp, l, key, addr)))
        else
          Fixup(t.(right := Remove(cmp, r, key, addr)))
  }

  // ---------- the level rules ----------

  ghost predicate Horizontal<E, K>(t: Tree<E, K>) {
    t.Node? && Level(t.right) == t.level
  }

  /** Left child one level down, right child at the same or one lower level, and never two
      horizontal right links in a row. */
  ghost predicate Levelled<E, K>(t: Tree<E, K>) {
    match t
    case Nil => true
    case Node(l, _, level, r) =>
      && level == Level(l) + 1
      && (Level(r) == level || Level(r) + 1 == level)
      && !(Horizontal(t) && Horizontal(r))
      && Levelled(l) && Levelled(r)
  }

  /** What an insertion may do to the level of a subtree: keep it, or raise it by one where there
      was a horizontal link, which is then used up. */
  ghost predicate Grown<E, K>(t: Tree<E, K>, t': Tree<E, K>) {
    && Levelled(t')
    && (Level(t') == Level(t)
        || (Level(t') == Level(t) + 1 && !Horizontal(t') && (t.Nil? || Horizontal(t))))
  }

  lemma GrownLeft<E, K>(t: Tree<E, K>, l': Tree<E, K>)
    requires Levelled(t) && t.Node? && l'.Node? && Grown(t.left, l')
    ensures Grown(t, Split(Skew(t.(left := l'))))
  {
  }

  lemma GrownRight<E, K>(t: Tree<E, K>, r': Tree<E, K>)
    requires Levelled(t) && t.Node? && r'.Node? && Grown(t.right, r')
    ensures Grown(t, Split(Skew(t.(right := r'))))
  {
  }

  /** Insertion keeps the level rules. */
  lemma {:induction false} InsertLevelled<E, K>(cmp: Comparator<K>, t: Tree<E, K>, x: Item<E, K>)
    requires Levelled(t)
    ensures Grown(t, Insert(cmp, t, x))
  {
    match t
    case Nil =>
    case Node(l, y, _, r) =>
      InsertLevelled(cmp, l, x);
      InsertLevelled(cmp, r, x);
      GrownLeft(t, Insert(cmp, l, x));
      GrownRight(t, Insert(cmp, r, x));
  }

  function Pow2(n: nat): (p: nat)
    ensures p >= 1
  {
    if n == 0 then 1 else 2 * Pow2(n - 1)
  }

  function Height<E, K>(t: Tree<E, K>): nat {
    match t
    case Nil => 0
    case Node(l, _, _, r) => 1 + if Height(l) > Height(r) then Height(l) else Height(r)
  }

  /** A tree that obeys the level rules holds at least 2^L - 1 items and is at most 2L high. */
  lemma {:induction false} LevelBounds<E, K>(t: Tree<E, K>)
    requires Levelled(t)
    ensures |InOrder(t)| + 1 >= Pow2(Level(t))
    ensures Height(t) <= 2 * Level(t)
    ensures t.Node? && !Horizontal(t) ==> Height(t) <= 2 * Level(t) - 1
  {
    match t
    case Nil =>
    case Node(l, _, _, r) =>
      LevelBounds(l);
      LevelBounds(r);
  }

  lemma {:induction false} Pow2Monotone(m: nat, n: nat)
    requires m <= n
    ensures Pow2(m) <= Pow2(n)
  {
    if m < n {
      Pow2Monotone(m, n - 1);
    }
  }

  function InsertAll<E, K>(cmp: Comparator<K>, t: Tree<E, K>, xs: seq<Item<E, K>>): Tree<E, K>
    decreases |xs|
  {
    if xs == [] then t else InsertAll(cmp, Insert(cmp, t, xs[0]), xs[1..])
  }

  lemma {:induction false} InsertAllLevelled<E, K>(cmp: Comparator<K>, t: Tree<E, K>, xs: seq<Item<E, K>>)
    requires Levelled(t)
    ensures Levelled(InsertAll(cmp, t, xs))
    decreases |xs|
  {
    if xs != [] {
      InsertLevelled(cmp, t, xs[0]);
      InsertAllLevelled(cmp, Insert(cmp, t, xs[0]), xs[1..]);
    }
  }

  /** Whatever is inserted into the empty tree, in whatever order, the tree stays logarithmic:
      half its height, rounded up, is at most the binary logarithm of the item count plus one. */
  lemma InsertionsStayBalanced<E, K>(cmp: Comparator<K>, xs: seq<Item<E, K>>)
    ensures var t := InsertAll(cmp, Nil, xs);
            Levelled(t) && Pow2((Height(t) + 1) / 2) <= |InOrder(t)| + 1
  {
    var t := InsertAll(cmp, Nil, xs);
    InsertAllLevelled(cmp, Nil, xs);
    LevelBounds(t);
    Pow2Monotone((Height(t) + 1) / 2, Level(t));
  }

  // ---------- contents and order ----------

  ghost predicate Sorted<E, K>(cmp: Comparator<K>, s: seq<Item<E, K>>) {
    forall i, j :: 0 <= i < j < |s| ==> Before(cmp, s[i], s[j])
  }

  ghost predicate Absent<E, K>(s: seq<Item<E, K>>, addr: nat) {
    forall i :: 0 <= i < |s| ==> s[i].addr != addr
  }

  ghost predicate Distinct<E, K>(s: seq<Item<E, K>>) {
    forall i, j :: 0 <= i < j < |s| ==> s[i].addr != s[j].addr
  }

  /** The item at this address, if present, carries this key. */
  ghost predicate Keyed<E, K>(s: seq<Item<E, K>>, key: K, addr: nat) {
    forall i :: 0 <= i < |s| && s[i].addr == addr ==> s[i].key == key
  }

  function InsertSorted<E, K>(cmp: Comparator<K>, s: seq<Item<E, K>>, x: Item<E, K>): seq<Item<E, K>> {
    if s == [] then [x]
    else if Before(cmp, x, s[0]) then [x] + s
    else [s[0]] + InsertSorted(cmp, s[1..], x)
  }

  function Without<E, K>(s: seq<Item<E, K>>, addr: nat): seq<Item<E, K>> {
    if s == [] then []
    else (if s[0].addr == addr then [] else [s[0]]) + Without(s[1..], addr)
  }

  lemma SkewInOrder<E, K>(t: Tree<E, K>)
    ensures InOrder(Skew(t)) == InOrder(t)
  {
    if t.Node? && t.left.Node? {
      Seqs.Regroup(InOrder(t.left.left), t.left.item, InOrder(t.left.right), t.item, InOrder(t.right));
    }
  }

  lemma SplitInOrder<E, K>(t: Tree<E, K>)
    ensures InOrder(Split(t)) == InOrder(t)
  {
    if t.Node? && t.right.Node? {
      Seqs.Regroup(InOrder(t.left), t.item, InOrder(t.right.left), t.right.item, InOrder(t.right.right));
    }
  }

  /** Rebalancing moves no item. */
  lemma FixupInOrder<E, K>(t: Tree<E, K>)
    requires t.Node?
    ensures InOrder(Fixup(t)) == InOrder(t)
  {
    var a := Lowered(t);
    SkewInOrder(a);
    var b := SkewRight(Skew(a));
    SkewInOrder(Skew(a).right);
    if b.right.Node? {
      SkewInOrder(b.right.right);
    }
    var c := SkewRightRight(b);
    SplitInOrder(c);
    SplitInOrder(Split(c).right);
  }

  lemma BeforeParts<E, K>(cmp: Comparator<K>, a: seq<Item<E, K>>, y: Item<E, K>, b: seq<Item<E, K>>)
    requires Sorted(cmp, a + [y] + b)
    ensures Sorted(cmp, a) && Sorted(cmp, b)
    ensures forall i :: 0 <= i < |a| ==> Before(cmp, a[i], y)
    ensures forall i :: 0 <= i < |b| ==> Before(cmp, y, b[i])
  {
    var s := a + [y] + b;
    assert s[|a|] == y;
    assert forall i :: 0 <= i < |a| ==> s[i] == a[i];
    assert forall i :: 0 <= i < |b| ==> s[|a| + 1 + i] == b[i];
  }

  lemma AbsentParts<E, K>(a: seq<Item<E, K>>, y: Item<E, K>, b: seq<Item<E, K>>, addr: nat)
    ensures Absent(a + [y] + b, addr) <==> Absent(a, addr) && y.addr != addr && Absent(b, addr)
  {
    var s := a + [y] + b;
    assert s[|a|] == y;
    assert forall i :: 0 <= i < |a| ==> s[i] == a[i];
    assert forall i :: 0 <= i < |b| ==> s[|a| + 1 + i] == b[i];
  }

  lemma BeforeTransitive<E, K(!new)>(cmp: Comparator<K>, x: Item<E, K>, y: Item<E, K>, z: Item<E, K>)
    requires TotalOrder(cmp) && Before(cmp, x, y) && Before(cmp, y, z)
    ensures Before(cmp, x, z)
  {
    assert cmp(x.key, z.key) != More;
    if cmp(x.key, z.key) == Eq {
      assert cmp(z.key, x.key) != More;
      assert cmp(z.key, y.key) != More;
      assert cmp(y.key, x.key) != More;
    }
  }

  lemma BeforeTotal<E, K(!new)>(cmp: Comparator<K>, x: Item<E, K>, y: Item<E, K>)
    requires TotalOrder(cmp) && x.addr != y.addr
    ensures Before(cmp, x, y) <==> !Before(cmp, y, x)
  {
    assert cmp(y.key, x.key) == Eq <==> cmp(x.key, y.key) == Eq;
  }

  lemma {:induction false} InsertSortedLeft<E, K>(cmp: Comparator<K>, a: seq<Item<E, K>>, b: seq<Item<E, K>>, x: Item<E, K>)
    requires b != [] && Before(cmp, x, b[0])
    ensures InsertSorted(cmp, a + b, x) == InsertSorted(cmp, a, x) + b
  {
    if a == [] {
      Seqs.Empty(b);
    } else {
      InsertSortedLeft(cmp, a[1..], b, x);
      Seqs.Uncons(a, b);
      Seqs.Assoc([a[0]], InsertSorted(cmp, a[1..], x), b);
      Seqs.Assoc([x], a, b);
    }
  }

  lemma {:induction false} InsertSortedRight<E, K>(cmp: Comparator<K>, a: seq<Item<E, K>>, b: seq<Item<E, K>>, x: Item<E, K>)
    requires forall i :: 0 <= i < |a| ==> !Before(cmp, x, a[i])
    ensures InsertSorted(cmp, a + b, x) == a + InsertSorted(cmp, b, x)
  {
    if a == [] {
      Seqs.Empty(b);
      Seqs.Empty(InsertSorted(cmp, b, x));
    } else {
      InsertSortedRight(cmp, a[1..], b, x);
      Seqs.Uncons(a, b);
      Seqs.Assoc([a[0]], a[1..], InsertSorted(cmp, b, x));
    }
  }

  lemma NotBeforeAll<E, K(!new)>(cmp: Comparator<K>, a: seq<Item<E, K>>, y: Item<E, K>, x: Item<E, K>)
    requires TotalOrder(cmp) && Before(cmp, y, x) && Absent(a, x.addr)
    requires forall i :: 0 <= i < |a| ==> Before(cmp, a[i], y)
    ensures forall i :: 0 <= i < |a| ==> !Before(cmp, x, a[i])
  {
    forall i | 0 <= i < |a| ensures !Before(cmp, x, a[i]) {
      BeforeTransitive(cmp, a[i], y, x);
      BeforeTotal(cmp, a[i], x);
    }
  }

  /** Insertion adds the item at its place in the strict order and moves nothing else. */
  lemma {:induction false} InsertInOrder<E, K(!new)>(cmp: Comparator<K>, t: Tree<E, K>, x: Item<E, K>)
    requires TotalOrder(cmp) && Sorted(cmp, InOrder(t)) && Absent(InOrder(t), x.addr)
    ensures InOrder(Insert(cmp, t, x)) == InsertSorted(cmp, InOrder(t), x)
  {
    match t
    case Nil =>
    case Node(l, y, _, r) =>
      var a, b := InOrder(l), InOrder(r);
      BeforeParts(cmp, a, y, b);
      AbsentParts(a, y, b, x.addr);
      BeforeTotal(cmp, x, y);
      Seqs.Middle(a, y, b);
      if Before(cmp, x, y) {
        InsertInOrder(cmp, l, x);
        InsertSortedLeft(cmp, a, [y] + b, x);
        Seqs.Assoc(InsertSorted(cmp, a, x), [y], b);
        InsertRebalanced(t.(left := Insert(cmp, l, x)));
      } else {
        InsertInOrder(cmp, r, x);
        NotBeforeAll(cmp, a, y, x);
        InsertSortedRight(cmp, a + [y], b, x);
        InsertRebalanced(t.(right := Insert(cmp, r, x)));
      }
  }

  lemma InsertRebalanced<E, K>(t: Tree<E, K>)
    ensures InOrder(Split(Skew(t))) == InOrder(t)
  {
    SkewInOrder(t);
    SplitInOrder(Skew(t));
  }

  lemma {:induction false} InsertSortedAt<E, K(!new)>(cmp: Comparator<K>, s: seq<Item<E, K>>, x: Item<E, K>)
    returns (p: seq<Item<E, K>>, q: seq<Item<E, K>>)
    requires TotalOrder(cmp) && Sorted(cmp, s) && Absent(s, x.addr)
    ensures s == p + q && InsertSorted(cmp, s, x) == p + [x] + q
    ensures forall i :: 0 <= i < |p| ==> Before(cmp, p[i], x)
    ensures forall i :: 0 <= i < |q| ==> Before(cmp, x, q[i])
  {
    if s == [] {
      p, q := [], [];
    } else if Before(cmp, x, s[0]) {
      p, q := [], s;
      Seqs.Empty([x] + s);
      forall i | 0 < i < |s| ensures Before(cmp, x, s[i]) {
        BeforeTransitive(cmp, x, s[0], s[i]);
      }
    } else {
      BeforeTotal(cmp, x, s[0]);
      p, q := InsertSortedAt(cmp, s[1..], x);
      Seqs.Assoc([s[0]], p, q);
      Seqs.Assoc([s[0]], p + [x], q);
      Seqs.Assoc([s[0]], p, [x]);
      p := [s[0]] + p;
    }
  }

  lemma SortedWhole<E, K>(cmp: Comparator<K>, a: seq<Item<E, K>>, x: Item<E, K>, b: seq<Item<E, K>>)
    requires Sorted(cmp, a + b) && Distinct(a + b) && Absent(a + b, x.addr)
    requires forall i :: 0 <= i < |a| ==> Before(cmp, a[i], x)
    requires forall i :: 0 <= i < |b| ==> Before(cmp, x, b[i])
    ensures Sorted(cmp, a + [x] + b) && Distinct(a + [x] + b) && Absent(a, x.addr) && Absent(b, x.addr)
  {
    var s, s' := a + b, a + [x] + b;
    assert forall j :: 0 <= j < |a| ==> s[j] == a[j];
    assert forall j :: 0 <= j < |b| ==> s[|a| + j] == b[j];
    assert forall j :: 0 <= j < |s'| ==> s'[j] == if j < |a| then s[j] else if j == |a| then x else s[j - 1];
    forall i, j | 0 <= i < j < |s'| ensures Before(cmp, s'[i], s'[j]) && s'[i].addr != s'[j].addr {
      var i', j' := if i < |a| then i else i - 1, if j < |a| then j else j - 1;
      if i == |a| {
        assert s'[j] == b[j - |a| - 1];
      } else if j == |a| {
        assert s'[i] == a[i];
      } else {
        assert s'[i] == s[i'] && s'[j] == s[j'];
      }
    }
  }

  lemma InsertSortedKeeps<E, K(!new)>(cmp: Comparator<K>, s: seq<Item<E, K>>, x: Item<E, K>)
    requires TotalOrder(cmp) && Sorted(cmp, s) && Distinct(s) && Absent(s, x.addr)
    ensures var s' := InsertSorted(cmp, s, x); Sorted(cmp, s') && Distinct(s') && Without(s', x.addr) == s
  {
    var p, q := InsertSortedAt(cmp, s, x);
    SortedWhole(cmp, p, x, q);
    WithoutMiddle(p, x, q, x.addr);
    WithoutAbsent(p, x.addr);
    WithoutAbsent(q, x.addr);
    Seqs.Empty(p);
  }

  // ---------- removal ----------

  lemma {:induction false} UnlinkSuccInOrder<E, K>(t: Tree<E, K>)
    requires t.Node?
    ensures var (t', succ) := UnlinkSucc(t); [succ] + InOrder(t') == InOrder(t)
  {
    if t.left.Node? {
      UnlinkSuccInOrder(t.left);
      var (l, succ) := UnlinkSucc(t.left);
      FixupInOrder(t.(left := l));
      Seqs.Regroup([], succ, InOrder(l), t.item, InOrder(t.right));
      Seqs.Empty([succ]);
    }
  }

  lemma {:induction false} UnlinkPredInOrder<E, K>(t: Tree<E, K>)
    requires t.Node?
    ensures var (t', pred) := UnlinkPred(t); InOrder(t') + [pred] == InOrder(t)
  {
    if t.right.Node? {
      UnlinkPredInOrder(t.right);
      var (r, pred) := UnlinkPred(t.right);
      FixupInOrder(t.(right := r));
      Seqs.Assoc(InOrder(t.left) + [t.item], InOrder(r), [pred]);
    }
  }

  lemma {:induction false} WithoutAppend<E, K>(a: seq<Item<E, K>>, b: seq<Item<E, K>>, addr: nat)
    ensures Without(a + b, addr) == Without(a, addr) + Without(b, addr)
  {
    if a == [] {
      Seqs.Empty(b);
    } else {
      WithoutAppend(a[1..], b, addr);
      Seqs.Uncons(a, b);
      Seqs.Assoc(if a[0].addr == addr then [] else [a[0]], Without(a[1..], addr), Without(b, addr));
    }
  }

  lemma {:induction false} WithoutAbsent<E, K>(s: seq<Item<E, K>>, addr: nat)
    requires Absent(s, addr)
    ensures Without(s, addr) == s
  {
    if s != [] {
      WithoutAbsent(s[1..], addr);
    }
  }

  lemma WithoutMiddle<E, K>(a: seq<Item<E, K>>, y: Item<E, K>, b: seq<Item<E, K>>, addr: nat)
    ensures Without(a + [y] + b, addr) == Without(a, addr) + (if y.addr == addr then [] else [y]) + Without(b, addr)
  {
    WithoutAppend(a + [y], b, addr);
    WithoutAppend(a, [y], addr);
  }

  ghost predicate Removable<E, K>(cmp: Comparator<K>, s: seq<Item<E, K>>, key: K, addr: nat) {
    Sorted(cmp, s) && Distinct(s) && Keyed(s, key, addr)
  }

  lemma KeyedParts<E, K>(a: seq<Item<E, K>>, y: Item<E, K>, b: seq<Item<E, K>>, key: K, addr: nat)
    requires Keyed(a + [y] + b, key, addr) && Distinct(a + [y] + b)
    ensures Keyed(a, key, addr) && Keyed(b, key, addr) && (y.addr == addr ==> y.key == key)
    ensures Distinct(a) && Distinct(b) && Absent(a, y.addr) && Absent(b, y.addr)
  {
    var s := a + [y] + b;
    assert s[|a|] == y;
    assert forall i :: 0 <= i < |a| ==> s[i] == a[i];
    assert forall i :: 0 <= i < |b| ==> s[|a| + 1 + i] == b[i];
  }

  predicate GoesLeft<E, K>(cmp: Comparator<K>, key: K, addr: nat, y: Item<E, K>) {
    var eq := cmp(key, y.key);
    eq == Less || (eq == Eq && addr <= y.addr)
  }

  /** Where the entry cannot be: beside itself, or on the side the search does not take. */
  lemma RemovableParts<E, K(!new)>(cmp: Comparator<K>, a: seq<Item<E, K>>, y: Item<E, K>, b: seq<Item<E, K>>, key: K, addr: nat)
    requires TotalOrder(cmp) && Removable(cmp, a + [y] + b, key, addr)
    ensures Removable(cmp, a, key, addr) && Removable(cmp, b, key, addr)
    ensures y.addr == addr || GoesLeft(cmp, key, addr, y) ==> Without(b, addr) == b
    ensures y.addr == addr || !GoesLeft(cmp, key, addr, y) ==> Without(a, addr) == a
  {
    BeforeParts(cmp, a, y, b);
    KeyedParts(a, y, b, key, addr);
    if y.addr == addr {
      WithoutAbsent(a, addr);
      WithoutAbsent(b, addr);
    } else if GoesLeft(cmp, key, addr, y) {
      forall i | 0 <= i < |b| ensures b[i].addr != addr {
        BeforeTotal(cmp, b[i], y) by { assert b[i].addr != y.addr; }
      }
      WithoutAbsent(b, addr);
    } else {
      forall i | 0 <= i < |a| ensures a[i].addr != addr {
        BeforeTotal(cmp, a[i], y) by { assert a[i].addr != y.addr; }
      }
      WithoutAbsent(a, addr);
    }
  }

  lemma RemoveRoot<E, K>(cmp: Comparator<K>, t: Tree<E, K>, key: K, addr: nat)
    requires t.Node? && t.item.addr == addr
    ensures InOrder(Remove(cmp, t, key, addr)) == InOrder(t.left) + InOrder(t.right)
  {
    if t.left.Node? {
      UnlinkPredInOrder(t.left);
      var (l', pred) := UnlinkPred(t.left);
      FixupInOrder(t.(left := l', item := pred));
    } else if t.right.Node? {
      UnlinkSuccInOrder(t.right);
      var (r', succ) := UnlinkSucc(t.right);
      FixupInOrder(t.(right := r', item := succ));
      Seqs.Empty([succ]);
      Seqs.Empty(InOrder(t.right));
    }
  }

  lemma RemoveBelow<E, K>(cmp: Comparator<K>, t: Tree<E, K>, key: K, addr: nat)
    requires t.Node? && t.item.addr != addr
    ensures InOrder(Remove(cmp, t, key, addr)) ==
            if GoesLeft(cmp, key, addr, t.item) then
              InOrder(Remove(cmp, t.left, key, addr)) + [t.item] + InOrder(t.right)
            else
              InOrder(t.left) + [t.item] + InOrder(Remove(cmp, t.right, key, addr))
  {
    if GoesLeft(cmp, key, addr, t.item) {
      FixupInOrder(t.(left := Remove(cmp, t.left, key, addr)));
    } else {
      FixupInOrder(t.(right := Remove(cmp, t.right, key, addr)));
    }
  }

  /** Removal takes out exactly the entry at the given address, through every rotation, relabelling
      and predecessor or successor move, and keeps the order of all others. */
  lemma {:induction false} RemoveInOrder<E, K(!new)>(cmp: Comparator<K>, t: Tree<E, K>, key: K, addr: nat)
    requires TotalOrder(cmp) && Removable(cmp, InOrder(t), key, addr)
    ensures InOrder(Remove(cmp, t, key, addr)) == Without(InOrder(t), addr)
  {
    match t
    case Nil =>
    case Node(l, y, _, r) =>
      var a, b := InOrder(l), InOrder(r);
      RemovableParts(cmp, a, y, b, key, addr);
      WithoutMiddle(a, y, b, addr);
      if y.addr == addr {
        RemoveRoot(cmp, t, key, addr);
        Seqs.Empty(a);
      } else {
        RemoveInOrder(cmp, l, key, addr);
        RemoveInOrder(cmp, r, key, addr);
        RemoveBelow(cmp, t, key, addr);
      }
  }

  lemma {:induction false} WithoutKeeps<E, K>(cmp: Comparator<K>, s: seq<Item<E, K>>, addr: nat)
    requires Sorted(cmp, s) && Distinct(s)
    ensures Sorted(cmp, Without(s, addr)) && Distinct(Without(s, addr)) && Absent(Without(s, addr), addr)
    ensures forall i :: 0 <= i < |Without(s, addr)| ==> Without(s, addr)[i] in s
  {
    if s != [] {
      WithoutKeeps(cmp, s[1..], addr);
    }
  }

  // ---------- search ----------

  /** The subtree where a search for the key stops. */
  function Search<E, K>(cmp: Comparator<K>, t: Tree<E, K>, key: K): Tree<E, K> {
    match t
    case Nil => Nil
    case Node(l, y, _, r) =>
      match cmp(key, y.key)
      case Eq => t
      case Less => Search(cmp, l, key)
      case More => Search(cmp, r, key)
  }

  ghost predicate Tied<E, K>(cmp: Comparator<K>, s: seq<Item<E, K>>, key: K) {
    exists i :: 0 <= i < |s| && cmp(key, s[i].key) == Eq
  }

  lemma TiedParts<E, K(!new)>(cmp: Comparator<K>, a: seq<Item<E, K>>, y: Item<E, K>, b: seq<Item<E, K>>, key: K)
    requires TotalOrder(cmp) && Sorted(cmp, a + [y] + b)
    ensures cmp(key, y.key) == Less && Tied(cmp, a + [y] + b, key) ==> Tied(cmp, a, key)
    ensures cmp(key, y.key) == More && Tied(cmp, a + [y] + b, key) ==> Tied(cmp, b, key)
  {
    var s := a + [y] + b;
    BeforeParts(cmp, a, y, b);
    if Tied(cmp, s, key) {
      var i :| 0 <= i < |s| && cmp(key, s[i].key) == Eq;
      assert cmp(s[i].key, key) == Eq;
      assert s[i] == if i < |a| then a[i] else if i == |a| then y else b[i - |a| - 1];
      if cmp(key, y.key) == Less {
        assert cmp(y.key, key) == More;
        assert i < |a|;
      } else if cmp(key, y.key) == More {
        assert cmp(y.key, key) == Less;
        assert i > |a|;
      }
    }
  }

  /** A search misses only keys that compare equal to none. */
  lemma {:induction false} SearchFinds<E, K(!new)>(cmp: Comparator<K>, t: Tree<E, K>, key: K)
    requires TotalOrder(cmp) && Sorted(cmp, InOrder(t))
    ensures var f := Search(cmp, t, key);
            if f.Nil? then !Tied(cmp, InOrder(t), key)
            else f.item in InOrder(t) && cmp(key, f.item.key) == Eq
  {
    match t
    case Nil =>
    case Node(l, y, _, r) =>
      BeforeParts(cmp, InOrder(l), y, InOrder(r));
      TiedParts(cmp, InOrder(l), y, InOrder(r), key);
      match cmp(key, y.key)
      case Eq =>
      case Less => SearchFinds(cmp, l, key);
      case More => SearchFinds(cmp, r, key);
  }

  function MinItem<E, K>(t: Tree<E, K>): Item<E, K>
    requires t.Node?
  {
    if t.left.Nil? then t.item else MinItem(t.left)
  }

  lemma {:induction false} MinIsFirst<E, K>(t: Tree<E, K>)
    requires t.Node?
    ensures MinItem(t) == InOrder(t)[0]
  {
    if t.left.Node? {
      MinIsFirst(t.left);
    }
  }

  lemma FixupIgnoresMissingRight<E, K>(a: Tree<E, K>, y: Item<E, K>)
    requires a.Node? && a.level == 1
    ensures Fixup(Node(a, y, 2, Nil)) == Node(a, y, 2, Nil)
  {
    var t := Node(a, y, 2, Nil);
    assert Lowered(t) == t && Skew(t) == t && SkewRight(t) == t;
    assert SkewRightRight(t) == t && Split(t) == t && SplitRight(t) == t;
  }

  /** The level rules do not survive removal: taking the right leaf of a full three-node tree leaves
      a root of level two with a single child. */
  lemma RemovalCanBreakLevels<E, K>(cmp: Comparator<K>, x: Item<E, K>, y: Item<E, K>, z: Item<E, K>)
    requires cmp(z.key, y.key) == More && z.addr != y.addr
    ensures var t := Node(Node(Nil, x, 1, Nil), y, 2, Node(Nil, z, 1, Nil));
            Levelled(t) && !Levelled(Remove(cmp, t, z.key, z.addr))
  {
    var a, b := Node(Nil, x, 1, Nil), Node(Nil, z, 1, Nil);
    var t := Node(a, y, 2, b);
    assert Levelled(a) && Levelled(b) && !Horizontal(t);
    assert Remove(cmp, b, z.key, z.addr) == Nil;
    FixupIgnoresMissingRight(a, y);
    assert !Levelled(Node(a, y, 2, Nil));
  }
}

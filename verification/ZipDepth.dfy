/** How deep entries lie in a zip tree, and how many entries a search visits. */
module ZipDepth {
  import opened Ordering
  import opened ZipTree
  import Seqs

  function Height<E, K>(t: Tree<E, K>): nat {
    match t
    case Nil => 0
    case Node(l, _, r) => 1 + if Height(l) > Height(r) then Height(l) else Height(r)
  }

  /** How far below the root the entry at a place of the listing lies. */
  function DepthAt<E, K>(t: Tree<E, K>, i: nat): nat
    requires i < |InOrder(t)|
  {
    var n := |InOrder(t.left)|;
    if i < n then 1 + DepthAt(t.left, i)
    else if i == n then 0
    else 1 + DepthAt(t.right, i - n - 1)
  }

  /** How many entries a search compares with. */
  function Visits<E, K>(cmp: Comparator<K>, t: Tree<E, K>, key: K): nat {
    match t
    case Nil => 0
    case Node(l, y, r) =>
      1 + match cmp(key, y.key)
          case Eq => 0
          case Less => Visits(cmp, l, key)
          case More => Visits(cmp, r, key)
  }

  function HowMany<E, K>(s: seq<Item<E, K>>, rank: nat): nat {
    if s == [] then 0 else (if s[0].rank == rank then 1 else 0) + HowMany(s[1..], rank)
  }

  lemma {:induction false} HowManyAppend<E, K>(a: seq<Item<E, K>>, b: seq<Item<E, K>>, rank: nat)
    ensures HowMany(a + b, rank) == HowMany(a, rank) + HowMany(b, rank)
  {
    if a == [] {
      Seqs.Empty(b);
    } else {
      Seqs.Uncons(a, b);
      HowManyAppend(a[1..], b, rank);
    }
  }

  lemma {:induction false} NoneBelow<E, K>(s: seq<Item<E, K>>, rank: nat)
    requires RanksBelow(s, rank)
    ensures HowMany(s, rank) == 0
  {
    if s != [] {
      NoneBelow(s[1..], rank);
    }
  }

  lemma {:induction false} AllEqual<E, K>(s: seq<Item<E, K>>, rank: nat)
    requires forall i :: 0 <= i < |s| ==> s[i].rank == rank
    ensures HowMany(s, rank) == |s|
  {
    if s != [] {
      AllEqual(s[1..], rank);
    }
  }

  /** Taken apart at the root: whatever has the highest rank of all is not on the left. */
  lemma AtRoot<E, K>(t: Tree<E, K>, rank: nat)
    requires t.Node? && Shaped(t) && RanksBelow(InOrder(t), rank + 1)
    ensures t.item.rank <= rank
    ensures RanksBelow(InOrder(t.left), rank) && RanksBelow(InOrder(t.right), rank + 1)
    ensures t.item.rank < rank ==> RanksBelow(InOrder(t), rank)
  {
    Unfold(t);
    hide InOrder;
    Around(InOrder(t.left), t.item, InOrder(t.right), rank);
  }

  lemma Around<E, K>(l: seq<Item<E, K>>, y: Item<E, K>, r: seq<Item<E, K>>, rank: nat)
    requires RanksBelow(l, y.rank) && RanksBelow(r, y.rank + 1) && RanksBelow(l + [y] + r, rank + 1)
    ensures y.rank <= rank && RanksBelow(l, rank) && RanksBelow(r, rank + 1)
    ensures y.rank < rank ==> RanksBelow(l + [y] + r, rank)
  {
    assert (l + [y] + r)[|l|] == y;
  }

  lemma CountAtRoot<E, K>(t: Tree<E, K>, rank: nat)
    requires t.Node? && RanksBelow(InOrder(t.left), rank)
    ensures HowMany(InOrder(t), rank) == (if t.item.rank == rank then 1 else 0) + HowMany(InOrder(t.right), rank)
  {
    var l, r := InOrder(t.left), InOrder(t.right);
    hide InOrder;
    CountSplit(l, t.item, r, rank);
    assert InOrder(t) == l + [t.item] + r by {
      Unfold(t);
    }
  }

  lemma Unfold<E, K>(t: Tree<E, K>)
    requires t.Node?
    ensures InOrder(t) == InOrder(t.left) + [t.item] + InOrder(t.right)
  {
  }

  lemma CountSplit<E, K>(l: seq<Item<E, K>>, y: Item<E, K>, r: seq<Item<E, K>>, rank: nat)
    requires RanksBelow(l, rank)
    ensures HowMany(l + [y] + r, rank) == (if y.rank == rank then 1 else 0) + HowMany(r, rank)
  {
    NoneBelow(l, rank);
    HowManyAppend(l + [y], r, rank);
    HowManyAppend(l, [y], rank);
  }

  lemma NotOnTheLeft<E, K>(l: seq<Item<E, K>>, y: Item<E, K>, r: seq<Item<E, K>>, rank: nat, i: nat)
    requires RanksBelow(l, rank) && i < |l|
    ensures (l + [y] + r)[i].rank < rank
  {
    assert (l + [y] + r)[i] == l[i];
  }

  /** An entry of the highest rank of all lies as deep as there are others of that rank before it. */
  lemma {:induction false} TopRankDepth<E, K>(t: Tree<E, K>, i: nat, rank: nat)
    requires Shaped(t) && RanksBelow(InOrder(t), rank + 1) && i < |InOrder(t)| && InOrder(t)[i].rank == rank
    ensures DepthAt(t, i) == HowMany(InOrder(t)[..i], rank)
    decreases t
  {
    var s, l, r := InOrder(t), InOrder(t.left), InOrder(t.right);
    AtRoot(t, rank);
    NoneBelow(l, rank);
    if i < |l| {
      NotOnTheLeft(l, t.item, r, rank, i);
    } else if i == |l| {
      assert s[..i] == l;
    } else {
      var k := i - |l| - 1;
      assert r[k] == s[i];
      assert s[..i] == l + [t.item] + r[..k];
      TopRankDepth(t.right, k, rank);
      CountSplit(l, t.item, r[..k], rank);
    }
  }

  /** A tree is at least as high as there are entries of the highest rank of all. */
  lemma {:induction false} TopRanksStack<E, K>(t: Tree<E, K>, rank: nat)
    requires Shaped(t) && RanksBelow(InOrder(t), rank + 1)
    ensures HowMany(InOrder(t), rank) <= Height(t)
  {
    if t.Node? {
      AtRoot(t, rank);
      CountAtRoot(t, rank);
      TopRanksStack(t.right, rank);
    }
  }

  lemma {:induction false} HeightBound<E, K>(t: Tree<E, K>)
    ensures Height(t) <= |InOrder(t)|
  {
    if t.Node? {
      HeightBound(t.left);
      HeightBound(t.right);
    }
  }

  /** Equal ranks make a chain. */
  lemma EqualRanksChain<E, K>(t: Tree<E, K>, rank: nat)
    requires Shaped(t) && forall i :: 0 <= i < |InOrder(t)| ==> InOrder(t)[i].rank == rank
    ensures Height(t) == |InOrder(t)|
  {
    AllEqual(InOrder(t), rank);
    TopRanksStack(t, rank);
    HeightBound(t);
  }

  ghost predicate Ascending<E, K>(cmp: Comparator<K>, s: seq<Item<E, K>>) {
    forall i, j :: 0 <= i < j < |s| ==> cmp(s[i].key, s[j].key) == Less
  }

  /** A search for a key of the tree visits its entry and all above it. */
  lemma {:induction false} VisitsAreDepth<E, K(!new)>(cmp: Comparator<K>, t: Tree<E, K>, i: nat)
    requires TotalOrder(cmp) && Ascending(cmp, InOrder(t)) && i < |InOrder(t)|
    ensures Visits(cmp, t, InOrder(t)[i].key) == DepthAt(t, i) + 1
    decreases t
  {
    var s, l, r := InOrder(t), InOrder(t.left), InOrder(t.right);
    assert s[|l|] == t.item;
    assert forall j :: 0 <= j < |l| ==> s[j] == l[j];
    assert forall j :: 0 <= j < |r| ==> s[|l| + 1 + j] == r[j];
    if i < |l| {
      VisitsAreDepth(cmp, t.left, i);
    } else if i > |l| {
      VisitsAreDepth(cmp, t.right, i - |l| - 1);
    } else {
      assert cmp(t.item.key, t.item.key) == Less <==> cmp(t.item.key, t.item.key) == More;
    }
  }
}

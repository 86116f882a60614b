/** When removal keeps the level rules of an AA tree. Rebalancing counts a missing left child as
    level zero, but not a missing right child. So removal keeps the rules exactly when it does not
    take away the only right child of an entry at level two. */
module AaRemoval {
  import opened Ordering
  import opened AaTree

  /** What a removal may do to the level of a subtree: keep it, without making its root horizontal,
      or lower it by one. */
  ghost predicate Shrunk<E, K>(t: Tree<E, K>, t': Tree<E, K>) {
    && Levelled(t')
    && ((Level(t') == Level(t) && (Horizontal(t') ==> Horizontal(t))) || Level(t') + 1 == Level(t))
  }

  lemma LevelledStays<E, K>(t: Tree<E, K>)
    requires Levelled(t)
    ensures Skew(t) == t && Split(t) == t
  {
    if t.Node? && t.right.Node? {
      assert Levelled(t.right);
    }
  }

  /** Where the levels are right nothing is changed, whatever lies further down. */
  lemma FixupSame<E, K>(t: Tree<E, K>)
    requires t.Node? && t.level == Level(t.left) + 1
    requires t.right.Node? ==> t.level - 1 <= t.right.level <= t.level && Level(t.right.left) < t.right.level
    requires t.right.Node? && t.right.right.Node? ==>
               var r, rr := t.right, t.right.right;
               Level(rr.left) < rr.level != t.level && (rr.right.Node? ==> rr.right.level != r.level)
    ensures Fixup(t) == t
  {
    assert Lowered(t) == t && Skew(t) == t && SkewRight(t) == t;
    assert SkewRightRight(t) == t && Split(t) == t;
    assert Split(t.right) == t.right;
  }

  /** The left child is two levels down, the right one level down. */
  lemma LeftShort<E, K>(t: Tree<E, K>)
    requires t.Node? && Levelled(t.left) && Levelled(t.right)
    requires t.level == Level(t.left) + 2 == Level(t.right) + 1
    ensures Levelled(Fixup(t)) && t.level - 1 <= Level(Fixup(t)) <= t.level
    ensures Level(Fixup(t)) == t.level ==> !Horizontal(Fixup(t))
  {
    var r, t1 := t.right, t.(level := t.level - 1);
    assert Lowered(t) == t1 && Skew(t1) == t1 && SkewRight(t1) == t1 && SkewRightRight(t1) == t1;
    if Horizontal(r) {
      var n := t1.(right := r.left);
      var t2 := Node(n, r.item, r.level + 1, r.right);
      assert Split(t1) == t2 && Levelled(n);
      LevelledStays(r.right);
      assert SplitRight(t2) == t2;
    } else {
      assert Split(t1) == t1 && Split(r) == r && SplitRight(t1) == t1;
    }
  }

  /** The left child is two levels down, the right at the level of the entry. */
  lemma LeftShortHorizontal<E, K>(t: Tree<E, K>)
    requires t.Node? && Levelled(t.left) && Levelled(t.right)
    requires t.level == Level(t.left) + 2 == Level(t.right) && !Horizontal(t.right)
    ensures Levelled(Fixup(t)) && Level(Fixup(t)) == t.level
  {
    var k, r := t.level - 1, t.right;
    var t1 := t.(level := k, right := r.(level := k));
    assert Lowered(t) == t1 && Skew(t1) == t1;
  }

  /** The right child is two levels down. */
  lemma RightShort<E, K>(t: Tree<E, K>)
    requires t.Node? && Levelled(t.left) && Levelled(t.right) && t.right.Node?
    requires t.level == Level(t.left) + 1 == Level(t.right) + 2
    ensures Levelled(Fixup(t)) && t.level - 1 <= Level(Fixup(t)) <= t.level
    ensures Level(Fixup(t)) == t.level ==> !Horizontal(Fixup(t))
  {
    var t1 := t.(level := t.level - 1);
    assert Lowered(t) == t1;
  }

  lemma FixLeft<E, K>(t: Tree<E, K>, l': Tree<E, K>)
    requires Levelled(t) && t.Node? && Shrunk(t.left, l')
    ensures Shrunk(t, Fixup(t.(left := l')))
  {
    var t1 := t.(left := l');
    if Level(l') == Level(t.left) {
      RightOutline(t);
      FixupSame(t1);
    } else if Horizontal(t) {
      LeftShortHorizontal(t1);
    } else {
      LeftShort(t1);
    }
  }

  /** The right side of a tree that keeps the rules, as far down as rebalancing looks. */
  lemma RightOutline<E, K>(t: Tree<E, K>)
    requires t.Node? && Levelled(t)
    ensures t.right.Node? ==> t.level - 1 <= t.right.level <= t.level && Level(t.right.left) < t.right.level
    ensures t.right.Node? && t.right.right.Node? ==>
              var r, rr := t.right, t.right.right;
              Level(rr.left) < rr.level != t.level && (rr.right.Node? ==> rr.right.level != r.level)
  {
    if t.right.Node? {
      assert Levelled(t.right) && Levelled(t.right.right);
    }
  }

  lemma FixRight<E, K>(t: Tree<E, K>, r': Tree<E, K>)
    requires Levelled(t) && t.Node? && Shrunk(t.right, r') && (r'.Node? || t.level == 1)
    ensures Shrunk(t, Fixup(t.(right := r')))
  {
    var t1 := t.(right := r');
    if Level(r') + 2 == t.level {
      RightShort(t1);
    } else {
      assert Levelled(t1);
      RightOutline(t1);
      FixupSame(t1);
    }
  }

  // ---------- a missing right child ----------

  /** The level rules, except that a right child may be missing at any level. */
  ghost predicate Lax<E, K>(t: Tree<E, K>) {
    match t
    case Nil => true
    case Node(l, _, level, r) =>
      && level == Level(l) + 1
      && (r.Node? ==> Level(r) == level || Level(r) + 1 == level)
      && !(Horizontal(t) && Horizontal(r))
      && Lax(l) && Lax(r)
  }

  lemma {:induction false} LevelledIsLax<E, K>(t: Tree<E, K>)
    requires Levelled(t)
    ensures Lax(t)
  {
    if t.Node? {
      LevelledIsLax(t.left);
      LevelledIsLax(t.right);
    }
  }

  /** Rebalancing does not see such a gap, so it does not repair it either. */
  lemma LaxStays<E, K>(t: Tree<E, K>)
    requires t.Node? && Lax(t)
    ensures Fixup(t) == t
  {
    if t.right.Node? {
      assert Lax(t.right) && Lax(t.right.right);
    }
    FixupSame(t);
  }

  /** A removal has left a gap: the rules are broken, but only by a missing right child. */
  ghost predicate Dented<E, K>(t: Tree<E, K>, t': Tree<E, K>) {
    && Lax(t') && !Levelled(t') && Level(t') == Level(t) && (Horizontal(t') ==> Horizontal(t))
  }

  lemma DentLeft<E, K>(t: Tree<E, K>, l': Tree<E, K>)
    requires Levelled(t) && t.Node? && Dented(t.left, l')
    ensures Dented(t, Fixup(t.(left := l')))
  {
    LevelledIsLax(t);
    LaxStays(t.(left := l'));
  }

  lemma DentRight<E, K>(t: Tree<E, K>, r': Tree<E, K>)
    requires Levelled(t) && t.Node?
    requires Dented(t.right, r') || (r'.Nil? && t.level == 2 && Level(t.right) == 1)
    ensures Dented(t, Fixup(t.(right := r')))
  {
    LevelledIsLax(t);
    assert Lax(t.(right := r'));
    LaxStays(t.(right := r'));
  }

  // ---------- removal ----------

  lemma {:induction false} UnlinkSuccShrinks<E, K>(t: Tree<E, K>)
    requires t.Node? && Levelled(t)
    ensures Shrunk(t, UnlinkSucc(t).0)
  {
    if t.left.Node? {
      UnlinkSuccShrinks(t.left);
      FixLeft(t, UnlinkSucc(t.left).0);
    }
  }

  /** Whether taking out the last entry leaves an entry at level two without its right child. */
  predicate BaresLast<E, K>(t: Tree<E, K>)
    requires t.Node?
  {
    t.right.Node? && if t.right.right.Nil? then t.level == 2 else BaresLast(t.right)
  }

  lemma {:induction false} UnlinkPredShrinks<E, K>(t: Tree<E, K>)
    requires t.Node? && Levelled(t)
    ensures var t' := UnlinkPred(t).0; if BaresLast(t) then Dented(t, t') else Shrunk(t, t')
  {
    if t.right.Node? {
      UnlinkPredShrinks(t.right);
      var r' := UnlinkPred(t.right).0;
      if BaresLast(t) {
        DentRight(t, r');
      } else {
        FixRight(t, r');
      }
    }
  }

  predicate Lone<E, K>(t: Tree<E, K>, addr: nat) {
    t.Node? && t.left.Nil? && t.right.Nil? && t.item.addr == addr
  }

  /** Whether removing the entry at the address takes away the only right child of an entry at
      level two. */
  predicate Bares<E, K>(cmp: Comparator<K>, t: Tree<E, K>, key: K, addr: nat) {
    match t
    case Nil => false
    case Node(l, y, level, r) =>
      if y.addr == addr then l.Node? && BaresLast(l)
      else if GoesLeft(cmp, key, addr, y) then Bares(cmp, l, key, addr)
      else Bares(cmp, r, key, addr) || (level == 2 && Lone(r, addr))
  }

  lemma RemoveHereShrinks<E, K>(cmp: Comparator<K>, t: Tree<E, K>, key: K, addr: nat)
    requires t.Node? && Levelled(t) && t.item.addr == addr
    ensures var t' := Remove(cmp, t, key, addr); if Bares(cmp, t, key, addr) then Dented(t, t') else Shrunk(t, t')
  {
    if t.left.Node? {
      UnlinkPredShrinks(t.left);
      var (l', pred) := UnlinkPred(t.left);
      var t1 := t.(item := pred);
      assert Levelled(t1);
      if BaresLast(t.left) {
        DentLeft(t1, l');
      } else {
        FixLeft(t1, l');
      }
    } else if t.right.Node? {
      UnlinkSuccShrinks(t.right);
      var (r', succ) := UnlinkSucc(t.right);
      var t1 := t.(item := succ);
      assert Levelled(t1);
      FixRight(t1, r');
    }
  }

  lemma {:induction false} RemoveShrinks<E, K>(cmp: Comparator<K>, t: Tree<E, K>, key: K, addr: nat)
    requires Levelled(t)
    ensures var t' := Remove(cmp, t, key, addr); if Bares(cmp, t, key, addr) then Dented(t, t') else Shrunk(t, t')
  {
    if t.Node? {
      if t.item.addr == addr {
        RemoveHereShrinks(cmp, t, key, addr);
      } else if GoesLeft(cmp, key, addr, t.item) {
        RemoveShrinks(cmp, t.left, key, addr);
        if Bares(cmp, t, key, addr) {
          DentLeft(t, Remove(cmp, t.left, key, addr));
        } else {
          FixLeft(t, Remove(cmp, t.left, key, addr));
        }
      } else {
        RemoveShrinks(cmp, t.right, key, addr);
        if Bares(cmp, t, key, addr) {
          DentRight(t, Remove(cmp, t.right, key, addr));
        } else {
          FixRight(t, Remove(cmp, t.right, key, addr));
        }
      }
    }
  }

  /** Removal keeps the level rules if and only if it does not bare an entry at level two, and then
      lowers the tree by at most one level. */
  lemma RemovalKeepsLevels<E, K>(cmp: Comparator<K>, t: Tree<E, K>, key: K, addr: nat)
    requires Levelled(t)
    ensures Levelled(Remove(cmp, t, key, addr)) <==> !Bares(cmp, t, key, addr)
    ensures Level(t) - 1 <= Level(Remove(cmp, t, key, addr)) <= Level(t)
  {
    RemoveShrinks(cmp, t, key, addr);
  }
}

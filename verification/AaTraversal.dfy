/** Walks over an AA tree that only step from entry to entry, as the reference iteration and the
    browse by name of the server make them. */
module AaTraversal {
  import opened Ordering
  import opened AaTree
  import opened AaTreeInPlace

  /** The entry at a place of the listing, or none beyond its ends. */
  ghost function At<K>(s: Items<K>, i: int): Entry?<K> {
    if 0 <= i < |s| then s[i].id else null
  }

  ghost predicate Listed<K(!new)>(cmp: Comparator<K>, root: Entry?<K>, t: Shape<K>)
    reads Entries(t)
  {
    TotalOrder(cmp) && Linked(root, t) && Sorted(cmp, InOrder(t))
  }

  lemma AtIsEntry<K>(root: Entry?<K>, t: Shape<K>, i: int)
    requires Linked(root, t) && At(InOrder(t), i) != null
    ensures At(InOrder(t), i) in Entries(t) && At(InOrder(t), i).Itself() == InOrder(t)[i]
  {
    ItemIsEntry(root, t, InOrder(t)[i]);
  }

  /** One step from a place of the listing. */
  method StepUp<K(!new)>(cmp: Comparator<K>, root: Entry?<K>, elem: Entry<K>, ghost t: Shape<K>, ghost i: int)
    returns (r: Entry?<K>)
    requires Listed(cmp, root, t) && At(InOrder(t), i) == elem
    ensures r == At(InOrder(t), i + 1)
  {
    hide TotalOrder, Linked, Sorted, InOrder;
    AtIsEntry(root, t, i);
    StepsInOrder(cmp, root, t, i);
    r := Next(cmp, root, elem, t);
  }

  method StepDown<K(!new)>(cmp: Comparator<K>, root: Entry?<K>, elem: Entry<K>, ghost t: Shape<K>, ghost i: int)
    returns (r: Entry?<K>)
    requires Listed(cmp, root, t) && At(InOrder(t), i) == elem
    ensures r == At(InOrder(t), i - 1)
  {
    hide TotalOrder, Linked, Sorted, InOrder;
    AtIsEntry(root, t, i);
    StepsInOrder(cmp, root, t, i);
    r := Prev(cmp, root, elem, t);
  }

  /** From the first entry by Next until there is none: every entry once, in order. */
  method Forward<K(!new)>(cmp: Comparator<K>, root: Entry?<K>, ghost t: Shape<K>) returns (s: seq<Entry<K>>)
    requires Listed(cmp, root, t)
    ensures |s| == |InOrder(t)| && forall i :: 0 <= i < |s| ==> s[i] == InOrder(t)[i].id
  {
    assert allocated(Entries(t)) && Listed(cmp, root, t);
    var e := Min(root, t);
    hide Listed, Linked, InOrder;
    s := [];
    while e != null
      invariant allocated(Entries(t)) && Listed(cmp, root, t)
      invariant |s| <= |InOrder(t)| && forall i :: 0 <= i < |s| ==> s[i] == InOrder(t)[i].id
      invariant e == At(InOrder(t), |s|)
      decreases |InOrder(t)| - |s|
    {
      s := s + [e];
      e := StepUp(cmp, root, e, t, |s| - 1);
    }
  }

  /** From the last entry by Prev until there is none: every entry once, in reverse order. */
  method Backward<K(!new)>(cmp: Comparator<K>, root: Entry?<K>, ghost t: Shape<K>) returns (s: seq<Entry<K>>)
    requires Listed(cmp, root, t)
    ensures |s| == |InOrder(t)| && forall i :: 0 <= i < |s| ==> s[i] == InOrder(t)[|s| - 1 - i].id
  {
    assert allocated(Entries(t)) && Listed(cmp, root, t);
    var e := Max(root, t);
    hide Listed, Linked, InOrder;
    s := [];
    ghost var n := |InOrder(t)|;
    while e != null
      invariant allocated(Entries(t)) && Listed(cmp, root, t)
      invariant |s| <= n && forall i :: 0 <= i < |s| ==> s[i] == InOrder(t)[n - 1 - i].id
      invariant e == At(InOrder(t), n - 1 - |s|)
      decreases n - |s|
    {
      s := s + [e];
      e := StepDown(cmp, root, e, t, n - |s|);
    }
  }

  // ---------- all entries whose keys tie ----------

  ghost predicate Ties<K>(cmp: Comparator<K>, x: Item<Entry<K>, K>, y: Item<Entry<K>, K>) {
    cmp(x.key, y.key) == Eq
  }

  /** What ties with an entry lies next to it without a gap. */
  lemma NoGap<K(!new)>(cmp: Comparator<K>, s: Items<K>, i: nat, j: nat, k: nat)
    requires TotalOrder(cmp) && Sorted(cmp, s) && i < |s| && j < |s|
    requires j <= k <= i || i <= k <= j
    ensures Ties(cmp, s[j], s[i]) ==> Ties(cmp, s[k], s[i])
  {
    if k == i {
      TiesItself(cmp, s[i]);
    } else if k != j && Ties(cmp, s[j], s[i]) {
      var a, b := if j < i then j else i, if j < i then i else j;
      assert Before(cmp, s[a], s[k]) && Before(cmp, s[k], s[b]);
      assert cmp(s[a].key, s[b].key) == Eq && cmp(s[b].key, s[a].key) == Eq;
      assert cmp(s[k].key, s[a].key) != More && cmp(s[b].key, s[k].key) != More;
    }
  }

  lemma TiesItself<K(!new)>(cmp: Comparator<K>, x: Item<Entry<K>, K>)
    requires TotalOrder(cmp)
    ensures Ties(cmp, x, x)
  {
    assert cmp(x.key, x.key) == Less <==> cmp(x.key, x.key) == More;
  }

  /** The results so far: each entry of the stretch once, and nothing else. */
  ghost predicate Collected<K>(s: Items<K>, low: int, high: int, results: seq<Entry<K>>)
    requires 0 <= low <= high <= |s|
  {
    && (forall k :: low <= k < high ==> s[k].id in results)
    && (forall a :: 0 <= a < |results| ==> exists k :: low <= k < high && s[k].id == results[a])
    && (forall a, b :: 0 <= a < b < |results| ==> results[a] != results[b])
  }

  lemma CollectsOne<K>(s: Items<K>, i: nat)
    requires i < |s|
    ensures Collected(s, i, i + 1, [s[i].id])
  {
  }

  lemma CollectsBelow<K>(s: Items<K>, low: nat, high: nat, results: seq<Entry<K>>)
    requires OnceEach(s) && 0 < low <= high <= |s| && Collected(s, low, high, results)
    ensures Collected(s, low - 1, high, results + [s[low - 1].id])
  {
  }

  lemma CollectsAbove<K>(s: Items<K>, low: nat, high: nat, results: seq<Entry<K>>)
    requires OnceEach(s) && low <= high < |s| && Collected(s, low, high, results)
    ensures Collected(s, low, high + 1, results + [s[high].id])
  {
  }

  /** All entries that tie with the given one: it, then those before it, then those behind it. */
  method TiesOf<K(!new)>(cmp: Comparator<K>, root: Entry?<K>, elem: Entry<K>, ghost t: Shape<K>)
    returns (results: seq<Entry<K>>)
    requires Listed(cmp, root, t) && elem in Entries(t)
    ensures forall e :: e in results <==> e in Entries(t) && cmp(e.key, elem.key) == Eq
    ensures forall a, b :: 0 <= a < b < |results| ==> results[a] != results[b]
  {
    EntryIsItem(root, t, elem);
    ghost var i :| 0 <= i < |InOrder(t)| && InOrder(t)[i] == elem.Itself();
    assert allocated(Entries(t)) && Listed(cmp, root, t);
    ghost var low;
    results, low := TiesBelow(cmp, root, elem, t, i);
    results := TiesAbove(cmp, root, elem, t, i, low, results);
  }

  /** The stretch of the listing has been collected, and all of it ties with place i. */
  ghost predicate Stretch<K>(cmp: Comparator<K>, s: Items<K>, i: nat, low: nat, high: nat, results: seq<Entry<K>>) {
    && low <= i < high <= |s| && Collected(s, low, high, results)
    && forall k :: low <= k < high ==> Ties(cmp, s[k], s[i])
  }

  lemma StartStretch<K(!new)>(cmp: Comparator<K>, root: Entry?<K>, t: Shape<K>, elem: Entry<K>, i: nat)
    requires Listed(cmp, root, t) && At(InOrder(t), i) == elem
    ensures Stretch(cmp, InOrder(t), i, i, i + 1, [elem])
  {
    TiesItself(cmp, InOrder(t)[i]);
    CollectsOne(InOrder(t), i);
  }

  lemma LowerStretch<K(!new)>(cmp: Comparator<K>, root: Entry?<K>, t: Shape<K>, elem: Entry<K>, i: nat, low: nat,
                              high: nat, results: seq<Entry<K>>)
    requires Listed(cmp, root, t) && At(InOrder(t), i) == elem && Stretch(cmp, InOrder(t), i, low, high, results)
    requires At(InOrder(t), low - 1) != null && cmp(At(InOrder(t), low - 1).key, elem.key) == Eq
    ensures Stretch(cmp, InOrder(t), i, low - 1, high, results + [At(InOrder(t), low - 1)])
  {
    AtIsEntry(root, t, i);
    AtIsEntry(root, t, low - 1);
    EntriesOnce(cmp, root, t);
    CollectsBelow(InOrder(t), low, high, results);
    hide Listed, Linked, OnceEach, Collected, InOrder;
  }

  lemma UpperStretch<K(!new)>(cmp: Comparator<K>, root: Entry?<K>, t: Shape<K>, elem: Entry<K>, i: nat, low: nat,
                              high: nat, results: seq<Entry<K>>)
    requires Listed(cmp, root, t) && At(InOrder(t), i) == elem && Stretch(cmp, InOrder(t), i, low, high, results)
    requires At(InOrder(t), high) != null && cmp(At(InOrder(t), high).key, elem.key) == Eq
    ensures Stretch(cmp, InOrder(t), i, low, high + 1, results + [At(InOrder(t), high)])
  {
    AtIsEntry(root, t, i);
    AtIsEntry(root, t, high);
    EntriesOnce(cmp, root, t);
    CollectsAbove(InOrder(t), low, high, results);
    hide Listed, Linked, OnceEach, Collected, InOrder;
  }

  lemma EndOfTies<K>(cmp: Comparator<K>, root: Entry?<K>, t: Shape<K>, elem: Entry<K>, i: nat, j: int)
    requires Linked(root, t) && At(InOrder(t), i) == elem
    requires At(InOrder(t), j) != null ==> cmp(At(InOrder(t), j).key, elem.key) != Eq
    ensures 0 <= j < |InOrder(t)| ==> !Ties(cmp, InOrder(t)[j], InOrder(t)[i])
  {
    AtIsEntry(root, t, i);
    if 0 <= j < |InOrder(t)| {
      AtIsEntry(root, t, j);
    }
    hide Linked, InOrder;
  }

  /** Everything from the given entry down to the one before prev has been collected. */
  ghost predicate Below<K(!new)>(cmp: Comparator<K>, root: Entry?<K>, t: Shape<K>, elem: Entry<K>, i: nat, low: nat,
                                 results: seq<Entry<K>>, prev: Entry?<K>)
    reads Entries(t)
  {
    && Listed(cmp, root, t) && At(InOrder(t), i) == elem && Stretch(cmp, InOrder(t), i, low, i + 1, results)
    && prev == At(InOrder(t), low - 1)
  }

  lemma StartBelow<K(!new)>(cmp: Comparator<K>, root: Entry?<K>, t: Shape<K>, elem: Entry<K>, i: nat)
    requires Listed(cmp, root, t) && At(InOrder(t), i) == elem
    ensures Below(cmp, root, t, elem, i, i, [elem], At(InOrder(t), i - 1))
  {
    StartStretch(cmp, root, t, elem, i);
  }

  lemma NextBelow<K(!new)>(cmp: Comparator<K>, root: Entry?<K>, t: Shape<K>, elem: Entry<K>, i: nat, low: nat,
                           results: seq<Entry<K>>, prev: Entry?<K>)
    requires Below(cmp, root, t, elem, i, low, results, prev) && prev != null && cmp(prev.key, elem.key) == Eq
    ensures low > 0 && Below(cmp, root, t, elem, i, low - 1, results + [prev], At(InOrder(t), low - 2))
    ensures Listed(cmp, root, t) && At(InOrder(t), low - 1) == prev
  {
    LowerStretch(cmp, root, t, elem, i, low, i + 1, results);
  }

  lemma NothingBelow<K(!new)>(cmp: Comparator<K>, root: Entry?<K>, t: Shape<K>, elem: Entry<K>, i: nat, low: nat,
                              results: seq<Entry<K>>, prev: Entry?<K>)
    requires Below(cmp, root, t, elem, i, low, results, prev) && (prev != null ==> cmp(prev.key, elem.key) != Eq)
    ensures AllBelow(cmp, InOrder(t), i, low, results)
  {
    EndOfTies(cmp, root, t, elem, i, low - 1);
  }

  ghost predicate AllBelow<K>(cmp: Comparator<K>, s: Items<K>, i: nat, low: nat, results: seq<Entry<K>>) {
    Stretch(cmp, s, i, low, i + 1, results) && (low > 0 ==> !Ties(cmp, s[low - 1], s[i]))
  }

  method TiesBelow<K(!new)>(cmp: Comparator<K>, root: Entry?<K>, elem: Entry<K>, ghost t: Shape<K>, ghost i: nat)
    returns (results: seq<Entry<K>>, ghost low: nat)
    requires Listed(cmp, root, t) && At(InOrder(t), i) == elem
    ensures AllBelow(cmp, InOrder(t), i, low, results)
  {
    hide *;
    assert allocated(Entries(t)) && Listed(cmp, root, t);
    StartBelow(cmp, root, t, elem, i);
    results, low := [elem], i;
    var prev := StepDown(cmp, root, elem, t, i);
    while prev != null && cmp(prev.key, elem.key) == Eq
      invariant allocated(Entries(t)) && Below(cmp, root, t, elem, i, low, results, prev)
      decreases low
    {
      NextBelow(cmp, root, t, elem, i, low, results, prev);
      results, low := results + [prev], low - 1;
      prev := StepDown(cmp, root, prev, t, low);
    }
    NothingBelow(cmp, root, t, elem, i, low, results, prev);
  }

  /** Everything from the lowest tie up to the entry before next has been collected. */
  ghost predicate Above<K(!new)>(cmp: Comparator<K>, root: Entry?<K>, t: Shape<K>, elem: Entry<K>, i: nat, low: nat,
                                 high: nat, results: seq<Entry<K>>, next: Entry?<K>)
    reads Entries(t)
  {
    && Listed(cmp, root, t) && At(InOrder(t), i) == elem && Stretch(cmp, InOrder(t), i, low, high, results)
    && (low > 0 ==> !Ties(cmp, InOrder(t)[low - 1], InOrder(t)[i])) && next == At(InOrder(t), high)
  }

  lemma StartAbove<K(!new)>(cmp: Comparator<K>, root: Entry?<K>, t: Shape<K>, elem: Entry<K>, i: nat, low: nat,
                            found: seq<Entry<K>>)
    requires Listed(cmp, root, t) && At(InOrder(t), i) == elem && AllBelow(cmp, InOrder(t), i, low, found)
    ensures Above(cmp, root, t, elem, i, low, i + 1, found, At(InOrder(t), i + 1))
  {
  }

  lemma NextAbove<K(!new)>(cmp: Comparator<K>, root: Entry?<K>, t: Shape<K>, elem: Entry<K>, i: nat, low: nat, high: nat,
                           results: seq<Entry<K>>, next: Entry?<K>)
    requires Above(cmp, root, t, elem, i, low, high, results, next) && next != null && cmp(next.key, elem.key) == Eq
    ensures high < |InOrder(t)|
    ensures Above(cmp, root, t, elem, i, low, high + 1, results + [next], At(InOrder(t), high + 1))
    ensures Listed(cmp, root, t) && At(InOrder(t), high) == next
  {
    UpperStretch(cmp, root, t, elem, i, low, high, results);
  }

  /** The rest of the stretch, from the entry behind the given one upwards. */
  method TiesAbove<K(!new)>(cmp: Comparator<K>, root: Entry?<K>, elem: Entry<K>, ghost t: Shape<K>, ghost i: nat,
                            ghost low: nat, found: seq<Entry<K>>)
    returns (results: seq<Entry<K>>)
    requires Listed(cmp, root, t) && At(InOrder(t), i) == elem && AllBelow(cmp, InOrder(t), i, low, found)
    ensures forall e :: e in results <==> e in Entries(t) && cmp(e.key, elem.key) == Eq
    ensures forall a, b :: 0 <= a < b < |results| ==> results[a] != results[b]
  {
    hide *;
    assert allocated(Entries(t)) && Listed(cmp, root, t);
    StartAbove(cmp, root, t, elem, i, low, found);
    ghost var high := i + 1;
    results := found;
    var next := StepUp(cmp, root, elem, t, i);
    while next != null && cmp(next.key, elem.key) == Eq
      invariant allocated(Entries(t)) && Above(cmp, root, t, elem, i, low, high, results, next)
      decreases |InOrder(t)| - high
    {
      NextAbove(cmp, root, t, elem, i, low, high, results, next);
      results, high := results + [next], high + 1;
      next := StepUp(cmp, root, next, t, high - 1);
    }
    AllCollected(cmp, root, t, elem, i, low, high, results, next);
  }

  lemma AllCollected<K(!new)>(cmp: Comparator<K>, root: Entry?<K>, t: Shape<K>, elem: Entry<K>, i: nat, low: nat,
                              high: nat, results: seq<Entry<K>>, next: Entry?<K>)
    requires Above(cmp, root, t, elem, i, low, high, results, next) && (next != null ==> cmp(next.key, elem.key) != Eq)
    ensures forall e :: e in results <==> e in Entries(t) && cmp(e.key, elem.key) == Eq
    ensures forall a, b :: 0 <= a < b < |results| ==> results[a] != results[b]
  {
    EndOfTies(cmp, root, t, elem, i, high);
    AtIsEntry(root, t, i);
    forall e ensures e in results <==> e in Entries(t) && cmp(e.key, elem.key) == Eq {
      if e in results {
        CollectedTies(cmp, root, t, elem, i, low, high, results, e);
      }
      if e in Entries(t) && cmp(e.key, elem.key) == Eq {
        TiesCollected(cmp, root, t, elem, i, low, high, results, e);
      }
    }
  }

  lemma TiesInside<K(!new)>(cmp: Comparator<K>, s: Items<K>, i: nat, low: nat, high: nat, k: nat)
    requires TotalOrder(cmp) && Sorted(cmp, s) && low <= i < high <= |s| && k < |s|
    requires (low > 0 ==> !Ties(cmp, s[low - 1], s[i])) && (high < |s| ==> !Ties(cmp, s[high], s[i]))
    ensures Ties(cmp, s[k], s[i]) ==> low <= k < high
  {
    if k < low {
      NoGap(cmp, s, i, k, low - 1);
    } else if k >= high {
      NoGap(cmp, s, i, k, high);
    }
  }

  lemma CollectedTies<K(!new)>(cmp: Comparator<K>, root: Entry?<K>, t: Shape<K>, elem: Entry<K>, i: nat, low: nat,
                               high: nat, results: seq<Entry<K>>, e: Entry<K>)
    requires Linked(root, t) && At(InOrder(t), i) == elem && Stretch(cmp, InOrder(t), i, low, high, results) && e in results
    ensures e in Entries(t) && cmp(e.key, elem.key) == Eq
  {
    AtIsEntry(root, t, i);
    var k :| low <= k < high && InOrder(t)[k].id == e;
    AtIsEntry(root, t, k);
    assert Ties(cmp, InOrder(t)[k], InOrder(t)[i]);
  }

  lemma TiesCollected<K(!new)>(cmp: Comparator<K>, root: Entry?<K>, t: Shape<K>, elem: Entry<K>, i: nat, low: nat,
                               high: nat, results: seq<Entry<K>>, e: Entry<K>)
    requires Listed(cmp, root, t) && At(InOrder(t), i) == elem && Stretch(cmp, InOrder(t), i, low, high, results)
    requires low > 0 ==> !Ties(cmp, InOrder(t)[low - 1], InOrder(t)[i])
    requires high < |InOrder(t)| ==> !Ties(cmp, InOrder(t)[high], InOrder(t)[i])
    requires e in Entries(t) && cmp(e.key, elem.key) == Eq
    ensures e in results
  {
    var s := InOrder(t);
    AtIsEntry(root, t, i);
    EntryIsItem(root, t, e);
    var k: nat :| k < |s| && s[k] == e.Itself();
    hide Linked, InOrder, Entries;
    TiesInside(cmp, s, i, low, high, k);
  }
}

/** Whole runs of a node store, with a ledger of who holds what. Addresses may be handed out again
    once they are free, so a version is an address together with how often it had been handed out. */
module NodeLifecycle {
  import opened NodeStore

  datatype Op =
    | New(a: Addr, id: NodeId, content: nat, isReferenceType: bool)
    | Delete(a: Addr)
    | Edit(a: Addr, content: nat)
    | Get(id: NodeId)
    | Release(a: Addr)
    | Copy(id: NodeId, a: Addr)
    | Insert(a: Addr, id: NodeId)
    | Replace(a: Addr)
    | Remove(id: NodeId)

  datatype Version = Version(addr: Addr, birth: nat)

  /** The store, how often consumers hold each entry, how often each address was handed out, and of
      which birth the original of each copy was. */
  datatype System = System(store: Store, held: multiset<Addr>, births: map<Addr, nat>, origins: map<Addr, nat>)

  function Births(y: System, a: Addr): nat {
    if a in y.births then y.births[a] else 0
  }

  /** What the interface demands of its callers. Addresses of new versions are not in use, only
      detached nodes are edited, deleted, inserted or used as replacements, and only held nodes whose
      counter is above zero are released. */
  ghost predicate Callable(y: System, op: Op) {
    match op
    case New(a, _, _, _) => a !in y.store.heap
    case Copy(_, a) => a !in y.store.heap
    case Delete(a) => Detached(y.store, a)
    case Edit(a, _) => Detached(y.store, a)
    case Insert(a, id) => Detached(y.store, a) && Chosen(y.store, y.store.heap[a].nodeId, id)
    case Replace(a) => Detached(y.store, a)
    case Get(id) => true
    case Release(a) => a in y.held && a in y.store.heap && y.store.heap[a].refCount > 0
    case Remove(_) => true
  }

  /** And no entry gets more holders at a time than its counter can count. */
  ghost predicate Enabled(y: System, op: Op) {
    Callable(y, op) && (op.Get? && op.id in y.store.live ==> y.held[y.store.live[op.id]] + 1 < COUNT_LIMIT)
  }

  ghost predicate Inv(y: System) {
    && Consistent(y.store)
    && (forall a :: a in y.held ==> a in y.store.heap)
    && (forall a :: a in y.store.heap ==> y.store.heap[a].refCount == y.held[a] < COUNT_LIMIT && Births(y, a) > 0)
    && (forall a :: a in y.store.heap && y.store.heap[a].deleted ==> y.held[a] > 0)
    && (forall a :: PhaseAt(y, a).Owned? ==> y.held[a] == 0)
  }

  /** The address is handed out. */
  function Born(y: System, s: Store, a: Addr, origins: map<Addr, nat>): System {
    System(s, y.held, y.births[a := Births(y, a) + 1], origins)
  }

  /** What the operation does, also to a system in which some counter has wrapped around. */
  ghost function Apply(y: System, op: Op): System
    requires Consistent(y.store) && Callable(y, op)
  {
    var s := y.store;
    match op
    case New(a, id, content, r) => Born(y, Created(s, a, id, content, r), a, y.origins - {a})
    case Delete(a) => y.(store := Free(s, a))
    case Edit(a, content) => y.(store := Edited(s, a, content))
    case Get(id) =>
      var (s', a) := Got(s, id);
      y.(store := s', held := if a.Some? then y.held + multiset{a.value} else y.held)
    case Release(a) => y.(store := Released(s, a), held := y.held - multiset{a})
    case Copy(id, a) =>
      if id in s.live then Born(y, Copied(s, id, a).0, a, y.origins[a := Births(y, s.live[id])])
      else y.(store := Copied(s, id, a).0)
    case Insert(a, id) => y.(store := Inserted(Named(s, a, id), a).0)
    case Replace(a) => y.(store := Replaced(s, a).0)
    case Remove(id) => y.(store := Removed(s, id).0)
  }

  ghost function Step(y: System, op: Op): System
    requires Inv(y) && Enabled(y, op)
  {
    Apply(y, op)
  }

  // ---------- the life of a version ----------

  datatype Phase = Unborn | Owned | Live | Lingering | Freed {
    function Rank(): nat {
      match this
      case Unborn => 0
      case Owned => 1
      case Live => 2
      case Lingering => 3
      case Freed => 4
    }
  }

  /** The phase of whatever is at an address now. */
  function PhaseAt(y: System, a: Addr): Phase {
    var s := y.store;
    if a !in s.heap then Freed
    else if s.heap[a].deleted then Lingering
    else if s.heap[a].nodeId in s.live && s.live[s.heap[a].nodeId] == a then Live
    else Owned
  }

  function PhaseOf(y: System, v: Version): Phase {
    if v.birth > Births(y, v.addr) then Unborn
    else if v.birth < Births(y, v.addr) then Freed
    else PhaseAt(y, v.addr)
  }

  /** The moves of an entry: it is published once, taken out of the store once, and freed either while
      still detached, or on being taken out with no holders, or by its last holder. */
  ghost predicate Moves(y: System, op: Op, b: Addr, p: Phase, p': Phase) {
    || p == p'
    || (p == Owned && p' == Live && (op.Insert? || op.Replace?) && op.a == b)
    || (p == Owned && p' == Freed && (op.Insert? || op.Replace? || op.Delete?) && op.a == b)
    || (p == Live && p' == Lingering && (op.Remove? || op.Replace?) && y.held[b] > 0)
    || (p == Live && p' == Freed && (op.Remove? || op.Replace?) && y.held[b] == 0)
    || (p == Lingering && p' == Freed && op == Release(b) && y.held[b] == 1)
  }

  /** Being made is the one move from before birth. */
  ghost predicate VersionMoves(y: System, op: Op, v: Version, p: Phase, p': Phase) {
    || Moves(y, op, v.addr, p, p')
    || (p == Unborn && p' == Owned && (op.New? || op.Copy?) && op.a == v.addr && v.birth == Births(y, op.a) + 1)
  }

  /** A step keeps the ledger right and moves every version only along its life. */
  ghost predicate Sound(y: System, op: Op, y': System) {
    Inv(y') && forall v :: VersionMoves(y, op, v, PhaseOf(y, v), PhaseOf(y', v))
  }

  lemma EntriesMove(y: System, op: Op, y': System)
    requires Inv(y') && y'.births == y.births && forall a :: Moves(y, op, a, PhaseAt(y, a), PhaseAt(y', a))
    ensures Sound(y, op, y')
  {
    forall v: Version ensures VersionMoves(y, op, v, PhaseOf(y, v), PhaseOf(y', v)) {
      assert Moves(y, op, v.addr, PhaseAt(y, v.addr), PhaseAt(y', v.addr));
    }
  }

  /** The two systems agree on what is live and on every entry but one. */
  ghost predicate DiffersAt(y: System, y': System, c: Addr) {
    && y'.store.live == y.store.live && y'.births == y.births
    && forall b :: b != c ==> SameAt(y, y', b)
  }

  ghost predicate SameAt(y: System, y': System, b: Addr) {
    && (b in y'.store.heap <==> b in y.store.heap)
    && (b in y.store.heap ==> y'.store.heap[b] == y.store.heap[b])
    && y'.held[b] == y.held[b]
  }

  /** What must hold of the one entry that changes. */
  ghost predicate WellKept(y: System, y': System, c: Addr) {
    if c in y'.store.heap then
      && c in y.store.heap && y'.store.heap[c].nodeId == y.store.heap[c].nodeId
      && y'.store.heap[c].deleted == y.store.heap[c].deleted
      && y'.store.heap[c].refCount == y'.held[c] < COUNT_LIMIT
      && (y'.store.heap[c].deleted ==> y'.held[c] > 0)
      && (PhaseAt(y, c).Owned? ==> y'.held[c] == 0)
    else
      y'.held[c] == 0 && !PhaseAt(y, c).Live?
  }

  lemma PhasesElsewhere(y: System, y': System, c: Addr)
    requires Inv(y) && DiffersAt(y, y', c) && WellKept(y, y', c)
    ensures forall b :: b != c ==> PhaseAt(y', b) == PhaseAt(y, b)
    ensures c in y'.store.heap ==> PhaseAt(y', c) == PhaseAt(y, c)
  {
    forall b | b != c ensures PhaseAt(y', b) == PhaseAt(y, b) {
      assert SameAt(y, y', b);
    }
  }

  lemma LocalChange(y: System, y': System, c: Addr)
    requires Inv(y) && DiffersAt(y, y', c) && WellKept(y, y', c)
    ensures Inv(y')
    ensures forall b :: b != c ==> PhaseAt(y', b) == PhaseAt(y, b)
    ensures c in y'.store.heap ==> PhaseAt(y', c) == PhaseAt(y, c)
  {
    PhasesElsewhere(y, y', c);
    forall a | a in y'.store.heap ensures y'.store.heap[a].refCount == y'.held[a] < COUNT_LIMIT && Births(y', a) > 0 {
      assert a == c || SameAt(y, y', a);
    }
    forall a | a in y'.store.heap && y'.store.heap[a].deleted ensures y'.held[a] > 0 {
      assert a == c || SameAt(y, y', a);
    }
    forall a | a in y'.held ensures a in y'.store.heap {
      assert a == c || SameAt(y, y', a);
    }
    forall a | PhaseAt(y', a).Owned? ensures y'.held[a] == 0 {
      assert a == c || SameAt(y, y', a);
    }
    LiveElsewhere(y, y', c);
  }

  lemma LiveElsewhere(y: System, y': System, c: Addr)
    requires Inv(y) && DiffersAt(y, y', c) && WellKept(y, y', c)
    ensures Consistent(y'.store)
  {
    forall id | id in y'.store.live
      ensures y'.store.live[id] in y'.store.heap && y'.store.heap[y'.store.live[id]].nodeId == id
      ensures !y'.store.heap[y'.store.live[id]].deleted
    {
      assert y.store.live[id] == c || SameAt(y, y', y.store.live[id]);
      assert PhaseAt(y, y.store.live[id]).Live?;
    }
  }

  // ---------- each operation ----------

  lemma BornPhases(y: System, s: Store, a: Addr, e: Entry, origins: map<Addr, nat>)
    requires Inv(y) && a !in y.store.heap && s == y.store.(heap := y.store.heap[a := e]) && !e.deleted
    ensures var y' := Born(y, s, a, origins);
            && PhaseAt(y', a).Owned? && Consistent(s)
            && forall b :: b != a ==> PhaseAt(y', b) == PhaseAt(y, b) && Births(y', b) == Births(y, b)
  {
  }

  lemma BornSound(y: System, s: Store, a: Addr, e: Entry, origins: map<Addr, nat>)
    requires Inv(y) && a !in y.store.heap && s == y.store.(heap := y.store.heap[a := e])
    requires e.refCount == 0 && !e.deleted
    ensures var y' := Born(y, s, a, origins);
            && Inv(y') && PhaseAt(y', a).Owned?
            && forall b :: b != a ==> PhaseAt(y', b) == PhaseAt(y, b) && Births(y', b) == Births(y, b)
  {
    hide PhaseAt, Consistent;
    BornPhases(y, s, a, e, origins);
    assert a !in y.held;
  }

  lemma NewSound(y: System, op: Op)
    requires Inv(y) && Enabled(y, op) && (op.New? || op.Copy?)
    ensures Sound(y, op, Step(y, op))
  {
    var y' := Step(y, op);
    if op.New? || op.id in y.store.live {
      BornSound(y, y'.store, op.a, y'.store.heap[op.a], y'.origins);
      forall v: Version ensures VersionMoves(y, op, v, PhaseOf(y, v), PhaseOf(y', v)) {
        assert v.addr != op.a ==> PhaseAt(y', v.addr) == PhaseAt(y, v.addr);
      }
    }
  }

  ghost predicate Discards(y: System, op: Op)
    requires Inv(y) && Enabled(y, op)
  {
    || op.Delete?
    || (op.Insert? && !Inserted(Named(y.store, op.a, op.id), op.a).1.Good?)
    || (op.Replace? && !Replaced(y.store, op.a).1.Good?)
  }

  /** A step that changes one entry. */
  lemma LocalSound(y: System, op: Op, y': System, c: Addr)
    requires Inv(y) && DiffersAt(y, y', c) && WellKept(y, y', c)
    requires c !in y'.store.heap ==> Moves(y, op, c, PhaseAt(y, c), Freed)
    ensures Sound(y, op, y')
  {
    hide Inv, WellKept, Sound;
    LocalChange(y, y', c);
    EntriesMove(y, op, y');
  }

  lemma DetachedIsOwned(y: System, a: Addr)
    requires Inv(y) && Detached(y.store, a)
    ensures PhaseAt(y, a).Owned? && y.held[a] == 0
  {
  }

  lemma DiscardSound(y: System, op: Op)
    requires Inv(y) && Enabled(y, op) && (op.Delete? || op.Insert? || op.Replace?) && Discards(y, op)
    ensures Sound(y, op, Step(y, op))
  {
    DiscardFrees(y, op);
    DetachedIsOwned(y, op.a);
    hide Inv, Consistent, Sound, Step, Discards;
    LocalSound(y, op, Step(y, op), op.a);
  }

  lemma DiscardFrees(y: System, op: Op)
    requires Inv(y) && Enabled(y, op) && (op.Delete? || op.Insert? || op.Replace?) && Discards(y, op)
    ensures Step(y, op) == y.(store := Free(y.store, op.a)) && Detached(y.store, op.a)
  {
    if op.Insert? {
      assert Free(Named(y.store, op.a, op.id), op.a) == Free(y.store, op.a);
    }
    hide Inv, Consistent;
  }

  lemma EditSound(y: System, op: Op)
    requires Inv(y) && Enabled(y, op) && op.Edit?
    ensures Sound(y, op, Step(y, op))
  {
    DetachedIsOwned(y, op.a);
    LocalSound(y, op, Step(y, op), op.a);
  }

  lemma LiveEntry(y: System, id: NodeId)
    requires Inv(y) && id in y.store.live
    ensures var a := y.store.live[id];
            && a in y.store.heap && !y.store.heap[a].deleted && y.store.heap[a].nodeId == id
            && y.store.heap[a].refCount == y.held[a] && PhaseAt(y, a).Live?
  {
  }

  lemma GetSound(y: System, op: Op)
    requires Inv(y) && Enabled(y, op) && op.Get?
    ensures Sound(y, op, Step(y, op))
  {
    if op.id in y.store.live {
      LiveEntry(y, op.id);
      GetCounts(y, op);
      hide Inv, Sound, Consistent, Step;
      LocalSound(y, op, Step(y, op), y.store.live[op.id]);
    } else {
      assert Step(y, op) == y;
    }
  }

  lemma GetCounts(y: System, op: Op)
    requires Inv(y) && Enabled(y, op) && op.Get? && op.id in y.store.live
    ensures var a := y.store.live[op.id];
            var e := y.store.heap[a];
            Step(y, op) == y.(store := y.store.(heap := y.store.heap[a := e.(refCount := e.refCount + 1)]),
                              held := y.held + multiset{a})
  {
    LiveEntry(y, op.id);
    hide Inv, Consistent;
  }

  lemma HeldEntry(y: System, a: Addr)
    requires Inv(y) && a in y.held
    ensures a in y.store.heap && y.store.heap[a].refCount == y.held[a] > 0 && !PhaseAt(y, a).Owned?
  {
  }

  lemma ReleaseSound(y: System, op: Op)
    requires Inv(y) && Enabled(y, op) && op.Release?
    ensures Sound(y, op, Step(y, op))
  {
    HeldEntry(y, op.a);
    LessThanLimit(y, op.a);
    hide Inv, Sound, Consistent;
    LocalSound(y, op, Step(y, op), op.a);
  }

  lemma LessThanLimit(y: System, a: Addr)
    requires Inv(y) && a in y.store.heap
    ensures y.held[a] < COUNT_LIMIT
  {
  }

  lemma PublishSound(y: System, a: Addr)
    requires Inv(y) && Detached(y.store, a) && y.store.heap[a].nodeId !in y.store.live
    ensures var y' := y.(store := y.store.(live := y.store.live[y.store.heap[a].nodeId := a]));
            && Inv(y') && PhaseAt(y', a).Live?
            && forall b :: b != a ==> PhaseAt(y', b) == PhaseAt(y, b)
  {
    hide PhaseAt, Consistent;
    PublishPhases(y, a);
  }

  lemma PublishPhases(y: System, a: Addr)
    requires Inv(y) && Detached(y.store, a) && y.store.heap[a].nodeId !in y.store.live
    ensures var y' := y.(store := y.store.(live := y.store.live[y.store.heap[a].nodeId := a]));
            && Consistent(y'.store) && PhaseAt(y', a).Live?
            && forall b :: b != a ==> PhaseAt(y', b) == PhaseAt(y, b)
  {
  }

  lemma NamePhases(y: System, a: Addr, id: NodeId)
    requires Inv(y) && Detached(y.store, a) && id !in y.store.live
    ensures var y' := y.(store := Named(y.store, a, id));
            && Detached(y'.store, a) && Consistent(y'.store)
            && forall b :: PhaseAt(y', b) == PhaseAt(y, b)
  {
  }

  lemma NameSound(y: System, a: Addr, id: NodeId)
    requires Inv(y) && Detached(y.store, a) && id !in y.store.live
    ensures var y' := y.(store := Named(y.store, a, id));
            Inv(y') && Detached(y'.store, a) && forall b :: PhaseAt(y', b) == PhaseAt(y, b)
  {
    hide PhaseAt, Consistent;
    NamePhases(y, a, id);
  }

  /** Numbering a reference type before it is published. */
  lemma NumberSound(y: System, a: Addr)
    requires Inv(y) && Detached(y.store, a)
    ensures var y' := y.(store := Published(y.store, a).(live := y.store.live));
            && Inv(y') && Detached(y'.store, a) && y'.store.heap[a].nodeId == y.store.heap[a].nodeId
            && forall b :: PhaseAt(y', b) == PhaseAt(y, b)
  {
    DetachedIsOwned(y, a);
    hide Inv;
    LocalChange(y, y.(store := Published(y.store, a).(live := y.store.live)), a);
  }

  lemma InsertSound(y: System, op: Op)
    requires Inv(y) && Enabled(y, op) && op.Insert? && !Discards(y, op)
    ensures Sound(y, op, Step(y, op))
  {
    var y0 := y.(store := Named(y.store, op.a, op.id));
    var s' := Published(y0.store, op.a);
    assert Step(y, op) == y.(store := s');
    DetachedIsOwned(y, op.a);
    hide Inv, Consistent, PhaseAt, Sound, Published, Inserted;
    NameSound(y, op.a, op.id);
    NumberSound(y0, op.a);
    var y1 := y0.(store := s'.(live := y0.store.live));
    PublishSound(y1, op.a);
    PublishedLive(y0.store, op.a);
    assert y1.store.(live := y1.store.live[y1.store.heap[op.a].nodeId := op.a]) == s';
    EntriesMove(y, op, Step(y, op));
  }

  lemma PublishedLive(s: Store, a: Addr)
    requires a in s.heap
    ensures Published(s, a).live == s.live[s.heap[a].nodeId := a]
  {
  }

  /** Marking an entry as deleted once it has left the live map. */
  lemma RetirePhases(y: System, y1: System, v: Addr)
    requires Inv(y) && PhaseAt(y, v).Live? && y1 == y.(store := y1.store)
    requires y1.store.heap == y.store.heap && v !in y1.store.live.Values && Consistent(y1.store)
    ensures var y2 := y1.(store := Retired(y1.store, v));
            && PhaseAt(y2, v) == (if y.held[v] > 0 then Lingering else Freed) && Consistent(y2.store)
            && forall b :: b != v ==> PhaseAt(y2, b) == PhaseAt(y1, b) && SameAt(y, y2, b)
  {
    hide Consistent;
    RetireConsistent(y1.store, v);
  }

  lemma RetireConsistent(s: Store, v: Addr)
    requires Consistent(s) && v in s.heap && v !in s.live.Values
    ensures Consistent(Retired(s, v))
  {
    forall id | id in s.live ensures s.live[id] != v {
      assert s.live[id] in s.live.Values;
    }
  }

  lemma RetireSound(y: System, y1: System, v: Addr)
    requires Inv(y) && PhaseAt(y, v).Live? && y1 == y.(store := y1.store)
    requires y1.store.heap == y.store.heap && v !in y1.store.live.Values && Consistent(y1.store)
    requires forall a :: PhaseAt(y1, a).Owned? && a != v ==> PhaseAt(y, a).Owned?
    ensures var y2 := y1.(store := Retired(y1.store, v));
            && Inv(y2) && PhaseAt(y2, v) == (if y.held[v] > 0 then Lingering else Freed)
            && forall b :: b != v ==> PhaseAt(y2, b) == PhaseAt(y1, b)
  {
    RetirePhases(y, y1, v);
    var y2 := y1.(store := Retired(y1.store, v));
    assert v in y.store.heap;
    hide Consistent, Retired, PhaseAt;
    RetireHeld(y, y1, v);
    LedgerStays(y, y2, v);
  }

  /** The ledger stays right when it does for the one entry that changes. */
  lemma LedgerStays(y: System, y2: System, v: Addr)
    requires Inv(y) && y2.held == y.held && y2.births == y.births && forall b :: b != v ==> SameAt(y, y2, b)
    requires v in y2.store.heap <==> y.held[v] > 0
    requires v in y2.store.heap ==> y2.store.heap[v].refCount == y.held[v] < COUNT_LIMIT && Births(y, v) > 0
    ensures forall a :: a in y2.held ==> a in y2.store.heap
    ensures forall a :: a in y2.store.heap ==> y2.store.heap[a].refCount == y2.held[a] < COUNT_LIMIT && Births(y2, a) > 0
    ensures forall a :: a in y2.store.heap && y2.store.heap[a].deleted ==> y2.held[a] > 0
  {
    hide PhaseAt, Consistent;
    forall a | a in y2.store.heap ensures y2.store.heap[a].refCount == y2.held[a] < COUNT_LIMIT && Births(y2, a) > 0 {
      assert a == v || SameAt(y, y2, a);
    }
    forall a | a in y2.store.heap && y2.store.heap[a].deleted ensures y2.held[a] > 0 {
      assert a == v || SameAt(y, y2, a);
    }
    forall a | a in y2.held ensures a in y2.store.heap {
      assert a == v || SameAt(y, y2, a);
    }
  }

  lemma RetireHeld(y: System, y1: System, v: Addr)
    requires Inv(y) && v in y.store.heap && y1.store.heap == y.store.heap
    ensures var heap := Retired(y1.store, v).heap;
            && (v in heap <==> y.held[v] > 0)
            && (v in heap ==> heap[v].refCount == y.held[v] < COUNT_LIMIT && Births(y, v) > 0)
  {
  }

  lemma RemoveSound(y: System, op: Op)
    requires Inv(y) && Enabled(y, op) && op.Remove?
    ensures Sound(y, op, Step(y, op))
  {
    var s, id := y.store, op.id;
    if id in s.live {
      var y1 := y.(store := s.(live := s.live - {id}));
      LiveEntry(y, id);
      UnlistedPhases(y, id);
      hide Inv, Sound, Consistent, PhaseAt, Retired;
      RetireSound(y, y1, s.live[id]);
      EntriesMove(y, op, Step(y, op));
    } else {
      assert Step(y, op) == y;
    }
  }

  lemma UnlistedPhases(y: System, id: NodeId)
    requires Inv(y) && id in y.store.live
    ensures var y1 := y.(store := y.store.(live := y.store.live - {id}));
            && Consistent(y1.store) && y.store.live[id] !in y1.store.live.Values
            && forall a :: a != y.store.live[id] ==> PhaseAt(y1, a) == PhaseAt(y, a)
  {
  }

  lemma RelistedPhases(y: System, a: Addr)
    requires Inv(y) && Detached(y.store, a) && y.store.heap[a].nodeId in y.store.live
    ensures var id := y.store.heap[a].nodeId;
            var y1 := y.(store := y.store.(live := y.store.live[id := a]));
            && a != y.store.live[id] && Consistent(y1.store) && y.store.live[id] !in y1.store.live.Values
            && PhaseAt(y1, a).Live? && PhaseAt(y, a).Owned?
            && forall b :: b != y.store.live[id] && b != a ==> PhaseAt(y1, b) == PhaseAt(y, b)
  {
  }

  lemma ReplaceSound(y: System, op: Op)
    requires Inv(y) && Enabled(y, op) && op.Replace? && !Discards(y, op)
    ensures Sound(y, op, Step(y, op))
  {
    var s, id := y.store, y.store.heap[op.a].nodeId;
    var y1 := y.(store := s.(live := s.live[id := op.a]));
    RelistedPhases(y, op.a);
    LiveEntry(y, id);
    assert Step(y, op) == y1.(store := Retired(y1.store, s.live[id]));
    hide Inv, Sound, Consistent, PhaseAt, Retired, Replaced;
    RetireSound(y, y1, s.live[id]);
    EntriesMove(y, op, Step(y, op));
  }

  lemma StepSound(y: System, op: Op)
    requires Inv(y) && Enabled(y, op)
    ensures Sound(y, op, Step(y, op))
  {
    match op
    case New(_, _, _, _) => NewSound(y, op);
    case Copy(_, _) => NewSound(y, op);
    case Delete(_) => DiscardSound(y, op);
    case Edit(_, _) => EditSound(y, op);
    case Insert(_, _) => if Discards(y, op) { DiscardSound(y, op); } else { InsertSound(y, op); }
    case Get(_) => GetSound(y, op);
    case Release(_) => ReleaseSound(y, op);
    case Remove(_) => RemoveSound(y, op);
    case Replace(_) => if Discards(y, op) { DiscardSound(y, op); } else { ReplaceSound(y, op); }
  }

  // ---------- whole runs ----------

  ghost function Run(y: System, ops: seq<Op>): System
    requires Inv(y) && EnabledRun(y, ops)
    decreases |ops|, 0
  {
    if ops == [] then y
    else
      StepSound(y, ops[0]);
      Run(Step(y, ops[0]), ops[1..])
  }

  ghost predicate EnabledRun(y: System, ops: seq<Op>)
    requires Inv(y)
    decreases |ops|
  {
    ops == [] || (Enabled(y, ops[0]) && (StepSound(y, ops[0]); EnabledRun(Step(y, ops[0]), ops[1..])))
  }

  lemma MovesForward(y: System, op: Op, v: Version, p: Phase, p': Phase)
    requires VersionMoves(y, op, v, p, p')
    ensures p.Rank() <= p'.Rank()
  {
  }

  const EMPTY := System(Store(map[], map[], []), multiset{}, map[], map[])

  /** Over every run: the ledger stays right, and no version ever moves back in its life. So nothing
      held is freed, and what has been freed is never seen again, even when its address is. */
  lemma {:induction false} RunSound(y: System, ops: seq<Op>)
    requires Inv(y) && EnabledRun(y, ops)
    ensures Inv(Run(y, ops))
    ensures forall v :: PhaseOf(y, v).Rank() <= PhaseOf(Run(y, ops), v).Rank()
    decreases |ops|
  {
    hide Inv, PhaseOf, VersionMoves, Enabled, Step;
    if ops != [] {
      StepSound(y, ops[0]);
      var y' := Step(y, ops[0]);
      RunSound(y', ops[1..]);
      forall v ensures PhaseOf(y, v).Rank() <= PhaseOf(Run(y, ops), v).Rank() {
        MovesForward(y, ops[0], v, PhaseOf(y, v), PhaseOf(y', v));
        assert PhaseOf(y', v).Rank() <= PhaseOf(Run(y', ops[1..]), v).Rank();
      }
    }
  }

  /** From the empty store: everything published or held is in memory with the exact count of its
      holders, and every version that is neither is unborn, still detached, or already freed. */
  lemma NothingLost(ops: seq<Op>)
    requires Inv(EMPTY) && EnabledRun(EMPTY, ops)
    ensures var y := Run(EMPTY, ops);
            && (forall id :: id in y.store.live ==> y.store.live[id] in y.store.heap)
            && (forall a :: a in y.held ==> a in y.store.heap && y.store.heap[a].refCount == y.held[a])
            && (forall v: Version :: v.addr !in y.held && !PhaseOf(y, v).Live? ==>
                  PhaseOf(y, v).Unborn? || PhaseOf(y, v).Freed? || Detached(y.store, v.addr))
  {
    RunSound(EMPTY, ops);
    RestIsDetached(Run(EMPTY, ops));
  }

  lemma RestIsDetached(y: System)
    requires Inv(y)
    ensures forall id :: id in y.store.live ==> y.store.live[id] in y.store.heap
    ensures forall a :: a in y.held ==> a in y.store.heap && y.store.heap[a].refCount == y.held[a]
    ensures forall v: Version :: v.addr !in y.held && !PhaseOf(y, v).Live? ==>
              PhaseOf(y, v).Unborn? || PhaseOf(y, v).Freed? || Detached(y.store, v.addr)
  {
  }

  /** The last holder of a version that was taken out frees it, and nobody else does. */
  lemma LastReleaseFrees(y: System, op: Op, v: Version)
    requires Inv(y) && Enabled(y, op) && PhaseOf(y, v).Lingering?
    ensures PhaseOf(Step(y, op), v).Freed? <==> op == Release(v.addr) && y.held[v.addr] == 1
  {
    StepSound(y, op);
    assert VersionMoves(y, op, v, PhaseOf(y, v), PhaseOf(Step(y, op), v));
  }

  /** A version that has left the store never becomes the live one again. */
  lemma VersionNeverReturns(y: System, ops: seq<Op>, v: Version)
    requires Inv(y) && EnabledRun(y, ops) && PhaseOf(y, v).Rank() >= 3
    ensures !PhaseOf(Run(y, ops), v).Live?
  {
    hide Inv, PhaseOf;
    RunSound(y, ops);
    assert PhaseOf(y, v).Rank() <= PhaseOf(Run(y, ops), v).Rank();
  }
}

/** Reference types are numbered in the order of their insertion, and keep their number for good. */
module ReferenceTypes {
  import opened NodeStore
  import opened NodeLifecycle
  import opened NodeHistory

  /** The entry is published, or was, or is a copy of one that was. */
  predicate Numbered(s: Store, a: Addr)
    requires a in s.heap
  {
    var e := s.heap[a];
    e.isReferenceType && (e.deleted || e.orig.Some? || (e.nodeId in s.live && s.live[e.nodeId] == a))
  }

  /** Its index is that of its id in the list. */
  predicate Placed(e: Entry, types: seq<NodeId>) {
    e.referenceTypeIndex < |types| && types[e.referenceTypeIndex] == e.nodeId
  }

  ghost predicate Indexed(s: Store) {
    && |s.referenceTypes| <= REFERENCETYPESET_MAX
    && forall a :: a in s.heap && Numbered(s, a) ==> Placed(s.heap[a], s.referenceTypes)
  }

  lemma LiveIsPlaced(s: Store, id: NodeId)
    requires Consistent(s) && Indexed(s) && id in s.live && s.heap[s.live[id]].isReferenceType
    ensures Placed(s.heap[s.live[id]], s.referenceTypes)
  {
  }

  /** The list grows by what is published, at its end. */
  lemma TypesGrow(y: System, op: Op)
    requires Inv(y) && Enabled(y, op) && Indexed(y.store)
    ensures var types, types' := y.store.referenceTypes, Step(y, op).store.referenceTypes;
            |types| <= |types'| <= REFERENCETYPESET_MAX && types'[..|types|] == types
  {
    hide Inv, Consistent, Numbered;
    NowConsistent(y);
    if op.Insert? {
      hide Placed;
    } else {
      OnlyInsertGrows(y, op);
    }
  }

  lemma OnlyInsertGrows(y: System, op: Op)
    requires Inv(y) && Enabled(y, op) && !op.Insert?
    ensures Step(y, op).store.referenceTypes == y.store.referenceTypes
  {
    NowConsistent(y);
    hide Inv, Consistent;
  }

  lemma WrittenPlaced(y: System, op: Op, a: Addr)
    requires Inv(y) && Enabled(y, op) && Indexed(y.store) && Writes(op, a)
    requires a in Step(y, op).store.heap && Numbered(Step(y, op).store, a)
    ensures Placed(Step(y, op).store.heap[a], Step(y, op).store.referenceTypes)
  {
  }

  /** Nothing gets to have a number by a change elsewhere. */
  lemma OtherNumbered(y: System, op: Op, a: Addr)
    requires Inv(y) && Enabled(y, op) && !Writes(op, a)
    requires a in y.store.heap && a in Step(y, op).store.heap && Numbered(Step(y, op).store, a)
    ensures Numbered(y.store, a)
  {
    hide Inv, Enabled, Step, PhaseAt, Numbered, Writes;
    var y' := Step(y, op);
    NodeStays(y, op, a);
    StepSound(y, op);
    var v := Version(a, Births(y, a));
    NoBirth(y, op, a);
    assert VersionMoves(y, op, v, PhaseOf(y, v), PhaseOf(y', v));
    NumberedPhase(y, a);
    NumberedPhase(y', a);
    if PhaseAt(y, a).Owned? && !PhaseAt(y', a).Owned? {
      NotFreed(y', a);
      NoInsertion(op, a);
      ReplacesCopies(y, op);
    }
  }

  lemma NumberedPhase(y: System, a: Addr)
    requires a in y.store.heap
    ensures Numbered(y.store, a)
            <==> y.store.heap[a].isReferenceType && (!PhaseAt(y, a).Owned? || y.store.heap[a].orig.Some?)
  {
  }

  lemma NotFreed(y: System, a: Addr)
    requires a in y.store.heap
    ensures !PhaseAt(y, a).Freed?
  {
  }

  lemma NoInsertion(op: Op, a: Addr)
    requires !Writes(op, a)
    ensures !(op.Insert? && op.a == a)
  {
  }

  lemma NoBirth(y: System, op: Op, a: Addr)
    requires Inv(y) && Enabled(y, op) && !Writes(op, a)
    ensures Births(Step(y, op), a) == Births(y, a)
  {
    NowConsistent(y);
    hide Inv, Consistent;
  }

  lemma ReplacesCopies(y: System, op: Op)
    requires Inv(y) && Enabled(y, op) && op.Replace? && op.a in Step(y, op).store.heap
    ensures op.a in y.store.heap && y.store.heap[op.a].orig.Some?
  {
    NowConsistent(y);
    hide Inv, Consistent;
  }

  lemma StepIndexed(y: System, op: Op)
    requires Inv(y) && Enabled(y, op) && Indexed(y.store)
    ensures Inv(Step(y, op)) && Indexed(Step(y, op).store)
  {
    StepSound(y, op);
    TypesGrow(y, op);
    var s' := Step(y, op).store;
    hide Inv, Enabled, Step, Writes, Numbered;
    forall a | a in s'.heap && Numbered(s', a) ensures Placed(s'.heap[a], s'.referenceTypes) {
      if Writes(op, a) {
        WrittenPlaced(y, op, a);
      } else {
        NodeStays(y, op, a);
        OtherNumbered(y, op, a);
      }
    }
  }

  lemma {:induction false} RunIndexed(y: System, ops: seq<Op>)
    requires Inv(y) && EnabledRun(y, ops) && Indexed(y.store)
    ensures Inv(Run(y, ops)) && Indexed(Run(y, ops).store)
    ensures var types, types' := y.store.referenceTypes, Run(y, ops).store.referenceTypes;
            |types| <= |types'| && types'[..|types|] == types
    decreases |ops|
  {
    hide Inv, Enabled, Step, Indexed;
    if ops != [] {
      StepIndexed(y, ops[0]);
      TypesGrow(y, ops[0]);
      RunIndexed(Step(y, ops[0]), ops[1..]);
    }
  }

  /** Over every run from the empty store: a published reference type, a held one that has left the
      store and a copy of either have the index of their id in the list, so two published ones never
      share an index, and later operations only extend the list. */
  lemma IndicesHold(ops: seq<Op>, more: seq<Op>)
    requires Inv(EMPTY) && EnabledRun(EMPTY, ops) && Inv(Run(EMPTY, ops)) && EnabledRun(Run(EMPTY, ops), more)
    ensures var s, s' := Run(EMPTY, ops).store, Run(Run(EMPTY, ops), more).store;
            && |s.referenceTypes| <= |s'.referenceTypes| <= 128
            && s'.referenceTypes[..|s.referenceTypes|] == s.referenceTypes
            && (forall a :: a in s.heap && Numbered(s, a) ==> Placed(s.heap[a], s.referenceTypes))
    ensures var s := Run(EMPTY, ops).store;
            forall id, id' :: id in s.live && id' in s.live && id != id'
                              && s.heap[s.live[id]].isReferenceType && s.heap[s.live[id']].isReferenceType ==>
                s.heap[s.live[id]].referenceTypeIndex != s.heap[s.live[id']].referenceTypeIndex
  {
    hide Inv, Enabled;
    assert Indexed(EMPTY.store);
    RunIndexed(EMPTY, ops);
    RunIndexed(Run(EMPTY, ops), more);
    NowConsistent(Run(EMPTY, ops));
    DistinctIndices(Run(EMPTY, ops).store);
  }

  lemma DistinctIndices(s: Store)
    requires Consistent(s) && Indexed(s)
    ensures forall id, id' :: id in s.live && id' in s.live && id != id'
                              && s.heap[s.live[id]].isReferenceType && s.heap[s.live[id']].isReferenceType ==>
                s.heap[s.live[id]].referenceTypeIndex != s.heap[s.live[id']].referenceTypeIndex
  {
    forall id, id' | id in s.live && id' in s.live && id != id'
                     && s.heap[s.live[id]].isReferenceType && s.heap[s.live[id']].isReferenceType
      ensures s.heap[s.live[id]].referenceTypeIndex != s.heap[s.live[id']].referenceTypeIndex
    {
      LiveIsPlaced(s, id);
      LiveIsPlaced(s, id');
    }
  }
}

/** What the nodes of a store have been told to be: a record of versions that is only ever added to,
    without counters, marks or memory. The store agrees with it at every point of every run. */
module NodeHistory {
  import opened Options
  import opened NodeStore
  import opened NodeLifecycle

  datatype Fact = Fact(nodeId: NodeId, content: nat, isReferenceType: bool, index: nat, original: Option<Version>)

  /** Which version is published under which id, what is known of each version, how often each address
      was handed out, and the reference types in the order of their indices. */
  datatype History = History(live: map<NodeId, Version>, facts: map<Version, Fact>, births: map<Addr, nat>,
                             types: seq<NodeId>)

  const NOTHING := History(map[], map[], map[], [])

  const UNKNOWN := Fact(Numeric(0, 0), 0, false, 0, None)

  function Latest(h: History, a: Addr): Version {
    Version(a, if a in h.births then h.births[a] else 0)
  }

  function Known(h: History, v: Version): Fact {
    if v in h.facts then h.facts[v] else UNKNOWN
  }

  /** What is known of the version at an address now. */
  function At(h: History, a: Addr): Fact {
    Known(h, Latest(h, a))
  }

  function Made(h: History, a: Addr, f: Fact): History {
    var v := Version(a, Latest(h, a).birth + 1);
    h.(facts := h.facts[v := f], births := h.births[a := v.birth])
  }

  function Changed(h: History, a: Addr, f: Fact): History {
    h.(facts := h.facts[Latest(h, a) := f])
  }

  /** A copy is a new version that knows its original. Only making, editing and inserting a version
      changes what is known of it, and only inserting, replacing and removing changes what is live. */
  function Told(h: History, op: Op): History {
    match op
    case New(a, id, content, r) => Made(h, a, Fact(id, content, r, 0, None))
    case Copy(id, a) => if id in h.live then Made(h, a, Known(h, h.live[id]).(original := Some(h.live[id]))) else h
    case Edit(a, content) => Changed(h, a, At(h, a).(content := content))
    case Insert(a, id) =>
      var h' := Changed(h, a, At(h, a).(nodeId := id));
      if !Answer(h, op).Good? then h'
      else if !At(h, a).isReferenceType then h'.(live := h.live[id := Latest(h, a)])
      else
        Changed(h, a, At(h, a).(nodeId := id, index := |h.types|))
        .(live := h.live[id := Latest(h, a)], types := h.types + [id])
    case Replace(a) => if Answer(h, op).Good? then h.(live := h.live[At(h, a).nodeId := Latest(h, a)]) else h
    case Remove(id) => h.(live := h.live - {id})
    case Get(_) => h
    case Release(_) => h
    case Delete(_) => h
  }

  /** The answer of an operation. */
  function Answer(h: History, op: Op): Status {
    match op
    case Copy(id, _) => if id in h.live then Good else BadNodeIdUnknown
    case Remove(id) => if id in h.live then Good else BadNodeIdUnknown
    case Get(id) => if id in h.live then Good else BadNodeIdUnknown
    case Insert(a, id) =>
      if id in h.live then BadNodeIdExists
      else if At(h, a).isReferenceType && |h.types| >= 128 then BadInternalError
      else Good
    case Replace(a) =>
      var f := At(h, a);
      if f.nodeId !in h.live then BadNodeIdUnknown
      else if f.original.None? || f.original.value.addr != h.live[f.nodeId].addr then BadInternalError
      else Good
    case _ => Good
  }

  function ToldAll(h: History, ops: seq<Op>): History
    decreases |ops|
  {
    if ops == [] then h else ToldAll(Told(h, ops[0]), ops[1..])
  }

  // ---------- agreement ----------

  /** The entry is what is known of it, and the original of a copy is the version it was made from. */
  ghost predicate Matches(e: Entry, f: Fact, a: Addr, origins: map<Addr, nat>) {
    && e.nodeId == f.nodeId && e.content == f.content
    && e.isReferenceType == f.isReferenceType && e.referenceTypeIndex == f.index
    && match e.orig
       case None => f.original == None
       case Some(b) => a in origins && f.original == Some(Version(b, origins[a]))
  }

  ghost predicate EntriesAgree(y: System, h: History) {
    forall a :: a in y.store.heap ==> Matches(y.store.heap[a], At(h, a), a, y.origins)
  }

  ghost predicate LiveAgrees(y: System, h: History) {
    && (forall id :: id in y.store.live <==> id in h.live)
    && (forall id :: id in y.store.live ==> h.live[id] == Version(y.store.live[id], Births(y, y.store.live[id])))
  }

  ghost predicate Agrees(y: System, h: History) {
    EntriesAgree(y, h) && LiveAgrees(y, h) && h.births == y.births && h.types == y.store.referenceTypes
  }

  /** What the store answers. */
  ghost function StoreAnswer(y: System, op: Op): Status
    requires Inv(y) && Callable(y, op)
  {
    match op
    case Copy(id, a) => Copied(y.store, id, a).1
    case Remove(id) => Removed(y.store, id).1
    case Get(id) => if Got(y.store, id).1.Some? then Good else BadNodeIdUnknown
    case Insert(a, id) => Inserted(Named(y.store, a, id), a).1
    case Replace(a) => Replaced(y.store, a).1
    case _ => Good
  }

  lemma AnswersAgree(y: System, h: History, op: Op)
    requires Inv(y) && Enabled(y, op) && Agrees(y, h)
    ensures StoreAnswer(y, op) == Answer(h, op)
  {
  }

  /** A get hands out the version published under the id. */
  lemma GetsPublished(y: System, h: History, id: NodeId)
    requires Inv(y) && Agrees(y, h)
    ensures Got(y.store, id).1 == if id in h.live then Some(h.live[id].addr) else None
  {
  }

  // ---------- one step ----------

  lemma MadeAgrees(y: System, h: History, a: Addr, e: Entry, f: Fact, origins: map<Addr, nat>)
    requires Consistent(y.store) && Agrees(y, h) && a !in y.store.heap && Matches(e, f, a, origins)
    requires forall b :: b != a ==> (b in origins <==> b in y.origins) && (b in origins ==> origins[b] == y.origins[b])
    ensures Agrees(Born(y, y.store.(heap := y.store.heap[a := e]), a, origins), Made(h, a, f))
  {
    var y', h' := Born(y, y.store.(heap := y.store.heap[a := e]), a, origins), Made(h, a, f);
    MadeLive(y, h, a, e, f, origins);
    hide LiveAgrees, Consistent;
    forall b | b in y'.store.heap ensures Matches(y'.store.heap[b], At(h', b), b, y'.origins) {
      assert b != a ==> At(h', b) == At(h, b) && y'.store.heap[b] == y.store.heap[b];
    }
  }

  lemma MadeLive(y: System, h: History, a: Addr, e: Entry, f: Fact, origins: map<Addr, nat>)
    requires Consistent(y.store) && LiveAgrees(y, h) && a !in y.store.heap
    ensures LiveAgrees(Born(y, y.store.(heap := y.store.heap[a := e]), a, origins), Made(h, a, f))
  {
  }

  /** The entry at one address changes. */
  lemma ChangedAgrees(y: System, h: History, c: Addr, e: Entry, f: Fact)
    requires Agrees(y, h) && Matches(e, f, c, y.origins)
    ensures Agrees(y.(store := y.store.(heap := y.store.heap[c := e])), Changed(h, c, f))
  {
    var y', h' := y.(store := y.store.(heap := y.store.heap[c := e])), Changed(h, c, f);
    forall b | b in y'.store.heap ensures Matches(y'.store.heap[b], At(h', b), b, y'.origins) {
      assert b != c ==> At(h', b) == At(h, b) && y'.store.heap[b] == y.store.heap[b];
    }
  }

  /** Counters and marks are not part of the history, and neither is what has been freed. */
  lemma CountsDoNotMatter(y: System, h: History, y': System)
    requires Agrees(y, h) && y' == y.(store := y'.store, held := y'.held) && y'.store == y.store.(heap := y'.store.heap)
    requires forall a :: a in y'.store.heap ==> a in y.store.heap && SameNode(y.store.heap[a], y'.store.heap[a])
    ensures Agrees(y', h)
  {
    hide At;
    forall a | a in y'.store.heap ensures Matches(y'.store.heap[a], At(h, a), a, y'.origins) {
      assert Matches(y.store.heap[a], At(h, a), a, y.origins);
    }
  }

  predicate SameNode(e: Entry, e': Entry) {
    e' == e.(refCount := e'.refCount, deleted := e'.deleted)
  }

  lemma ListedAgrees(y: System, h: History, a: Addr, id: NodeId)
    requires Agrees(y, h)
    ensures Agrees(y.(store := y.store.(live := y.store.live[id := a])), h.(live := h.live[id := Latest(h, a)]))
  {
    var y', h' := y.(store := y.store.(live := y.store.live[id := a])), h.(live := h.live[id := Latest(h, a)]);
    forall b | b in y'.store.heap ensures Matches(y'.store.heap[b], At(h', b), b, y'.origins) {
      assert At(h', b) == At(h, b);
    }
  }

  lemma UnlistedAgrees(y: System, h: History, id: NodeId)
    requires Agrees(y, h)
    ensures Agrees(y.(store := y.store.(live := y.store.live - {id})), h.(live := h.live - {id}))
  {
    var y', h' := y.(store := y.store.(live := y.store.live - {id})), h.(live := h.live - {id});
    forall b | b in y'.store.heap ensures Matches(y'.store.heap[b], At(h', b), b, y'.origins) {
      assert At(h', b) == At(h, b);
    }
  }

  lemma TypedAgrees(y: System, h: History, types: seq<NodeId>)
    requires Agrees(y, h)
    ensures Agrees(y.(store := y.store.(referenceTypes := types)), h.(types := types))
  {
    var y', h' := y.(store := y.store.(referenceTypes := types)), h.(types := types);
    forall b | b in y'.store.heap ensures Matches(y'.store.heap[b], At(h', b), b, y'.origins) {
      assert At(h', b) == At(h, b);
    }
  }

  lemma EntryAgrees(y: System, h: History, a: Addr)
    requires Agrees(y, h) && a in y.store.heap
    ensures Matches(y.store.heap[a], At(h, a), a, y.origins)
  {
  }

  lemma LiveVersion(y: System, h: History, id: NodeId)
    requires Inv(y) && Agrees(y, h)
    ensures id in h.live <==> id in y.store.live
    ensures id in h.live ==> h.live[id] == Latest(h, y.store.live[id]) && y.store.live[id] in y.store.heap
  {
  }

  lemma NewAgrees(y: System, h: History, op: Op)
    requires Inv(y) && Enabled(y, op) && Agrees(y, h) && op.New?
    ensures Agrees(Step(y, op), Told(h, op))
  {
    var e := Entry(op.id, op.content, op.isReferenceType, 0, None, 0, false);
    var f := Fact(op.id, op.content, op.isReferenceType, 0, None);
    hide Agrees, At, Inv;
    NowConsistent(y);
    MadeAgrees(y, h, op.a, e, f, y.origins - {op.a});
  }

  lemma NowConsistent(y: System)
    requires Inv(y)
    ensures Consistent(y.store)
  {
  }

  lemma CopyAgrees(y: System, h: History, op: Op)
    requires Inv(y) && Enabled(y, op) && Agrees(y, h) && op.Copy?
    ensures Agrees(Step(y, op), Told(h, op))
  {
    LiveVersion(y, h, op.id);
    NowConsistent(y);
    SameBirths(y, h);
    hide Agrees, Inv, Matches, Consistent;
    if op.id in y.store.live {
      var b := y.store.live[op.id];
      EntryAgrees(y, h, b);
      var e := y.store.heap[b].(orig := Some(b), refCount := 0, deleted := false);
      var f := At(h, b).(original := Some(h.live[op.id]));
      var origins := y.origins[op.a := Births(y, b)];
      CopyMatches(y.store.heap[b], At(h, b), b, y.origins, op.a, Births(y, b));
      MadeAgrees(y, h, op.a, e, f, origins);
    } else {
      assert Step(y, op) == y;
    }
  }

  lemma SameBirths(y: System, h: History)
    requires Agrees(y, h)
    ensures h.births == y.births && h.types == y.store.referenceTypes
  {
  }

  lemma CopyMatches(e: Entry, f: Fact, b: Addr, origins: map<Addr, nat>, a: Addr, birth: nat)
    requires Matches(e, f, b, origins)
    ensures Matches(e.(orig := Some(b), refCount := 0, deleted := false), f.(original := Some(Version(b, birth))), a,
                    origins[a := birth])
  {
  }

  lemma EditAgrees(y: System, h: History, op: Op)
    requires Inv(y) && Enabled(y, op) && Agrees(y, h) && op.Edit?
    ensures Agrees(Step(y, op), Told(h, op))
  {
    EntryAgrees(y, h, op.a);
    hide Agrees, Inv, At;
    ChangedAgrees(y, h, op.a, y.store.heap[op.a].(content := op.content), At(h, op.a).(content := op.content));
  }

  lemma CountAgrees(y: System, h: History, op: Op)
    requires Inv(y) && Enabled(y, op) && Agrees(y, h) && (op.Get? || op.Release? || op.Delete?)
    ensures Agrees(Step(y, op), Told(h, op))
  {
    CountsStep(y, op);
    hide Agrees, Inv, Step;
    CountsDoNotMatter(y, h, Step(y, op));
  }

  lemma CountsStep(y: System, op: Op)
    requires Inv(y) && Enabled(y, op) && (op.Get? || op.Release? || op.Delete?)
    ensures var y' := Step(y, op);
            && y' == y.(store := y.store.(heap := y'.store.heap), held := y'.held)
            && forall a :: a in y'.store.heap ==> a in y.store.heap && SameNode(y.store.heap[a], y'.store.heap[a])
  {
    NowConsistent(y);
    hide Inv;
    if op.Get? {
      GetKeepsNodes(y, op);
    }
  }

  lemma GetKeepsNodes(y: System, op: Op)
    requires Inv(y) && Enabled(y, op) && op.Get?
    ensures var y' := Step(y, op);
            && y' == y.(store := y.store.(heap := y'.store.heap), held := y'.held)
            && forall a :: a in y'.store.heap ==> a in y.store.heap && SameNode(y.store.heap[a], y'.store.heap[a])
  {
    if op.id in y.store.live {
      GetCounts(y, op);
      LiveEntry(y, op.id);
      hide Inv, Step;
    } else {
      assert Step(y, op) == y;
    }
  }

  /** A version that leaves the store is marked or freed. */
  lemma RetiredAgrees(y: System, h: History, a: Addr)
    requires Agrees(y, h) && a in y.store.heap
    ensures Agrees(y.(store := Retired(y.store, a)), h)
  {
    hide Agrees;
    CountsDoNotMatter(y, h, y.(store := Retired(y.store, a)));
  }

  lemma FreedAgrees(y: System, h: History, a: Addr)
    requires Agrees(y, h)
    ensures Agrees(y.(store := Free(y.store, a)), h)
  {
    hide Agrees;
    CountsDoNotMatter(y, h, y.(store := Free(y.store, a)));
  }

  lemma RemoveAgrees(y: System, h: History, op: Op)
    requires Inv(y) && Enabled(y, op) && Agrees(y, h) && op.Remove?
    ensures Agrees(Step(y, op), Told(h, op))
  {
    hide Agrees, Inv, Consistent, Retired;
    LiveVersion(y, h, op.id);
    NowConsistent(y);
    UnlistedAgrees(y, h, op.id);
    if op.id in y.store.live {
      var y1 := y.(store := y.store.(live := y.store.live - {op.id}));
      RetiredAgrees(y1, h.(live := h.live - {op.id}), y.store.live[op.id]);
    } else {
      assert Step(y, op) == y && h.live - {op.id} == h.live;
    }
  }

  lemma ReplaceAgrees(y: System, h: History, op: Op)
    requires Inv(y) && Enabled(y, op) && Agrees(y, h) && op.Replace?
    ensures Agrees(Step(y, op), Told(h, op))
  {
    AnswersAgree(y, h, op);
    NowConsistent(y);
    var e, id := y.store.heap[op.a], y.store.heap[op.a].nodeId;
    EntryAgrees(y, h, op.a);
    if Answer(h, op).Good? {
      LiveVersion(y, h, id);
      ListedAgrees(y, h, op.a, id);
      hide Agrees, Inv, Consistent, Retired, At;
      RetiredAgrees(y.(store := y.store.(live := y.store.live[id := op.a])), h.(live := h.live[id := Latest(h, op.a)]),
                    y.store.live[id]);
    } else {
      hide Agrees, Inv, Consistent, At, Answer;
      FreedAgrees(y, h, op.a);
    }
  }

  lemma RefusedInsertAgrees(y: System, h: History, op: Op)
    requires Inv(y) && Enabled(y, op) && Agrees(y, h) && op.Insert? && !Answer(h, op).Good?
    ensures Agrees(Step(y, op), Told(h, op))
  {
    AnswersAgree(y, h, op);
    EntryAgrees(y, h, op.a);
    hide Agrees, Inv, Consistent, At, Answer;
    var e := y.store.heap[op.a].(nodeId := op.id);
    ChangedAgrees(y, h, op.a, e, At(h, op.a).(nodeId := op.id));
    var y1 := y.(store := Named(y.store, op.a, op.id));
    FreedAgrees(y1, Told(h, op), op.a);
  }

  lemma InsertAgrees(y: System, h: History, op: Op)
    requires Inv(y) && Enabled(y, op) && Agrees(y, h) && op.Insert? && Answer(h, op).Good?
    ensures Agrees(Step(y, op), Told(h, op))
  {
    AnswersAgree(y, h, op);
    EntryAgrees(y, h, op.a);
    SameBirths(y, h);
    hide Agrees, Inv, Consistent, At, Answer;
    var e, f := y.store.heap[op.a].(nodeId := op.id), At(h, op.a).(nodeId := op.id);
    var types := h.types;
    if e.isReferenceType {
      e, f, types := e.(referenceTypeIndex := |h.types|), f.(index := |h.types|), h.types + [op.id];
    }
    ChangedAgrees(y, h, op.a, e, f);
    var y1, h1 := y.(store := y.store.(heap := y.store.heap[op.a := e])), Changed(h, op.a, f);
    TypedAgrees(y1, h1, types);
    ListedAgrees(y1.(store := y1.store.(referenceTypes := types)), h1.(types := types), op.a, op.id);
    InsertEffect(y, op, e);
  }

  lemma InsertEffect(y: System, op: Op, e: Entry)
    requires Inv(y) && Enabled(y, op) && op.Insert? && StoreAnswer(y, op).Good?
    requires var own, s := y.store.heap[op.a].(nodeId := op.id), y.store;
             e == if own.isReferenceType then own.(referenceTypeIndex := |s.referenceTypes|) else own
    ensures var types := y.store.referenceTypes;
            Step(y, op).store == Store(y.store.live[op.id := op.a], y.store.heap[op.a := e],
                                       if e.isReferenceType then types + [op.id] else types)
    ensures Step(y, op) == y.(store := Step(y, op).store)
  {
    hide Inv, Consistent;
    assert y.store.heap[op.a := y.store.heap[op.a].(nodeId := op.id)][op.a := e] == y.store.heap[op.a := e];
  }

  lemma {:induction false} StepAgrees(y: System, h: History, op: Op)
    requires Inv(y) && Enabled(y, op) && Agrees(y, h)
    ensures Agrees(Step(y, op), Told(h, op))
  {
    hide Agrees, Inv, Step, Told, Enabled;
    match op
    case New(_, _, _, _) => NewAgrees(y, h, op);
    case Copy(_, _) => CopyAgrees(y, h, op);
    case Edit(_, _) => EditAgrees(y, h, op);
    case Get(_) => CountAgrees(y, h, op);
    case Release(_) => CountAgrees(y, h, op);
    case Delete(_) => CountAgrees(y, h, op);
    case Remove(_) => RemoveAgrees(y, h, op);
    case Replace(_) => ReplaceAgrees(y, h, op);
    case Insert(_, _) =>
      if Answer(h, op).Good? {
        InsertAgrees(y, h, op);
      } else {
        RefusedInsertAgrees(y, h, op);
      }
  }

  // ---------- whole runs ----------

  lemma {:induction false} RunAgrees(y: System, h: History, ops: seq<Op>)
    requires Inv(y) && EnabledRun(y, ops) && Agrees(y, h)
    ensures Inv(Run(y, ops)) && Agrees(Run(y, ops), ToldAll(h, ops))
    decreases |ops|
  {
    hide Inv, Agrees, Enabled, Step, Told;
    if ops != [] {
      StepSound(y, ops[0]);
      StepAgrees(y, h, ops[0]);
      RunAgrees(Step(y, ops[0]), Told(h, ops[0]), ops[1..]);
    }
  }

  /** Over every run from the empty store: each entry in memory is what its version has been told to be,
      each id leads to the version last published under it, and every operation that may follow is
      answered accordingly. */
  lemma StoreIsHistory(ops: seq<Op>)
    requires Inv(EMPTY) && EnabledRun(EMPTY, ops)
    ensures Inv(Run(EMPTY, ops)) && Agrees(Run(EMPTY, ops), ToldAll(NOTHING, ops))
    ensures forall op :: Enabled(Run(EMPTY, ops), op) ==>
              StoreAnswer(Run(EMPTY, ops), op) == Answer(ToldAll(NOTHING, ops), op)
    ensures forall id :: Got(Run(EMPTY, ops).store, id).1
                         == (if id in ToldAll(NOTHING, ops).live then Some(ToldAll(NOTHING, ops).live[id].addr) else None)
  {
    var y, h := Run(EMPTY, ops), ToldAll(NOTHING, ops);
    assert Agrees(EMPTY, NOTHING);
    RunAgrees(EMPTY, NOTHING, ops);
    hide Inv, Agrees, Enabled, Answer, StoreAnswer;
    forall op | Enabled(y, op) ensures StoreAnswer(y, op) == Answer(h, op) {
      AnswersAgree(y, h, op);
    }
    forall id ensures Got(y.store, id).1 == if id in h.live then Some(h.live[id].addr) else None {
      GetsPublished(y, h, id);
    }
  }

  // ---------- what is published does not change ----------

  /** Only a version still with its maker is changed. */
  ghost predicate Writes(op: Op, a: Addr) {
    (op.New? || op.Copy? || op.Edit? || op.Insert?) && op.a == a
  }

  lemma NodeStays(y: System, op: Op, a: Addr)
    requires Inv(y) && Enabled(y, op) && a in Step(y, op).store.heap && !Writes(op, a)
    ensures a in y.store.heap && SameNode(y.store.heap[a], Step(y, op).store.heap[a])
  {
    if op.Get? || op.Release? || op.Delete? {
      CountsStep(y, op);
    } else if op.Replace? || op.Remove? {
      RetiringStep(y, op);
    } else {
      NowConsistent(y);
      hide Inv;
    }
  }

  lemma RetiringStep(y: System, op: Op)
    requires Inv(y) && Enabled(y, op) && (op.Replace? || op.Remove?)
    ensures var y' := Step(y, op);
            forall a :: a in y'.store.heap ==> a in y.store.heap && SameNode(y.store.heap[a], y'.store.heap[a])
  {
    NowConsistent(y);
    var id := if op.Remove? then op.id else y.store.heap[op.a].nodeId;
    if id in y.store.live {
      LiveEntry(y, id);
      RetiringHeap(y.store, y.store.live[id]);
    }
    hide Inv, Consistent, Retired;
  }

  lemma RetiringHeap(s: Store, v: Addr)
    requires v in s.heap
    ensures forall live :: Retired(s.(live := live), v).heap == Retired(s, v).heap
    ensures forall a :: a in Retired(s, v).heap ==> a in s.heap && SameNode(s.heap[a], Retired(s, v).heap[a])
  {
  }

  /** A node that is published stays as it is until it is freed, whoever holds it and for how long. */
  lemma {:induction false} PublishedNeverChanges(y: System, ops: seq<Op>, v: Version)
    requires Inv(y) && EnabledRun(y, ops)
    requires 2 <= PhaseOf(y, v).Rank() && PhaseOf(Run(y, ops), v).Rank() <= 3
    ensures v.addr in y.store.heap && v.addr in Run(y, ops).store.heap
    ensures SameNode(y.store.heap[v.addr], Run(y, ops).store.heap[v.addr])
    decreases |ops|
  {
    hide Inv, Enabled, Step, PhaseOf, Writes;
    RunSound(y, ops);
    InMemory(y, v);
    if ops != [] {
      var y' := Step(y, ops[0]);
      StepSound(y, ops[0]);
      RunSound(y', ops[1..]);
      StillPublished(y, ops[0], v);
      assert PhaseOf(y', v).Rank() <= PhaseOf(Run(y', ops[1..]), v).Rank();
      InMemory(y', v);
      NotWritten(y, ops[0], v);
      NodeStays(y, ops[0], v.addr);
      PublishedNeverChanges(y', ops[1..], v);
    }
  }

  lemma StillPublished(y: System, op: Op, v: Version)
    requires Inv(y) && Enabled(y, op)
    ensures PhaseOf(y, v).Rank() <= PhaseOf(Step(y, op), v).Rank()
  {
    StepSound(y, op);
    hide Inv, Enabled, Step, PhaseOf;
    MovesForward(y, op, v, PhaseOf(y, v), PhaseOf(Step(y, op), v));
  }

  lemma InMemory(y: System, v: Version)
    requires 2 <= PhaseOf(y, v).Rank() <= 3
    ensures v.addr in y.store.heap
  {
  }

  lemma NotWritten(y: System, op: Op, v: Version)
    requires Inv(y) && Enabled(y, op) && 2 <= PhaseOf(y, v).Rank() <= 3
    ensures !Writes(op, v.addr)
  {
  }
}

/** Optimistic replacement: a copy may replace only the version it was taken from. The program
    compares addresses, so this depends on which addresses are handed out again, and when. */
module NodeReplacement {
  import opened Options
  import opened NodeStore
  import opened NodeLifecycle

  /** A successful replacement by a copy that was taken from version v. */
  ghost predicate ReplacesVersion(y: System, op: Op, v: Version) {
    && op.Replace? && Detached(y.store, op.a) && Consistent(y.store) && Replaced(y.store, op.a).1 == Good
    && y.store.heap[op.a].orig == Some(v.addr) && op.a in y.origins && y.origins[op.a] == v.birth
  }

  /** How many operations of a run replace by copies of version v. */
  ghost function Replacements(y: System, ops: seq<Op>, v: Version): nat
    requires Inv(y) && EnabledRun(y, ops)
    decreases |ops|
  {
    if ops == [] then 0
    else
      StepSound(y, ops[0]);
      (if ReplacesVersion(y, ops[0], v) then 1 else 0) + Replacements(Step(y, ops[0]), ops[1..], v)
  }

  // ---------- what a reused address can do ----------

  ghost predicate HandsOut(y: System, op: Op, c: Addr) {
    (op.New? || (op.Copy? && op.id in y.store.live)) && op.a == c
  }

  /** A new reference type is refused once all their indices are taken. */
  predicate CanInsert(s: Store, e: Entry) {
    !e.isReferenceType || |s.referenceTypes| < REFERENCETYPESET_MAX
  }

  /** A detached entry can come to be the live one of this id: as a replacement or by insertion under
      its own id, and when it came without one by insertion under any id of its namespace. */
  predicate MayBecome(s: Store, e: Entry, id: NodeId) {
    || (id == e.nodeId && (e.orig.Some? || CanInsert(s, e)))
    || (WantsId(e.nodeId) && id.Numeric? && id.ns == e.nodeId.ns && CanInsert(s, e))
  }

  /** The detached copy still records the address as that of its original. */
  ghost predicate Records(y: System, c: Addr, a: Addr) {
    c in y.store.heap && PhaseAt(y, c).Owned? && y.store.heap[c].orig == Some(a)
  }

  /** The operation hands out the address that a detached copy records, for an entry that can become
      the live one under the id of that copy. */
  ghost predicate Misleads(y: System, op: Op)
    requires Inv(y) && Enabled(y, op)
  {
    (op.New? || op.Copy?) && HandsOut(y, op, op.a) && op.a in Step(y, op).store.heap
    && exists c :: Records(y, c, op.a) && MayBecome(y.store, Step(y, op).store.heap[op.a], y.store.heap[c].nodeId)
  }

  ghost predicate Careful(y: System, op: Op)
    requires Inv(y) && Enabled(y, op)
  {
    !Misleads(y, op)
  }

  ghost predicate CarefulRun(y: System, ops: seq<Op>)
    requires Inv(y) && EnabledRun(y, ops)
    decreases |ops|
  {
    ops == [] || (Careful(y, ops[0]) && (StepSound(y, ops[0]); CarefulRun(Step(y, ops[0]), ops[1..])))
  }

  // ---------- what careful operations keep ----------

  /** What is at the address will never be the live entry of the id. */
  ghost predicate Bars(y: System, o: Addr, id: NodeId) {
    o in y.store.heap ==>
      if PhaseAt(y, o).Owned? then !MayBecome(y.store, y.store.heap[o], id) else y.store.heap[o].nodeId != id
  }

  /** The address that a copy records has not been handed out again since, or what is there now can do
      no harm. */
  ghost predicate SafeAt(y: System, c: Addr, o: Addr) {
    && c in y.store.heap && c in y.origins && y.origins[c] <= Births(y, o)
    && (y.origins[c] == Births(y, o) || Bars(y, o, y.store.heap[c].nodeId))
  }

  ghost predicate Safe(y: System) {
    forall c, o :: Records(y, c, o) ==> SafeAt(y, c, o)
  }

  /** What a step leaves at an address that it does not hand out. */
  ghost predicate Kept(y: System, op: Op, y': System, c: Addr)
    requires c in y.store.heap && c in y'.store.heap
  {
    var e, e' := y.store.heap[c], y'.store.heap[c];
    && e'.orig == e.orig && e'.isReferenceType == e.isReferenceType
    && (e'.nodeId == e.nodeId || (op.Insert? && op.a == c && e'.nodeId == op.id))
    && (c in y.origins ==> c in y'.origins && y'.origins[c] == y.origins[c])
    && |y.store.referenceTypes| <= |y'.store.referenceTypes|
  }

  lemma EntryStays(y: System, op: Op, c: Addr)
    requires Inv(y) && Enabled(y, op) && !HandsOut(y, op, c)
    requires c in y.store.heap && c in Step(y, op).store.heap
    ensures Kept(y, op, Step(y, op), c)
  {
    match op {
      case Replace(_) => ReplaceKeeps(y, op, c);
      case Insert(_, _) => InsertKeeps(y, op, c);
      case Remove(_) => RemoveKeeps(y, op, c);
      case New(_, _, _, _) => NewKeeps(y, op, c);
      case Copy(_, _) => NewKeeps(y, op, c);
      case _ => OthersKeep(y, op, c);
    }
    hide *;
  }

  lemma NewKeeps(y: System, op: Op, c: Addr)
    requires Inv(y) && Enabled(y, op) && (op.New? || op.Copy?) && !HandsOut(y, op, c) && c in y.store.heap
    ensures c in Step(y, op).store.heap && Kept(y, op, Step(y, op), c)
  {
    hide Inv, Consistent;
  }

  lemma OthersKeep(y: System, op: Op, c: Addr)
    requires Inv(y) && Enabled(y, op) && (op.Delete? || op.Edit? || op.Get? || op.Release?)
    requires c in y.store.heap && c in Step(y, op).store.heap
    ensures Kept(y, op, Step(y, op), c)
  {
    hide Inv, Consistent;
  }

  lemma ReplaceKeeps(y: System, op: Op, c: Addr)
    requires Inv(y) && Enabled(y, op) && op.Replace? && c in y.store.heap && c in Step(y, op).store.heap
    ensures Kept(y, op, Step(y, op), c)
  {
    hide Inv, Consistent;
  }

  lemma InsertKeeps(y: System, op: Op, c: Addr)
    requires Inv(y) && Enabled(y, op) && op.Insert? && c in y.store.heap && c in Step(y, op).store.heap
    ensures Kept(y, op, Step(y, op), c)
  {
    hide Inv, Consistent;
  }

  lemma RemoveKeeps(y: System, op: Op, c: Addr)
    requires Inv(y) && Enabled(y, op) && op.Remove? && c in y.store.heap && c in Step(y, op).store.heap
    ensures Kept(y, op, Step(y, op), c)
  {
    hide Inv, Consistent;
  }

  /** How the phase of what is at an address can change. */
  lemma PhaseMoves(y: System, op: Op, c: Addr)
    requires Inv(y) && Enabled(y, op) && !HandsOut(y, op, c)
    ensures Moves(y, op, c, PhaseAt(y, c), PhaseAt(Step(y, op), c))
  {
    StepSound(y, op);
    BirthsStay(y, op, c);
    hide Inv, Enabled, PhaseAt, Step, Moves;
    var v := Version(c, Births(y, c));
    assert VersionMoves(y, op, v, PhaseOf(y, v), PhaseOf(Step(y, op), v));
  }

  lemma InHeap(y: System, c: Addr)
    ensures c in y.store.heap <==> !PhaseAt(y, c).Freed?
    ensures !PhaseAt(y, c).Unborn?
  {
  }

  /** Apart from the one that is handed out, what is detached after a step was so before. */
  lemma OwnedBefore(y: System, op: Op, c: Addr)
    requires Inv(y) && Enabled(y, op) && !HandsOut(y, op, c) && PhaseAt(Step(y, op), c).Owned?
    ensures PhaseAt(y, c).Owned? && c in y.store.heap && c in Step(y, op).store.heap
  {
    PhaseMoves(y, op, c);
    InHeap(Step(y, op), c);
    InHeap(y, c);
  }

  lemma BirthsStay(y: System, op: Op, c: Addr)
    requires Inv(y) && Enabled(y, op)
    ensures Births(Step(y, op), c) == Births(y, c) + if HandsOut(y, op, c) then 1 else 0
  {
  }

  /** Insertion leaves nothing detached at its address. */
  lemma InsertedNotOwned(y: System, op: Op)
    requires Inv(y) && Enabled(y, op) && op.Insert?
    ensures PhaseAt(y, op.a).Owned? && !PhaseAt(Step(y, op), op.a).Owned?
    ensures op.a in Step(y, op).store.heap ==> CanInsert(y.store, y.store.heap[op.a])
    ensures Chosen(y.store, y.store.heap[op.a].nodeId, op.id)
  {
    DetachedIsOwned(y, op.a);
    hide Inv, Consistent;
  }

  lemma PublishedCopy(y: System, op: Op)
    requires Inv(y) && Enabled(y, op) && op.Replace? && op.a in Step(y, op).store.heap
    ensures y.store.heap[op.a].orig.Some?
  {
    hide Inv, Consistent;
  }

  /** What is barred from an id stays so until the address is handed out again. */
  lemma BarsStays(y: System, op: Op, o: Addr, id: NodeId)
    requires Inv(y) && Enabled(y, op) && !HandsOut(y, op, o) && Bars(y, o, id)
    ensures Bars(Step(y, op), o, id)
  {
    hide Inv, Enabled, Step, PhaseAt, Consistent;
    var y' := Step(y, op);
    PhaseMoves(y, op, o);
    InHeap(y, o);
    InHeap(y', o);
    if op.Insert? {
      InsertedNotOwned(y, op);
    }
    if op.Replace? && op.a in y'.store.heap {
      PublishedCopy(y, op);
    }
    if o in y'.store.heap {
      EntryStays(y, op, o);
    }
  }

  /** A copy is made with its original's birth on record. */
  lemma MadeSafe(y: System, op: Op, o: Addr)
    requires Inv(y) && Enabled(y, op) && (op.New? || op.Copy?) && HandsOut(y, op, op.a)
    ensures var y' := Step(y, op);
            op.a in y'.store.heap && (y'.store.heap[op.a].orig == Some(o) ==> SafeAt(y', op.a, o))
  {
    if op.Copy? {
      LiveEntry(y, op.id);
    }
    hide Inv, Consistent, Bars;
  }

  /** What has just been handed out, without misleading the copy, is barred from its id. */
  lemma MadeBarred(y: System, op: Op, c: Addr)
    requires Inv(y) && Enabled(y, op) && (op.New? || op.Copy?) && HandsOut(y, op, op.a)
    requires Careful(y, op) && Records(y, c, op.a)
    ensures Bars(Step(y, op), op.a, y.store.heap[c].nodeId)
  {
    MadeOwned(y, op);
    hide Inv, Consistent, Enabled, PhaseAt, Apply, Step;
  }

  lemma MadeOwned(y: System, op: Op)
    requires Inv(y) && Enabled(y, op) && (op.New? || op.Copy?) && HandsOut(y, op, op.a)
    ensures op.a in Step(y, op).store.heap && PhaseAt(Step(y, op), op.a).Owned?
    ensures Step(y, op).store.referenceTypes == y.store.referenceTypes
  {
    if op.Copy? {
      LiveEntry(y, op.id);
    }
  }

  lemma StaysSafe(y: System, op: Op, c: Addr, o: Addr)
    requires Inv(y) && Enabled(y, op) && Safe(y) && Careful(y, op) && !HandsOut(y, op, c) && Records(Step(y, op), c, o)
    ensures SafeAt(Step(y, op), c, o)
  {
    OwnedBefore(y, op, c);
    EntryStays(y, op, c);
    if op.Insert? {
      InsertedNotOwned(y, op);
    }
    BirthsStay(y, op, o);
    hide Inv, Enabled, Step, PhaseAt, Births, Bars;
    assert Records(y, c, o);
    var id := y.store.heap[c].nodeId;
    if HandsOut(y, op, o) {
      MadeBarred(y, op, c);
    } else if Bars(y, o, id) {
      BarsStays(y, op, o, id);
    }
  }

  lemma CarefulKeepsSafe(y: System, op: Op)
    requires Inv(y) && Enabled(y, op) && Safe(y) && Careful(y, op)
    ensures Safe(Step(y, op))
  {
    var y' := Step(y, op);
    hide Inv, Enabled, Step, PhaseAt, Births, Careful, SafeAt;
    forall c, o | Records(y', c, o) ensures SafeAt(y', c, o) {
      if HandsOut(y, op, c) {
        MadeSafe(y, op, o);
      } else {
        StaysSafe(y, op, c, o);
      }
    }
  }

  /** Then a successful replacement hits exactly the version that the copy was taken from, and takes it
      out of the store. */
  lemma ReplacementIsGenuine(y: System, op: Op, v: Version)
    requires Inv(y) && Enabled(y, op) && Safe(y) && ReplacesVersion(y, op, v)
    ensures PhaseOf(y, v).Live? && PhaseOf(Step(y, op), v).Rank() >= 3
  {
    var s, id := y.store, y.store.heap[op.a].nodeId;
    ReplacedIsCurrent(y, op, v);
    LiveEntry(y, id);
    RelistedPhases(y, op.a);
    var y1 := y.(store := s.(live := s.live[id := op.a]));
    assert Step(y, op) == y1.(store := Retired(y1.store, v.addr));
    hide Inv, Consistent, Safe, PhaseAt, Step, ReplacesVersion, Retired, Replaced;
    RetirePhases(y, y1, v.addr);
  }

  lemma ReplacedIsCurrent(y: System, op: Op, v: Version)
    requires Inv(y) && Enabled(y, op) && Safe(y) && ReplacesVersion(y, op, v)
    ensures var id := y.store.heap[op.a].nodeId;
            id in y.store.live && y.store.live[id] == v.addr && Births(y, v.addr) == v.birth
  {
    var id := y.store.heap[op.a].nodeId;
    DetachedIsOwned(y, op.a);
    LiveEntry(y, id);
    hide Inv, Consistent, PhaseAt, Births;
    assert Records(y, op.a, v.addr);
  }

  lemma {:induction false} NoneAfterRetirement(y: System, ops: seq<Op>, v: Version)
    requires Inv(y) && EnabledRun(y, ops) && Safe(y) && CarefulRun(y, ops) && PhaseOf(y, v).Rank() >= 3
    ensures Replacements(y, ops, v) == 0
    decreases |ops|
  {
    hide Inv, Step, PhaseOf, Safe, Careful, ReplacesVersion, Enabled;
    if ops != [] {
      StepSound(y, ops[0]);
      assert VersionMoves(y, ops[0], v, PhaseOf(y, v), PhaseOf(Step(y, ops[0]), v));
      MovesForward(y, ops[0], v, PhaseOf(y, v), PhaseOf(Step(y, ops[0]), v));
      CarefulKeepsSafe(y, ops[0]);
      NoneAfterRetirement(Step(y, ops[0]), ops[1..], v);
      if ReplacesVersion(y, ops[0], v) {
        ReplacementIsGenuine(y, ops[0], v);
        assert false;
      }
    }
  }

  /** When no operation misleads a copy, then of all the copies ever taken from one version, at most one
      replacement succeeds. */
  lemma {:induction false} AtMostOneReplacement(y: System, ops: seq<Op>, v: Version)
    requires Inv(y) && EnabledRun(y, ops) && Safe(y) && CarefulRun(y, ops)
    ensures Replacements(y, ops, v) <= 1
    decreases |ops|
  {
    hide Inv, Step, PhaseOf, Safe, Careful, ReplacesVersion, Enabled;
    if ops != [] {
      StepSound(y, ops[0]);
      CarefulKeepsSafe(y, ops[0]);
      if ReplacesVersion(y, ops[0], v) {
        ReplacementIsGenuine(y, ops[0], v);
        NoneAfterRetirement(Step(y, ops[0]), ops[1..], v);
      } else {
        AtMostOneReplacement(Step(y, ops[0]), ops[1..], v);
      }
    }
  }

  /** So it is for all runs from the start. */
  lemma StartsSafe()
    ensures Inv(EMPTY) && Safe(EMPTY)
  {
  }

  // ---------- the condition is exact ----------

  /** Every successful replacement of a run replaces the version its copy was taken from. */
  ghost predicate AllGenuine(y: System, ops: seq<Op>)
    requires Inv(y) && EnabledRun(y, ops)
    decreases |ops|
  {
    ops == [] ||
    ((forall v :: ReplacesVersion(y, ops[0], v) ==> PhaseOf(y, v).Live?)
     && (StepSound(y, ops[0]); AllGenuine(Step(y, ops[0]), ops[1..])))
  }

  lemma {:induction false} CarefulIsGenuine(y: System, ops: seq<Op>)
    requires Inv(y) && EnabledRun(y, ops) && Safe(y) && CarefulRun(y, ops)
    ensures AllGenuine(y, ops)
    decreases |ops|
  {
    hide Inv, Step, PhaseOf, Safe, Careful, ReplacesVersion, Enabled;
    if ops != [] {
      StepSound(y, ops[0]);
      CarefulKeepsSafe(y, ops[0]);
      CarefulIsGenuine(Step(y, ops[0]), ops[1..]);
      forall v | ReplacesVersion(y, ops[0], v) ensures PhaseOf(y, v).Live? {
        ReplacementIsGenuine(y, ops[0], v);
      }
    }
  }

  /** A run that begins with the operation, is careful from then on, and still has a replacement that
      hits a version from which its copy was not taken. */
  ghost predicate GoesWrong(y: System, op: Op, rest: seq<Op>)
    requires Inv(y) && Enabled(y, op)
  {
    StepSound(y, op);
    && EnabledRun(Step(y, op), rest) && CarefulRun(Step(y, op), rest)
    && !(AllGenuine(Step(y, op), rest) && forall v :: ReplacesVersion(y, op, v) ==> PhaseOf(y, v).Live?)
  }

  lemma RecordsHeap(y: System, a: Addr)
    ensures forall c :: Records(y, c, a) ==> c in y.store.heap
  {
  }

  /** An operation is safe, whatever careful operations follow, exactly when it misleads no copy: when no
      detached copy records the address it hands out under an id that the new entry can take. */
  lemma ReuseIsSafe(y: System, op: Op)
    requires Inv(y) && Safe(y) && Enabled(y, op)
    ensures Misleads(y, op) <==> exists rest :: GoesWrong(y, op, rest)
  {
    hide Inv, Safe, Step, Enabled, PhaseAt, Records;
    if Misleads(y, op) {
      RecordsHeap(y, op.a);
      var c :| Records(y, c, op.a) && MayBecome(y.store, Step(y, op).store.heap[op.a], y.store.heap[c].nodeId);
      ReuseMisleads(y, op, c);
    } else {
      forall rest ensures !GoesWrong(y, op, rest) {
        StepSound(y, op);
        if EnabledRun(Step(y, op), rest) && CarefulRun(Step(y, op), rest) {
          CarefulKeepsSafe(y, op);
          CarefulIsGenuine(Step(y, op), rest);
          forall v | ReplacesVersion(y, op, v) ensures PhaseOf(y, v).Live? {
            ReplacementIsGenuine(y, op, v);
          }
        }
      }
    }
  }

  /** The run is careful from its n-th operation on. */
  ghost predicate CarefulFrom(y: System, ops: seq<Op>, n: nat)
    requires Inv(y) && EnabledRun(y, ops) && n <= |ops|
    decreases |ops|
  {
    if n == 0 then CarefulRun(y, ops)
    else
      StepSound(y, ops[0]);
      CarefulFrom(Step(y, ops[0]), ops[1..], n - 1)
  }

  /** The run goes on carefully after some front part of the other, and goes wrong. */
  ghost predicate WrongAlong(y: System, ops: seq<Op>, run: seq<Op>, n: nat)
    requires Inv(y)
  {
    && n <= |ops| && n <= |run| && run[..n] == ops[..n] && EnabledRun(y, run) && CarefulFrom(y, run, n)
    && !AllGenuine(y, run)
  }

  /** At every point of a run, however it goes on carefully, all replacements are genuine, if and only if
      no operation of the run misleads a copy. */
  lemma {:induction false} GenuineExactly(y: System, ops: seq<Op>)
    requires Inv(y) && EnabledRun(y, ops) && Safe(y)
    ensures CarefulRun(y, ops) <==> forall run, n :: !WrongAlong(y, ops, run, n)
    decreases |ops|
  {
    hide Inv, Step, Enabled, Safe, Careful, AllGenuine;
    if CarefulRun(y, ops) {
      forall run, n ensures !WrongAlong(y, ops, run, n) {
        if WrongAlong(y, ops, run, n) {
          StillCareful(y, ops, run, n);
          CarefulIsGenuine(y, run);
        }
      }
    } else {
      var run, n := WrongSomewhere(y, ops);
    }
  }

  lemma {:induction false} StillCareful(y: System, ops: seq<Op>, run: seq<Op>, n: nat)
    requires Inv(y) && EnabledRun(y, ops) && CarefulRun(y, ops) && n <= |ops| && n <= |run| && run[..n] == ops[..n]
    requires EnabledRun(y, run) && CarefulFrom(y, run, n)
    ensures CarefulRun(y, run)
    decreases |ops|
  {
    hide Inv, Step, Enabled, Careful;
    if n > 0 {
      assert run[0] == run[..n][0] == ops[..n][0] == ops[0];
      assert run[1..][..n - 1] == run[..n][1..] && ops[1..][..n - 1] == ops[..n][1..];
      StepSound(y, ops[0]);
      StillCareful(Step(y, ops[0]), ops[1..], run[1..], n - 1);
    }
  }

  lemma {:induction false} WrongSomewhere(y: System, ops: seq<Op>) returns (run: seq<Op>, n: nat)
    requires Inv(y) && EnabledRun(y, ops) && Safe(y) && !CarefulRun(y, ops)
    ensures WrongAlong(y, ops, run, n)
    decreases |ops|
  {
    hide Inv, Step, Enabled, Safe, GoesWrong, ReplacesVersion, PhaseOf, Misleads;
    var op := ops[0];
    StepSound(y, op);
    var rest;
    if Careful(y, op) {
      CarefulKeepsSafe(y, op);
      rest, n := WrongSomewhere(Step(y, op), ops[1..]);
    } else {
      ReuseIsSafe(y, op);
      rest :| GoesWrong(y, op, rest);
      n := 0;
      WrongIsWrong(y, op, rest);
    }
    OneEarlier(y, ops, rest, n);
    run, n := [op] + rest, n + 1;
  }

  lemma OneEarlier(y: System, ops: seq<Op>, rest: seq<Op>, n: nat)
    requires Inv(y) && ops != [] && Enabled(y, ops[0]) && Inv(Step(y, ops[0]))
    requires n < |ops| && n <= |rest| && rest[..n] == ops[1..][..n]
    requires EnabledRun(Step(y, ops[0]), rest) && CarefulFrom(Step(y, ops[0]), rest, n)
    requires !(AllGenuine(Step(y, ops[0]), rest) && forall v :: ReplacesVersion(y, ops[0], v) ==> PhaseOf(y, v).Live?)
    ensures WrongAlong(y, ops, [ops[0]] + rest, n + 1)
  {
    hide Inv, Step, Enabled, ReplacesVersion, PhaseOf;
    var run := [ops[0]] + rest;
    assert run[0] == ops[0] && run[1..] == rest;
    assert run[..n + 1] == [ops[0]] + rest[..n] && ops[..n + 1] == [ops[0]] + ops[1..][..n];
  }

  lemma WrongIsWrong(y: System, op: Op, rest: seq<Op>)
    requires Inv(y) && Enabled(y, op) && GoesWrong(y, op, rest)
    ensures Inv(Step(y, op)) && EnabledRun(Step(y, op), rest) && CarefulRun(Step(y, op), rest)
    ensures !(AllGenuine(Step(y, op), rest) && forall v :: ReplacesVersion(y, op, v) ==> PhaseOf(y, v).Live?)
  {
    StepSound(y, op);
    hide Inv, Step, Enabled;
  }

  /** The copy records an address that has been handed out again since. */
  ghost predicate Outdated(y: System, a: Addr, c: Addr, id: NodeId) {
    && Inv(y) && a != c && c in y.store.heap && Detached(y.store, c)
    && y.store.heap[c].nodeId == id && y.store.heap[c].orig == Some(a)
    && c in y.origins && y.origins[c] < Births(y, a)
  }

  lemma OwnedIsDetached(y: System, c: Addr)
    requires Inv(y) && c in y.store.heap && PhaseAt(y, c).Owned?
    ensures Detached(y.store, c)
  {
  }

  /** What the misleading operation leaves. */
  lemma MadeAgain(y: System, op: Op, c: Addr)
    requires Inv(y) && Safe(y) && Enabled(y, op) && (op.New? || op.Copy?) && HandsOut(y, op, op.a) && Records(y, c, op.a)
    ensures var y' := Step(y, op);
            && Outdated(y', op.a, c, y.store.heap[c].nodeId) && Detached(y'.store, op.a)
            && y'.store.referenceTypes == y.store.referenceTypes && y'.store.heap[op.a].nodeId == op.id
            && (y'.store.heap[op.a].orig.Some? ==>
                  op.id in y'.store.live && y'.store.heap[op.a].orig == Some(y'.store.live[op.id]))
  {
    OwnedIsDetached(y, c);
    assert SafeAt(y, c, op.a);
    StepSound(y, op);
    if op.Copy? {
      LiveEntry(y, op.id);
    }
  }

  lemma RoomMade(y: System, a: Addr, c: Addr, id: NodeId)
    requires Outdated(y, a, c, id) && Detached(y.store, a)
    ensures var y' := Step(y, Remove(id));
            && Outdated(y', a, c, id) && Detached(y'.store, a) && id !in y'.store.live
            && y'.store.heap[a] == y.store.heap[a] && y'.store.referenceTypes == y.store.referenceTypes
  {
    StepSound(y, Remove(id));
    if id in y.store.live {
      LiveEntry(y, id);
    }
    hide Inv, Consistent;
  }

  lemma Republished(y: System, a: Addr, c: Addr, id: NodeId)
    requires Outdated(y, a, c, id) && Detached(y.store, a) && id !in y.store.live
    requires CanInsert(y.store, y.store.heap[a]) && Chosen(y.store, y.store.heap[a].nodeId, id)
    ensures var op := Insert(a, id);
            && Enabled(y, op)
            && Outdated(Step(y, op), a, c, id) && id in Step(y, op).store.live && Step(y, op).store.live[id] == a
  {
    StepSound(y, Insert(a, id));
    hide Inv, Consistent;
  }

  /** Or it takes its place as a replacement. */
  lemma Relisted(y: System, a: Addr, c: Addr, id: NodeId)
    requires Outdated(y, a, c, id) && Detached(y.store, a) && y.store.heap[a].nodeId == id
    requires id in y.store.live && y.store.heap[a].orig == Some(y.store.live[id])
    ensures var op := Replace(a);
            && Enabled(y, op)
            && Outdated(Step(y, op), a, c, id) && id in Step(y, op).store.live && Step(y, op).store.live[id] == a
  {
    StepSound(y, Replace(a));
    LiveEntry(y, id);
    ReplacedStore(y, a, c, id);
    hide Inv, Consistent, PhaseAt, Step, Enabled;
    var z := Step(y, Replace(a));
    assert Inv(z) && Detached(z.store, c) && z.origins[c] < Births(z, a);
    assert Outdated(z, a, c, id);
  }

  lemma ReplacedStore(y: System, a: Addr, c: Addr, id: NodeId)
    requires Inv(y) && Detached(y.store, a) && y.store.heap[a].nodeId == id && a != c && Detached(y.store, c)
    requires id in y.store.live && y.store.heap[a].orig == Some(y.store.live[id])
    ensures var op := Replace(a);
            && Enabled(y, op) && Step(y, op).store.live == y.store.live[id := a]
            && c in Step(y, op).store.heap && Step(y, op).store.heap[c] == y.store.heap[c]
            && Step(y, op).births == y.births && Step(y, op).origins == y.origins
  {
    LiveEntry(y, id);
    DetachedNotLive(y, c, id);
    hide Inv, Consistent;
  }

  lemma DetachedNotLive(y: System, c: Addr, id: NodeId)
    requires Inv(y) && Detached(y.store, c) && id in y.store.live
    ensures y.store.live[id] != c
  {
  }

  lemma Misled(y: System, a: Addr, c: Addr, id: NodeId)
    requires Outdated(y, a, c, id) && id in y.store.live && y.store.live[id] == a
    ensures EnabledRun(y, [Replace(c)]) && CarefulRun(y, [Replace(c)]) && !AllGenuine(y, [Replace(c)])
  {
    var v := Version(a, y.origins[c]);
    assert ReplacesVersion(y, Replace(c), v) && !PhaseOf(y, v).Live?;
    StepSound(y, Replace(c));
    hide Inv, Consistent, Step, ReplacesVersion, PhaseOf;
  }

  /** A run that goes wrong also does so after another first step. */
  lemma Before(y: System, op: Op, ops: seq<Op>)
    requires Inv(y) && Enabled(y, op) && (op.Remove? || op.Insert? || op.Replace?)
    requires Inv(Step(y, op)) && EnabledRun(Step(y, op), ops) && CarefulRun(Step(y, op), ops)
    requires !AllGenuine(Step(y, op), ops)
    ensures EnabledRun(y, [op] + ops) && !AllGenuine(y, [op] + ops) && CarefulRun(y, [op] + ops)
  {
    hide Inv, Step, Enabled, ReplacesVersion, PhaseOf;
    assert ([op] + ops)[0] == op && ([op] + ops)[1..] == ops;
  }

  lemma ReuseMisleads(y: System, op: Op, c: Addr)
    requires Inv(y) && Safe(y) && Enabled(y, op) && (op.New? || op.Copy?) && HandsOut(y, op, op.a)
    requires Records(y, c, op.a) && op.a in Step(y, op).store.heap
    requires MayBecome(y.store, Step(y, op).store.heap[op.a], y.store.heap[c].nodeId)
    ensures exists rest :: GoesWrong(y, op, rest)
  {
    var id, y' := y.store.heap[c].nodeId, Step(y, op);
    MadeAgain(y, op, c);
    SameReferenceTypes(y.store, y'.store, y'.store.heap[op.a], id);
    hide *;
    var rest := OnceMade(y', op.id, op.a, c, id);
    WrongAfter(y, op, rest);
  }

  lemma OnceMade(y: System, own: NodeId, a: Addr, c: Addr, id: NodeId) returns (rest: seq<Op>)
    requires Outdated(y, a, c, id) && Detached(y.store, a) && MayBecome(y.store, y.store.heap[a], id)
    requires y.store.heap[a].nodeId == own
    requires y.store.heap[a].orig.Some? ==> own in y.store.live && y.store.heap[a].orig == Some(y.store.live[own])
    ensures Inv(y) && EnabledRun(y, rest) && CarefulRun(y, rest) && !AllGenuine(y, rest)
  {
    if CanInsert(y.store, y.store.heap[a]) {
      rest := [Remove(id)] + ([Insert(a, id)] + [Replace(c)]);
      hide *;
      ThroughInsertion(y, a, c, id);
    } else {
      rest := [Replace(a)] + [Replace(c)];
      OnlyByReplacing(y.store, y.store.heap[a], id);
      hide *;
      ThroughReplacement(y, a, c, id);
    }
  }

  lemma SameReferenceTypes(s: Store, s': Store, e: Entry, id: NodeId)
    requires s'.referenceTypes == s.referenceTypes
    ensures CanInsert(s', e) == CanInsert(s, e) && MayBecome(s', e, id) == MayBecome(s, e, id)
  {
  }

  lemma OnlyByReplacing(s: Store, e: Entry, id: NodeId)
    requires MayBecome(s, e, id) && !CanInsert(s, e)
    ensures id == e.nodeId && e.orig.Some?
  {
  }

  lemma WrongAfter(y: System, op: Op, rest: seq<Op>)
    requires Inv(y) && Enabled(y, op) && Inv(Step(y, op)) && EnabledRun(Step(y, op), rest)
    requires CarefulRun(Step(y, op), rest) && !AllGenuine(Step(y, op), rest)
    ensures GoesWrong(y, op, rest)
  {
    StepSound(y, op);
    hide Inv, Step, Enabled, CarefulRun, AllGenuine, EnabledRun;
  }

  lemma ThroughInsertion(y: System, a: Addr, c: Addr, id: NodeId)
    requires Outdated(y, a, c, id) && Detached(y.store, a) && CanInsert(y.store, y.store.heap[a])
    requires MayBecome(y.store, y.store.heap[a], id)
    ensures var ops := [Remove(id)] + ([Insert(a, id)] + [Replace(c)]);
            Inv(y) && EnabledRun(y, ops) && CarefulRun(y, ops) && !AllGenuine(y, ops)
  {
    RoomMade(y, a, c, id);
    var y' := Step(y, Remove(id));
    Republished(y', a, c, id);
    OutdatedInv(y, a, c, id);
    OutdatedInv(y', a, c, id);
    OutdatedInv(Step(y', Insert(a, id)), a, c, id);
    RemoveEnabled(y, id);
    hide Inv, Step, Enabled, PhaseAt, CarefulRun, AllGenuine, EnabledRun, Outdated;
    Misled(Step(y', Insert(a, id)), a, c, id);
    Before(y', Insert(a, id), [Replace(c)]);
    Before(y, Remove(id), [Insert(a, id)] + [Replace(c)]);
  }

  lemma ThroughReplacement(y: System, a: Addr, c: Addr, id: NodeId)
    requires Outdated(y, a, c, id) && Detached(y.store, a) && y.store.heap[a].nodeId == id
    requires id in y.store.live && y.store.heap[a].orig == Some(y.store.live[id])
    ensures var ops := [Replace(a)] + [Replace(c)];
            Inv(y) && EnabledRun(y, ops) && CarefulRun(y, ops) && !AllGenuine(y, ops)
  {
    Relisted(y, a, c, id);
    OutdatedInv(y, a, c, id);
    OutdatedInv(Step(y, Replace(a)), a, c, id);
    hide Inv, Step, Enabled, PhaseAt, CarefulRun, AllGenuine, EnabledRun, Outdated;
    Misled(Step(y, Replace(a)), a, c, id);
    Before(y, Replace(a), [Replace(c)]);
  }

  lemma OutdatedInv(y: System, a: Addr, c: Addr, id: NodeId)
    requires Outdated(y, a, c, id)
    ensures Inv(y)
  {
  }

  lemma RemoveEnabled(y: System, id: NodeId)
    ensures Enabled(y, Remove(id))
  {
  }

  // ---------- a run that is not careful ----------

  const NODE := Numeric(1, 1)

  function Node(orig: Option<Addr>): Entry {
    Entry(NODE, 0, false, 0, orig, 0, false)
  }

  /** The states of the run below, which are all about one node. */
  function Only(live: Addr, heap: map<Addr, Entry>, births: map<Addr, nat>, origins: map<Addr, nat>): System {
    System(Store(map[NODE := live], heap, []), multiset{}, births, origins)
  }

  function Fresh(): System {
    System(Store(map[], map[10 := Node(None)], []), multiset{}, map[10 := 1], map[])
  }

  function Listed(): System {
    Only(10, map[10 := Node(None)], map[10 := 1], map[])
  }

  function CopiedOnce(): System {
    Only(10, map[10 := Node(None), 11 := Node(Some(10))], map[10 := 1, 11 := 1], map[11 := 1])
  }

  function CopiedTwice(): System {
    Only(10, map[10 := Node(None), 11 := Node(Some(10)), 12 := Node(Some(10))],
         map[10 := 1, 11 := 1, 12 := 1], map[11 := 1, 12 := 1])
  }

  function ReplacedOnce(): System {
    Only(11, map[11 := Node(Some(10)), 12 := Node(Some(10))],
         map[10 := 1, 11 := 1, 12 := 1], map[11 := 1, 12 := 1])
  }

  function Reused(): System {
    Only(11, map[10 := Node(Some(11)), 11 := Node(Some(10)), 12 := Node(Some(10))],
         map[10 := 2, 11 := 1, 12 := 1], map[10 := 1, 11 := 1, 12 := 1])
  }

  function ReplacedTwice(): System {
    Only(10, map[10 := Node(Some(11)), 12 := Node(Some(10))],
         map[10 := 2, 11 := 1, 12 := 1], map[10 := 1, 11 := 1, 12 := 1])
  }

  function ReplacedAgain(): System {
    Only(12, map[12 := Node(Some(10))], map[10 := 2, 11 := 1, 12 := 1], map[10 := 1, 11 := 1, 12 := 1])
  }

  /** The operation leads from the one state to the other. */
  ghost predicate Leads(y: System, op: Op, y': System) {
    Inv(y) && Enabled(y, op) && Step(y, op) == y'
  }

  lemma OnlyReplaces(y: System, c: Addr, live: Addr)
    requires Inv(y) && NODE in y.store.live && y.store.live[NODE] == live && live in y.store.heap
    requires c != live && Detached(y.store, c) && y.store.heap[c].nodeId == NODE
    requires y.store.heap[c].orig == Some(live) && y.store.heap[live].refCount == 0
    ensures Leads(y, Replace(c), y.(store := Store(y.store.live[NODE := c], y.store.heap - {live}, y.store.referenceTypes)))
    ensures c in y.origins ==> ReplacesVersion(y, Replace(c), Version(live, y.origins[c]))
  {
    assert Consistent(y.store);
    hide Inv, Consistent;
  }

  lemma Creates()
    ensures Leads(EMPTY, New(10, NODE, 0, false), Fresh())
  {
    assert Fresh().origins == map[] - {10};
  }

  lemma Lists()
    ensures Inv(Fresh()) ==> Leads(Fresh(), Insert(10, NODE), Listed())
  {
    hide Inv, Consistent;
  }

  lemma CopiesOnce()
    ensures Inv(Listed()) ==> Leads(Listed(), Copy(NODE, 11), CopiedOnce())
  {
    hide Inv, Consistent;
  }

  lemma CopiesAgain()
    ensures Inv(CopiedOnce()) ==> Leads(CopiedOnce(), Copy(NODE, 12), CopiedTwice())
  {
    hide Inv, Consistent;
  }

  lemma ReplacesOnce()
    ensures Inv(CopiedTwice()) ==> Leads(CopiedTwice(), Replace(11), ReplacedOnce())
    ensures Inv(CopiedTwice()) ==> ReplacesVersion(CopiedTwice(), Replace(11), Version(10, 1))
  {
    hide Inv, Consistent;
    if Inv(CopiedTwice()) {
      OnlyReplaces(CopiedTwice(), 11, 10);
    }
  }

  lemma Reuses()
    ensures Inv(ReplacedOnce()) ==> Leads(ReplacedOnce(), Copy(NODE, 10), Reused())
  {
    hide Inv, Consistent;
  }

  lemma ReplacesTwice()
    ensures Inv(Reused()) ==> Leads(Reused(), Replace(10), ReplacedTwice())
  {
    hide Inv, Consistent;
    if Inv(Reused()) {
      OnlyReplaces(Reused(), 10, 11);
    }
  }

  lemma ReplacesAgain()
    ensures Inv(ReplacedTwice()) ==> Leads(ReplacedTwice(), Replace(12), ReplacedAgain())
    ensures Inv(ReplacedTwice()) ==> ReplacesVersion(ReplacedTwice(), Replace(12), Version(10, 1))
  {
    hide Inv, Consistent;
    if Inv(ReplacedTwice()) {
      OnlyReplaces(ReplacedTwice(), 12, 10);
    }
  }

  lemma LeadsSound(y: System, op: Op, y': System)
    requires Leads(y, op, y')
    ensures Inv(y')
  {
    StepSound(y, op);
  }

  lemma CopiesLead()
    ensures Leads(EMPTY, New(10, NODE, 0, false), Fresh()) && Leads(Fresh(), Insert(10, NODE), Listed())
    ensures Leads(Listed(), Copy(NODE, 11), CopiedOnce()) && Leads(CopiedOnce(), Copy(NODE, 12), CopiedTwice())
    ensures Inv(CopiedTwice())
  {
    hide Leads, Inv;
    Creates();
    LeadsSound(EMPTY, New(10, NODE, 0, false), Fresh());
    Lists();
    LeadsSound(Fresh(), Insert(10, NODE), Listed());
    CopiesOnce();
    LeadsSound(Listed(), Copy(NODE, 11), CopiedOnce());
    CopiesAgain();
    LeadsSound(CopiedOnce(), Copy(NODE, 12), CopiedTwice());
  }

  lemma ReplacementsLead()
    ensures Leads(CopiedTwice(), Replace(11), ReplacedOnce()) && Leads(ReplacedOnce(), Copy(NODE, 10), Reused())
    ensures Leads(Reused(), Replace(10), ReplacedTwice()) && Leads(ReplacedTwice(), Replace(12), ReplacedAgain())
    ensures ReplacesVersion(CopiedTwice(), Replace(11), Version(10, 1))
    ensures ReplacesVersion(ReplacedTwice(), Replace(12), Version(10, 1))
  {
    hide Leads, Inv, ReplacesVersion;
    CopiesLead();
    ReplacesOnce();
    LeadsSound(CopiedTwice(), Replace(11), ReplacedOnce());
    Reuses();
    LeadsSound(ReplacedOnce(), Copy(NODE, 10), Reused());
    ReplacesTwice();
    LeadsSound(Reused(), Replace(10), ReplacedTwice());
    ReplacesAgain();
  }

  lemma Leading(y: System, op: Op, y': System, ops: seq<Op>, v: Version)
    requires Leads(y, op, y') && (Inv(y') ==> EnabledRun(y', ops))
    ensures Inv(y) && Inv(y') && EnabledRun(y', ops) && EnabledRun(y, [op] + ops)
    ensures Replacements(y, [op] + ops, v) == Replacements(y', ops, v) + if ReplacesVersion(y, op, v) then 1 else 0
  {
    StepSound(y, op);
    hide Inv, Step, Enabled, ReplacesVersion;
    assert ([op] + ops)[0] == op && ([op] + ops)[1..] == ops;
  }

  function LastFour(): seq<Op> {
    [Replace(11)] + ([Copy(NODE, 10)] + ([Replace(10)] + ([Replace(12)] + [])))
  }

  lemma TwoAtLast()
    ensures Inv(CopiedTwice()) && EnabledRun(CopiedTwice(), LastFour())
    ensures Replacements(CopiedTwice(), LastFour(), Version(10, 1)) == 2
  {
    var v, tail1 := Version(10, 1), [Replace(12)] + [];
    var tail2 := [Replace(10)] + tail1;
    ReplacementsLead();
    OtherVersion();
    hide Leads, Inv, ReplacesVersion, EnabledRun, Replacements, Enabled, Step;
    EmptyRun(ReplacedAgain(), v);
    Leading(ReplacedTwice(), Replace(12), ReplacedAgain(), [], v);
    Leading(Reused(), Replace(10), ReplacedTwice(), tail1, v);
    Leading(ReplacedOnce(), Copy(NODE, 10), Reused(), tail2, v);
    NoReplacement(ReplacedOnce(), Copy(NODE, 10), v);
    Leading(CopiedTwice(), Replace(11), ReplacedOnce(), [Copy(NODE, 10)] + tail2, v);
  }

  lemma OtherVersion()
    ensures !ReplacesVersion(Reused(), Replace(10), Version(10, 1))
  {
    assert Reused().store.heap[10].orig == Some(11);
  }

  lemma EmptyRun(y: System, v: Version)
    ensures Inv(y) ==> EnabledRun(y, []) && Replacements(y, [], v) == 0
  {
  }

  lemma NoReplacement(y: System, op: Op, v: Version)
    requires !op.Replace?
    ensures !ReplacesVersion(y, op, v)
  {
  }

  /** Two copies of one version both replace, when the address of the first version is handed out
      again to a copy of its successor before the second of them does. */
  lemma TwoSucceed()
    ensures var ops := [New(10, NODE, 0, false), Insert(10, NODE), Copy(NODE, 11), Copy(NODE, 12), Replace(11),
                        Copy(NODE, 10), Replace(10), Replace(12)];
            Inv(EMPTY) && EnabledRun(EMPTY, ops) && Replacements(EMPTY, ops, Version(10, 1)) == 2
  {
    var v, make, insert := Version(10, 1), New(10, NODE, 0, false), Insert(10, NODE);
    var copy1, copy2 := Copy(NODE, 11), Copy(NODE, 12);
    var tail1 := [copy2] + LastFour();
    var tail2 := [copy1] + tail1;
    TwoAtLast();
    CopiesLead();
    hide Leads, Inv, ReplacesVersion, EnabledRun, Replacements, Enabled, Step, LastFour;
    Leading(CopiedOnce(), copy2, CopiedTwice(), LastFour(), v);
    NoReplacement(CopiedOnce(), copy2, v);
    Leading(Listed(), copy1, CopiedOnce(), tail1, v);
    NoReplacement(Listed(), copy1, v);
    Leading(Fresh(), insert, Listed(), tail2, v);
    NoReplacement(Fresh(), insert, v);
    Leading(EMPTY, make, Fresh(), [insert] + tail2, v);
    NoReplacement(EMPTY, make, v);
    AllEight();
  }

  lemma AllEight()
    ensures [New(10, NODE, 0, false)] + ([Insert(10, NODE)] + ([Copy(NODE, 11)] + ([Copy(NODE, 12)] + LastFour()))) ==
            [New(10, NODE, 0, false), Insert(10, NODE), Copy(NODE, 11), Copy(NODE, 12), Replace(11),
             Copy(NODE, 10), Replace(10), Replace(12)]
  {
  }
}

/** The node store both implementations have to be: a map from node ids to versions of nodes, with
    reference counts on the versions and replacement only of the version a copy was taken from.

    An entry is one version of a node; its address is its identity. The heap holds the entries
    that have not been freed. */
module NodeStore {
  import opened Options

  type Addr = nat

  datatype NodeId = Numeric(ns: nat, value: nat) | Other(ns: nat, kind: nat, identifier: seq<nat>)

  datatype Entry = Entry(nodeId: NodeId, content: nat, isReferenceType: bool, referenceTypeIndex: nat,
                         orig: Option<Addr>, refCount: nat, deleted: bool)

  datatype Store = Store(live: map<NodeId, Addr>, heap: map<Addr, Entry>, referenceTypes: seq<NodeId>)

  datatype Status = Good | BadNodeIdUnknown | BadNodeIdExists | BadInternalError

  /** Reference counts are 16 bits wide. */
  const COUNT_LIMIT := 65536

  const REFERENCETYPESET_MAX := 128

  // ---------- the operations ----------

  function Free(s: Store, a: Addr): Store {
    s.(heap := s.heap - {a})
  }

  /** An entry without holders is freed once it has been marked as deleted. */
  function Cleanup(s: Store, a: Addr): Store
    requires a in s.heap
  {
    if s.heap[a].refCount == 0 && s.heap[a].deleted then Free(s, a) else s
  }

  function Created(s: Store, a: Addr, id: NodeId, content: nat, isReferenceType: bool): Store {
    s.(heap := s.heap[a := Entry(id, content, isReferenceType, 0, None, 0, false)])
  }

  function Edited(s: Store, a: Addr, content: nat): Store
    requires a in s.heap
  {
    s.(heap := s.heap[a := s.heap[a].(content := content)])
  }

  function Held(s: Store, a: Addr): Store
    requires a in s.heap
  {
    s.(heap := s.heap[a := s.heap[a].(refCount := (s.heap[a].refCount + 1) % COUNT_LIMIT)])
  }

  function Got(s: Store, id: NodeId): (Store, Option<Addr>)
    requires Consistent(s)
  {
    if id !in s.live then (s, None) else (Held(s, s.live[id]), Some(s.live[id]))
  }

  function Released(s: Store, a: Addr): Store
    requires a in s.heap && s.heap[a].refCount > 0
  {
    Cleanup(s.(heap := s.heap[a := s.heap[a].(refCount := s.heap[a].refCount - 1)]), a)
  }

  function Copied(s: Store, id: NodeId, a: Addr): (Store, Status)
    requires Consistent(s)
  {
    if id !in s.live then (s, BadNodeIdUnknown)
    else
      var e := s.heap[s.live[id]];
      (s.(heap := s.heap[a := e.(orig := Some(s.live[id]), refCount := 0, deleted := false)]), Good)
  }

  /** Insertion picks the identifier of a node that comes with the numeric identifier zero. */
  predicate WantsId(id: NodeId) {
    id.Numeric? && id.value == 0
  }

  /** A node is inserted under its own id, or under one not in use when it came without. */
  predicate Chosen(s: Store, own: NodeId, id: NodeId) {
    if WantsId(own) then id.Numeric? && id.ns == own.ns && id !in s.live else id == own
  }

  function Named(s: Store, a: Addr, id: NodeId): Store
    requires a in s.heap
  {
    s.(heap := s.heap[a := s.heap[a].(nodeId := id)])
  }

  /** A failing insertion deletes the node. New reference types get the next index. */
  function Inserted(s: Store, a: Addr): (Store, Status)
    requires a in s.heap
  {
    var e := s.heap[a];
    if e.nodeId in s.live then (Free(s, a), BadNodeIdExists)
    else if e.isReferenceType && |s.referenceTypes| >= REFERENCETYPESET_MAX then (Free(s, a), BadInternalError)
    else (Published(s, a), Good)
  }

  function Published(s: Store, a: Addr): Store
    requires a in s.heap
  {
    var e := s.heap[a];
    Store(s.live[e.nodeId := a],
          s.heap[a := if e.isReferenceType then e.(referenceTypeIndex := |s.referenceTypes|) else e],
          if e.isReferenceType then s.referenceTypes + [e.nodeId] else s.referenceTypes)
  }

  function Retired(s: Store, a: Addr): Store
    requires a in s.heap
  {
    Cleanup(s.(heap := s.heap[a := s.heap[a].(deleted := true)]), a)
  }

  /** Only the version the copy was taken from can be replaced; a failing replacement deletes the copy. */
  function Replaced(s: Store, a: Addr): (Store, Status)
    requires Consistent(s) && a in s.heap
  {
    var e := s.heap[a];
    if e.nodeId !in s.live then (Free(s, a), BadNodeIdUnknown)
    else if e.orig != Some(s.live[e.nodeId]) then (Free(s, a), BadInternalError)
    else (Retired(s.(live := s.live[e.nodeId := a]), s.live[e.nodeId]), Good)
  }

  function Removed(s: Store, id: NodeId): (Store, Status)
    requires Consistent(s)
  {
    if id !in s.live then (s, BadNodeIdUnknown)
    else (Retired(s.(live := s.live - {id}), s.live[id]), Good)
  }

  ghost predicate Consistent(s: Store) {
    forall id :: id in s.live ==>
      s.live[id] in s.heap && s.heap[s.live[id]].nodeId == id && !s.heap[s.live[id]].deleted
  }

  /** A version still owned by whoever made it: neither published nor retired nor held. */
  predicate Detached(s: Store, a: Addr) {
    && a in s.heap && !s.heap[a].deleted && s.heap[a].refCount == 0
    && !(s.heap[a].nodeId in s.live && s.live[s.heap[a].nodeId] == a)
  }
}

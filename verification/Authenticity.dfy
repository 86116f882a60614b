/** What a secured channel is for: in the signing modes nothing gets through that was not verified.
    Everything here is said of the bytes of the chunk as they came in. */
module Authenticity {
  import opened Words
  import opened Wire
  import opened ChunkCrypto
  import opened SecureChannel
  import opened StreamCuts
  import SequenceNumbers

  /** The bytes of a chunk in the clear: sixteen that are never encrypted, and the rest. */
  ghost predicate InClear(c: Suite, mode: SecurityMode, keys: nat, chunk: FullChunk, plain: Bytes) {
    if mode == ModeSignAndEncrypt then
      c.decrypt(keys, chunk[16..]).Some? && plain == chunk[..16] + c.decrypt(keys, chunk[16..]).value
    else plain == chunk
  }

  /** How many bytes in front of the signature are padding: as many as the last of them says, itself
      included; with keys of more than 2048 bits the last two say it. */
  ghost predicate PaddedBy(c: Suite, mode: SecurityMode, plain: Bytes, padding: nat)
    requires c.signatureSize + 2 <= |plain|
  {
    var end := |plain| - c.signatureSize;
    padding == if mode != ModeSignAndEncrypt then 0
               else if c.extraPadding then (plain[end - 1] as nat) * 256 + plain[end - 2] as nat + 2
               else plain[end - 1] as nat + 1
  }

  /** The signature at the end is good for everything before it. */
  ghost predicate SignedBy(c: Suite, keys: nat, plain: Bytes)
    requires c.signatureSize <= |plain|
  {
    c.verify(keys, plain[..|plain| - c.signatureSize], plain[|plain| - c.signatureSize..])
  }

  /** The chunk opens under the keys to a sequence number, a request id and a body. */
  ghost predicate OpensTo(c: Suite, mode: SecurityMode, keys: nat, chunk: FullChunk, number: UInt32, requestId: UInt32,
                          body: Bytes)
  {
    exists plain, padding: nat :: OpensAs(c, mode, keys, chunk, plain, padding, number, requestId, body)
  }

  ghost predicate OpensAs(c: Suite, mode: SecurityMode, keys: nat, chunk: FullChunk, plain: Bytes, padding: nat,
                          number: UInt32, requestId: UInt32, body: Bytes)
  {
    && InClear(c, mode, keys, chunk, plain) && |plain| >= 24
    && number == DecodeU32(plain, 16) && requestId == DecodeU32(plain, 20)
    && if mode == ModeNone then body == plain[24..]
       else
         && c.signatureSize + padding + 26 <= |plain| && PaddedBy(c, mode, plain, padding) && SignedBy(c, keys, plain)
         && body == plain[24..|plain| - c.signatureSize - padding]
  }

  /** The channel id, the token and its lifetime are right; the state behind this check is core1. */
  ghost predicate HeadersPass(env: Env, core: Core, chunk: FullChunk, core1: Core) {
    && core.hasPolicy && DecodeU32(chunk, 8) == core.securityToken.channelId
    && CheckSymHeader(core, DecodeU32(chunk, 12), env.now) == (core1, Good)
  }

  /** The bytes behind decryption, verification and the removal of signature and padding. */
  ghost predicate Content(c: Suite, mode: SecurityMode, keys: nat, chunk: FullChunk, content: Bytes) {
    DecryptAndVerify(c, mode, keys, chunk) == (Good, content) && |content| >= 24
  }

  lemma OpensExactly(c: Suite, mode: SecurityMode, keys: nat, chunk: FullChunk, number: UInt32, requestId: UInt32,
                     body: Bytes)
    ensures OpensTo(c, mode, keys, chunk, number, requestId, body)
            <==> exists content :: Content(c, mode, keys, chunk, content) && number == DecodeU32(content, 16)
                                   && requestId == DecodeU32(content, 20) && body == content[24..]
  {
    hide DecodeU32;
    if OpensTo(c, mode, keys, chunk, number, requestId, body) {
      var plain, padding: nat :| OpensAs(c, mode, keys, chunk, plain, padding, number, requestId, body);
      var content := Forwards(c, mode, keys, chunk, plain, padding, number, requestId, body);
    }
    if content :| Content(c, mode, keys, chunk, content) && number == DecodeU32(content, 16)
                  && requestId == DecodeU32(content, 20) && body == content[24..] {
      Backwards(c, mode, keys, chunk, content);
    }
  }

  lemma SameHeader(plain: Bytes, n: nat)
    requires 24 <= n <= |plain|
    ensures DecodeU32(plain[..n], 16) == DecodeU32(plain, 16) && DecodeU32(plain[..n], 20) == DecodeU32(plain, 20)
    ensures plain[..n][24..] == plain[24..n]
  {
  }

  lemma WholeChunk(chunk: FullChunk)
    ensures chunk[..16] + chunk[16..] == chunk
  {
  }

  lemma Forwards(c: Suite, mode: SecurityMode, keys: nat, chunk: FullChunk, plain: Bytes, padding: nat, number: UInt32,
                 requestId: UInt32, body: Bytes)
    returns (content: Bytes)
    requires OpensAs(c, mode, keys, chunk, plain, padding, number, requestId, body)
    ensures Content(c, mode, keys, chunk, content) && number == DecodeU32(content, 16)
    ensures requestId == DecodeU32(content, 20) && body == content[24..]
  {
    hide DecodeU32;
    WholeChunk(chunk);
    var end := if mode == ModeNone then |plain| else |plain| - c.signatureSize - padding;
    SameHeader(plain, end);
    content := plain[..end];
    assert plain[..|plain|] == plain;
  }

  lemma Backwards(c: Suite, mode: SecurityMode, keys: nat, chunk: FullChunk, content: Bytes)
    requires Content(c, mode, keys, chunk, content)
    ensures OpensTo(c, mode, keys, chunk, DecodeU32(content, 16), DecodeU32(content, 20), content[24..])
  {
    hide DecodeU32;
    WholeChunk(chunk);
    var plain := if mode == ModeSignAndEncrypt then chunk[..16] + c.decrypt(keys, chunk[16..]).value else chunk;
    var padding := if mode == ModeSignAndEncrypt then DecodePadding(c, plain) else 0;
    SameHeader(plain, |content|);
    assert OpensAs(c, mode, keys, chunk, plain, padding, DecodeU32(content, 16), DecodeU32(content, 20), content[24..]);
  }

  /** A chunk is accepted if and only if it passes the header checks, opens under the keys then in use,
      signature included, and carries an acceptable number. */
  lemma AcceptedExactly(env: Env, core: Core, chunk: FullChunk, u: Unpacked)
    ensures UnpackMSG(env, core, chunk) == u && u.status.Good?
            <==> exists core1, number ::
              && HeadersPass(env, core, chunk, core1)
              && OpensTo(env.suite, core1.securityMode, core1.remoteKeys, chunk, number, u.requestId, u.body)
              && SequenceNumbers.Accepts(core1.receiveSequenceNumber, number)
              && u == Unpacked(core1.(receiveSequenceNumber := number), Good, u.requestId, u.body)
  {
    hide DecodeU32, DecryptAndVerify, CheckSymHeader, OpensTo;
    var (core1, st) := CheckSymHeader(core, DecodeU32(chunk, 12), env.now);
    var (_, content) := DecryptAndVerify(env.suite, core1.securityMode, core1.remoteKeys, chunk);
    forall number { OpensExactly(env.suite, core1.securityMode, core1.remoteKeys, chunk, number, u.requestId, u.body); }
    if UnpackMSG(env, core, chunk) == u && u.status.Good? {
      assert Content(env.suite, core1.securityMode, core1.remoteKeys, chunk, content);
      var number := DecodeU32(content, 16);
      assert HeadersPass(env, core, chunk, core1);
      assert OpensTo(env.suite, core1.securityMode, core1.remoteKeys, chunk, number, u.requestId, u.body);
    }
  }

  // ---------- whole messages ----------

  predicate Secured(m: MessageType) {
    m == MSG || m == CLO
  }

  /** As long as the channel has a policy, its mode is this one and its keys are among these. */
  ghost predicate Within(core: Core, mode: SecurityMode, keys: set<nat>) {
    core.hasPolicy ==> core.securityMode == mode && core.remoteKeys in keys && core.nonces in keys
  }

  /** The application and the handling of open requests and responses keep to that, too. The keys are
      all those that are ever negotiated with the other side. */
  ghost predicate KeepsWithin(env: Env, mode: SecurityMode, keys: set<nat>) {
    && (forall core, m :: Within(core, mode, keys) ==> Within(env.callback(core, m).0, mode, keys))
    && (forall core, chunk :: Within(core, mode, keys) ==> Within(env.unpackOPN(core, chunk).core, mode, keys))
  }

  /** Some chunk of the pool opens to the body, which includes that its signature was good. */
  ghost predicate Verified(c: Suite, mode: SecurityMode, keys: set<nat>, pool: seq<RawChunk>, m: MessageType,
                           requestId: UInt32, body: Bytes)
  {
    exists i, k, number :: 0 <= i < |pool| && pool[i].messageType == m && k in keys
                           && OpensTo(c, mode, k, pool[i].bytes, number, requestId, body)
  }

  ghost predicate AllVerified(c: Suite, mode: SecurityMode, keys: set<nat>, pool: seq<RawChunk>, q: seq<Chunk>) {
    forall i :: 0 <= i < |q| && Secured(q[i].messageType) ==>
      Verified(c, mode, keys, pool, q[i].messageType, q[i].requestId, q[i].bytes)
  }

  /** The payload is put together from nothing but such bodies. */
  ghost predicate MessageVerified(c: Suite, mode: SecurityMode, keys: set<nat>, pool: seq<RawChunk>, m: Message) {
    exists parts: seq<Bytes> :: parts != [] && m.payload == Joined(parts)
                                && forall j :: 0 <= j < |parts| ==>
                                     Verified(c, mode, keys, pool, m.messageType, m.requestId, parts[j])
  }

  ghost predicate AllMessagesVerified(c: Suite, mode: SecurityMode, keys: set<nat>, pool: seq<RawChunk>, ms: seq<Message>) {
    forall i :: 0 <= i < |ms| && Secured(ms[i].messageType) ==> MessageVerified(c, mode, keys, pool, ms[i])
  }

  lemma HeaderWithin(core: Core, tokenId: UInt32, now: int, mode: SecurityMode, keys: set<nat>)
    requires Within(core, mode, keys)
    ensures Within(CheckSymHeader(core, tokenId, now).0, mode, keys)
  {
  }

  lemma MorePool(c: Suite, mode: SecurityMode, keys: set<nat>, pool: seq<RawChunk>, more: seq<RawChunk>, m: MessageType,
                 requestId: UInt32, body: Bytes)
    requires Verified(c, mode, keys, pool, m, requestId, body)
    ensures Verified(c, mode, keys, pool + more, m, requestId, body)
  {
    var i, k, number :| 0 <= i < |pool| && pool[i].messageType == m && k in keys
                        && OpensTo(c, mode, k, pool[i].bytes, number, requestId, body);
    assert (pool + more)[i] == pool[i];
  }

  lemma MorePoolForAll(c: Suite, mode: SecurityMode, keys: set<nat>, pool: seq<RawChunk>, more: seq<RawChunk>, q: seq<Chunk>)
    requires AllVerified(c, mode, keys, pool, q)
    ensures AllVerified(c, mode, keys, pool + more, q)
  {
    hide Verified;
    forall i | 0 <= i < |q| && Secured(q[i].messageType)
      ensures Verified(c, mode, keys, pool + more, q[i].messageType, q[i].requestId, q[i].bytes)
    {
      MorePool(c, mode, keys, pool, more, q[i].messageType, q[i].requestId, q[i].bytes);
    }
  }

  lemma MorePoolForMessages(c: Suite, mode: SecurityMode, keys: set<nat>, pool: seq<RawChunk>, more: seq<RawChunk>,
                            ms: seq<Message>)
    requires AllMessagesVerified(c, mode, keys, pool, ms)
    ensures AllMessagesVerified(c, mode, keys, pool + more, ms)
  {
    hide Verified;
    forall i | 0 <= i < |ms| && Secured(ms[i].messageType) ensures MessageVerified(c, mode, keys, pool + more, ms[i]) {
      var parts: seq<Bytes> :|
        parts != [] && ms[i].payload == Joined(parts)
        && forall j :: 0 <= j < |parts| ==> Verified(c, mode, keys, pool, ms[i].messageType, ms[i].requestId, parts[j]);
      forall j | 0 <= j < |parts|
        ensures Verified(c, mode, keys, pool + more, ms[i].messageType, ms[i].requestId, parts[j])
      {
        MorePool(c, mode, keys, pool, more, ms[i].messageType, ms[i].requestId, parts[j]);
      }
    }
  }

  /** What unpacking lets through. */
  lemma UnpackedVerified(env: Env, core: Core, c: RawChunk, mode: SecurityMode, keys: set<nat>, pool: seq<RawChunk>)
    requires Within(core, mode, keys) && KeepsWithin(env, mode, keys)
    ensures var u := Unpack(env, core, c);
            && Within(u.core, mode, keys)
            && (u.status.Good? && Secured(c.messageType) ==>
                  Verified(env.suite, mode, keys, pool + [c], c.messageType, u.requestId, u.body))
  {
    hide CheckSymHeader, DecryptAndVerify, OpensTo, DecodeU32;
    var u := Unpack(env, core, c);
    if Secured(c.messageType) {
      HeaderWithin(core, DecodeU32(c.bytes, 12), env.now, mode, keys);
      if u.status.Good? {
        AcceptedExactly(env, core, c.bytes, u);
        var core1, number :|
          && HeadersPass(env, core, c.bytes, core1)
          && OpensTo(env.suite, core1.securityMode, core1.remoteKeys, c.bytes, number, u.requestId, u.body);
        PolicyStays(core, DecodeU32(c.bytes, 12), env.now);
        assert (pool + [c])[|pool|] == c;
      }
    }
  }

  lemma PolicyStays(core: Core, tokenId: UInt32, now: int)
    ensures CheckSymHeader(core, tokenId, now).1.Good? ==> CheckSymHeader(core, tokenId, now).0.hasPolicy == core.hasPolicy
  {
  }

  lemma {:induction false} ConsistentAll(first: Chunk, q: seq<Chunk>)
    requires Consistency(first, q).Good?
    ensures forall i :: 0 <= i < |q| ==> q[i].requestId == first.requestId && q[i].messageType == first.messageType
  {
    if q != [] {
      ConsistentAll(first, q[1..]);
      assert forall i :: 0 < i < |q| ==> q[i] == q[1..][i - 1];
    }
  }

  function BytesOf(q: seq<Chunk>): (r: seq<Bytes>)
    ensures |r| == |q| && forall i :: 0 <= i < |r| ==> r[i] == q[i].bytes
  {
    if q == [] then [] else [q[0].bytes] + BytesOf(q[1..])
  }

  lemma {:induction false} BodiesJoined(q: seq<Chunk>)
    ensures Joined(BytesOf(q)) == Bodies(q)
  {
    if q != [] {
      BodiesJoined(q[1..]);
      assert BytesOf(q)[1..] == BytesOf(q[1..]);
    }
  }

  /** The message put together from waiting chunks, and what stays waiting. */
  lemma AssembledVerified(env: Env, w: Work, mode: SecurityMode, keys: set<nat>, pool: seq<RawChunk>)
    requires w.decrypted != [] && AllVerified(env.suite, mode, keys, pool, w.decrypted)
    requires Within(w.core, mode, keys) && KeepsWithin(env, mode, keys)
    ensures var o := Assemble(env, w);
            && AllMessagesVerified(env.suite, mode, keys, pool, o.delivered)
            && AllVerified(env.suite, mode, keys, pool, o.work.decrypted) && Within(o.work.core, mode, keys)
  {
    hide Verified, Consistency, Bodies, MessageEnd;
    var q, first, n := w.decrypted, w.decrypted[0], MessageEnd(w.decrypted);
    var part := q[..n];
    if first.chunkType.Final? {
      EndAtOnce(q);
    } else if Consistency(first, part).Good? {
      ConsistentAll(first, part);
    }
    if first.chunkType.Final? || Consistency(first, part).Good? {
      BodiesJoined(part);
      PartVerified(env.suite, mode, keys, pool, q, n);
    }
  }

  lemma EndAtOnce(q: seq<Chunk>)
    requires q != [] && q[0].chunkType.Final?
    ensures MessageEnd(q) == 1
  {
  }

  lemma PartVerified(c: Suite, mode: SecurityMode, keys: set<nat>, pool: seq<RawChunk>, q: seq<Chunk>, n: nat)
    requires 0 < n <= |q| && AllVerified(c, mode, keys, pool, q)
    requires forall i :: 0 <= i < n ==> q[i].requestId == q[0].requestId && q[i].messageType == q[0].messageType
    requires Joined(BytesOf(q[..n])) == Bodies(q[..n])
    ensures Secured(q[0].messageType) ==>
              MessageVerified(c, mode, keys, pool, Message(q[0].messageType, q[0].requestId, Bodies(q[..n])))
    ensures AllVerified(c, mode, keys, pool, q[n..])
  {
    hide Verified, Bodies, Joined;
    var parts := BytesOf(q[..n]);
    assert forall j :: 0 <= j < n ==> q[..n][j] == q[j];
    assert forall j :: 0 <= j < |q[n..]| ==> q[n..][j] == q[n + j];
    if Secured(q[0].messageType) {
      forall j | 0 <= j < |parts| ensures Verified(c, mode, keys, pool, q[0].messageType, q[0].requestId, parts[j]) {
        assert parts[j] == q[j].bytes;
      }
    }
  }

  lemma QueuedVerified(env: Env, w: Work, chunk: Chunk, mode: SecurityMode, keys: set<nat>, pool: seq<RawChunk>)
    requires AllVerified(env.suite, mode, keys, pool, w.decrypted + [chunk])
    requires Within(w.core, mode, keys) && KeepsWithin(env, mode, keys)
    ensures var o := QueueChunk(env, w, chunk);
            && AllMessagesVerified(env.suite, mode, keys, pool, o.delivered)
            && AllVerified(env.suite, mode, keys, pool, o.work.decrypted) && Within(o.work.core, mode, keys)
  {
    hide Verified, Assemble, OverLimits, KeepsWithin, Within;
    AssembledVerified(env, Work(w.core, w.decrypted + [chunk], 0, 0), mode, keys, pool);
  }

  lemma ChunkVerified(env: Env, w: Work, c: RawChunk, mode: SecurityMode, keys: set<nat>, pool: seq<RawChunk>)
    requires AllVerified(env.suite, mode, keys, pool, w.decrypted)
    requires Within(w.core, mode, keys) && KeepsWithin(env, mode, keys)
    ensures var o := ProcessChunk(env, w, c);
            && AllMessagesVerified(env.suite, mode, keys, pool + [c], o.delivered)
            && AllVerified(env.suite, mode, keys, pool + [c], o.work.decrypted) && Within(o.work.core, mode, keys)
  {
    hide Verified, QueueChunk, Unpack, KeepsWithin, Within;
    var u := Unpack(env, w.core, c);
    var w0, chunk := Emptied(w, u.core), Chunk(u.body, c.messageType, c.chunkType, u.requestId);
    MorePoolForAll(env.suite, mode, keys, pool, [c], w.decrypted);
    UnpackedVerified(env, w.core, c, mode, keys, pool);
    if u.status.Good? {
      QueuedVerified(env, w0, chunk, mode, keys, pool + [c]);
    }
  }

  /** Every secured message that is delivered is put together from bodies of received chunks whose
      signatures were good, and nothing else. */
  lemma {:induction false} DeliveredIsVerified(env: Env, w: Work, q: seq<RawChunk>, mode: SecurityMode, keys: set<nat>,
                                               pool: seq<RawChunk>)
    requires AllVerified(env.suite, mode, keys, pool, w.decrypted)
    requires Within(w.core, mode, keys) && KeepsWithin(env, mode, keys)
    ensures var p := ProcessChunks(env, w, q);
            && AllMessagesVerified(env.suite, mode, keys, pool + q, p.delivered)
            && AllVerified(env.suite, mode, keys, pool + q, p.work.decrypted) && Within(p.work.core, mode, keys)
    decreases |q|
  {
    hide Verified, ProcessChunk, KeepsWithin, Within, MessageVerified;
    if q == [] {
      assert pool + q == pool;
    } else {
      var o := ProcessChunk(env, w, q[0]);
      var rest := q[1..];
      assert pool + q == (pool + [q[0]]) + rest;
      ChunkVerified(env, w, q[0], mode, keys, pool);
      MorePoolForAll(env.suite, mode, keys, pool + [q[0]], rest, o.work.decrypted);
      MorePoolForMessages(env.suite, mode, keys, pool + [q[0]], rest, o.delivered);
      if o.status.Good? {
        if o.closed {
          DeliveredIsVerified(env, o.work, [], mode, keys, pool + q);
          assert (pool + q) + [] == pool + q;
        } else {
          DeliveredIsVerified(env, o.work, rest, mode, keys, pool + [q[0]]);
        }
      }
    }
  }
}

/** Why chunks are refused, and what becomes of those that are not: the answers of the receiving side. */
module Refusals {
  import opened Words
  import opened Wire
  import opened ChunkCrypto
  import opened SecureChannel
  import opened StreamCuts
  import opened TokenRenewal
  import opened Authenticity
  import SequenceNumbers
  import Seqs

  // ---------- one chunk ----------

  /** A chunk without the right channel id and a living token is refused before it is opened. */
  lemma HeadersRefused(env: Env, core: Core, chunk: FullChunk)
    requires forall core1 :: !HeadersPass(env, core, chunk, core1)
    ensures UnpackMSG(env, core, chunk).status ==
            if !core.hasPolicy then BadInternalError
            else if DecodeU32(chunk, 8) != core.securityToken.channelId then BadSecureChannelIdInvalid
            else if forall t :: !Carries(core, DecodeU32(chunk, 12), t) then BadSecureChannelTokenUnknown
            else BadSecureChannelClosed
  {
    hide DecodeU32, DecryptAndVerify;
    var tokenId := DecodeU32(chunk, 12);
    var (core1, st) := CheckSymHeader(core, tokenId, env.now);
    assert !HeadersPass(env, core, chunk, core1);
    CheckedExactly(core, tokenId, env.now);
    CheckAnswers(core, tokenId, env.now);
  }

  lemma CheckAnswers(core: Core, tokenId: UInt32, now: int)
    ensures var st := CheckSymHeader(core, tokenId, now).1;
            st.Good? || st == BadSecureChannelTokenUnknown || st == BadSecureChannelClosed
  {
  }

  /** A chunk that cannot be decrypted is refused by the policy. */
  lemma NotDecrypted(env: Env, core: Core, chunk: FullChunk, core1: Core)
    requires HeadersPass(env, core, chunk, core1) && core1.securityMode.ModeSignAndEncrypt?
    requires env.suite.decrypt(core1.remoteKeys, chunk[16..]).None?
    ensures UnpackMSG(env, core, chunk) == Unpacked(core1, PolicyError, 0, [])
  {
    hide DecodeU32, CheckSymHeader;
  }

  /** A chunk whose signature is not good is refused by the policy; one that leaves no room for a body
      by the channel. */
  lemma NotOpened(env: Env, core: Core, chunk: FullChunk, core1: Core, plain: Bytes)
    requires HeadersPass(env, core, chunk, core1) && core1.securityMode != ModeNone
    requires InClear(env.suite, core1.securityMode, core1.remoteKeys, chunk, plain)
    requires forall number, requestId, body ::
               !OpensTo(env.suite, core1.securityMode, core1.remoteKeys, chunk, number, requestId, body)
    ensures UnpackMSG(env, core, chunk)
            == Unpacked(core1, if env.suite.signatureSize < |plain| && !SignedBy(env.suite, core1.remoteKeys, plain)
                               then PolicyError else BadSecurityChecksFailed, 0, [])
  {
    hide DecodeU32, CheckSymHeader, OpensTo, DecodePadding;
    WholeChunk(chunk);
    var c, mode, keys := env.suite, core1.securityMode, core1.remoteKeys;
    var (st, content) := DecryptAndVerify(c, mode, keys, chunk);
    OpenedLength(c, mode, keys, chunk);
    if st.Good? {
      assert Content(c, mode, keys, chunk, content);
      OpensExactly(c, mode, keys, chunk, DecodeU32(content, 16), DecodeU32(content, 20), content[24..]);
    }
  }

  /** A chunk that opens is refused for its number alone. */
  lemma NumberRefused(env: Env, core: Core, chunk: FullChunk, core1: Core, number: UInt32, requestId: UInt32, body: Bytes)
    requires HeadersPass(env, core, chunk, core1)
    requires OpensTo(env.suite, core1.securityMode, core1.remoteKeys, chunk, number, requestId, body)
    requires !SequenceNumbers.Accepts(core1.receiveSequenceNumber, number)
    ensures var u := UnpackMSG(env, core, chunk); u.status == BadSecurityChecksFailed && u.core == core1
  {
    hide DecodeU32, CheckSymHeader, DecryptAndVerify, OpensTo;
    OpensExactly(env.suite, core1.securityMode, core1.remoteKeys, chunk, number, requestId, body);
  }

  /** Without security a chunk can be too short for its sequence header. It is refused for that, and if
      its number, which counts as zero, is not acceptable, for that as well. */
  lemma HeaderCutShort(env: Env, core: Core, chunk: FullChunk, core1: Core)
    requires HeadersPass(env, core, chunk, core1) && core1.securityMode == ModeNone && |chunk| < 24
    ensures UnpackMSG(env, core, chunk)
            == if SequenceNumbers.Accepts(core1.receiveSequenceNumber, 0) then
                 Unpacked(core1.(receiveSequenceNumber := 0), BadDecodingError, 0, [])
               else
                 Unpacked(core1, Merged(BadDecodingError, BadSecurityChecksFailed), 0, [])
  {
    hide DecodeU32, CheckSymHeader;
    WholeChunk(chunk);
  }

  // ---------- the end of a message ----------

  /** The chunk belongs to the same message as the first one. */
  predicate Fits(first: Chunk, c: Chunk) {
    && c.requestId == first.requestId && c.messageType == first.messageType
    && (c.chunkType == first.chunkType || c.chunkType == Final)
  }

  /** What one that does not is reported as. */
  function Reason(first: Chunk, c: Chunk): Status {
    if c.requestId != first.requestId then BadInternalError else BadTcpMessageTypeInvalid
  }

  /** The first chunk that does not, and what it is reported as. */
  ghost predicate FirstMisfit(q: seq<Chunk>, k: nat, status: Status) {
    && k < |q| && !Fits(q[0], q[k]) && (forall i :: 0 <= i < k ==> Fits(q[0], q[i]))
    && status == Reason(q[0], q[k])
  }

  lemma {:induction false} ConsistencyIs(first: Chunk, q: seq<Chunk>)
    ensures Consistency(first, q).Good? <==> forall i :: 0 <= i < |q| ==> Fits(first, q[i])
    ensures !Consistency(first, q).Good? ==>
              exists k: nat ::
                && k < |q| && !Fits(first, q[k]) && (forall i :: 0 <= i < k ==> Fits(first, q[i]))
                && Consistency(first, q) == Reason(first, q[k])
    decreases |q|
  {
    if q != [] {
      assert q[0] == q[0];
      if Fits(first, q[0]) {
        ConsistencyIs(first, q[1..]);
        assert forall i :: 0 < i < |q| ==> q[i] == q[1..][i - 1];
        if !Consistency(first, q[1..]).Good? {
          var k: nat :|
            && k < |q[1..]| && !Fits(first, q[1..][k]) && (forall i :: 0 <= i < k ==> Fits(first, q[1..][i]))
            && Consistency(first, q[1..]) == Reason(first, q[1..][k]);
          assert !Fits(first, q[k + 1]) && forall i :: 0 <= i < k + 1 ==> Fits(first, q[i]);
        }
      }
    }
  }

  /** The only final chunk of the queue is the last one. */
  ghost predicate FinalAtEnd(q: seq<Chunk>) {
    q != [] && q[|q| - 1].chunkType.Final? && forall i :: 0 <= i < |q| - 1 ==> !q[i].chunkType.Final?
  }

  /** What has to come of waiting chunks up to a final one: the message they make, handed to the
      application, or else the reason of the first misfit, with every chunk left where it is. */
  ghost predicate EndsAs(env: Env, core: Core, q: seq<Chunk>, rest: seq<Chunk>, o: Outcome)
    requires q != []
  {
    if forall i :: 0 <= i < |q| ==> Fits(q[0], q[i]) then
      var m := Message(q[0].messageType, q[0].requestId, Joined(BytesOf(q)));
      var (core', st) := env.callback(core, m);
      o == Outcome(Work(core', if JustClosed(core, core') then [] else rest, 0, 0), [m], st, JustClosed(core, core'))
    else
      exists k: nat, st :: FirstMisfit(q, k, st) && o == Outcome(Work(core, q + rest, 0, 0), [], st, false)
  }

  lemma Assembled(env: Env, core: Core, q: seq<Chunk>, rest: seq<Chunk>)
    requires FinalAtEnd(q)
    ensures EndsAs(env, core, q, rest, Assemble(env, Work(core, q + rest, 0, 0)))
  {
    hide Consistency, Bodies, Joined, MessageEnd, Fits;
    MessageEndAt(q + rest, |q| - 1);
    assert (q + rest)[..|q|] == q && (q + rest)[|q|..] == rest;
    BodiesJoined(q);
    ConsistencyIs(q[0], q);
    if q[0].chunkType.Final? {
      AloneFits(q);
    } else if !Consistency(q[0], q).Good? {
      var k: nat :|
        && k < |q| && !Fits(q[0], q[k]) && (forall i :: 0 <= i < k ==> Fits(q[0], q[i]))
        && Consistency(q[0], q) == Reason(q[0], q[k]);
      assert FirstMisfit(q, k, Consistency(q[0], q));
    }
  }

  lemma AloneFits(q: seq<Chunk>)
    requires FinalAtEnd(q) && q[0].chunkType.Final?
    ensures forall i :: 0 <= i < |q| ==> Fits(q[0], q[i])
  {
  }

  /** The message with one more chunk of so many bytes is too large. */
  predicate Exceeds(env: Env, w: Work, size: nat) {
    || (env.maxChunkCount != 0 && w.decryptedCount + 1 > env.maxChunkCount)
    || (env.maxMessageSize != 0 && w.decryptedLength + size > env.maxMessageSize)
  }

  /** A chunk that was unpacked on a channel that stays open: it is refused when the message gets too
      large with it, it waits, it drops what waits, or it ends its message. */
  lemma ChunkTaken(env: Env, w: Work, c: RawChunk)
    requires Unpack(env, w.core, c).status.Good? && !JustClosed(w.core, Unpack(env, w.core, c).core)
    requires forall i :: 0 <= i < |w.decrypted| ==> !w.decrypted[i].chunkType.Final?
    ensures var u, o := Unpack(env, w.core, c), ProcessChunk(env, w, c);
            var q := w.decrypted + [Chunk(u.body, c.messageType, c.chunkType, u.requestId)];
            var waiting := Work(u.core, q, w.decryptedCount + 1, w.decryptedLength + |u.body|);
            if Exceeds(env, w, |u.body|) then o == Outcome(waiting, [], BadTcpMessageTooLarge, false)
            else match c.chunkType
                 case Intermediate => o == Outcome(waiting, [], Good, false)
                 case Abort => o == Outcome(Work(u.core, [], 0, 0), [], Good, false)
                 case Final => EndsAs(env, u.core, q, [], o)
  {
    hide Unpack, Assemble, EndsAs;
    var u := Unpack(env, w.core, c);
    var q := w.decrypted + [Chunk(u.body, c.messageType, c.chunkType, u.requestId)];
    if c.chunkType.Final? {
      assert FinalAtEnd(q);
      Assembled(env, u.core, q, []);
      Seqs.Empty(q);
    }
  }

  /** Chunks that do not fit each other stay in front of all that come later: every later final chunk is
      answered with the reason of the same misfit, and nothing is delivered. Only an abort chunk or the end
      of the channel clears them away. */
  lemma MisfitStays(env: Env, w: Work, q: seq<Chunk>, more: seq<Chunk>, k: nat, st: Status, c: RawChunk)
    requires FinalAtEnd(q) && FirstMisfit(q, k, st) && w.decrypted == q + more
    requires c.chunkType.Final? && Unpack(env, w.core, c).status.Good?
    requires !JustClosed(w.core, Unpack(env, w.core, c).core) && !Exceeds(env, w, |Unpack(env, w.core, c).body|)
    ensures var u, o := Unpack(env, w.core, c), ProcessChunk(env, w, c);
            var chunk := Chunk(u.body, c.messageType, c.chunkType, u.requestId);
            o == Outcome(Work(u.core, q + (more + [chunk]), 0, 0), [], st, false)
  {
    hide Unpack, Assemble, Fits;
    var u := Unpack(env, w.core, c);
    var chunk := Chunk(u.body, c.messageType, c.chunkType, u.requestId);
    Seqs.Assoc(q, more, [chunk]);
    Assembled(env, u.core, q, more + [chunk]);
    OneReason(q, k, st);
  }

  lemma OneReason(q: seq<Chunk>, k: nat, st: Status)
    requires FirstMisfit(q, k, st)
    ensures forall j: nat, st' :: FirstMisfit(q, j, st') ==> st' == st
  {
    hide Fits, Reason;
    forall j: nat, st' | FirstMisfit(q, j, st') ensures st' == st {
      assert j == k;
    }
  }

  // ---------- chunks without a secured message ----------

  /** A hello, acknowledge or error chunk is delivered as it is behind its header, with no request. */
  lemma PlainArrives(env: Env, core: Core, c: RawChunk)
    requires c.messageType.HEL? || c.messageType.ACK? || c.messageType.ERR?
    requires c.chunkType.Final? && !Exceeds(env, Work(core, [], 0, 0), |c.bytes| - 8)
    ensures var m, o := Message(c.messageType, 0, c.bytes[8..]), ProcessChunk(env, Work(core, [], 0, 0), c);
            o.delivered == [m] && o.status == env.callback(core, m).1
  {
    hide Assemble;
    ChunkTaken(env, Work(core, [], 0, 0), c);
    var q := [Chunk(c.bytes[8..], c.messageType, c.chunkType, 0)];
    assert [] + q == q;
    OneBody(q[0]);
  }

  lemma OneBody(c: Chunk)
    ensures Joined(BytesOf([c])) == c.bytes
  {
    Seqs.Empty(c.bytes);
    assert [c][1..] == [] && BytesOf([c]) == [c.bytes] && [c.bytes][1..] == [];
  }

  /** A chunk that opens a channel is looked at only while that is waited for or on an open channel. */
  lemma OpenAnswered(env: Env, w: Work, c: RawChunk)
    requires c.messageType.OPN?
    ensures w.core.state != AckSent && w.core.state != OpnSent && w.core.state != Open ==>
              ProcessChunk(env, w, c) == Outcome(w, [], BadInvalidState, false)
    ensures (w.core.state == AckSent || w.core.state == OpnSent || w.core.state == Open)
            && !env.unpackOPN(w.core, c.bytes).status.Good? ==>
              var u, o := env.unpackOPN(w.core, c.bytes), ProcessChunk(env, w, c);
              o.status == u.status && o.work.core == u.core && o.delivered == []
    ensures (w.core.state == AckSent || w.core.state == OpnSent || w.core.state == Open)
            && env.unpackOPN(w.core, c.bytes).status.Good? && c.chunkType.Final? && w.decrypted == []
            && env.unpackOPN(w.core, c.bytes).core.state.Open?
            && !Exceeds(env, w, |env.unpackOPN(w.core, c.bytes).body|) ==>
              var u := env.unpackOPN(w.core, c.bytes);
              ProcessChunk(env, w, c).delivered == [Message(OPN, u.requestId, u.body)]
  {
    hide Assemble;
    var u := env.unpackOPN(w.core, c.bytes);
    if (w.core.state == AckSent || w.core.state == OpnSent || w.core.state == Open) && u.status.Good?
       && c.chunkType.Final? && w.decrypted == [] && u.core.state.Open? && !Exceeds(env, w, |u.body|) {
      ChunkTaken(env, w, c);
      var q := [Chunk(u.body, OPN, Final, u.requestId)];
      assert w.decrypted + q == q;
      OneBody(q[0]);
    }
  }
}

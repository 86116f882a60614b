/** What is sent is what is received: any list of messages, cut into chunks by the encoder and into
    pieces by the network, in every security mode. */
module EndToEnd {
  import opened Options
  import opened Words
  import opened Wire
  import opened ChunkCrypto
  import opened SecureChannel
  import opened ChunkSend
  import opened StreamCuts
  import SequenceNumbers
  import Seqs

  // ---------- one chunk ----------

  lemma EncodedLength(o: Sending, number: UInt32, requestId: UInt32, m: MessageType, final: bool, body: Bytes)
    requires Lawful(o.suite)
    ensures |EncodeChunk(o, number, requestId, m, final, body)| == TotalLength(o.suite, o.mode, HEADER_TOTALLENGTH + |body|)
  {
    hide TotalLength, Padding, Headers;
    var plain := Plain(o, number, requestId, m, final, body);
    PlainLength(o, number, requestId, m, final, body);
    EncodedBySteps(o, number, requestId, m, final, body);
    assert |o.suite.sign(o.keys, plain)| == o.suite.signatureSize;
    if o.mode.ModeSignAndEncrypt? {
      var signed := SignedChunk(o, plain);
      WholeChunkBlocks(o, body);
      assert |signed[HEADER_UNENCRYPTEDLENGTH..]| % o.suite.blockSize == 0;
    }
  }

  lemma PlainLength(o: Sending, number: UInt32, requestId: UInt32, m: MessageType, final: bool, body: Bytes)
    requires o.suite.blockSize > 0
    ensures TotalLength(o.suite, o.mode, HEADER_TOTALLENGTH + |body|)
            == |Plain(o, number, requestId, m, final, body)| + if Signed(o.mode) then o.suite.signatureSize else 0
  {
  }

  /** Decryption gives back the signed chunk. */
  lemma Decrypted(o: Sending, number: UInt32, requestId: UInt32, m: MessageType, final: bool, body: Bytes)
    requires Lawful(o.suite) && o.mode.ModeSignAndEncrypt?
    ensures var c := EncodeChunk(o, number, requestId, m, final, body);
            var signed := SignedChunk(o, Plain(o, number, requestId, m, final, body));
            && |c| >= HEADER_TOTALLENGTH && |signed| >= HEADER_TOTALLENGTH
            && c[..HEADER_UNENCRYPTEDLENGTH] == signed[..HEADER_UNENCRYPTEDLENGTH]
            && o.suite.decrypt(o.keys, c[HEADER_UNENCRYPTEDLENGTH..]) == Some(signed[HEADER_UNENCRYPTEDLENGTH..])
  {
    hide EncodeChunk, TotalLength, Padding, Plain, ChunkHeaders, PaddingFor;
    var plain := Plain(o, number, requestId, m, final, body);
    EncodedBySteps(o, number, requestId, m, final, body);
    var signed := SignedChunk(o, plain);
    assert |o.suite.sign(o.keys, plain)| == o.suite.signatureSize;
    PlainLength(o, number, requestId, m, final, body);
    WholeChunkBlocks(o, body);
    var secret := signed[HEADER_UNENCRYPTEDLENGTH..];
    assert |secret| % o.suite.blockSize == 0;
    TwoParts(signed[..HEADER_UNENCRYPTEDLENGTH], o.suite.encrypt(o.keys, secret));
  }

  lemma TwoParts<T>(a: seq<T>, b: seq<T>)
    ensures (a + b)[..|a|] == a && (a + b)[|a|..] == b
  {
  }

  /** Signature and padding are stripped exactly when the body has at least two bytes. */
  lemma Stripped(o: Sending, number: UInt32, requestId: UInt32, m: MessageType, final: bool, body: Bytes)
    requires Lawful(o.suite) && Signed(o.mode)
    ensures var front := ChunkHeaders(o, number, requestId, m, final, |body|) + body;
            var signed := SignedChunk(o, Plain(o, number, requestId, m, final, body));
            VerifyAndStrip(o.suite, o.mode, o.keys, signed)
            == if |body| >= 2 then (Good, front) else (BadSecurityChecksFailed, [])
  {
    hide ChunkHeaders, Padding, DecodePadding;
    var front := ChunkHeaders(o, number, requestId, m, final, |body|) + body;
    var plain := Plain(o, number, requestId, m, final, body);
    var padding := PaddingFor(o, |body|);
    var signature := o.suite.sign(o.keys, plain);
    assert |signature| == o.suite.signatureSize && o.suite.verify(o.keys, plain, signature);
    assert plain == front + padding;
    TwoParts(plain, signature);
    TwoParts(front, padding);
    if o.mode.ModeSignAndEncrypt? {
      PaddingRead(o.suite, front, HEADER_TOTALLENGTH + |body| - HEADER_UNENCRYPTEDLENGTH, signature);
    }
    InFront(front, padding, signature);
  }

  lemma InFront(front: Bytes, padding: Bytes, signature: Bytes)
    ensures (front + padding + signature)[..|front|] == front
  {
  }

  lemma HasBlocks(c: Suite)
    requires Lawful(c)
    ensures c.blockSize > 0
  {
  }

  /** A chunk that was just made opens to its headers and body, provided that a signed one has at
      least two body bytes. */
  lemma Opened(o: Sending, number: UInt32, requestId: UInt32, m: MessageType, final: bool, body: Bytes)
    requires Lawful(o.suite)
    ensures var c := EncodeChunk(o, number, requestId, m, final, body);
            && |c| >= MESSAGE_MIN_LENGTH
            && DecryptAndVerify(o.suite, o.mode, o.keys, c)
               == if Signed(o.mode) && |body| < 2 then (BadSecurityChecksFailed, [])
                  else (Good, ChunkHeaders(o, number, requestId, m, final, |body|) + body)
  {
    hide ChunkHeaders, Padding, TotalLength, EncodeChunk, VerifyAndStrip, Lawful;
    HasBlocks(o.suite);
    var c := EncodeChunk(o, number, requestId, m, final, body);
    EncodedBySteps(o, number, requestId, m, final, body);
    PlainLength(o, number, requestId, m, final, body);
    var signed := SignedChunk(o, Plain(o, number, requestId, m, final, body));
    if Signed(o.mode) {
      Stripped(o, number, requestId, m, final, body);
    } else {
      Seqs.Empty(Plain(o, number, requestId, m, final, body));
      Seqs.Empty(ChunkHeaders(o, number, requestId, m, final, |body|) + body);
    }
    if o.mode.ModeSignAndEncrypt? {
      Decrypted(o, number, requestId, m, final, body);
    }
    assert signed[..HEADER_UNENCRYPTEDLENGTH] + signed[HEADER_UNENCRYPTEDLENGTH..] == signed;
    assert c[..HEADER_UNENCRYPTEDLENGTH] + c[HEADER_UNENCRYPTEDLENGTH..] == c;
  }

  /** The unencrypted headers of a chunk. */
  lemma ClearHeaders(o: Sending, number: UInt32, requestId: UInt32, m: MessageType, final: bool, body: Bytes)
    requires Lawful(o.suite)
    ensures var c := EncodeChunk(o, number, requestId, m, final, body);
            && |c| >= HEADER_UNENCRYPTEDLENGTH
            && MessageTypeOf(DecodeU32(c, 0)) == Some(m)
            && ChunkTypeOf(DecodeU32(c, 0)) == Some(if final then Final else Intermediate)
            && DecodeU32(c, 4) == U32(TotalLength(o.suite, o.mode, HEADER_TOTALLENGTH + |body|))
            && DecodeU32(c, 8) == o.channelId && DecodeU32(c, 12) == o.tokenId
  {
    hide Padding, TotalLength, EncodeChunk, Headers, ChunkHeaders, DecodeU32, MessageTypeOf, ChunkTypeOf;
    ClearPart(o, number, requestId, m, final, body);
    var h := ChunkHeaders(o, number, requestId, m, final, |body|);
    HeaderWords(o, number, requestId, m, final, |body|);
    SameWords(EncodeChunk(o, number, requestId, m, final, body), h);
  }

  lemma ClearPart(o: Sending, number: UInt32, requestId: UInt32, m: MessageType, final: bool, body: Bytes)
    requires Lawful(o.suite)
    ensures var c := EncodeChunk(o, number, requestId, m, final, body);
            && |c| >= HEADER_UNENCRYPTEDLENGTH
            && c[..HEADER_UNENCRYPTEDLENGTH]
               == ChunkHeaders(o, number, requestId, m, final, |body|)[..HEADER_UNENCRYPTEDLENGTH]
  {
    hide Padding, TotalLength, EncodeChunk, Headers, ChunkHeaders;
    var plain := Plain(o, number, requestId, m, final, body);
    EncodedBySteps(o, number, requestId, m, final, body);
    if o.mode.ModeSignAndEncrypt? {
      Decrypted(o, number, requestId, m, final, body);
    }
    var signed := SignedChunk(o, plain);
    assert signed[..HEADER_UNENCRYPTEDLENGTH]
           == ChunkHeaders(o, number, requestId, m, final, |body|)[..HEADER_UNENCRYPTEDLENGTH];
  }

  lemma HeaderWords(o: Sending, number: UInt32, requestId: UInt32, m: MessageType, final: bool, bodyLength: nat)
    requires o.suite.blockSize > 0
    ensures var h := ChunkHeaders(o, number, requestId, m, final, bodyLength);
            && |h| >= HEADER_UNENCRYPTEDLENGTH
            && MessageTypeOf(DecodeU32(h, 0)) == Some(m)
            && ChunkTypeOf(DecodeU32(h, 0)) == Some(if final then Final else Intermediate)
            && DecodeU32(h, 4) == U32(TotalLength(o.suite, o.mode, HEADER_TOTALLENGTH + bodyLength))
            && DecodeU32(h, 8) == o.channelId && DecodeU32(h, 12) == o.tokenId
  {
    hide Padding, TotalLength, Headers;
    TypeWord(m, if final then Final else Intermediate);
    HeadersDecode(TypeCode(m) + ChunkCode(if final then Final else Intermediate),
                  U32(TotalLength(o.suite, o.mode, HEADER_TOTALLENGTH + bodyLength)), o.channelId, o.tokenId, number, requestId,
                  []);
    Seqs.Empty(ChunkHeaders(o, number, requestId, m, final, bodyLength));
  }

  lemma SameWords(c: Bytes, h: Bytes)
    requires |c| >= 16 && |h| >= 16 && c[..16] == h[..16]
    ensures DecodeU32(c, 0) == DecodeU32(h, 0) && DecodeU32(c, 4) == DecodeU32(h, 4)
    ensures DecodeU32(c, 8) == DecodeU32(h, 8) && DecodeU32(c, 12) == DecodeU32(h, 12)
  {
    assert forall i :: 0 <= i < 16 ==> c[i] == c[..16][i] && h[i] == h[..16][i];
  }

  /** The receiver and the sender agree, and number is the last one used. */
  ghost predicate InStep(o: Sending, env: Env, core: Core, number: UInt32) {
    && Lawful(o.suite) && Roomy(o) && env.suite == o.suite && env.recvBufferSize >= o.sendBufferSize
    && core.hasPolicy && !core.state.Closed? && core.securityToken.channelId == o.channelId
    && CheckSymHeader(core, o.tokenId, env.now) == (core, Good)
    && core.securityMode == o.mode && core.remoteKeys == o.keys && core.receiveSequenceNumber == number
  }

  function Counted(core: Core, number: UInt32): Core {
    core.(receiveSequenceNumber := number)
  }

  lemma StaysInStep(o: Sending, env: Env, core: Core, number: UInt32, number': UInt32)
    requires InStep(o, env, core, number)
    ensures InStep(o, env, Counted(core, number'), number')
  {
    hide Lawful, Roomy;
  }

  /** The next chunk is accepted exactly when it is unsigned or has at least two body bytes; it gives
      its body and request id, and moves the counter by one. */
  lemma ChunkArrives(o: Sending, env: Env, core: Core, number: UInt32, requestId: UInt32, m: MessageType, final: bool,
                     body: Bytes)
    requires InStep(o, env, core, number)
    ensures var number' := SequenceNumbers.Next(number);
            var c := EncodeChunk(o, number', requestId, m, final, body);
            && |c| >= MESSAGE_MIN_LENGTH
            && UnpackMSG(env, core, c) == if Signed(o.mode) && |body| < 2 then Unpacked(core, BadSecurityChecksFailed, 0, [])
                                          else Unpacked(Counted(core, number'), Good, requestId, body)
  {
    hide EncodeChunk, DecryptAndVerify, Lawful, Roomy, Headers, CheckSymHeader, TotalLength;
    HasBlocks(o.suite);
    var number' := SequenceNumbers.Next(number);
    Opened(o, number', requestId, m, final, body);
    ClearHeaders(o, number', requestId, m, final, body);
    var h := ChunkHeaders(o, number', requestId, m, final, |body|);
    TypeWord(m, if final then Final else Intermediate);
    HeadersDecode(TypeCode(m) + ChunkCode(if final then Final else Intermediate),
                  U32(TotalLength(o.suite, o.mode, HEADER_TOTALLENGTH + |body|)), o.channelId, o.tokenId, number', requestId, body);
    TwoParts(h, body);
  }

  // ---------- one message ----------

  /** A chunk as the receiver's framing hands it on. */
  ghost function Raw(o: Sending, number: UInt32, requestId: UInt32, m: MessageType, final: bool, body: Bytes): RawChunk
    requires Lawful(o.suite)
  {
    Opened(o, number, requestId, m, final, body);
    RawChunk(EncodeChunk(o, number, requestId, m, final, body), m, if final then Final else Intermediate)
  }

  lemma ChunkFrames(o: Sending, limit: nat, number: UInt32, requestId: UInt32, m: MessageType, final: bool, body: Bytes)
    requires Lawful(o.suite) && Roomy(o) && BodyFits(o, body) && limit >= o.sendBufferSize && (m.MSG? || m.CLO?)
    ensures Extract(limit, EncodeChunk(o, number, requestId, m, final, body))
            == Extracted(Raw(o, number, requestId, m, final, body))
  {
    hide EncodeChunk, Lawful, BodyEnd, TotalLength, MessageTypeOf, ChunkTypeOf;
    HasBlocks(o.suite);
    EncodedLength(o, number, requestId, m, final, body);
    ClearHeaders(o, number, requestId, m, final, body);
    TotalFits(o, body);
    Fits(TotalLength(o.suite, o.mode, HEADER_TOTALLENGTH + |body|));
    AtLeastHeaders(o, body);
    var c := EncodeChunk(o, number, requestId, m, final, body);
    assert c[..|c|] == c;
  }

  lemma AtLeastHeaders(o: Sending, body: Bytes)
    requires o.suite.blockSize > 0
    ensures TotalLength(o.suite, o.mode, HEADER_TOTALLENGTH + |body|) >= HEADER_TOTALLENGTH
  {
  }

  /** The chunks of a message, given the number before the first. */
  ghost function RawBodies(o: Sending, number: UInt32, requestId: UInt32, m: MessageType, bodies: seq<Bytes>): seq<RawChunk>
    requires Lawful(o.suite)
    decreases |bodies|
  {
    if bodies == [] then []
    else
      var number' := SequenceNumbers.Next(number);
      [Raw(o, number', requestId, m, |bodies| == 1, bodies[0])] + RawBodies(o, number', requestId, m, bodies[1..])
  }

  ghost predicate AllFit(o: Sending, bodies: seq<Bytes>) {
    o.suite.blockSize > 0 && forall i :: 0 <= i < |bodies| ==> BodyFits(o, bodies[i])
  }

  /** A signed body needs two bytes to be accepted. */
  predicate TooShort(o: Sending, body: Bytes) {
    Signed(o.mode) && |body| < 2
  }

  predicate LongEnough(o: Sending, bodies: seq<Bytes>) {
    forall i :: 0 <= i < |bodies| ==> !TooShort(o, bodies[i])
  }

  /** The receiver frames the chunks of a message as they were made, whatever follows. */
  lemma {:induction false} BodiesFrame(o: Sending, limit: nat, number: UInt32, requestId: UInt32, m: MessageType,
                                       bodies: seq<Bytes>, count: nat, size: nat, rest: Bytes)
    requires Lawful(o.suite) && Roomy(o) && limit >= o.sendBufferSize && (m.MSG? || m.CLO?) && AllFit(o, bodies)
    requires SendBodies(o, number, requestId, m, bodies, count, size).status.Good?
    ensures var f := Frame(limit, rest);
            Frame(limit, Joined(SendBodies(o, number, requestId, m, bodies, count, size).chunks) + rest)
            == f.(chunks := RawBodies(o, number, requestId, m, bodies) + f.chunks)
    decreases |bodies|
  {
    hide EncodeChunk, Extract, Lawful, Roomy, BodyFits, WithinLimits;
    HasBlocks(o.suite);
    if bodies == [] {
      Seqs.Empty(rest);
      Seqs.Empty(Frame(limit, rest).chunks);
    } else {
      var number', final := SequenceNumbers.Next(number), |bodies| == 1;
      var c := EncodeChunk(o, number', requestId, m, final, bodies[0]);
      var raw := Raw(o, number', requestId, m, final, bodies[0]);
      var e := SendBodies(o, number', requestId, m, bodies[1..], (count + 1) % 0x1_0000, size + |bodies[0]|);
      BodiesFrame(o, limit, number', requestId, m, bodies[1..], (count + 1) % 0x1_0000, size + |bodies[0]|, rest);
      ChunkFrames(o, limit, number', requestId, m, final, bodies[0]);
      var tail := Joined(e.chunks) + rest;
      Seqs.Uncons([c], e.chunks);
      Seqs.Assoc(c, Joined(e.chunks), rest);
      OneMoreFrame(limit, c, raw, tail);
      Seqs.Assoc([raw], RawBodies(o, number', requestId, m, bodies[1..]), Frame(limit, rest).chunks);
    }
  }

  lemma OneMoreFrame(limit: nat, c: Bytes, raw: RawChunk, tail: Bytes)
    requires Extract(limit, c) == Extracted(raw) && raw.bytes == c
    ensures var f := Frame(limit, tail); Frame(limit, c + tail) == f.(chunks := [raw] + f.chunks)
  {
    hide Extract;
    ExtractMore(limit, c, tail);
    TwoParts(c, tail);
  }

  /** Chunks waiting for the rest of their message. */
  ghost predicate Waiting(q: seq<Chunk>, m: MessageType, requestId: UInt32) {
    forall i :: 0 <= i < |q| ==> q[i].chunkType.Intermediate? && q[i].messageType == m && q[i].requestId == requestId
  }

  lemma {:induction false} WaitingEnds(q: seq<Chunk>, last: Chunk, m: MessageType, requestId: UInt32)
    requires Waiting(q, m, requestId) && last.chunkType.Final? && last.messageType == m && last.requestId == requestId
    ensures MessageEnd(q + [last]) == |q| + 1
    ensures forall first: Chunk :: first.messageType == m && first.requestId == requestId && first.chunkType.Intermediate? ==>
              Consistency(first, q + [last]) == Good
  {
    if q == [] {
      assert [] + [last] == [last];
    } else {
      Seqs.Uncons(q, [last]);
      WaitingEnds(q[1..], last, m, requestId);
    }
  }

  /** The application accepts every message and leaves the channel alone. */
  ghost predicate Quiet(env: Env) {
    forall core, m :: env.callback(core, m) == (core, Good)
  }

  /** The state in the middle of a message. */
  ghost function Midway(core: Core, q: seq<Chunk>): Work {
    Work(core, q, |q|, |Bodies(q)|)
  }

  predicate Receivable(env: Env, count: nat, size: nat) {
    && (env.maxChunkCount != 0 ==> count <= env.maxChunkCount)
    && (env.maxMessageSize != 0 ==> size <= env.maxMessageSize)
  }

  lemma ChunkUnpacked(o: Sending, env: Env, core: Core, number: UInt32, requestId: UInt32, m: MessageType, final: bool,
                      body: Bytes)
    requires InStep(o, env, core, number) && (m.MSG? || m.CLO?)
    ensures var number' := SequenceNumbers.Next(number);
            Unpack(env, core, Raw(o, number', requestId, m, final, body))
            == if TooShort(o, body) then Unpacked(core, BadSecurityChecksFailed, 0, [])
               else Unpacked(Counted(core, number'), Good, requestId, body)
  {
    hide EncodeChunk, UnpackMSG, CheckSymHeader, Lawful, Roomy;
    ChunkArrives(o, env, core, number, requestId, m, final, body);
  }

  /** The message that the waiting chunks and a final one make up. */
  lemma MessageAssembled(env: Env, core: Core, q: seq<Chunk>, last: Chunk)
    requires Quiet(env) && Waiting(q, last.messageType, last.requestId) && last.chunkType.Final?
    ensures Assemble(env, Work(core, q + [last], 0, 0))
            == Outcome(Midway(core, []), [Message(last.messageType, last.requestId, Bodies(q) + last.bytes)], Good, false)
  {
    hide MessageEnd, Consistency, Bodies;
    var q' := q + [last];
    WaitingEnds(q, last, last.messageType, last.requestId);
    BodiesAppend(q, last);
    NoBodies();
    assert q'[..|q'|] == q' && q'[|q'|..] == [];
    assert q != [] ==> q'[0] == q[0];
  }

  /** One chunk of a message: it waits for more, or it completes the message. */
  lemma ChunkProcessed(o: Sending, env: Env, core: Core, number: UInt32, requestId: UInt32, m: MessageType,
                       q: seq<Chunk>, final: bool, body: Bytes)
    requires InStep(o, env, core, number) && Lawful(o.suite) && Quiet(env)
    requires (m.MSG? || m.CLO?) && !TooShort(o, body)
    requires Waiting(q, m, requestId) && Receivable(env, |q| + 1, |Bodies(q)| + |body|)
    ensures var number' := SequenceNumbers.Next(number);
            var chunk := Chunk(body, m, if final then Final else Intermediate, requestId);
            ProcessChunk(env, Midway(core, q), Raw(o, number', requestId, m, final, body))
            == if final then Outcome(Midway(Counted(core, number'), []), [Message(m, requestId, Bodies(q) + body)], Good, false)
               else Outcome(Midway(Counted(core, number'), q + [chunk]), [], Good, false)
  {
    hide InStep, EncodeChunk, Unpack, Lawful, Assemble, Bodies, Waiting, Quiet;
    var number' := SequenceNumbers.Next(number);
    var chunk := Chunk(body, m, if final then Final else Intermediate, requestId);
    ChunkUnpacked(o, env, core, number, requestId, m, final, body);
    BodiesAppend(q, chunk);
    if final {
      MessageAssembled(env, Counted(core, number'), q, chunk);
    }
  }

  /** The chunks of a message are delivered as one message, and nothing stays behind. */
  lemma {:induction false} BodiesProcessed(o: Sending, env: Env, core: Core, number: UInt32, requestId: UInt32, m: MessageType,
                                           bodies: seq<Bytes>, q: seq<Chunk>, count: nat, size: nat)
    requires InStep(o, env, core, number) && Quiet(env) && (m.MSG? || m.CLO?) && bodies != [] && AllFit(o, bodies)
    requires LongEnough(o, bodies)
    requires Waiting(q, m, requestId) && Receivable(env, |q| + |bodies|, |Bodies(q)| + |Joined(bodies)|)
    requires SendBodies(o, number, requestId, m, bodies, count, size).status.Good?
    ensures ProcessChunks(env, Midway(core, q), RawBodies(o, number, requestId, m, bodies))
            == Progress(Midway(Counted(core, SendBodies(o, number, requestId, m, bodies, count, size).number), []), [],
                        [Message(m, requestId, Bodies(q) + Joined(bodies))], Good, false)
    decreases |bodies|
  {
    hide EncodeChunk, CheckSymHeader, Lawful, Roomy, ProcessChunk, WithinLimits, InStep, BodyFits, Bodies;
    StepFacts(o, env, core, number);
    var number', final, rest := SequenceNumbers.Next(number), |bodies| == 1, bodies[1..];
    var raw := Raw(o, number', requestId, m, final, bodies[0]);
    var w' := Counted(core, number');
    Seqs.Empty(bodies[0]);
    ChunkProcessed(o, env, core, number, requestId, m, q, final, bodies[0]);
    Seqs.Uncons([raw], RawBodies(o, number', requestId, m, rest));
    assert RawBodies(o, number, requestId, m, bodies)[1..] == RawBodies(o, number', requestId, m, rest);
    if !final {
      var chunk := Chunk(bodies[0], m, Intermediate, requestId);
      BodiesAppend(q, chunk);
      Seqs.Assoc(Bodies(q), bodies[0], Joined(rest));
      StaysInStep(o, env, core, number, number');
      BodiesProcessed(o, env, w', number', requestId, m, rest, q + [chunk], (count + 1) % 0x1_0000, size + |bodies[0]|);
      Seqs.Empty([Message(m, requestId, Bodies(q) + Joined(bodies))]);
    } else {
      Seqs.Empty([Message(m, requestId, Bodies(q) + bodies[0])]);
      assert rest == [];
    }
  }

  lemma ChunkRefused(o: Sending, env: Env, core: Core, number: UInt32, requestId: UInt32, m: MessageType,
                     q: seq<Chunk>, final: bool, body: Bytes)
    requires InStep(o, env, core, number) && Lawful(o.suite) && (m.MSG? || m.CLO?) && TooShort(o, body)
    ensures ProcessChunk(env, Midway(core, q), Raw(o, SequenceNumbers.Next(number), requestId, m, final, body))
            == Outcome(Midway(core, q), [], BadSecurityChecksFailed, false)
  {
    hide InStep, EncodeChunk, Unpack, Lawful, Bodies;
    ChunkUnpacked(o, env, core, number, requestId, m, final, body);
  }

  /** A message with a body that is too short is not delivered. */
  lemma {:induction false} BodiesRefused(o: Sending, env: Env, core: Core, number: UInt32, requestId: UInt32,
                                         m: MessageType, bodies: seq<Bytes>, q: seq<Chunk>, count: nat, size: nat)
    requires InStep(o, env, core, number) && Quiet(env) && (m.MSG? || m.CLO?) && AllFit(o, bodies) && !LongEnough(o, bodies)
    requires Waiting(q, m, requestId) && Receivable(env, |q| + |bodies|, |Bodies(q)| + |Joined(bodies)|)
    requires SendBodies(o, number, requestId, m, bodies, count, size).status.Good? && Lawful(o.suite)
    ensures var p := ProcessChunks(env, Midway(core, q), RawBodies(o, number, requestId, m, bodies));
            p.status == BadSecurityChecksFailed && p.delivered == [] && !p.closed
    decreases |bodies|
  {
    hide EncodeChunk, CheckSymHeader, Lawful, Roomy, ProcessChunk, WithinLimits, InStep, BodyFits, Bodies;
    var number', final, rest := SequenceNumbers.Next(number), |bodies| == 1, bodies[1..];
    var raw := Raw(o, number', requestId, m, final, bodies[0]);
    Seqs.Uncons([raw], RawBodies(o, number', requestId, m, rest));
    if TooShort(o, bodies[0]) {
      ChunkRefused(o, env, core, number, requestId, m, q, final, bodies[0]);
    } else {
      var chunk := Chunk(bodies[0], m, Intermediate, requestId);
      ShortInRest(o, bodies);
      ChunkProcessed(o, env, core, number, requestId, m, q, final, bodies[0]);
      BodiesAppend(q, chunk);
      StaysInStep(o, env, core, number, number');
      BodiesRefused(o, env, Counted(core, number'), number', requestId, m, rest, q + [chunk], (count + 1) % 0x1_0000,
                    size + |bodies[0]|);
      var w := Midway(Counted(core, number'), q + [chunk]);
      Seqs.Empty(ProcessChunks(env, w, RawBodies(o, number', requestId, m, rest)).delivered);
    }
  }

  lemma ShortInRest(o: Sending, bodies: seq<Bytes>)
    requires !LongEnough(o, bodies) && !TooShort(o, bodies[0])
    ensures |bodies| > 1 && !LongEnough(o, bodies[1..])
  {
    var i :| 0 <= i < |bodies| && TooShort(o, bodies[i]);
    assert bodies[1..][i - 1] == bodies[i];
  }

  lemma StepFacts(o: Sending, env: Env, core: Core, number: UInt32)
    requires InStep(o, env, core, number)
    ensures Lawful(o.suite) && Roomy(o) && o.suite.blockSize > 0 && env.recvBufferSize >= o.sendBufferSize
  {
  }

  // ---------- any number of messages ----------

  datatype Outbound = Outbound(messageType: MessageType, requestId: UInt32, bodies: seq<Bytes>)

  function SendAll(o: Sending, number: UInt32, msgs: seq<Outbound>): Emission
    requires o.suite.blockSize > 0
    decreases |msgs|
  {
    if msgs == [] then Emission([], number, Good)
    else
      var e := SendMessage(o, number, msgs[0].requestId, msgs[0].messageType, msgs[0].bodies);
      if !e.status.Good? then e
      else
        var r := SendAll(o, e.number, msgs[1..]);
        r.(chunks := e.chunks + r.chunks)
  }

  function Expected(msgs: seq<Outbound>): seq<Message> {
    if msgs == [] then []
    else [Message(msgs[0].messageType, msgs[0].requestId, Joined(msgs[0].bodies))] + Expected(msgs[1..])
  }

  /** Bodies that fit their chunks, within the receiver's limits. */
  ghost predicate Deliverable(o: Sending, env: Env, msg: Outbound) {
    msg.bodies != [] && AllFit(o, msg.bodies) && Receivable(env, |msg.bodies|, |Joined(msg.bodies)|)
  }

  /** The first message with a body that is too short, or their number. */
  function FirstShort(o: Sending, msgs: seq<Outbound>): (n: nat)
    ensures n <= |msgs|
  {
    if msgs == [] || !LongEnough(o, msgs[0].bodies) then 0 else 1 + FirstShort(o, msgs[1..])
  }

  lemma {:induction false} JoinedAppend(a: seq<Bytes>, b: seq<Bytes>)
    ensures Joined(a + b) == Joined(a) + Joined(b)
  {
    if a == [] {
      Seqs.Empty(b);
      Seqs.Empty(Joined(b));
    } else {
      Seqs.Uncons(a, b);
      JoinedAppend(a[1..], b);
      Seqs.Assoc(a[0], Joined(a[1..]), Joined(b));
    }
  }

  /** The chunks of all messages. */
  ghost function RawAll(o: Sending, number: UInt32, msgs: seq<Outbound>): seq<RawChunk>
    requires Lawful(o.suite)
    decreases |msgs|
  {
    if msgs == [] then []
    else
      var msg := msgs[0];
      RawBodies(o, number, msg.requestId, msg.messageType, msg.bodies)
      + RawAll(o, SendMessage(o, number, msg.requestId, msg.messageType, msg.bodies).number, msgs[1..])
  }

  lemma {:induction false} AllFrame(o: Sending, env: Env, core: Core, number: UInt32, msgs: seq<Outbound>)
    requires InStep(o, env, core, number) && forall i :: 0 <= i < |msgs| ==> Deliverable(o, env, msgs[i])
    requires o.suite.blockSize > 0 && SendAll(o, number, msgs).status.Good?
    ensures Lawful(o.suite)
    ensures Frame(env.recvBufferSize, Joined(SendAll(o, number, msgs).chunks)) == Framing(RawAll(o, number, msgs), [], Good)
    decreases |msgs|
  {
    hide Lawful, Roomy, SendBodies, RawBodies, CheckSymHeader, InStep;
    StepFacts(o, env, core, number);
    if msgs != [] {
      var msg := msgs[0];
      assert Deliverable(o, env, msg);
      var e := SendMessage(o, number, msg.requestId, msg.messageType, msg.bodies);
      var rest := SendAll(o, e.number, msgs[1..]);
      StaysInStep(o, env, core, number, e.number);
      AllFrame(o, env, Counted(core, e.number), e.number, msgs[1..]);
      JoinedAppend(e.chunks, rest.chunks);
      BodiesFrame(o, env.recvBufferSize, number, msg.requestId, msg.messageType, msg.bodies, 0, 0, Joined(rest.chunks));
    }
  }

  /** The messages before the first that is too short are delivered, and that one is refused. */
  lemma {:induction false} AllProcessed(o: Sending, env: Env, core: Core, number: UInt32, msgs: seq<Outbound>)
    requires InStep(o, env, core, number) && Quiet(env) && forall i :: 0 <= i < |msgs| ==> Deliverable(o, env, msgs[i])
    requires o.suite.blockSize > 0 && SendAll(o, number, msgs).status.Good?
    ensures Lawful(o.suite)
    ensures var p, n := ProcessChunks(env, Midway(core, []), RawAll(o, number, msgs)), FirstShort(o, msgs);
            && p.delivered == Expected(msgs[..n]) && !p.closed
            && (n < |msgs| ==> p.status == BadSecurityChecksFailed)
            && (n == |msgs| ==>
                  p == Progress(Midway(Counted(core, SendAll(o, number, msgs).number), []), [], Expected(msgs), Good, false))
    decreases |msgs|
  {
    hide Lawful, Roomy, SendBodies, RawBodies, CheckSymHeader, InStep, ProcessChunks, Quiet, LongEnough;
    StepFacts(o, env, core, number);
    if msgs == [] {
      NothingToProcess(env, Midway(core, []));
      SameNumber(o, env, core, number);
    } else {
      var msg := msgs[0];
      assert Deliverable(o, env, msg);
      var e := SendMessage(o, number, msg.requestId, msg.messageType, msg.bodies);
      var first := RawBodies(o, number, msg.requestId, msg.messageType, msg.bodies);
      Seqs.Empty(Joined(msg.bodies));
      ProcessAppend(env, Midway(core, []), first, RawAll(o, e.number, msgs[1..]));
      if LongEnough(o, msg.bodies) {
        BodiesProcessed(o, env, core, number, msg.requestId, msg.messageType, msg.bodies, [], 0, 0);
        StaysInStep(o, env, core, number, e.number);
        AllProcessed(o, env, Counted(core, e.number), e.number, msgs[1..]);
        ExpectedMore(msgs, FirstShort(o, msgs[1..]));
      } else {
        BodiesRefused(o, env, core, number, msg.requestId, msg.messageType, msg.bodies, [], 0, 0);
      }
    }
  }

  lemma ExpectedMore(msgs: seq<Outbound>, n: nat)
    requires n < |msgs|
    ensures Expected(msgs[..n + 1])
            == [Message(msgs[0].messageType, msgs[0].requestId, Joined(msgs[0].bodies))] + Expected(msgs[1..][..n])
    ensures Expected(msgs)
            == [Message(msgs[0].messageType, msgs[0].requestId, Joined(msgs[0].bodies))] + Expected(msgs[1..])
  {
    assert msgs[..n + 1][1..] == msgs[1..][..n];
  }

  lemma NothingToProcess(env: Env, w: Work)
    ensures ProcessChunks(env, w, []) == Progress(w, [], [], Good, false)
  {
  }

  lemma SameNumber(o: Sending, env: Env, core: Core, number: UInt32)
    requires InStep(o, env, core, number)
    ensures Counted(core, number) == core
  {
  }

  /** End to end: whatever pieces the chunks of the messages arrive in, the receiver delivers exactly
      those messages in order up to the first that has a signed body of less than two bytes. If there is
      none, it keeps nothing back and is in step with the sender again; otherwise it refuses that one. */
  lemma EndToEnd(o: Sending, env: Env, core: Core, number: UInt32, msgs: seq<Outbound>, pieces: seq<Bytes>)
    requires InStep(o, env, core, number) && Quiet(env) && forall i :: 0 <= i < |msgs| ==> Deliverable(o, env, msgs[i])
    requires o.suite.blockSize > 0 && SendAll(o, number, msgs).status.Good?
    requires pieces != [] && Joined(pieces) == Joined(SendAll(o, number, msgs).chunks)
    ensures var p, n := ProcessPieces(env, Channel(Midway(core, []), [], []), pieces), FirstShort(o, msgs);
            && p.delivered == Expected(msgs[..n]) && !p.closed
            && (p.status.Good? <==> n == |msgs|)
            && (n < |msgs| ==> p.status == BadSecurityChecksFailed)
    ensures var number' := SendAll(o, number, msgs).number;
            FirstShort(o, msgs) == |msgs| ==>
              && ProcessPieces(env, Channel(Midway(core, []), [], []), pieces)
                 == Received(Channel(Midway(Counted(core, number'), []), [], []), Expected(msgs), Good, false)
              && InStep(o, env, Counted(core, number'), number')
  {
    hide Frame, ProcessChunks, SendAll, InStep, Quiet, Deliverable, FirstShort, Expected;
    var ch := Channel(Midway(core, []), [], []);
    AllFrame(o, env, core, number, msgs);
    AllProcessed(o, env, core, number, msgs);
    Seqs.Empty(Joined(pieces));
    Seqs.Empty(RawAll(o, number, msgs));
    AnyCuts(env, ch, pieces);
    AnyCutsFramed(env, ch, pieces);
    StaysInStep(o, env, core, number, SendAll(o, number, msgs).number);
  }

  // ---------- the premises can be met ----------

  /** A policy that meets the premises: a constant signature, and encryption that flips every byte. */
  function ToySuite(): Suite {
    Suite(32, 16, false, (k, m) => seq(32, _ => 0), (k, m, s) => true, (k, p) => Flipped(p), (k, p) => Some(Flipped(p)))
  }

  function Flipped(p: Bytes): Bytes {
    seq(|p|, i requires 0 <= i < |p| => 255 - p[i])
  }

  /** A signed and encrypted message of two chunks between two sides in step. */
  lemma PremisesCanBeMet() returns (o: Sending, env: Env, core: Core, msg: Outbound)
    ensures InStep(o, env, core, 7) && Quiet(env) && Deliverable(o, env, msg) && o.suite.blockSize > 0
    ensures |msg.bodies| == 2 && LongEnough(o, msg.bodies) && o.mode.ModeSignAndEncrypt? && SendAll(o, 7, [msg]).status.Good?
  {
    var token := Token(3, 4, 0, 1000);
    o := Sending(ToySuite(), ModeSignAndEncrypt, 5, 3, 4, 8192, 0, 0);
    core := Core(Open, Normal, ModeSignAndEncrypt, true, token, NO_TOKEN, 5, 5, 5, 7);
    env := Env(8192, 0, 0, 0, ToySuite(), (c, b) => Unpacked(c, Good, 0, []), (c, m) => (c, Good));
    msg := Outbound(MSG, 9, [[1, 2], [3, 4, 5]]);
    ToyLawful();
    assert SendBodies(o, 7, 9, MSG, msg.bodies, 0, 0).status.Good? by {
      assert msg.bodies[1..] == [[3, 4, 5]];
      assert msg.bodies[1..][1..] == [];
    }
    assert SendAll(o, SendMessage(o, 7, 9, MSG, msg.bodies).number, [msg][1..]).status.Good?;
  }

  lemma ToyLawful()
    ensures Lawful(ToySuite())
  {
    var c := ToySuite();
    forall k, p ensures |c.encrypt(k, p)| == |p| && c.decrypt(k, c.encrypt(k, p)) == Some(p) {
      assert Flipped(Flipped(p)) == p;
    }
  }
}

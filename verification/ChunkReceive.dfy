/** The receiving side as the program runs it: a channel whose queues, counters and tokens are
    updated in place. Each method is proved to do what the function of SecureChannel says. */
module ChunkReceive {
  import opened Options
  import opened Words
  import opened Wire
  import opened ChunkCrypto
  import opened SecureChannel
  import SequenceNumbers
  import StreamCuts
  import Seqs

  lemma {:induction false} MessageEndBeyond(q: seq<Chunk>, i: nat)
    requires i < |q| && forall k :: 0 <= k < i ==> !q[k].chunkType.Final?
    ensures i < MessageEnd(q) <= |q|
    decreases i
  {
    if i > 0 {
      MessageEndBeyond(q[1..], i - 1);
    }
  }

  /** A chunk that does not fit decides the verdict on everything behind it. */
  lemma MisfitDecides(first: Chunk, q: seq<Chunk>, i: nat, n: nat)
    requires i < n <= |q| && Consistency(first, q[..i]).Good?
    ensures Consistency(first, [q[i]]).Good? ==> Consistency(first, q[..i + 1]) == Good
    ensures !Consistency(first, [q[i]]).Good? ==> Consistency(first, q[..n]) == Consistency(first, [q[i]])
  {
    hide Consistency;
    assert q[..i] + [q[i]] == q[..i + 1];
    ConsistencyAppend(first, q[..i], [q[i]]);
    assert q[..i + 1] + q[i + 1..n] == q[..n];
    ConsistencyAppend(first, q[..i + 1], q[i + 1..n]);
  }

  lemma {:induction false} ConsistencyAppend(first: Chunk, a: seq<Chunk>, b: seq<Chunk>)
    ensures Consistency(first, a + b) == if Consistency(first, a).Good? then Consistency(first, b) else Consistency(first, a)
    decreases |a|
  {
    if a == [] {
      Seqs.Empty(b);
    } else {
      Seqs.Uncons(a, b);
      ConsistencyAppend(first, a[1..], b);
    }
  }

  class Receiver {
    var state: ChannelState
    var renewState: RenewState
    var securityMode: SecurityMode
    var hasPolicy: bool
    var securityToken: Token
    var altSecurityToken: Token
    var nonces: nat
    var localKeys: nat
    var remoteKeys: nat
    var receiveSequenceNumber: UInt32
    var completeChunks: seq<RawChunk>
    var decryptedChunks: seq<Chunk>
    var decryptedChunksCount: nat
    var decryptedChunksLength: nat
    var incompleteChunk: Bytes

    function Negotiated(): Core
      reads this
    {
      Core(state, renewState, securityMode, hasPolicy, securityToken, altSecurityToken, nonces, localKeys, remoteKeys,
           receiveSequenceNumber)
    }

    ghost function Pending(): Work
      reads this
    {
      Work(Negotiated(), decryptedChunks, decryptedChunksCount, decryptedChunksLength)
    }

    ghost function Abs(): Channel
      reads this
    {
      Channel(Pending(), completeChunks, incompleteChunk)
    }

    /** The chunks and bytes that wait in the channel. */
    ghost function Buffered(): (seq<RawChunk>, seq<Chunk>, Bytes)
      reads this
    {
      (completeChunks, decryptedChunks, incompleteChunk)
    }

    constructor (core: Core)
      ensures Abs() == Channel(Work(core, [], 0, 0), [], [])
    {
      state, renewState, securityMode, hasPolicy := core.state, core.renewState, core.securityMode, core.hasPolicy;
      securityToken, altSecurityToken := core.securityToken, core.altSecurityToken;
      nonces, localKeys, remoteKeys := core.nonces, core.localKeys, core.remoteKeys;
      receiveSequenceNumber := core.receiveSequenceNumber;
      completeChunks, decryptedChunks, decryptedChunksCount, decryptedChunksLength, incompleteChunk := [], [], 0, 0, [];
    }

    /** What a handler outside the channel has made of it; closing it deletes what waits. */
    method TakeOver(core: Core)
      modifies this`state, this`renewState, this`securityMode, this`hasPolicy, this`securityToken, this`altSecurityToken,
               this`nonces, this`localKeys, this`remoteKeys, this`receiveSequenceNumber,
               this`completeChunks, this`decryptedChunks, this`incompleteChunk
      ensures Negotiated() == core && Buffered() == Swept(JustClosed(old(Negotiated()), core), old(Buffered()), ([], [], []))
    {
      if state != Closed && core.state == Closed {
        DeleteBuffered();
      }
      SetNegotiated(core);
    }

    method SetNegotiated(core: Core)
      modifies this`state, this`renewState, this`securityMode, this`hasPolicy, this`securityToken, this`altSecurityToken,
               this`nonces, this`localKeys, this`remoteKeys, this`receiveSequenceNumber
      ensures Negotiated() == core
    {
      state, renewState, securityMode, hasPolicy := core.state, core.renewState, core.securityMode, core.hasPolicy;
      securityToken, altSecurityToken := core.securityToken, core.altSecurityToken;
      nonces, localKeys, remoteKeys := core.nonces, core.localKeys, core.remoteKeys;
      receiveSequenceNumber := core.receiveSequenceNumber;
    }

    /** Deletes everything that waits in the channel. */
    method DeleteBuffered()
      modifies this`completeChunks, this`decryptedChunks, this`incompleteChunk
      ensures Buffered() == ([], [], [])
    {
      completeChunks, decryptedChunks, incompleteChunk := [], [], [];
    }

    method CloseChannel()
      modifies this`state, this`hasPolicy, this`securityToken, this`altSecurityToken, this`nonces, this`localKeys,
               this`remoteKeys, this`completeChunks, this`decryptedChunks, this`incompleteChunk
      ensures Negotiated() == Close(old(Negotiated())) && Buffered() == ([], [], [])
    {
      state := Closed;
      hasPolicy, localKeys, remoteKeys := false, NO_KEYS, NO_KEYS;
      nonces := NO_KEYS;
      securityToken, altSecurityToken := NO_TOKEN, NO_TOKEN;
      DeleteBuffered();
    }

    /** Checks the token of a chunk and completes a renewal when the new one is first used. */
    method CheckSymHeader(tokenId: UInt32, now: int) returns (r: Status)
      modifies this`state, this`renewState, this`hasPolicy, this`securityToken, this`altSecurityToken, this`nonces,
               this`localKeys, this`remoteKeys, this`completeChunks, this`decryptedChunks, this`incompleteChunk
      ensures (Negotiated(), r) == SecureChannel.CheckSymHeader(old(Negotiated()), tokenId, now)
      ensures Buffered() == Swept(JustClosed(old(Negotiated()), Negotiated()), old(Buffered()), ([], [], []))
    {
      var token := securityToken;
      match renewState {
        case Normal =>
        case Sent =>
        case NewTokenServer =>
          if tokenId != securityToken.tokenId {
            if tokenId != altSecurityToken.tokenId {
              return BadSecureChannelTokenUnknown;
            }
            renewState := Normal;
            securityToken := altSecurityToken;
            altSecurityToken := NO_TOKEN;
            localKeys := nonces;
            remoteKeys := nonces;
            token := securityToken;
          }
        case NewTokenClient =>
          if tokenId == altSecurityToken.tokenId {
            token := altSecurityToken;
          } else {
            if tokenId != securityToken.tokenId {
              return BadSecureChannelTokenUnknown;
            }
            renewState := Normal;
            altSecurityToken := NO_TOKEN;
            remoteKeys := nonces;
          }
      }
      var timeout := token.createdAt + token.revisedLifetime * DATETIME_MSEC;
      if state == Open && timeout < now {
        CloseChannel();
        return BadSecureChannelClosed;
      }
      r := Good;
    }

    /** Takes the next number, or rolls over to a small one. */
    method ProcessSequenceNumberSym(number: UInt32) returns (r: Status)
      modifies this`receiveSequenceNumber
      ensures (Negotiated(), r) == ProcessSequenceNumber(old(Negotiated()), number)
      ensures !r.Good? ==> receiveSequenceNumber == old(receiveSequenceNumber)
    {
      if number != U32(receiveSequenceNumber + 1) {
        if U32(receiveSequenceNumber + 1) <= SequenceNumbers.ROLLOVER || number >= 1024 {
          return BadSecurityChecksFailed;
        }
        receiveSequenceNumber := U32(number + WORD - 1);
      }
      receiveSequenceNumber := U32(receiveSequenceNumber + 1);
      r := Good;
    }

    method UnpackPayloadMSG(env: Env, chunk: FullChunk) returns (u: Unpacked)
      modifies this`state, this`renewState, this`hasPolicy, this`securityToken, this`altSecurityToken, this`nonces,
               this`localKeys, this`remoteKeys, this`receiveSequenceNumber,
               this`completeChunks, this`decryptedChunks, this`incompleteChunk
      ensures u == UnpackMSG(env, old(Negotiated()), chunk) && u.core == Negotiated()
      ensures Buffered() == Swept(JustClosed(old(Negotiated()), Negotiated()), old(Buffered()), ([], [], []))
    {
      hide DecodeU32;
      if !hasPolicy {
        return Unpacked(Negotiated(), BadInternalError, 0, []);
      }
      var offset := MESSAGEHEADER_LENGTH;
      var secureChannelId := DecodeU32(chunk, offset);
      offset := offset + 4;
      var tokenId := DecodeU32(chunk, offset);
      offset := offset + 4;
      if secureChannelId != securityToken.channelId {
        return Unpacked(Negotiated(), BadSecureChannelIdInvalid, 0, []);
      }
      var res := CheckSymHeader(tokenId, env.now);
      if res != Good {
        return Unpacked(Negotiated(), res, 0, []);
      }
      var (st, plain) := DecryptAndVerify(env.suite, securityMode, remoteKeys, chunk);
      if st != Good {
        return Unpacked(Negotiated(), st, 0, []);
      }
      if |plain| < HEADER_TOTALLENGTH {
        res := ProcessSequenceNumberSym(0);
        return Unpacked(Negotiated(), if res == Good then BadDecodingError else Merged(BadDecodingError, res), 0, []);
      }
      var sequenceNumber, requestId := DecodeU32(plain, offset), DecodeU32(plain, offset + 4);
      res := ProcessSequenceNumberSym(sequenceNumber);
      u := Unpacked(Negotiated(), res, requestId, plain[HEADER_TOTALLENGTH..]);
    }

    /** What the message type of a complete chunk asks for. */
    method UnpackPayload(env: Env, c: RawChunk) returns (u: Unpacked)
      modifies this`state, this`renewState, this`securityMode, this`hasPolicy, this`securityToken, this`altSecurityToken,
               this`nonces, this`localKeys, this`remoteKeys, this`receiveSequenceNumber,
               this`completeChunks, this`decryptedChunks, this`incompleteChunk
      ensures u == Unpack(env, old(Negotiated()), c) && u.core == Negotiated()
      ensures Buffered() == Swept(JustClosed(old(Negotiated()), Negotiated()), old(Buffered()), ([], [], []))
    {
      hide UnpackMSG;
      if c.messageType == OPN {
        if state != Open && state != OpnSent && state != AckSent {
          return Unpacked(Negotiated(), BadInvalidState, 0, []);
        }
        u := env.unpackOPN(Negotiated(), c.bytes);
        TakeOver(u.core);
      } else if c.messageType == MSG || c.messageType == CLO {
        if state == Closed {
          return Unpacked(Negotiated(), BadSecureChannelClosed, 0, []);
        }
        u := UnpackPayloadMSG(env, c.bytes);
      } else {
        u := Unpacked(Negotiated(), Good, 0, c.bytes[MESSAGEHEADER_LENGTH..]);
      }
    }

    /** Whether the chunks up to the first final one belong together. */
    method CheckChunks() returns (r: Status)
      requires decryptedChunks != [] && !decryptedChunks[0].chunkType.Final?
      requires exists i :: 0 <= i < |decryptedChunks| && decryptedChunks[i].chunkType.Final?
      ensures r == Consistency(decryptedChunks[0], decryptedChunks[..MessageEnd(decryptedChunks)])
    {
      hide Consistency, MessageEnd;
      var q := decryptedChunks;
      var first := q[0];
      var i := 0;
      NoneMisfits(first);
      while i < |q|
        invariant i <= |q| && Consistency(first, q[..i]).Good?
        invariant forall k :: 0 <= k < i ==> !q[k].chunkType.Final?
      {
        OneMisfits(first, q[i]);
        MessageEndBeyond(q, i);
        MisfitDecides(first, q, i, MessageEnd(q));
        if first.requestId != q[i].requestId {
          return BadInternalError;
        }
        if first.chunkType != q[i].chunkType && q[i].chunkType != Final {
          return BadTcpMessageTypeInvalid;
        }
        if q[i].messageType != first.messageType {
          return BadTcpMessageTypeInvalid;
        }
        if q[i].chunkType == Final {
          MessageEndAt(q, i);
          return Good;
        }
        i := i + 1;
      }
      assert false;
    }

    /** Joins the bodies of the first n chunks and takes the chunks off the queue. */
    method TakeBodies(n: nat) returns (payload: Bytes)
      requires n <= |decryptedChunks|
      modifies this`decryptedChunks
      ensures payload == Bodies(old(decryptedChunks)[..n]) && decryptedChunks == old(decryptedChunks)[n..]
    {
      hide Bodies;
      ghost var q := decryptedChunks;
      payload := [];
      NoBodies();
      for i := 0 to n
        invariant decryptedChunks == q[i..] && payload == Bodies(q[..i])
      {
        OneMoreBody(q, i);
        payload := payload + decryptedChunks[0].bytes;
        decryptedChunks := decryptedChunks[1..];
      }
    }

    /** The first final chunk is in the queue: delivers the message it completes. */
    method AssembleProcessMessage(env: Env) returns (delivered: seq<Message>, r: Status)
      requires exists i :: 0 <= i < |decryptedChunks| && decryptedChunks[i].chunkType.Final?
      modifies this
      ensures var o := Assemble(env, old(Pending()));
              && Pending() == o.work && delivered == o.delivered && r == o.status
              && Outside() == Swept(o.closed, old(Outside()), ([], []))
    {
      hide MessageEnd, Consistency, Bodies;
      var first := decryptedChunks[0];
      ghost var n := MessageEnd(decryptedChunks);
      FirstFinal(decryptedChunks);
      if first.chunkType != Final {
        var res := CheckChunks();
        if res != Good {
          return [], res;
        }
      }
      var payload := TakeBodies(MessageEnd(decryptedChunks));
      var m := Message(first.messageType, first.requestId, payload);
      var (core', st) := env.callback(Negotiated(), m);
      TakeOver(core');
      delivered, r := [m], st;
    }

    /** What waits outside of the message being put together. */
    ghost function Outside(): (seq<RawChunk>, Bytes)
      reads this
    {
      (completeChunks, incompleteChunk)
    }

    /** Works through the complete chunks: checks, decrypts, queues, and delivers. */
    method ProcessChunks(env: Env) returns (delivered: seq<Message>, r: Status)
      modifies this
      ensures var p := SecureChannel.ProcessChunks(env, old(Pending()), old(completeChunks));
              && Pending() == p.work && completeChunks == p.left && delivered == p.delivered && r == p.status
              && incompleteChunk == if p.closed then [] else old(incompleteChunk)
    {
      hide ProcessChunk;
      ghost var p, closed := SecureChannel.ProcessChunks(env, Pending(), completeChunks), false;
      delivered := [];
      Seqs.Empty(p.delivered);
      while completeChunks != []
        invariant incompleteChunk == if closed then [] else old(incompleteChunk)
        invariant Ahead(p, delivered, closed, SecureChannel.ProcessChunks(env, Pending(), completeChunks))
        invariant closed ==> completeChunks == []
        decreases |completeChunks|
      {
        ghost var w, before := Pending(), delivered;
        var chunk := completeChunks[0];
        completeChunks := completeChunks[1..];
        closed := ProcessChunk(env, w, chunk).closed;
        var ms;
        ms, r := ProcessOne(env, chunk);
        delivered := delivered + ms;
        if r != Good {
          return;
        }
        Seqs.Assoc(before, ms, SecureChannel.ProcessChunks(env, Pending(), completeChunks).delivered);
      }
      Seqs.Empty(delivered);
      r := Good;
    }

    /** Unpacks one chunk and queues it. */
    method ProcessOne(env: Env, c: RawChunk) returns (delivered: seq<Message>, r: Status)
      modifies this
      ensures var o := ProcessChunk(env, old(Pending()), c);
              && Pending() == o.work && delivered == o.delivered && r == o.status
              && Outside() == Swept(o.closed, old(Outside()), ([], []))
    {
      hide Unpack, SecureChannel.QueueChunk;
      var u := UnpackPayload(env, c);
      if u.status != Good {
        return [], u.status;
      }
      delivered, r := QueueChunk(env, Chunk(u.body, c.messageType, c.chunkType, u.requestId));
    }

    /** Keeps the limits, and aborts or completes the message where the chunk type asks for it. */
    method QueueChunk(env: Env, chunk: Chunk) returns (delivered: seq<Message>, r: Status)
      modifies this
      ensures var o := SecureChannel.QueueChunk(env, old(Pending()), chunk);
              && Pending() == o.work && delivered == o.delivered && r == o.status
              && Outside() == Swept(o.closed, old(Outside()), ([], []))
    {
      hide Assemble;
      decryptedChunks := decryptedChunks + [chunk];
      decryptedChunksCount := decryptedChunksCount + 1;
      decryptedChunksLength := decryptedChunksLength + |chunk.bytes|;
      if (env.maxChunkCount != 0 && decryptedChunksCount > env.maxChunkCount) ||
         (env.maxMessageSize != 0 && decryptedChunksLength > env.maxMessageSize) {
        return [], BadTcpMessageTooLarge;
      }
      if chunk.chunkType == Intermediate {
        return [], Good;
      }
      decryptedChunksCount := 0;
      decryptedChunksLength := 0;
      if chunk.chunkType == Abort {
        decryptedChunks := [];
        return [], Good;
      }
      assert decryptedChunks[|decryptedChunks| - 1].chunkType.Final?;
      delivered, r := AssembleProcessMessage(env);
    }

    /** Puts the complete chunk at the offset into the queue, if there is one. */
    method ExtractCompleteChunk(limit: nat, buffer: Bytes, offset: nat) returns (offset': nat, done: bool, r: Status)
      requires offset <= |buffer|
      modifies this`completeChunks
      ensures match Extract(limit, buffer[offset..])
              case Done => r == Good && done && offset' == offset && completeChunks == old(completeChunks)
              case Failed(st) => r == st && r != Good && completeChunks == old(completeChunks)
              case Extracted(c) => r == Good && !done && offset' == offset + |c.bytes| <= |buffer|
                                   && completeChunks == old(completeChunks) + [c]
    {
      hide DecodeU32, MessageTypeOf, ChunkTypeOf;
      offset', done := offset, false;
      var remaining := |buffer| - offset;
      if remaining < MESSAGEHEADER_LENGTH {
        return offset, true, Good;
      }
      WordsBehind(buffer, offset);
      var word, messageSize := DecodeU32(buffer, offset), DecodeU32(buffer, offset + 4);
      var msgType, chunkType := MessageTypeOf(word), ChunkTypeOf(word);
      if messageSize < MESSAGE_MIN_LENGTH {
        return offset, false, BadTcpMessageTypeInvalid;
      }
      if messageSize > limit {
        return offset, false, BadTcpMessageTooLarge;
      }
      if messageSize > remaining {
        return offset, true, Good;
      }
      AllTypes(msgType, chunkType);
      if msgType == Some(HEL) || msgType == Some(ACK) || msgType == Some(ERR) || msgType == Some(OPN) {
        if chunkType != Some(Final) {
          return offset, false, BadTcpMessageTypeInvalid;
        }
      } else {
        if msgType != Some(MSG) && msgType != Some(CLO) {
          return offset, false, BadTcpMessageTypeInvalid;
        }
        if chunkType != Some(Final) && chunkType != Some(Intermediate) && chunkType != Some(Abort) {
          return offset, false, BadTcpMessageTypeInvalid;
        }
      }
      assert buffer[offset..offset + messageSize] == buffer[offset..][..messageSize];
      completeChunks := completeChunks + [RawChunk(buffer[offset..offset + messageSize], msgType.value, chunkType.value)];
      return offset + messageSize, false, Good;
    }

    /** Takes every complete chunk off the buffer; the offset grows by at least 16 each time. */
    method ExtractAll(limit: nat, buffer: Bytes) returns (offset: nat, r: Status)
      modifies this`completeChunks
      ensures offset <= |buffer|
      ensures var f := Frame(limit, buffer);
              r == f.status && completeChunks == old(completeChunks) + f.chunks && (r.Good? ==> buffer[offset..] == f.left)
    {
      hide Extract;
      offset := 0;
      var done := false;
      ghost var f := Frame(limit, buffer);
      assert buffer[0..] == buffer;
      Seqs.Empty(f.chunks);
      while !done
        invariant offset <= |buffer|
        invariant if done then f == Framing(f.chunks, buffer[offset..], Good) && completeChunks == old(completeChunks) + f.chunks
                  else var g := Frame(limit, buffer[offset..]);
                       old(completeChunks) + f.chunks == completeChunks + g.chunks && f.left == g.left && f.status == g.status
        decreases !done, |buffer| - offset
      {
        ghost var rest, q := buffer[offset..], completeChunks;
        StreamCuts.ExtractedLength(limit, rest);
        Seqs.Empty(completeChunks);
        var next;
        next, done, r := ExtractCompleteChunk(limit, buffer, offset);
        if r != Good {
          return;
        }
        if !done {
          var c := completeChunks[|q|];
          assert buffer[next..] == rest[|c.bytes|..];
          Seqs.Assoc(q, [c], Frame(limit, buffer[next..]).chunks);
        }
        offset := next;
      }
      r := Good;
    }

    /** Takes a buffer from the network. */
    method ProcessBuffer(env: Env, buffer: Bytes) returns (delivered: seq<Message>, r: Status)
      modifies this
      ensures var p := SecureChannel.ProcessBuffer(env, old(Abs()), buffer);
              Abs() == p.channel && delivered == p.delivered && r == p.status
      ensures r.Good? ==> |incompleteChunk| < MESSAGEHEADER_LENGTH || |incompleteChunk| < env.recvBufferSize
    {
      hide Frame, ProcessChunk;
      var appended := incompleteChunk + buffer;
      incompleteChunk := [];
      var offset;
      offset, r := ExtractAll(env.recvBufferSize, appended);
      if r != Good {
        return [], r;
      }
      StreamCuts.LeftoverIsShort(env.recvBufferSize, appended);
      if offset < |appended| {
        incompleteChunk := appended[offset..];
      }
      delivered, r := ProcessChunks(env);
    }
  }

  /** What has been done and what a function of the rest will add make up the whole. */
  ghost predicate Ahead(p: Progress, delivered: seq<Message>, closed: bool, rest: Progress) {
    p == rest.(delivered := delivered + rest.delivered, closed := closed || rest.closed)
  }

  /** What waits, before and after the channel may have been closed. */
  function Swept<T>(closed: bool, b: T, nothing: T): T {
    if closed then nothing else b
  }

  lemma AllTypes(m: Option<MessageType>, c: Option<ChunkType>)
    ensures m in {None, Some(HEL), Some(ACK), Some(ERR), Some(OPN), Some(MSG), Some(CLO)}
    ensures c in {None, Some(Final), Some(Intermediate), Some(Abort)}
  {
    assert m.Some? ==> m.value.HEL? || m.value.ACK? || m.value.ERR? || m.value.OPN? || m.value.MSG? || m.value.CLO?;
    assert c.Some? ==> c.value.Final? || c.value.Intermediate? || c.value.Abort?;
  }

  lemma OneMoreBody(q: seq<Chunk>, i: nat)
    requires i < |q|
    ensures Bodies(q[..i + 1]) == Bodies(q[..i]) + q[i].bytes
  {
    assert q[..i + 1] == q[..i] + [q[i]];
    BodiesAppend(q[..i], q[i]);
  }

  lemma {:induction false} FirstFinal(q: seq<Chunk>)
    requires exists i :: 0 <= i < |q| && q[i].chunkType.Final?
    ensures q != [] && q[0].chunkType.Final? ==> MessageEnd(q) == 1
    ensures MessageEnd(q) <= |q|
  {
  }

  lemma WordsBehind(buffer: Bytes, offset: nat)
    requires offset + MESSAGEHEADER_LENGTH <= |buffer|
    ensures DecodeU32(buffer[offset..], 0) == DecodeU32(buffer, offset)
    ensures DecodeU32(buffer[offset..], 4) == DecodeU32(buffer, offset + 4)
  {
    assert forall i :: 0 <= i < 8 ==> buffer[offset..][i] == buffer[offset + i];
  }

  lemma NoneMisfits(first: Chunk)
    ensures Consistency(first, []).Good?
  {
  }

  lemma OneMisfits(first: Chunk, c: Chunk)
    ensures Consistency(first, [c])
            == if c.requestId != first.requestId then BadInternalError
               else if c.chunkType != first.chunkType && !c.chunkType.Final? then BadTcpMessageTypeInvalid
               else if c.messageType != first.messageType then BadTcpMessageTypeInvalid
               else Good
  {
    assert [c][1..] == [];
  }
}

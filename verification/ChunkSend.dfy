/** The sending side: a message is written into a chunk-sized buffer by the encoding layer, which
    has the buffer padded, numbered, signed, encrypted and sent whenever it is full. */
module ChunkSend {
  import opened Options
  import opened Words
  import opened Wire
  import opened ChunkCrypto
  import opened SecureChannel
  import SequenceNumbers
  import Seqs

  /** What the sender has negotiated, and its limits. */
  datatype Sending = Sending(
    suite: Suite,
    mode: SecurityMode,
    keys: nat,
    channelId: UInt32,
    tokenId: UInt32,
    sendBufferSize: nat,
    maxMessageSize: nat,
    maxChunkCount: nat)

  function SignedChunk(o: Sending, plain: Bytes): Bytes {
    plain + if Signed(o.mode) then o.suite.sign(o.keys, plain) else []
  }

  /** The chunk for a body, as bytes. */
  function EncodeChunk(o: Sending, number: UInt32, requestId: UInt32, m: MessageType, final: bool, body: Bytes): Bytes
    requires o.suite.blockSize > 0
  {
    var signed := SignedChunk(o, Plain(o, number, requestId, m, final, body));
    if o.mode.ModeSignAndEncrypt? && |signed| >= HEADER_UNENCRYPTEDLENGTH then
      signed[..HEADER_UNENCRYPTEDLENGTH] + o.suite.encrypt(o.keys, signed[HEADER_UNENCRYPTEDLENGTH..])
    else
      signed
  }

  function ChunkHeaders(o: Sending, number: UInt32, requestId: UInt32, m: MessageType, final: bool, bodyLength: nat)
    : (s: Bytes)
    requires o.suite.blockSize > 0
    ensures |s| == HEADER_TOTALLENGTH
  {
    TypeWord(m, if final then Final else Intermediate);
    Headers(TypeCode(m) + ChunkCode(if final then Final else Intermediate),
            U32(TotalLength(o.suite, o.mode, HEADER_TOTALLENGTH + bodyLength)), o.channelId, o.tokenId, number, requestId)
  }

  function PaddingFor(o: Sending, bodyLength: nat): Bytes
    requires o.suite.blockSize > 0
  {
    if o.mode.ModeSignAndEncrypt? then Padding(o.suite, HEADER_TOTALLENGTH + bodyLength - HEADER_UNENCRYPTEDLENGTH) else []
  }

  /** Headers, body and padding: what is signed. */
  function Plain(o: Sending, number: UInt32, requestId: UInt32, m: MessageType, final: bool, body: Bytes): Bytes
    requires o.suite.blockSize > 0
  {
    ChunkHeaders(o, number, requestId, m, final, |body|) + body + PaddingFor(o, |body|)
  }

  /** The premises on a policy: verification accepts what signing made, decryption undoes
      encryption of whole blocks, and neither changes lengths. */
  ghost predicate Lawful(c: Suite) {
    && 0 < c.blockSize <= LargestBlock(c)
    && (forall k, m :: |c.sign(k, m)| == c.signatureSize && c.verify(k, m, c.sign(k, m)))
    && (forall k, p :: |p| % c.blockSize == 0 ==> |c.encrypt(k, p)| == |p| && c.decrypt(k, c.encrypt(k, p)) == Some(p))
  }

  lemma PaddingEnds(c: Suite, written: nat)
    requires Lawful(c)
    ensures LoopEnds(PaddingLength(c, written))
  {
    var signature: Bytes := seq(c.signatureSize, _ => 0);
    PaddingRead(c, [], written, signature);
  }

  /** The buffer has room for headers, and every chunk laid out in it fits. */
  predicate Roomy(o: Sending)
  {
    && o.suite.blockSize > 0 && o.sendBufferSize < WORD
    && BodyEnd(o.suite, o.mode, o.sendBufferSize) >= HEADER_TOTALLENGTH
    && (o.mode.ModeSignAndEncrypt? ==> HEADER_UNENCRYPTEDLENGTH % o.suite.blockSize <= o.sendBufferSize % o.suite.blockSize)
  }

  predicate BodyFits(o: Sending, body: Bytes)
    requires o.suite.blockSize > 0
  {
    HEADER_TOTALLENGTH + |body| <= BodyEnd(o.suite, o.mode, o.sendBufferSize)
  }

  lemma TotalFits(o: Sending, body: Bytes)
    requires Roomy(o) && BodyFits(o, body)
    ensures TotalLength(o.suite, o.mode, HEADER_TOTALLENGTH + |body|) <= o.sendBufferSize
  {
    if o.mode.ModeSignAndEncrypt? {
      ChunksFit(o.suite, o.sendBufferSize);
    } else {
      PlainChunksFit(o.suite, o.mode, o.sendBufferSize, HEADER_TOTALLENGTH + |body|);
    }
  }

  /** The limits on one message, counted per chunk; the chunk counter has 16 bits. */
  predicate WithinLimits(o: Sending, count: nat, size: nat) {
    && (o.maxMessageSize != 0 ==> size <= o.maxMessageSize)
    && (o.maxChunkCount != 0 ==> count <= o.maxChunkCount)
  }

  datatype Emission = Emission(chunks: seq<Bytes>, number: UInt32, status: Status)

  /** The rest of a message, one chunk per body, the last one final; number is the last one used. */
  function SendBodies(o: Sending, number: UInt32, requestId: UInt32, m: MessageType, bodies: seq<Bytes>,
                      count: nat, size: nat): Emission
    requires o.suite.blockSize > 0
    decreases |bodies|
  {
    if bodies == [] then Emission([], number, Good)
    else
      var count', size' := (count + 1) % 0x1_0000, size + |bodies[0]|;
      if !WithinLimits(o, count', size') then Emission([], number, BadResponseTooLarge)
      else
        var number' := SequenceNumbers.Next(number);
        var r := SendBodies(o, number', requestId, m, bodies[1..], count', size');
        r.(chunks := [EncodeChunk(o, number', requestId, m, |bodies| == 1, bodies[0])] + r.chunks)
  }

  function SendMessage(o: Sending, number: UInt32, requestId: UInt32, m: MessageType, bodies: seq<Bytes>): Emission
    requires o.suite.blockSize > 0
  {
    if m.MSG? || m.CLO? then SendBodies(o, number, requestId, m, bodies, 0, 0)
    else Emission([], number, BadInternalError)
  }

  // ---------- a chunk, step by step ----------

  lemma EncodedBySteps(o: Sending, number: UInt32, requestId: UInt32, m: MessageType, final: bool, body: Bytes)
    requires o.suite.blockSize > 0
    ensures var signed := SignedChunk(o, Plain(o, number, requestId, m, final, body));
            && |signed| >= HEADER_TOTALLENGTH
            && EncodeChunk(o, number, requestId, m, final, body)
               == if o.mode.ModeSignAndEncrypt? then
                    signed[..HEADER_UNENCRYPTEDLENGTH] + o.suite.encrypt(o.keys, signed[HEADER_UNENCRYPTEDLENGTH..])
                  else signed
  {
  }

  lemma WholeChunkBlocks(o: Sending, body: Bytes)
    requires o.suite.blockSize > 0 && o.mode.ModeSignAndEncrypt?
    ensures (TotalLength(o.suite, o.mode, HEADER_TOTALLENGTH + |body|) - HEADER_UNENCRYPTEDLENGTH) % o.suite.blockSize == 0
  {
    var _ := WholeBlocks(o.suite, HEADER_TOTALLENGTH + |body|);
  }

  // ---------- overwriting stretches of a buffer ----------

  /** Copies bytes into the buffer. */
  method Put(buffer: array<Byte>, at: nat, bytes: Bytes)
    requires at + |bytes| <= buffer.Length
    modifies buffer
    ensures buffer[..] == old(buffer[..])[..at] + bytes + old(buffer[..])[at + |bytes|..]
  {
    for i := 0 to |bytes|
      invariant forall k :: 0 <= k < at || at + i <= k < buffer.Length ==> buffer[k] == old(buffer[k])
      invariant forall k :: at <= k < at + i ==> buffer[k] == bytes[k - at]
    {
      buffer[at + i] := bytes[i];
    }
    Spliced(buffer[..], old(buffer[..]), at, bytes);
  }

  lemma GrowsBehind(was: Bytes, now: Bytes, from: nat, pos: nat, p: Bytes)
    requires from <= pos && pos + |p| <= |was| && now == was[..pos] + p + was[pos + |p|..]
    ensures |now| == |was| && now[from..pos + |p|] == was[from..pos] + p
  {
  }

  lemma GrowsBefore(was: Bytes, now: Bytes, h: Bytes, pos: nat)
    requires |h| <= pos <= |was| && now == was[..0] + h + was[|h|..]
    ensures |now| == |was| && now[..pos] == h + was[|h|..pos]
  {
  }

  lemma ChangesInside(was: Bytes, now: Bytes, at: nat, e: Bytes)
    requires at + |e| <= |was| && now == was[..at] + e + was[at + |e|..]
    ensures |now| == |was| && now[..at + |e|] == was[..at + |e|][..at] + e
  {
  }

  datatype ConnectionState = ConnectionClosed | ConnectionOpening | ConnectionEstablished

  /** The channel as far as sending needs it. */
  class Sender {
    const o: Sending
    var state: ChannelState
    var connection: Option<ConnectionState>
    var sendSequenceNumber: UInt32
    var sent: seq<Bytes>

    constructor (o: Sending, state: ChannelState, connection: Option<ConnectionState>, number: UInt32)
      ensures this.o == o && this.state == state && this.connection == connection
      ensures sendSequenceNumber == number && sent == []
    {
      this.o, this.state, this.connection := o, state, connection;
      sendSequenceNumber, sent := number, [];
    }
  }

  class MessageContext {
    const channel: Sender
    const requestId: UInt32
    const messageType: MessageType
    var chunksSoFar: nat
    var messageSizeSoFar: nat
    var messageBuffer: array<Byte>
    var bufPos: nat
    var bufEnd: nat
    var final: bool

    ghost predicate Valid()
      reads this
    {
      && Roomy(channel.o) && Lawful(channel.o.suite)
      && messageBuffer.Length == channel.o.sendBufferSize
      && bufEnd == BodyEnd(channel.o.suite, channel.o.mode, channel.o.sendBufferSize)
      && HEADER_TOTALLENGTH <= bufPos <= bufEnd
    }

    /** The part of the message in the buffer. */
    ghost function Body(): Bytes
      requires bufPos >= HEADER_TOTALLENGTH && bufPos <= messageBuffer.Length
      reads this, messageBuffer
    {
      messageBuffer[HEADER_TOTALLENGTH..bufPos]
    }

    constructor Begin(channel: Sender, requestId: UInt32, messageType: MessageType)
      requires Roomy(channel.o) && Lawful(channel.o.suite)
      ensures Valid() && fresh(messageBuffer) && bufPos <= messageBuffer.Length && Body() == []
      ensures !final && chunksSoFar == 0 && messageSizeSoFar == 0
      ensures this.channel == channel && this.requestId == requestId && this.messageType == messageType
    {
      this.channel, this.requestId, this.messageType := channel, requestId, messageType;
      chunksSoFar, messageSizeSoFar, final := 0, 0, false;
      messageBuffer := new Byte[channel.o.sendBufferSize](_ => 0);
      bufPos, bufEnd := 0, 0;
      new;
      SetBufPos();
    }

    /** Leaves room for headers, signature and padding. */
    method SetBufPos()
      requires Roomy(channel.o) && Lawful(channel.o.suite) && messageBuffer.Length == channel.o.sendBufferSize
      modifies this`bufPos, this`bufEnd
      ensures Valid() && bufPos == HEADER_TOTALLENGTH <= messageBuffer.Length
    {
      var c, length := channel.o.suite, messageBuffer.Length;
      bufPos := HEADER_TOTALLENGTH;
      if channel.o.mode.ModeNone? {
        bufEnd := length;
        return;
      }
      var end: int := length;
      end := end - c.signatureSize;
      end := end - length % c.blockSize;
      if channel.o.mode.ModeSignAndEncrypt? {
        end := end - PaddingBytes(c);
      }
      bufEnd := end;
    }

    /** The encoding layer writes as much as there is room for. */
    method Write(bytes: Bytes)
      requires Valid() && bufPos + |bytes| <= bufEnd <= messageBuffer.Length
      modifies this`bufPos, messageBuffer
      ensures Valid() && bufPos == old(bufPos) + |bytes| && Body() == old(Body()) + bytes
    {
      ghost var was := messageBuffer[..];
      Put(messageBuffer, bufPos, bytes);
      GrowsBehind(was, messageBuffer[..], HEADER_TOTALLENGTH, bufPos, bytes);
      bufPos := bufPos + |bytes|;
      assert messageBuffer[..][HEADER_TOTALLENGTH..bufPos] == Body();
    }

    /** Sends what is in the buffer as one chunk, unless the message gets too large. */
    method SendChunk() returns (r: Status)
      requires Valid()
      modifies this`bufPos, this`chunksSoFar, this`messageSizeSoFar, messageBuffer, channel`sendSequenceNumber, channel`sent
      ensures bufPos <= messageBuffer.Length
      ensures chunksSoFar == (old(chunksSoFar) + 1) % 0x1_0000 && messageSizeSoFar == old(messageSizeSoFar) + |old(Body())|
      ensures if WithinLimits(channel.o, chunksSoFar, messageSizeSoFar) then
                && r == Good && channel.sendSequenceNumber == SequenceNumbers.Next(old(channel.sendSequenceNumber))
                && channel.sent == old(channel.sent)
                     + [EncodeChunk(channel.o, channel.sendSequenceNumber, requestId, messageType, final, old(Body()))]
              else
                r == BadResponseTooLarge && channel.sendSequenceNumber == old(channel.sendSequenceNumber)
                && channel.sent == old(channel.sent)
    {
      hide EncodeChunk, Lawful;
      ghost var body := Body();
      var bodyLength := bufPos - HEADER_TOTALLENGTH;
      messageSizeSoFar := messageSizeSoFar + bodyLength;
      chunksSoFar := (chunksSoFar + 1) % 0x1_0000;
      if !WithinLimits(channel.o, chunksSoFar, messageSizeSoFar) {
        return BadResponseTooLarge;
      }
      TotalFits(channel.o, body);
      Pad();
      var total := bufPos + if Signed(channel.o.mode) then channel.o.suite.signatureSize else 0;
      channel.sendSequenceNumber := SequenceNumbers.Next(channel.sendSequenceNumber);
      Seal(channel.sendSequenceNumber, total, body);
      channel.sent := channel.sent + [messageBuffer[..total]];
      r := Good;
    }

    /** Pads the body when the chunk will be encrypted. */
    method Pad()
      requires Valid() && TotalLength(channel.o.suite, channel.o.mode, bufPos) <= messageBuffer.Length
      modifies this`bufPos, messageBuffer
      ensures old(bufPos) <= bufPos == old(bufPos) + |PaddingFor(channel.o, |old(Body())|)| <= messageBuffer.Length
      ensures messageBuffer[HEADER_TOTALLENGTH..bufPos] == old(Body()) + PaddingFor(channel.o, |old(Body())|)
    {
      hide Padding;
      ghost var was, body := messageBuffer[..], Body();
      if channel.o.mode.ModeSignAndEncrypt? {
        PaddingEnds(channel.o.suite, bufPos - HEADER_UNENCRYPTEDLENGTH);
        var pos := PadChunk(channel.o.suite, messageBuffer, HEADER_UNENCRYPTEDLENGTH, bufPos);
        GrowsBehind(was, messageBuffer[..], HEADER_TOTALLENGTH, bufPos, PaddingFor(channel.o, |body|));
        bufPos := pos;
        assert messageBuffer[HEADER_TOTALLENGTH..bufPos] == messageBuffer[..][HEADER_TOTALLENGTH..bufPos];
        assert body == was[HEADER_TOTALLENGTH..old(bufPos)];
      } else {
        Seqs.Empty(body);
      }
    }

    /** Writes headers, signature and encrypted content. */
    method Seal(number: UInt32, total: nat, ghost body: Bytes)
      requires Roomy(channel.o) && Lawful(channel.o.suite) && HEADER_TOTALLENGTH <= bufPos <= total <= messageBuffer.Length
      requires total == TotalLength(channel.o.suite, channel.o.mode, HEADER_TOTALLENGTH + |body|)
      requires total == bufPos + if Signed(channel.o.mode) then channel.o.suite.signatureSize else 0
      requires messageBuffer[HEADER_TOTALLENGTH..bufPos] == body + PaddingFor(channel.o, |body|)
      modifies messageBuffer
      ensures messageBuffer[..total] == EncodeChunk(channel.o, number, requestId, messageType, final, body)
    {
      hide ChunkHeaders, PaddingFor, EncodeChunk, Lawful, TotalLength, Plain;
      ghost var plain := Plain(channel.o, number, requestId, messageType, final, body);
      WriteHeaders(number, total, body);
      if Signed(channel.o.mode) {
        Sign(total, plain);
      }
      assert messageBuffer[..total] == SignedChunk(channel.o, plain) by {
        Seqs.Empty(plain);
      }
      if channel.o.mode.ModeSignAndEncrypt? {
        WholeChunkBlocks(channel.o, body);
        Encrypt(total);
      }
      EncodedBySteps(channel.o, number, requestId, messageType, final, body);
    }

    method WriteHeaders(number: UInt32, total: nat, ghost body: Bytes)
      requires channel.o.suite.blockSize > 0 && HEADER_TOTALLENGTH <= bufPos <= messageBuffer.Length
      requires total == TotalLength(channel.o.suite, channel.o.mode, HEADER_TOTALLENGTH + |body|)
      requires messageBuffer[HEADER_TOTALLENGTH..bufPos] == body + PaddingFor(channel.o, |body|)
      modifies messageBuffer
      ensures messageBuffer[..bufPos] == Plain(channel.o, number, requestId, messageType, final, body)
    {
      hide PaddingFor, TotalLength, Headers;
      ghost var was := messageBuffer[..];
      TypeWord(messageType, if final then Final else Intermediate);
      var header := Headers(TypeCode(messageType) + ChunkCode(if final then Final else Intermediate), U32(total),
                            channel.o.channelId, channel.o.tokenId, number, requestId);
      assert header == ChunkHeaders(channel.o, number, requestId, messageType, final, |body|);
      Put(messageBuffer, 0, header);
      GrowsBefore(was, messageBuffer[..], header, bufPos);
      assert messageBuffer[..bufPos] == messageBuffer[..][..bufPos];
      assert was[HEADER_TOTALLENGTH..bufPos] == body + PaddingFor(channel.o, |body|);
      Seqs.Assoc(header, body, PaddingFor(channel.o, |body|));
    }

    method Sign(total: nat, ghost plain: Bytes)
      requires Lawful(channel.o.suite) && bufPos + channel.o.suite.signatureSize == total <= messageBuffer.Length
      requires messageBuffer[..bufPos] == plain
      modifies messageBuffer
      ensures messageBuffer[..total] == plain + channel.o.suite.sign(channel.o.keys, plain)
    {
      ghost var was := messageBuffer[..];
      var signature := channel.o.suite.sign(channel.o.keys, messageBuffer[..bufPos]);
      assert |signature| == channel.o.suite.signatureSize;
      Put(messageBuffer, bufPos, signature);
      GrowsBehind(was, messageBuffer[..], 0, bufPos, signature);
      assert messageBuffer[..][0..total] == messageBuffer[..total];
      assert was[0..bufPos] == plain;
    }

    method Encrypt(total: nat)
      requires Lawful(channel.o.suite) && HEADER_UNENCRYPTEDLENGTH <= total <= messageBuffer.Length
      requires (total - HEADER_UNENCRYPTEDLENGTH) % channel.o.suite.blockSize == 0
      modifies messageBuffer
      ensures var was := old(messageBuffer[..total]);
              messageBuffer[..total] == was[..HEADER_UNENCRYPTEDLENGTH]
                + channel.o.suite.encrypt(channel.o.keys, was[HEADER_UNENCRYPTEDLENGTH..])
    {
      ghost var was := messageBuffer[..];
      var secret := channel.o.suite.encrypt(channel.o.keys, messageBuffer[HEADER_UNENCRYPTEDLENGTH..total]);
      assert |messageBuffer[HEADER_UNENCRYPTEDLENGTH..total]| == total - HEADER_UNENCRYPTEDLENGTH;
      assert messageBuffer[HEADER_UNENCRYPTEDLENGTH..total] == messageBuffer[..total][HEADER_UNENCRYPTEDLENGTH..];
      Put(messageBuffer, HEADER_UNENCRYPTEDLENGTH, secret);
      ChangesInside(was, messageBuffer[..], HEADER_UNENCRYPTEDLENGTH, secret);
      assert messageBuffer[..][..total] == messageBuffer[..total];
      assert was[..total] == old(messageBuffer[..total]);
    }

    /** The buffer is full: sends it and starts the next one. */
    method Exchange() returns (r: Status)
      requires Valid()
      modifies this, messageBuffer, channel`sendSequenceNumber, channel`sent
      ensures final == old(final)
      ensures chunksSoFar == (old(chunksSoFar) + 1) % 0x1_0000 && messageSizeSoFar == old(messageSizeSoFar) + |old(Body())|
      ensures if WithinLimits(channel.o, chunksSoFar, messageSizeSoFar) then
                && r == Good && Valid() && fresh(messageBuffer) && bufPos <= messageBuffer.Length && Body() == []
                && channel.sendSequenceNumber == SequenceNumbers.Next(old(channel.sendSequenceNumber))
                && channel.sent == old(channel.sent)
                     + [EncodeChunk(channel.o, channel.sendSequenceNumber, requestId, messageType, final, old(Body()))]
              else
                r == BadResponseTooLarge && channel.sendSequenceNumber == old(channel.sendSequenceNumber)
                && channel.sent == old(channel.sent)
    {
      hide EncodeChunk;
      r := SendChunk();
      if r != Good {
        return;
      }
      messageBuffer := new Byte[channel.o.sendBufferSize](_ => 0);
      SetBufPos();
    }

    /** Sends the last chunk. */
    method Finish() returns (r: Status)
      requires Valid()
      modifies this`bufPos, this`chunksSoFar, this`messageSizeSoFar, this`final, messageBuffer
      modifies channel`sendSequenceNumber, channel`sent
      ensures chunksSoFar == (old(chunksSoFar) + 1) % 0x1_0000 && messageSizeSoFar == old(messageSizeSoFar) + |old(Body())|
      ensures if WithinLimits(channel.o, chunksSoFar, messageSizeSoFar) then
                && r == Good && channel.sendSequenceNumber == SequenceNumbers.Next(old(channel.sendSequenceNumber))
                && channel.sent == old(channel.sent)
                     + [EncodeChunk(channel.o, channel.sendSequenceNumber, requestId, messageType, true, old(Body()))]
              else
                r == BadResponseTooLarge && channel.sendSequenceNumber == old(channel.sendSequenceNumber)
                && channel.sent == old(channel.sent)
    {
      hide EncodeChunk;
      final := true;
      r := SendChunk();
    }
  }

  /** One body of a message and the rest. */
  lemma SendBodiesStep(o: Sending, number: UInt32, requestId: UInt32, m: MessageType, bodies: seq<Bytes>, i: nat,
                       count: nat, size: nat)
    requires o.suite.blockSize > 0 && i < |bodies|
    ensures var e := SendBodies(o, number, requestId, m, bodies[i..], count, size);
            var count', size', number' := (count + 1) % 0x1_0000, size + |bodies[i]|, SequenceNumbers.Next(number);
            if !WithinLimits(o, count', size') then e == Emission([], number, BadResponseTooLarge)
            else
              var e' := SendBodies(o, number', requestId, m, bodies[i + 1..], count', size');
              e == e'.(chunks := [EncodeChunk(o, number', requestId, m, i + 1 == |bodies|, bodies[i])] + e'.chunks)
  {
    hide EncodeChunk;
    assert bodies[i..][1..] == bodies[i + 1..];
  }

  /** Sends a message whose encoding fills the buffers with the given bodies. */
  method SendSymmetricMessage(channel: Sender, requestId: UInt32, messageType: MessageType, bodies: seq<Bytes>)
    returns (r: Status)
    requires Roomy(channel.o) && Lawful(channel.o.suite)
    requires bodies != [] && forall i :: 0 <= i < |bodies| ==> BodyFits(channel.o, bodies[i])
    modifies channel`sendSequenceNumber, channel`sent
    ensures channel.connection == Some(ConnectionEstablished) && channel.state == Open ==>
              var e := SendMessage(channel.o, old(channel.sendSequenceNumber), requestId, messageType, bodies);
              && channel.sent == old(channel.sent) + e.chunks && channel.sendSequenceNumber == e.number && r == e.status
    ensures messageType != MSG && messageType != CLO ==> r != Good && channel.sent == old(channel.sent)
    ensures channel.connection != Some(ConnectionEstablished) || channel.state != Open ==>
              && r == (if channel.connection == None then BadInternalError else BadConnectionClosed)
              && channel.sent == old(channel.sent) && channel.sendSequenceNumber == old(channel.sendSequenceNumber)
  {
    if channel.connection == None {
      return BadInternalError;
    }
    if channel.state != Open {
      return BadConnectionClosed;
    }
    if channel.connection != Some(ConnectionEstablished) {
      return BadConnectionClosed;
    }
    r := SendReady(channel, requestId, messageType, bodies);
  }

  /** The same once the channel is known to be ready. */
  method SendReady(channel: Sender, requestId: UInt32, messageType: MessageType, bodies: seq<Bytes>) returns (r: Status)
    requires Roomy(channel.o) && Lawful(channel.o.suite)
    requires bodies != [] && forall i :: 0 <= i < |bodies| ==> BodyFits(channel.o, bodies[i])
    modifies channel`sendSequenceNumber, channel`sent
    ensures var e := SendMessage(channel.o, old(channel.sendSequenceNumber), requestId, messageType, bodies);
            && channel.sent == old(channel.sent) + e.chunks && channel.sendSequenceNumber == e.number && r == e.status
  {
    hide EncodeChunk, SendBodies, Lawful, BodyEnd, WithinLimits, SequenceNumbers.Next;
    if messageType != MSG && messageType != CLO {
      Seqs.Empty(channel.sent);
      return BadInternalError;
    }
    ghost var e := SendBodies(channel.o, channel.sendSequenceNumber, requestId, messageType, bodies, 0, 0);
    var mc := new MessageContext.Begin(channel, requestId, messageType);
    var i := 0;
    assert bodies[0..] == bodies;
    while i < |bodies| - 1
      invariant i < |bodies| && mc.Valid() && fresh(mc) && fresh(mc.messageBuffer)
      invariant mc.bufPos <= mc.messageBuffer.Length && mc.Body() == [] && !mc.final
      invariant mc.channel == channel && mc.requestId == requestId && mc.messageType == messageType
      invariant var e' := SendBodies(channel.o, channel.sendSequenceNumber, requestId, messageType, bodies[i..],
                                     mc.chunksSoFar, mc.messageSizeSoFar);
                old(channel.sent) + e.chunks == channel.sent + e'.chunks && e.number == e'.number && e.status == e'.status
    {
      SendBodiesStep(channel.o, channel.sendSequenceNumber, requestId, messageType, bodies, i,
                     mc.chunksSoFar, mc.messageSizeSoFar);
      ghost var sent := channel.sent;
      Fill(mc, bodies[i]);
      r := mc.Exchange();
      if r != Good {
        Seqs.Empty(channel.sent);
        return;
      }
      i := i + 1;
      Seqs.Assoc(sent, [channel.sent[|sent|]], SendBodies(channel.o, channel.sendSequenceNumber, requestId, messageType,
                       bodies[i..], mc.chunksSoFar, mc.messageSizeSoFar).chunks);
    }
    assert bodies[i..] == [bodies[i]];
    ghost var sent := channel.sent;
    r := SendLast(mc, bodies[i]);
    Seqs.Empty(sent);
  }

  /** Sends a body as the last chunk of its message. */
  method SendLast(mc: MessageContext, body: Bytes) returns (r: Status)
    requires mc.Valid() && mc.bufPos <= mc.messageBuffer.Length && mc.Body() == [] && BodyFits(mc.channel.o, body)
    modifies mc, mc.messageBuffer, mc.channel`sendSequenceNumber, mc.channel`sent
    ensures var e := SendBodies(mc.channel.o, old(mc.channel.sendSequenceNumber), mc.requestId, mc.messageType, [body],
                                old(mc.chunksSoFar), old(mc.messageSizeSoFar));
            && mc.channel.sent == old(mc.channel.sent) + e.chunks && mc.channel.sendSequenceNumber == e.number
            && r == e.status
  {
    hide EncodeChunk, SendBodies, Lawful, BodyEnd, WithinLimits, SequenceNumbers.Next;
    SendBodiesStep(mc.channel.o, mc.channel.sendSequenceNumber, mc.requestId, mc.messageType, [body], 0,
                   mc.chunksSoFar, mc.messageSizeSoFar);
    SendNothing(mc.channel.o, mc.requestId, mc.messageType);
    assert [body][0..] == [body] && [body][0 + 1..] == [];
    Seqs.Empty(mc.channel.sent);
    Fill(mc, body);
    r := mc.Finish();
  }

  lemma SendNothing(o: Sending, requestId: UInt32, m: MessageType)
    requires o.suite.blockSize > 0
    ensures forall number, count, size {:trigger SendBodies(o, number, requestId, m, [], count, size)} ::
              SendBodies(o, number, requestId, m, [], count, size) == Emission([], number, Good)
  {
  }

  /** Fills the empty buffer with a body. */
  method Fill(mc: MessageContext, body: Bytes)
    requires mc.Valid() && mc.bufPos <= mc.messageBuffer.Length && mc.Body() == [] && BodyFits(mc.channel.o, body)
    modifies mc`bufPos, mc.messageBuffer
    ensures mc.Valid() && mc.bufPos <= mc.messageBuffer.Length && mc.Body() == body
  {
    assert |mc.Body()| == mc.bufPos - HEADER_TOTALLENGTH;
    Seqs.Empty(body);
    mc.Write(body);
  }
}

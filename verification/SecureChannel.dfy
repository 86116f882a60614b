/** The receiving side of a secure channel as a function of the bytes that arrive: framing, token
    check, decryption, sequence numbers, and the assembly of chunks into messages. */
module SecureChannel {
  import opened Options
  import opened Words
  import opened Wire
  import opened ChunkCrypto
  import SequenceNumbers
  import Seqs

  datatype ChannelState = Fresh | HelSent | HelReceived | AckSent | AckReceived | OpnSent | Open | Closing | Closed

  datatype RenewState = Normal | Sent | NewTokenServer | NewTokenClient

  datatype Token = Token(channelId: UInt32, tokenId: UInt32, createdAt: int, revisedLifetime: UInt32)

  const NO_TOKEN := Token(0, 0, 0, 0)

  const NO_KEYS: nat := 0

  /** Ticks of 100 nanoseconds in a millisecond. */
  const DATETIME_MSEC := 10000

  datatype Status = Good
    | BadInternalError | BadInvalidState | BadDecodingError | BadSecurityChecksFailed
    | BadSecureChannelIdInvalid | BadSecureChannelTokenUnknown | BadSecureChannelClosed
    | BadTcpMessageTypeInvalid | BadTcpMessageTooLarge | BadResponseTooLarge | BadConnectionClosed
    | PolicyError | Merged(first: Status, second: Status) | Other(code: nat)

  /** Negotiated state. The keys in use are named by the nonce pair they were derived from. */
  datatype Core = Core(
    state: ChannelState,
    renewState: RenewState,
    securityMode: SecurityMode,
    hasPolicy: bool,
    securityToken: Token,
    altSecurityToken: Token,
    nonces: nat,
    localKeys: nat,
    remoteKeys: nat,
    receiveSequenceNumber: UInt32)

  type FullChunk = b: Bytes | |b| >= MESSAGE_MIN_LENGTH witness seq(MESSAGE_MIN_LENGTH, _ => 0)

  datatype RawChunk = RawChunk(bytes: FullChunk, messageType: MessageType, chunkType: ChunkType)

  datatype Chunk = Chunk(bytes: Bytes, messageType: MessageType, chunkType: ChunkType, requestId: UInt32)

  datatype Message = Message(messageType: MessageType, requestId: UInt32, payload: Bytes)

  datatype Unpacked = Unpacked(core: Core, status: Status, requestId: UInt32, body: Bytes)

  /** What the channel gets from outside: its limits, the clock, the algorithms, the handling of
      open requests and responses, and the application's callback. */
  datatype Env = Env(
    recvBufferSize: nat,
    maxMessageSize: nat,
    maxChunkCount: nat,
    now: int,
    suite: Suite,
    unpackOPN: (Core, FullChunk) -> Unpacked,
    callback: (Core, Message) -> (Core, Status))

  // ---------- one symmetric chunk ----------

  function CheckSymHeader(core: Core, tokenId: UInt32, now: int): (Core, Status) {
    match core.renewState
    case Normal => CheckLifetime(core, core.securityToken, now)
    case Sent => CheckLifetime(core, core.securityToken, now)
    case NewTokenServer =>
      if tokenId == core.securityToken.tokenId then CheckLifetime(core, core.securityToken, now)
      else if tokenId != core.altSecurityToken.tokenId then (core, BadSecureChannelTokenUnknown)
      else
        var core' := core.(renewState := Normal, securityToken := core.altSecurityToken,
                           altSecurityToken := NO_TOKEN, localKeys := core.nonces, remoteKeys := core.nonces);
        CheckLifetime(core', core'.securityToken, now)
    case NewTokenClient =>
      if tokenId == core.altSecurityToken.tokenId then CheckLifetime(core, core.altSecurityToken, now)
      else if tokenId != core.securityToken.tokenId then (core, BadSecureChannelTokenUnknown)
      else
        var core' := core.(renewState := Normal, altSecurityToken := NO_TOKEN, remoteKeys := core.nonces);
        CheckLifetime(core', core'.securityToken, now)
  }

  /** Closing the channel also drops the policy with its keys, both tokens and the nonces. The
      buffered chunks go with it; see Emptied. */
  function Close(core: Core): Core {
    core.(state := Closed, hasPolicy := false, securityToken := NO_TOKEN, altSecurityToken := NO_TOKEN,
          nonces := NO_KEYS, localKeys := NO_KEYS, remoteKeys := NO_KEYS)
  }

  function CheckLifetime(core: Core, token: Token, now: int): (Core, Status) {
    if core.state.Open? && token.createdAt + token.revisedLifetime * DATETIME_MSEC < now then
      (Close(core), BadSecureChannelClosed)
    else
      (core, Good)
  }

  /** The chunk without signature and padding. Behind the headers and one body byte at least one
      more byte is demanded of a signed chunk. */
  function DecryptAndVerify(c: Suite, mode: SecurityMode, keys: nat, chunk: FullChunk): (Status, Bytes) {
    var offset := HEADER_UNENCRYPTEDLENGTH;
    var decrypted := if mode.ModeSignAndEncrypt? then c.decrypt(keys, chunk[offset..]) else Some(chunk[offset..]);
    if decrypted.None? then (PolicyError, [])
    else
      var plain := chunk[..offset] + decrypted.value;
      if !Signed(mode) then (Good, plain) else VerifyAndStrip(c, mode, keys, plain)
  }

  function VerifyAndStrip(c: Suite, mode: SecurityMode, keys: nat, plain: Bytes): (Status, Bytes) {
    if c.signatureSize >= |plain| then (BadSecurityChecksFailed, [])
    else
      var end := |plain| - c.signatureSize;
      if !c.verify(keys, plain[..end], plain[end..]) then (PolicyError, [])
      else
        var padSize := if mode.ModeSignAndEncrypt? then DecodePadding(c, plain) else 0;
        if HEADER_UNENCRYPTEDLENGTH + padSize + c.signatureSize + 9 < |plain| then (Good, plain[..end - padSize])
        else (BadSecurityChecksFailed, [])
  }

  /** The result of a sequence number check, and the counter after it. */
  function ProcessSequenceNumber(core: Core, number: UInt32): (Core, Status) {
    if SequenceNumbers.Accepts(core.receiveSequenceNumber, number) then
      (core.(receiveSequenceNumber := number), Good)
    else
      (core, BadSecurityChecksFailed)
  }

  /** The sequence header, then its number check. A header that is cut short decodes to zeros, and
      the check runs on those before the chunk is refused. */
  function TakeSequenceHeader(core: Core, plain: Bytes): Unpacked {
    if |plain| < HEADER_TOTALLENGTH then
      var (core', st) := ProcessSequenceNumber(core, 0);
      Unpacked(core', if st.Good? then BadDecodingError else Merged(BadDecodingError, st), 0, [])
    else
      var (core', st) := ProcessSequenceNumber(core, DecodeU32(plain, 16));
      Unpacked(core', st, DecodeU32(plain, 20), plain[HEADER_TOTALLENGTH..])
  }

  function UnpackMSG(env: Env, core: Core, chunk: FullChunk): Unpacked {
    if !core.hasPolicy then Unpacked(core, BadInternalError, 0, [])
    else if DecodeU32(chunk, 8) != core.securityToken.channelId then Unpacked(core, BadSecureChannelIdInvalid, 0, [])
    else
      var (core1, st) := CheckSymHeader(core, DecodeU32(chunk, 12), env.now);
      if !st.Good? then Unpacked(core1, st, 0, [])
      else
        var (st2, plain) := DecryptAndVerify(env.suite, core1.securityMode, core1.remoteKeys, chunk);
        if !st2.Good? then Unpacked(core1, st2, 0, [])
        else TakeSequenceHeader(core1, plain)
  }

  // ---------- messages from chunks ----------

  /** What is kept between chunks. */
  datatype Work = Work(core: Core, decrypted: seq<Chunk>, decryptedCount: nat, decryptedLength: nat)

  /** The flag says that the channel was closed on the way. */
  datatype Outcome = Outcome(work: Work, delivered: seq<Message>, status: Status, closed: bool)

  predicate JustClosed(before: Core, after: Core) {
    !before.state.Closed? && after.state.Closed?
  }

  /** When the channel closes, the waiting chunks are deleted. */
  function Emptied(w: Work, core: Core): Work {
    w.(core := core, decrypted := if JustClosed(w.core, core) then [] else w.decrypted)
  }

  function Unpack(env: Env, core: Core, c: RawChunk): Unpacked {
    match c.messageType
    case OPN =>
      if core.state.Open? || core.state.OpnSent? || core.state.AckSent? then env.unpackOPN(core, c.bytes)
      else Unpacked(core, BadInvalidState, 0, [])
    case MSG => if core.state.Closed? then Unpacked(core, BadSecureChannelClosed, 0, []) else UnpackMSG(env, core, c.bytes)
    case CLO => if core.state.Closed? then Unpacked(core, BadSecureChannelClosed, 0, []) else UnpackMSG(env, core, c.bytes)
    case _ => Unpacked(core, Good, 0, c.bytes[MESSAGEHEADER_LENGTH..])
  }

  predicate OverLimits(env: Env, w: Work) {
    || (env.maxChunkCount != 0 && w.decryptedCount > env.maxChunkCount)
    || (env.maxMessageSize != 0 && w.decryptedLength > env.maxMessageSize)
  }

  /** Queues an unpacked chunk and does what its chunk type asks for. */
  function QueueChunk(env: Env, w: Work, chunk: Chunk): Outcome {
    var w1 := Work(w.core, w.decrypted + [chunk], w.decryptedCount + 1, w.decryptedLength + |chunk.bytes|);
    if OverLimits(env, w1) then Outcome(w1, [], BadTcpMessageTooLarge, false)
    else match chunk.chunkType
      case Intermediate => Outcome(w1, [], Good, false)
      case Abort => Outcome(Work(w1.core, [], 0, 0), [], Good, false)
      case Final => Assemble(env, w1.(decryptedCount := 0, decryptedLength := 0))
  }

  function ProcessChunk(env: Env, w: Work, c: RawChunk): Outcome {
    var u := Unpack(env, w.core, c);
    var w0, closed := Emptied(w, u.core), JustClosed(w.core, u.core);
    if !u.status.Good? then Outcome(w0, [], u.status, closed)
    else
      var o := QueueChunk(env, w0, Chunk(u.body, c.messageType, c.chunkType, u.requestId));
      o.(closed := closed || o.closed)
  }

  /** The number of chunks up to and including the first final one. */
  function MessageEnd(q: seq<Chunk>): (n: nat)
    ensures n <= |q|
    ensures forall i :: 0 <= i < n - 1 ==> !q[i].chunkType.Final?
    ensures 0 < n < |q| ==> q[n - 1].chunkType.Final?
    ensures q != [] ==> n > 0
  {
    if q == [] then 0 else if q[0].chunkType.Final? then 1 else 1 + MessageEnd(q[1..])
  }

  /** Whether the chunks belong to one message; otherwise what the first misfit is reported as. */
  function Consistency(first: Chunk, q: seq<Chunk>): Status {
    if q == [] then Good
    else if q[0].requestId != first.requestId then BadInternalError
    else if q[0].chunkType != first.chunkType && !q[0].chunkType.Final? then BadTcpMessageTypeInvalid
    else if q[0].messageType != first.messageType then BadTcpMessageTypeInvalid
    else Consistency(first, q[1..])
  }

  function Bodies(q: seq<Chunk>): Bytes {
    if q == [] then [] else q[0].bytes + Bodies(q[1..])
  }

  /** Takes the chunks of one message off the queue and delivers it. */
  function Assemble(env: Env, w: Work): Outcome
    requires w.decrypted != []
  {
    var first, n := w.decrypted[0], MessageEnd(w.decrypted);
    var st := if first.chunkType.Final? then Good else Consistency(first, w.decrypted[..n]);
    if !st.Good? then Outcome(w, [], st, false)
    else
      var m := Message(first.messageType, first.requestId, Bodies(w.decrypted[..n]));
      var (core', st') := env.callback(w.core, m);
      Outcome(Emptied(w.(decrypted := w.decrypted[n..]), core'), [m], st', JustClosed(w.core, core'))
  }

  datatype Progress = Progress(work: Work, left: seq<RawChunk>, delivered: seq<Message>, status: Status, closed: bool)

  /** Works through the queue of complete chunks until it is empty or an error occurs. Closing the
      channel empties the queue. */
  function ProcessChunks(env: Env, w: Work, q: seq<RawChunk>): Progress
    decreases |q|
  {
    if q == [] then Progress(w, [], [], Good, false)
    else
      var o := ProcessChunk(env, w, q[0]);
      var left := if o.closed then [] else q[1..];
      if !o.status.Good? then Progress(o.work, left, o.delivered, o.status, o.closed)
      else
        var p := ProcessChunks(env, o.work, left);
        p.(delivered := o.delivered + p.delivered, closed := o.closed || p.closed)
  }

  // ---------- chunks from bytes ----------

  datatype Extraction = Done | Failed(status: Status) | Extracted(chunk: RawChunk)

  predicate ChunkTypeAllowed(m: MessageType, c: ChunkType) {
    m.MSG? || m.CLO? || c.Final?
  }

  /** Looks at the front of the buffer for a complete chunk. */
  function Extract(limit: nat, s: Bytes): Extraction {
    if |s| < MESSAGEHEADER_LENGTH then Done
    else
      var word, size := DecodeU32(s, 0), DecodeU32(s, 4);
      if size < MESSAGE_MIN_LENGTH then Failed(BadTcpMessageTypeInvalid)
      else if size > limit then Failed(BadTcpMessageTooLarge)
      else if size > |s| then Done
      else
        var m, c := MessageTypeOf(word), ChunkTypeOf(word);
        if m.None? || c.None? || !ChunkTypeAllowed(m.value, c.value) then Failed(BadTcpMessageTypeInvalid)
        else Extracted(RawChunk(s[..size], m.value, c.value))
  }

  datatype Framing = Framing(chunks: seq<RawChunk>, left: Bytes, status: Status)

  function Frame(limit: nat, s: Bytes): Framing
    decreases |s|
  {
    match Extract(limit, s)
    case Done => Framing([], s, Good)
    case Failed(st) => Framing([], s, st)
    case Extracted(c) =>
      var f := Frame(limit, s[|c.bytes|..]);
      f.(chunks := [c] + f.chunks)
  }

  datatype Channel = Channel(work: Work, complete: seq<RawChunk>, incomplete: Bytes)

  datatype Received = Received(channel: Channel, delivered: seq<Message>, status: Status, closed: bool)

  /** Frames everything first, then processes what is complete. After a framing error nothing is
      processed. */
  function ProcessBuffer(env: Env, ch: Channel, buffer: Bytes): Received {
    var f := Frame(env.recvBufferSize, ch.incomplete + buffer);
    if !f.status.Good? then Received(ch.(complete := ch.complete + f.chunks, incomplete := []), [], f.status, false)
    else
      var p := ProcessChunks(env, ch.work, ch.complete + f.chunks);
      Received(Channel(p.work, p.left, if p.closed then [] else f.left), p.delivered, p.status, p.closed)
  }

  // ---------- waiting chunks ----------

  lemma NoBodies()
    ensures Bodies([]) == []
  {
  }

  lemma {:induction false} BodiesSplit(a: seq<Chunk>, b: seq<Chunk>)
    ensures Bodies(a + b) == Bodies(a) + Bodies(b)
    decreases |a|
  {
    if a == [] {
      Seqs.Empty(b);
      Seqs.Empty(Bodies(b));
    } else {
      Seqs.Uncons(a, b);
      BodiesSplit(a[1..], b);
      Seqs.Assoc(a[0].bytes, Bodies(a[1..]), Bodies(b));
    }
  }

  lemma BodiesAppend(q: seq<Chunk>, c: Chunk)
    ensures Bodies(q + [c]) == Bodies(q) + c.bytes
  {
    BodiesSplit(q, [c]);
    assert [c][1..] == [];
    Seqs.Empty(c.bytes);
  }

  /** The first final chunk ends the message. */
  lemma {:induction false} MessageEndAt(q: seq<Chunk>, i: nat)
    requires i < |q| && q[i].chunkType.Final? && forall k :: 0 <= k < i ==> !q[k].chunkType.Final?
    ensures MessageEnd(q) == i + 1
    decreases i
  {
    if i > 0 {
      MessageEndAt(q[1..], i - 1);
    }
  }

  // ---------- refused chunks ----------

  /** An accepted chunk moves the counter to a number the last one allowed: the one in the chunk. */
  lemma AcceptedMovesCounter(env: Env, core: Core, chunk: FullChunk)
    requires UnpackMSG(env, core, chunk).status.Good?
    ensures var u := UnpackMSG(env, core, chunk);
            var core' := CheckSymHeader(core, DecodeU32(chunk, 12), env.now).0;
            var plain := DecryptAndVerify(env.suite, core.securityMode, core'.remoteKeys, chunk).1;
            && |plain| >= HEADER_TOTALLENGTH && u.core.receiveSequenceNumber == DecodeU32(plain, 16)
            && SequenceNumbers.Accepts(core.receiveSequenceNumber, u.core.receiveSequenceNumber)
  {
  }

  /** The checks that a chunk passes before its sequence header is read. */
  predicate PassesHeaders(env: Env, core: Core, chunk: FullChunk) {
    && core.hasPolicy && DecodeU32(chunk, 8) == core.securityToken.channelId
    && CheckSymHeader(core, DecodeU32(chunk, 12), env.now).1.Good?
  }

  /** The number check runs on zeros before the chunk is refused: it passes the checks of its headers,
      is unencrypted and unsigned, is too short for a sequence header, and zero is acceptable. */
  predicate CountsZeros(env: Env, core: Core, chunk: FullChunk) {
    && PassesHeaders(env, core, chunk) && core.securityMode.ModeNone? && |chunk| < HEADER_TOTALLENGTH
    && SequenceNumbers.Accepts(core.receiveSequenceNumber, 0)
  }

  /** A chunk that is refused when it is unpacked changes the counter in exactly this case. */
  lemma RefusedChangesCounter(env: Env, core: Core, chunk: FullChunk)
    requires !UnpackMSG(env, core, chunk).status.Good?
    ensures UnpackMSG(env, core, chunk).core.receiveSequenceNumber != core.receiveSequenceNumber
            <==> CountsZeros(env, core, chunk)
    ensures UnpackMSG(env, core, chunk).core.receiveSequenceNumber != core.receiveSequenceNumber ==>
              UnpackMSG(env, core, chunk).core.receiveSequenceNumber == 0
  {
    hide DecodeU32, DecodePadding;
    var (core1, st) := CheckSymHeader(core, DecodeU32(chunk, 12), env.now);
    SymHeaderKeeps(core, DecodeU32(chunk, 12), env.now);
    if PassesHeaders(env, core, chunk) {
      OpenedLength(env.suite, core1.securityMode, core1.remoteKeys, chunk);
    }
  }

  /** The application leaves the sequence numbers alone. */
  ghost predicate CallbackKeepsCounter(env: Env) {
    forall core, m :: env.callback(core, m).0.receiveSequenceNumber == core.receiveSequenceNumber
  }

  /** Over all refusals of a symmetric chunk, by unpacking, by the limits, by assembly or by the
      application: the counter changes exactly when the chunk could be unpacked, or in the case above. */
  lemma RefusalChangesCounter(env: Env, w: Work, c: RawChunk)
    requires (c.messageType.MSG? || c.messageType.CLO?) && CallbackKeepsCounter(env)
    requires !ProcessChunk(env, w, c).status.Good?
    ensures ProcessChunk(env, w, c).work.core.receiveSequenceNumber != w.core.receiveSequenceNumber
            <==> !w.core.state.Closed? && (UnpackMSG(env, w.core, c.bytes).status.Good? || CountsZeros(env, w.core, c.bytes))
  {
    var u := UnpackMSG(env, w.core, c.bytes);
    if u.status.Good? {
      AcceptedMovesCounter(env, w.core, c.bytes);
      NotTheSame(w.core.receiveSequenceNumber, u.core.receiveSequenceNumber);
      LongerThanZeros(env, w.core, c.bytes);
    } else {
      RefusedChangesCounter(env, w.core, c.bytes);
    }
    hide UnpackMSG, CountsZeros, Consistency, MessageEnd, Bodies, OverLimits;
  }

  lemma NotTheSame(last: UInt32, number: UInt32)
    requires SequenceNumbers.Accepts(last, number)
    ensures number != last
  {
  }

  lemma LongerThanZeros(env: Env, core: Core, chunk: FullChunk)
    requires UnpackMSG(env, core, chunk).status.Good?
    ensures !CountsZeros(env, core, chunk)
  {
    hide DecodeU32, DecodePadding;
  }

  /** For one, a chunk beyond the limit on the chunks of a message is refused and counted. */
  lemma CountedBeyondLimit(env: Env, w: Work, c: RawChunk)
    requires (c.messageType.MSG? || c.messageType.CLO?) && !w.core.state.Closed?
    requires UnpackMSG(env, w.core, c.bytes).status.Good? && 0 < env.maxChunkCount == w.decryptedCount
    ensures var o := ProcessChunk(env, w, c);
            && o.status == BadTcpMessageTooLarge && o.delivered == []
            && o.work.core.receiveSequenceNumber == UnpackMSG(env, w.core, c.bytes).core.receiveSequenceNumber
            && o.work.core.receiveSequenceNumber != w.core.receiveSequenceNumber
  {
    AcceptedMovesCounter(env, w.core, c.bytes);
    NotTheSame(w.core.receiveSequenceNumber, UnpackMSG(env, w.core, c.bytes).core.receiveSequenceNumber);
    hide UnpackMSG;
  }

  lemma SymHeaderKeeps(core: Core, tokenId: UInt32, now: int)
    ensures var core' := CheckSymHeader(core, tokenId, now).0;
            core'.receiveSequenceNumber == core.receiveSequenceNumber && core'.securityMode == core.securityMode
  {
  }

  /** An opened chunk holds its sequence header, unless it was neither signed nor long enough. */
  lemma OpenedLength(c: Suite, mode: SecurityMode, keys: nat, chunk: FullChunk)
    ensures var (st, plain) := DecryptAndVerify(c, mode, keys, chunk);
            st.Good? ==> if mode.ModeNone? then plain == chunk else |plain| >= HEADER_TOTALLENGTH
  {
    assert chunk[..HEADER_UNENCRYPTEDLENGTH] + chunk[HEADER_UNENCRYPTEDLENGTH..] == chunk;
  }

  /** Sixteen bytes that end with a valid message header, channel id and token id, on a channel
      without security whose last number was 4294967000: the buffer is refused, nothing is delivered,
      and the counter is zero. */
  lemma RefusedButCounted(env: Env, core: Core) returns (buffer: Bytes)
    requires core.state.Open? && core.renewState.Normal? && core.hasPolicy && core.securityMode.ModeNone?
    requires core.securityToken == Token(3, 4, 0, 1000) && core.receiveSequenceNumber == 4294967000
    requires env.now == 0 && env.recvBufferSize >= MESSAGE_MIN_LENGTH
    ensures var r := ProcessBuffer(env, Channel(Work(core, [], 0, 0), [], []), buffer);
            && r.status == BadDecodingError && r.delivered == []
            && r.channel.work.core == core.(receiveSequenceNumber := 0)
  {
    buffer := EncodeU32(0x4647_534D) + EncodeU32(16) + EncodeU32(3) + EncodeU32(4);
    hide Unpack, Frame, Extract;
    Sixteen(buffer, 0x4647_534D, 16, 3, 4);
    Seqs.Empty(buffer);
    ShortFrames(env.recvBufferSize, buffer);
    ShortUnpacked(env, core, buffer);
  }

  lemma ShortFrames(limit: nat, buffer: Bytes)
    requires |buffer| == 16 <= limit && DecodeU32(buffer, 0) == 0x4647_534D && DecodeU32(buffer, 4) == 16
    ensures Frame(limit, buffer) == Framing([RawChunk(buffer, MSG, Final)], [], Good)
  {
    hide DecodeU32;
    assert buffer[..16] == buffer && buffer[16..] == [];
    assert Extract(limit, buffer) == Extracted(RawChunk(buffer, MSG, Final));
  }

  lemma ShortUnpacked(env: Env, core: Core, buffer: Bytes)
    requires core.state.Open? && core.renewState.Normal? && core.hasPolicy && core.securityMode.ModeNone?
    requires core.securityToken == Token(3, 4, 0, 1000) && core.receiveSequenceNumber == 4294967000 && env.now == 0
    requires |buffer| == 16 && DecodeU32(buffer, 8) == 3
    ensures Unpack(env, core, RawChunk(buffer, MSG, Final)) == Unpacked(core.(receiveSequenceNumber := 0), BadDecodingError, 0, [])
  {
    hide DecodeU32;
    OpenedLength(env.suite, ModeNone, core.remoteKeys, buffer);
  }

  lemma Sixteen(s: Bytes, a: UInt32, b: UInt32, c: UInt32, d: UInt32)
    requires s == EncodeU32(a) + EncodeU32(b) + EncodeU32(c) + EncodeU32(d)
    ensures |s| == 16 && DecodeU32(s, 0) == a && DecodeU32(s, 4) == b && DecodeU32(s, 8) == c && DecodeU32(s, 12) == d
  {
    hide EncodeU32, DecodeU32;
    var p, q, r, t := EncodeU32(a), EncodeU32(b), EncodeU32(c), EncodeU32(d);
    assert forall i :: 0 <= i < 4 ==> s[0 + i] == p[i] && s[4 + i] == q[i] && s[8 + i] == r[i] && s[12 + i] == t[i];
    SameWord(s, 0, a);
    SameWord(s, 4, b);
    SameWord(s, 8, c);
    SameWord(s, 12, d);
  }
}

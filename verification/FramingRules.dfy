/** What a stream of bytes is cut into, said without cutting: which sequences of bytes are chunks, and
    what may follow the last one. */
module FramingRules {
  import opened Options
  import opened Wire
  import opened SecureChannel
  import opened StreamCuts
  import Seqs

  /** The bytes start with these types, as text; only secured messages come in more than one chunk. */
  ghost predicate TypedAs(s: Bytes, m: MessageType, c: ChunkType) {
    && |s| >= 8 && |Name(m)| == 3
    && s[0] == Name(m)[0] as int && s[1] == Name(m)[1] as int && s[2] == Name(m)[2] as int && s[3] == Letter(c) as int
    && (m == MSG || m == CLO || c == Final)
  }

  /** A chunk says its types and its size, which is at least 16 and at most what can be received. */
  ghost predicate IsChunk(limit: nat, c: RawChunk) {
    && 16 <= |c.bytes| <= limit && DecodeU32(c.bytes, 4) == |c.bytes|
    && TypedAs(c.bytes, c.messageType, c.chunkType)
  }

  ghost predicate Typed(s: Bytes) {
    exists m, c :: TypedAs(s, m, c)
  }

  /** What can stand behind the last chunk: less than a header or than the chunk its header announces,
      or the reason why it is not the start of a chunk. */
  ghost predicate RestIs(limit: nat, rest: Bytes, status: Status) {
    if |rest| < 8 then status == Good
    else
      var size := DecodeU32(rest, 4);
      if size < 16 then status == BadTcpMessageTypeInvalid
      else if size > limit then status == BadTcpMessageTooLarge
      else if size > |rest| then status == Good
      else status == BadTcpMessageTypeInvalid && !Typed(rest)
  }

  lemma TypesExactly(s: Bytes, m: MessageType, c: ChunkType)
    requires |s| >= 8
    ensures TypedAs(s, m, c) <==> MessageTypeOf(DecodeU32(s, 0)) == Some(m) && ChunkTypeOf(DecodeU32(s, 0)) == Some(c)
                                  && ChunkTypeAllowed(m, c)
  {
    hide DecodeU32, MessageTypeOf, ChunkTypeOf, Name, Letter;
    TypesRead(s, 0, m, c);
  }

  lemma TypedExactly(s: Bytes)
    requires |s| >= 8
    ensures var m, c := MessageTypeOf(DecodeU32(s, 0)), ChunkTypeOf(DecodeU32(s, 0));
            Typed(s) <==> m.Some? && c.Some? && ChunkTypeAllowed(m.value, c.value)
  {
    hide DecodeU32, MessageTypeOf, ChunkTypeOf, TypedAs;
    var word := DecodeU32(s, 0);
    if m, c :| TypedAs(s, m, c) {
      TypesExactly(s, m, c);
    }
    if MessageTypeOf(word).Some? && ChunkTypeOf(word).Some? {
      TypesExactly(s, MessageTypeOf(word).value, ChunkTypeOf(word).value);
    }
  }

  lemma ExtractedIs(limit: nat, s: Bytes)
    ensures var e := Extract(limit, s);
            if e.Extracted? then IsChunk(limit, e.chunk) && |e.chunk.bytes| <= |s| && e.chunk.bytes == s[..|e.chunk.bytes|]
            else RestIs(limit, s, if e.Failed? then e.status else Good)
  {
    hide DecodeU32, MessageTypeOf, ChunkTypeOf, TypedAs, Typed;
    if |s| >= 8 {
      TypedExactly(s);
      var size := DecodeU32(s, 4);
      if 16 <= size <= |s| {
        SameFront(s, size);
        var m, c := MessageTypeOf(DecodeU32(s, 0)), ChunkTypeOf(DecodeU32(s, 0));
        if m.Some? && c.Some? {
          TypesExactly(s[..size], m.value, c.value);
        }
      }
    }
  }

  lemma SameFront(s: Bytes, n: nat)
    requires 8 <= n <= |s|
    ensures DecodeU32(s[..n], 0) == DecodeU32(s, 0) && DecodeU32(s[..n], 4) == DecodeU32(s, 4)
  {
  }

  lemma ChunkExtracted(limit: nat, c: RawChunk, rest: Bytes)
    requires IsChunk(limit, c)
    ensures Extract(limit, c.bytes + rest) == Extracted(c)
  {
    hide DecodeU32, MessageTypeOf, ChunkTypeOf, TypedAs;
    var s := c.bytes + rest;
    assert s[..|c.bytes|] == c.bytes;
    SameFront(s, |c.bytes|);
    TypesExactly(c.bytes, c.messageType, c.chunkType);
  }

  lemma RestFails(limit: nat, rest: Bytes, status: Status)
    requires RestIs(limit, rest, status)
    ensures Extract(limit, rest) == if status.Good? then Done else Failed(status)
  {
    hide DecodeU32, MessageTypeOf, ChunkTypeOf, Typed;
    if |rest| >= 8 {
      TypedExactly(rest);
    }
  }

  ghost predicate AllChunks(limit: nat, q: seq<RawChunk>) {
    forall i :: 0 <= i < |q| ==> IsChunk(limit, q[i])
  }

  lemma {:induction false} FramedSo(limit: nat, s: Bytes)
    ensures var f := Frame(limit, s); AllChunks(limit, f.chunks) && RestIs(limit, f.left, f.status)
    decreases |s|
  {
    hide Extract, IsChunk, RestIs;
    ExtractedIs(limit, s);
    var e := Extract(limit, s);
    if e.Extracted? {
      FramedSo(limit, s[|e.chunk.bytes|..]);
    }
  }

  lemma {:induction false} FramedOnlySo(limit: nat, chunks: seq<RawChunk>, left: Bytes, status: Status)
    requires AllChunks(limit, chunks) && RestIs(limit, left, status)
    ensures Frame(limit, Whole(chunks) + left) == Framing(chunks, left, status)
    decreases |chunks|
  {
    hide Extract, IsChunk, RestIs;
    if chunks == [] {
      Seqs.Empty(left);
      RestFails(limit, left, status);
    } else {
      var c, rest := chunks[0], Whole(chunks[1..]) + left;
      FramedOnlySo(limit, chunks[1..], left, status);
      Seqs.Assoc(c.bytes, Whole(chunks[1..]), left);
      ChunkExtracted(limit, c, rest);
      FramedFirst(limit, c, rest);
    }
  }

  lemma FramedFirst(limit: nat, c: RawChunk, rest: Bytes)
    requires Extract(limit, c.bytes + rest) == Extracted(c)
    ensures Frame(limit, c.bytes + rest)
            == Frame(limit, rest).(chunks := [c] + Frame(limit, rest).chunks)
  {
    hide Extract;
    assert (c.bytes + rest)[|c.bytes|..] == rest;
  }

  /** A stream is framed in the one way in which it is chunks and then something that does not start
      with a complete chunk. */
  lemma FramedExactly(limit: nat, s: Bytes, f: Framing)
    ensures f == Frame(limit, s)
            <==> Whole(f.chunks) + f.left == s && AllChunks(limit, f.chunks) && RestIs(limit, f.left, f.status)
  {
    hide Frame, Whole, AllChunks, RestIs;
    FramedSo(limit, s);
    FrameKeepsBytes(limit, s);
    if Whole(f.chunks) + f.left == s && AllChunks(limit, f.chunks) && RestIs(limit, f.left, f.status) {
      FramedOnlySo(limit, f.chunks, f.left, f.status);
    }
  }

  // ---------- buffers that cannot be framed ----------

  /** A buffer that cannot be framed is refused with the reason: nothing is processed and the chunks in
      front of the fault wait, while the fault and what follows it are dropped. */
  lemma BufferRefused(env: Env, ch: Channel, buffer: Bytes, chunks: seq<RawChunk>, left: Bytes, status: Status)
    requires ch.incomplete + buffer == Whole(chunks) + left && AllChunks(env.recvBufferSize, chunks)
    requires RestIs(env.recvBufferSize, left, status) && !status.Good?
    ensures ProcessBuffer(env, ch, buffer) == Received(Channel(ch.work, ch.complete + chunks, []), [], status, false)
  {
    hide Frame, Whole, AllChunks, RestIs;
    FramedExactly(env.recvBufferSize, ch.incomplete + buffer, Framing(chunks, left, status));
  }
}

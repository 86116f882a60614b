/** What a receiver has to keep in memory: over every run without errors the waiting chunks stay
    within the negotiated limits, and so does every delivered message. */
module ReceiveLimits {
  import opened Wire
  import opened SecureChannel
  import opened StreamCuts

  /** The counters are right, nothing but intermediate chunks is waiting, and no limit is exceeded.
      Closing the channel deletes the chunks but not what was counted, so behind it the counters may
      say too much. */
  ghost predicate Tallied(env: Env, w: Work, exact: bool) {
    && w.decryptedCount >= |w.decrypted| && w.decryptedLength >= |Bodies(w.decrypted)|
    && (exact ==> w.decryptedCount == |w.decrypted| && w.decryptedLength == |Bodies(w.decrypted)|)
    && (forall i :: 0 <= i < |w.decrypted| ==> w.decrypted[i].chunkType.Intermediate?)
    && !OverLimits(env, w)
  }

  ghost predicate WithinSize(env: Env, ms: seq<Message>) {
    env.maxMessageSize != 0 ==> forall i :: 0 <= i < |ms| ==> |ms[i].payload| <= env.maxMessageSize
  }

  lemma AssembledTally(env: Env, core: Core, q: seq<Chunk>, c: Chunk)
    requires c.chunkType.Final? && forall i :: 0 <= i < |q| ==> q[i].chunkType.Intermediate?
    requires env.maxMessageSize != 0 ==> |Bodies(q + [c])| <= env.maxMessageSize
    ensures var o := Assemble(env, Work(core, q + [c], 0, 0));
            o.status.Good? ==> Tallied(env, o.work, !o.closed) && WithinSize(env, o.delivered)
  {
    hide MessageEnd, Consistency, Bodies;
    var q' := q + [c];
    MessageEndAt(q', |q|);
    assert q'[..|q'|] == q' && q'[|q'|..] == [];
    NoBodies();
  }

  lemma QueuedTally(env: Env, w: Work, chunk: Chunk, exact: bool)
    requires Tallied(env, w, exact)
    ensures var o := QueueChunk(env, w, chunk);
            o.status.Good? ==> Tallied(env, o.work, exact && !o.closed) && WithinSize(env, o.delivered)
  {
    hide Assemble, Bodies;
    BodiesAppend(w.decrypted, chunk);
    NoBodies();
    var q := w.decrypted + [chunk];
    if chunk.chunkType.Final? && (env.maxMessageSize != 0 ==> |Bodies(q)| <= env.maxMessageSize) {
      AssembledTally(env, w.core, w.decrypted, chunk);
    }
  }

  lemma ChunkTally(env: Env, w: Work, c: RawChunk, exact: bool)
    requires Tallied(env, w, exact)
    ensures var o := ProcessChunk(env, w, c);
            o.status.Good? ==> Tallied(env, o.work, exact && !o.closed) && WithinSize(env, o.delivered)
  {
    hide Unpack, QueueChunk, Bodies;
    var u := Unpack(env, w.core, c);
    NoBodies();
    QueuedTally(env, Emptied(w, u.core), Chunk(u.body, c.messageType, c.chunkType, u.requestId),
                exact && !JustClosed(w.core, u.core));
  }

  lemma {:induction false} QueueTally(env: Env, w: Work, q: seq<RawChunk>, exact: bool)
    requires Tallied(env, w, exact)
    ensures var p := ProcessChunks(env, w, q);
            p.status.Good? ==> Tallied(env, p.work, exact && !p.closed) && WithinSize(env, p.delivered)
    decreases |q|
  {
    hide ProcessChunk, Tallied;
    if q != [] {
      ChunkTally(env, w, q[0], exact);
      var o := ProcessChunk(env, w, q[0]);
      if o.status.Good? {
        QueueTally(env, o.work, if o.closed then [] else q[1..], exact && !o.closed);
      }
    }
  }

  /** What a channel holds between buffers. */
  ghost predicate Bounded(env: Env, ch: Channel, exact: bool) {
    && Tallied(env, ch.work, exact) && ch.complete == []
    && (|ch.incomplete| < MESSAGEHEADER_LENGTH || |ch.incomplete| < env.recvBufferSize)
  }

  lemma BufferBounded(env: Env, ch: Channel, buffer: Bytes, exact: bool)
    requires Bounded(env, ch, exact)
    ensures var r := ProcessBuffer(env, ch, buffer);
            r.status.Good? ==> Bounded(env, r.channel, exact && !r.closed) && WithinSize(env, r.delivered)
  {
    hide ProcessChunks, Frame, Tallied;
    var f := Frame(env.recvBufferSize, ch.incomplete + buffer);
    if f.status.Good? {
      LeftoverIsShort(env.recvBufferSize, ch.incomplete + buffer);
      QueueTally(env, ch.work, ch.complete + f.chunks, exact);
      NothingLeft(env, ch.work, ch.complete + f.chunks);
    }
  }

  lemma {:induction false} NothingLeft(env: Env, w: Work, q: seq<RawChunk>)
    ensures ProcessChunks(env, w, q).status.Good? ==> ProcessChunks(env, w, q).left == []
    decreases |q|
  {
    hide ProcessChunk;
    if q != [] {
      var o := ProcessChunk(env, w, q[0]);
      NothingLeft(env, o.work, if o.closed then [] else q[1..]);
    }
  }

  /** Buffers one after the other, until one is refused. */
  function Feed(env: Env, ch: Channel, pieces: seq<Bytes>): Received
    decreases |pieces|
  {
    if pieces == [] then Received(ch, [], Good, false)
    else
      var r := ProcessBuffer(env, ch, pieces[0]);
      if !r.status.Good? then r
      else
        var r' := Feed(env, r.channel, pieces[1..]);
        r'.(delivered := r.delivered + r'.delivered, closed := r.closed || r'.closed)
  }

  /** Over every run of buffers that are all accepted: less than a header or a receive buffer of bytes
      is kept unframed, waiting chunks and their bytes are within the limits, no delivered message is
      larger than allowed, and as long as the channel has not been closed the counters say exactly
      what is waiting. */
  lemma {:induction false} RunBounded(env: Env, ch: Channel, pieces: seq<Bytes>, exact: bool)
    requires Bounded(env, ch, exact)
    ensures var r := Feed(env, ch, pieces);
            r.status.Good? ==>
              && Bounded(env, r.channel, exact && !r.closed) && WithinSize(env, r.delivered)
              && (env.maxChunkCount != 0 ==> |r.channel.work.decrypted| <= env.maxChunkCount)
              && (env.maxMessageSize != 0 ==> |Bodies(r.channel.work.decrypted)| <= env.maxMessageSize)
    decreases |pieces|
  {
    hide ProcessBuffer, Bodies;
    if pieces != [] {
      BufferBounded(env, ch, pieces[0], exact);
      var r := ProcessBuffer(env, ch, pieces[0]);
      if r.status.Good? {
        RunBounded(env, r.channel, pieces[1..], exact && !r.closed);
      }
    }
  }
}

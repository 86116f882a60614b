/** TCP cuts the byte stream anywhere. Processing the pieces one by one comes to the same as
    processing them at once. */
module StreamCuts {
  import opened Wire
  import opened Words
  import opened SecureChannel
  import Seqs

  // ---------- framing ----------

  /** More bytes behind a complete or a bad chunk change nothing about it. */
  lemma ExtractMore(limit: nat, a: Bytes, b: Bytes)
    ensures !Extract(limit, a).Done? ==> Extract(limit, a + b) == Extract(limit, a)
  {
    if |a| >= MESSAGEHEADER_LENGTH {
      assert forall i :: 0 <= i < |a| ==> (a + b)[i] == a[i];
      var size := DecodeU32(a, 4);
      if size <= |a| {
        assert (a + b)[..size] == a[..size];
      }
    }
  }

  /** An extracted chunk is at least as long as the shortest message and within the limit. */
  lemma ExtractedLength(limit: nat, s: Bytes)
    ensures var e := Extract(limit, s);
            e.Extracted? ==> MESSAGE_MIN_LENGTH <= |e.chunk.bytes| <= limit && |e.chunk.bytes| <= |s| && e.chunk.bytes <= s
  {
  }

  lemma DropAppend(a: Bytes, b: Bytes, n: nat)
    requires n <= |a|
    ensures (a + b)[n..] == a[n..] + b
  {
  }

  /** Framing a + b is framing a, then framing what is left of a together with b. */
  lemma {:induction false} FrameAppend(limit: nat, a: Bytes, b: Bytes)
    ensures var f := Frame(limit, a);
            if f.status.Good? then
              var g := Frame(limit, f.left + b);
              Frame(limit, a + b) == g.(chunks := f.chunks + g.chunks)
            else
              Frame(limit, a + b).status == f.status && Frame(limit, a + b).chunks == f.chunks
    decreases |a|
  {
    ExtractMore(limit, a, b);
    ExtractedLength(limit, a);
    var e := Extract(limit, a);
    if e.Extracted? {
      var n := |e.chunk.bytes|;
      DropAppend(a, b, n);
      FrameAppend(limit, a[n..], b);
      var f := Frame(limit, a[n..]);
      if f.status.Good? {
        Seqs.Assoc([e.chunk], f.chunks, Frame(limit, f.left + b).chunks);
      }
    } else if e.Done? {
      Seqs.Empty(Frame(limit, a + b).chunks);
    }
  }

  /** Nothing is lost or made up: the chunks and the rest are the buffer. */
  function Whole(q: seq<RawChunk>): Bytes {
    if q == [] then [] else q[0].bytes + Whole(q[1..])
  }

  lemma {:induction false} FrameKeepsBytes(limit: nat, s: Bytes)
    ensures Whole(Frame(limit, s).chunks) + Frame(limit, s).left == s
    decreases |s|
  {
    hide Extract, Frame, Whole;
    var e := Extract(limit, s);
    FrameUnfolds(limit, s);
    if e.Extracted? {
      var n := |e.chunk.bytes|;
      FrameKeepsBytes(limit, s[n..]);
      var f := Frame(limit, s[n..]);
      WholeWith(e.chunk, f.chunks, f.left);
      FrontExtracted(limit, s);
    } else {
      WholeOfNone();
      Seqs.Empty(s);
    }
  }

  lemma WholeOfNone()
    ensures Whole([]) == []
  {
  }

  lemma WholeWith(c: RawChunk, q: seq<RawChunk>, left: Bytes)
    ensures Whole([c] + q) + left == c.bytes + (Whole(q) + left)
  {
    Seqs.Uncons([c], q);
    Seqs.Assoc(c.bytes, Whole(q), left);
  }

  lemma FrontExtracted(limit: nat, s: Bytes)
    ensures var e := Extract(limit, s);
            e.Extracted? ==> |e.chunk.bytes| <= |s| && e.chunk.bytes + s[|e.chunk.bytes|..] == s
  {
    ExtractedLength(limit, s);
    hide Extract;
  }

  lemma FrameUnfolds(limit: nat, s: Bytes)
    ensures var e := Extract(limit, s);
            if !e.Extracted? then Frame(limit, s).chunks == [] && Frame(limit, s).left == s
            else
              |e.chunk.bytes| <= |s| && var f := Frame(limit, s[|e.chunk.bytes|..]);
              Frame(limit, s) == f.(chunks := [e.chunk] + f.chunks)
  {
    hide Extract;
    ExtractedLength(limit, s);
  }

  /** What is kept for later is less than a header or less than the largest allowed chunk, and
      holds no complete chunk. */
  lemma {:induction false} LeftoverIsShort(limit: nat, s: Bytes)
    requires Frame(limit, s).status.Good?
    ensures var left := Frame(limit, s).left;
            Extract(limit, left).Done? && (|left| < MESSAGEHEADER_LENGTH || |left| < limit)
    decreases |s|
  {
    var e := Extract(limit, s);
    ExtractedLength(limit, s);
    if e.Extracted? {
      LeftoverIsShort(limit, s[|e.chunk.bytes|..]);
    }
  }

  // ---------- processing ----------

  /** Processing a queue is processing its front, then the rest. Nothing is left of the rest when
      the channel closes on the way. */
  lemma {:induction false} ProcessAppend(env: Env, w: Work, a: seq<RawChunk>, b: seq<RawChunk>)
    ensures var p := ProcessChunks(env, w, a);
            if p.closed then
              p.left == [] && ProcessChunks(env, w, a + b) == p
            else if p.status.Good? then
              var r := ProcessChunks(env, p.work, b);
              p.left == [] && ProcessChunks(env, w, a + b) == r.(delivered := p.delivered + r.delivered)
            else
              ProcessChunks(env, w, a + b) == p.(left := p.left + b)
    decreases |a|
  {
    hide ProcessChunk;
    if a == [] {
      Seqs.Empty(b);
      Seqs.Empty(ProcessChunks(env, w, b).delivered);
    } else {
      Seqs.Uncons(a, b);
      var o := ProcessChunk(env, w, a[0]);
      if o.status.Good? && !o.closed {
        ProcessAppend(env, o.work, a[1..], b);
        var p := ProcessChunks(env, o.work, a[1..]);
        Seqs.Assoc(o.delivered, p.delivered, ProcessChunks(env, p.work, b).delivered);
      }
    }
  }

  /** One cut. When the whole stream is well framed, the outcome of the two pieces is the outcome of
      the whole: if the channel closes in the first piece that is already everything, and an error
      of processing is the same error. */
  lemma OneCut(env: Env, ch: Channel, a: Bytes, b: Bytes)
    requires Frame(env.recvBufferSize, ch.incomplete + (a + b)).status.Good?
    ensures var whole, first := ProcessBuffer(env, ch, a + b), ProcessBuffer(env, ch, a);
            if first.closed then
              whole == first
            else if first.status.Good? then
              var second := ProcessBuffer(env, first.channel, b);
              whole == second.(delivered := first.delivered + second.delivered)
            else
              && whole.status == first.status && whole.delivered == first.delivered && !whole.closed
              && whole.channel.work == first.channel.work
  {
    hide ProcessChunk, ProcessChunks, Frame;
    Seqs.Assoc(ch.incomplete, a, b);
    FrameAppend(env.recvBufferSize, ch.incomplete + a, b);
    var f := Frame(env.recvBufferSize, ch.incomplete + a);
    var g := Frame(env.recvBufferSize, f.left + b);
    Seqs.Assoc(ch.complete, f.chunks, g.chunks);
    ProcessAppend(env, ch.work, ch.complete + f.chunks, g.chunks);
    Seqs.Empty(g.chunks);
  }

  /** Accepted, with the channel still there. */
  predicate Fine(r: Received) {
    r.status.Good? && !r.closed
  }

  /** A whole stream goes well exactly when both of its pieces do, one after the other. */
  lemma OneCutAccepted(env: Env, ch: Channel, a: Bytes, b: Bytes)
    ensures Fine(ProcessBuffer(env, ch, a + b))
            <==> Fine(ProcessBuffer(env, ch, a)) && Fine(ProcessBuffer(env, ProcessBuffer(env, ch, a).channel, b))
  {
    hide ProcessChunk, ProcessChunks, Frame;
    Seqs.Assoc(ch.incomplete, a, b);
    FrameAppend(env.recvBufferSize, ch.incomplete + a, b);
    if Frame(env.recvBufferSize, ch.incomplete + (a + b)).status.Good? {
      OneCut(env, ch, a, b);
    }
  }

  // ---------- any number of pieces ----------

  function Joined(pieces: seq<Bytes>): Bytes {
    if pieces == [] then [] else pieces[0] + Joined(pieces[1..])
  }

  /** Feeds the pieces to the channel until an error occurs or the channel closes. */
  function ProcessPieces(env: Env, ch: Channel, pieces: seq<Bytes>): Received
    decreases |pieces|
  {
    if pieces == [] then Received(ch, [], Good, false)
    else
      var r := ProcessBuffer(env, ch, pieces[0]);
      if !Fine(r) then r
      else
        var r' := ProcessPieces(env, r.channel, pieces[1..]);
        r'.(delivered := r.delivered + r'.delivered)
  }

  /** However the stream is cut, it goes well if and only if it does in one piece, and then
      deliveries, counters, queues and the bytes kept for later are the same. So are they when the
      channel closes in the middle of a well-framed stream. */
  lemma {:induction false} AnyCuts(env: Env, ch: Channel, pieces: seq<Bytes>)
    requires pieces != []
    ensures var whole := ProcessBuffer(env, ch, Joined(pieces));
            && (Fine(ProcessPieces(env, ch, pieces)) <==> Fine(whole))
            && (Fine(whole) ==> ProcessPieces(env, ch, pieces) == whole)
            && (whole.closed ==> ProcessPieces(env, ch, pieces) == whole)
    decreases |pieces|
  {
    hide ProcessBuffer, Frame;
    var r := ProcessBuffer(env, ch, pieces[0]);
    Seqs.Empty(r.delivered);
    Seqs.Empty(pieces[0]);
    if |pieces| > 1 {
      var rest := Joined(pieces[1..]);
      OneCutAccepted(env, ch, pieces[0], rest);
      WholeAfterCut(env, ch, pieces[0], rest);
      if Fine(r) {
        AnyCuts(env, r.channel, pieces[1..]);
      }
    }
  }

  /** A well-framed stream comes to the same in any pieces also when a chunk of it is refused: the same
      deliveries up to there, the same status, and the same state of the channel. */
  lemma {:induction false} AnyCutsFramed(env: Env, ch: Channel, pieces: seq<Bytes>)
    requires pieces != [] && Frame(env.recvBufferSize, ch.incomplete + Joined(pieces)).status.Good?
    ensures var p, whole := ProcessPieces(env, ch, pieces), ProcessBuffer(env, ch, Joined(pieces));
            && p.status == whole.status && p.delivered == whole.delivered && p.closed == whole.closed
            && p.channel.work == whole.channel.work
    decreases |pieces|
  {
    hide ProcessBuffer, Frame;
    var r := ProcessBuffer(env, ch, pieces[0]);
    Seqs.Empty(r.delivered);
    Seqs.Empty(pieces[0]);
    if |pieces| > 1 {
      var rest := Joined(pieces[1..]);
      OneCut(env, ch, pieces[0], rest);
      if Fine(r) {
        RestFramed(env, ch, pieces[0], rest);
        AnyCutsFramed(env, r.channel, pieces[1..]);
      }
    }
  }

  lemma RestFramed(env: Env, ch: Channel, a: Bytes, b: Bytes)
    requires Frame(env.recvBufferSize, ch.incomplete + (a + b)).status.Good? && Fine(ProcessBuffer(env, ch, a))
    ensures Frame(env.recvBufferSize, ProcessBuffer(env, ch, a).channel.incomplete + b).status.Good?
  {
    hide ProcessChunks, Frame;
    Seqs.Assoc(ch.incomplete, a, b);
    FrameAppend(env.recvBufferSize, ch.incomplete + a, b);
  }

  lemma WholeAfterCut(env: Env, ch: Channel, a: Bytes, b: Bytes)
    ensures var whole, first := ProcessBuffer(env, ch, a + b), ProcessBuffer(env, ch, a);
            whole.closed || Fine(whole) ==>
              if first.closed then whole == first
              else
                var second := ProcessBuffer(env, first.channel, b);
                Fine(first) && whole == second.(delivered := first.delivered + second.delivered)
  {
    hide ProcessChunks;
    var whole := ProcessBuffer(env, ch, a + b);
    if Frame(env.recvBufferSize, ch.incomplete + (a + b)).status.Good? {
      hide Frame;
      OneCut(env, ch, a, b);
    }
  }

  // ---------- the clock ----------

  lemma SameUnpack(env: Env, t: int, core: Core, c: RawChunk)
    ensures var u, u' := Unpack(env, core, c), Unpack(env.(now := t), core, c);
            u.status.Good? && u'.status.Good? ==> u == u'
  {
    hide DecryptAndVerify, TakeSequenceHeader, CheckSymHeader;
    if c.messageType.MSG? || c.messageType.CLO? {
      SameHeaderCheck(core, DecodeU32(c.bytes, 12), env.now, t);
    }
  }

  lemma SameHeaderCheck(core: Core, tokenId: UInt32, now: int, t: int)
    ensures var (core1, st1) := CheckSymHeader(core, tokenId, now);
            var (core2, st2) := CheckSymHeader(core, tokenId, t);
            st1.Good? && st2.Good? ==> core1 == core2
  {
  }

  lemma {:induction false} SameProgress(env: Env, t: int, w: Work, q: seq<RawChunk>)
    ensures var p, p' := ProcessChunks(env, w, q), ProcessChunks(env.(now := t), w, q);
            p.status.Good? && p'.status.Good? ==> p == p'
    decreases |q|
  {
    if q != [] {
      SameUnpack(env, t, w.core, q[0]);
      SameStep(env, t, w, q[0]);
      var o := ProcessChunk(env, w, q[0]);
      if o.status.Good? {
        SameProgress(env, t, o.work, q[1..]);
      }
    }
  }

  lemma SameStep(env: Env, t: int, w: Work, c: RawChunk)
    ensures var o, o' := ProcessChunk(env, w, c), ProcessChunk(env.(now := t), w, c);
            o.status.Good? && o'.status.Good? ==> o == o'
  {
    hide Unpack;
    SameUnpack(env, t, w.core, c);
  }

  /** The time of arrival decides whether a token is still good, and nothing else. */
  lemma ClockOnlyExpires(env: Env, t: int, ch: Channel, buffer: Bytes)
    ensures var r, r' := ProcessBuffer(env, ch, buffer), ProcessBuffer(env.(now := t), ch, buffer);
            r.status.Good? && r'.status.Good? ==> r == r'
  {
    hide ProcessChunks;
    var f := Frame(env.recvBufferSize, ch.incomplete + buffer);
    SameProgress(env, t, ch.work, ch.complete + f.chunks);
  }
}

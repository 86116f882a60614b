/** Which messages go out, and how much of one that is too large. */
module SendLimits {
  import opened Wire
  import opened Words
  import opened SecureChannel
  import opened StreamCuts
  import opened ChunkSend
  import SequenceNumbers

  /** The message is not too large for its chunk at place k; zero means no limit, and the count of
      chunks has 16 bits. The message has got as far as count chunks and size bytes before. */
  predicate FitsAt(o: Sending, bodies: seq<Bytes>, k: nat, count: nat, size: nat)
    requires k < |bodies|
  {
    && (o.maxMessageSize == 0 || size + |Joined(bodies[..k + 1])| <= o.maxMessageSize)
    && (o.maxChunkCount == 0 || (count + k + 1) % 65536 <= o.maxChunkCount)
  }

  /** The number of the chunk at place k. */
  function NumberAt(number: UInt32, k: nat): UInt32 {
    (number + k + 1) % 0x1_0000_0000
  }

  /** The chunks of the first n bodies. */
  ghost predicate ChunksOf(o: Sending, number: UInt32, requestId: UInt32, m: MessageType, bodies: seq<Bytes>, n: nat,
                           chunks: seq<Bytes>)
    requires o.suite.blockSize > 0 && n <= |bodies|
  {
    && |chunks| == n
    && forall i :: 0 <= i < n ==>
         chunks[i] == EncodeChunk(o, NumberAt(number, i), requestId, m, i == |bodies| - 1, bodies[i])
  }

  /** How far a message gets: the first n bodies fit, the one behind them does not, and what is sent is
      the chunks of those n. */
  ghost predicate SentUpTo(o: Sending, number: UInt32, requestId: UInt32, m: MessageType, bodies: seq<Bytes>, count: nat,
                           size: nat, n: nat, e: Emission)
    requires o.suite.blockSize > 0
  {
    && n <= |bodies| && (forall k :: 0 <= k < n ==> FitsAt(o, bodies, k, count, size))
    && (n < |bodies| ==> !FitsAt(o, bodies, n, count, size))
    && ChunksOf(o, number, requestId, m, bodies, n, e.chunks) && e.number == (number + n) % 0x1_0000_0000
    && e.status == if n == |bodies| then Good else BadResponseTooLarge
  }

  lemma {:induction false} BodiesSent(o: Sending, number: UInt32, requestId: UInt32, m: MessageType, bodies: seq<Bytes>,
                                      count: nat, size: nat)
    returns (n: nat)
    requires o.suite.blockSize > 0
    ensures SentUpTo(o, number, requestId, m, bodies, count, size, n,
                     SendBodies(o, number, requestId, m, bodies, count, size))
    decreases |bodies|
  {
    hide EncodeChunk, FitsAt, WithinLimits, SequenceNumbers.Next;
    if bodies == [] {
      n := 0;
    } else {
      var count', size', number' := (count + 1) % 0x1_0000, size + |bodies[0]|, SequenceNumbers.Next(number);
      FirstFits(o, bodies, count, size);
      if !WithinLimits(o, count', size') {
        n := 0;
      } else {
        n := BodiesSent(o, number', requestId, m, bodies[1..], count', size');
        OneMoreSent(o, number, requestId, m, bodies, count, size, n,
                    SendBodies(o, number', requestId, m, bodies[1..], count', size'));
        n := n + 1;
      }
    }
  }

  lemma OneMoreSent(o: Sending, number: UInt32, requestId: UInt32, m: MessageType, bodies: seq<Bytes>, count: nat,
                    size: nat, n: nat, e: Emission)
    requires o.suite.blockSize > 0 && bodies != [] && FitsAt(o, bodies, 0, count, size)
    requires SentUpTo(o, SequenceNumbers.Next(number), requestId, m, bodies[1..], (count + 1) % 0x1_0000,
                      size + |bodies[0]|, n, e)
    ensures SentUpTo(o, number, requestId, m, bodies, count, size, n + 1,
                     e.(chunks := [EncodeChunk(o, SequenceNumbers.Next(number), requestId, m, |bodies| == 1, bodies[0])]
                                  + e.chunks))
  {
    hide EncodeChunk, FitsAt, SequenceNumbers.Next, ChunksOf;
    if n + 1 < |bodies| {
      FitsLater(o, bodies, n, count, size);
    }
    FrontFits(o, bodies, bodies[1..], n, count, size, (count + 1) % 0x1_0000, size + |bodies[0]|);
    NumbersGoOn(number, n);
    Extended(o, number, requestId, m, bodies, n, e.chunks);
  }

  lemma FirstFits(o: Sending, bodies: seq<Bytes>, count: nat, size: nat)
    requires bodies != []
    ensures FitsAt(o, bodies, 0, count, size) <==> WithinLimits(o, (count + 1) % 0x1_0000, size + |bodies[0]|)
  {
    var none: seq<Bytes> := [];
    assert bodies[..1][1..] == none;
    assert Joined(bodies[..1]) == bodies[0] + Joined(none);
  }

  lemma FitsLater(o: Sending, bodies: seq<Bytes>, k: nat, count: nat, size: nat)
    requires k + 1 < |bodies|
    ensures FitsAt(o, bodies, k + 1, count, size)
            <==> FitsAt(o, bodies[1..], k, (count + 1) % 0x1_0000, size + |bodies[0]|)
  {
    assert bodies[..k + 2][1..] == bodies[1..][..k + 1];
    assert bodies[..k + 2][0] == bodies[0];
  }

  lemma FrontFits(o: Sending, bodies: seq<Bytes>, rest: seq<Bytes>, n: nat, count: nat, size: nat, count': nat, size': nat)
    requires n < |bodies| && rest == bodies[1..] && count' == (count + 1) % 0x1_0000 && size' == size + |bodies[0]|
    requires FitsAt(o, bodies, 0, count, size) && forall k :: 0 <= k < n ==> FitsAt(o, rest, k, count', size')
    ensures forall k :: 0 <= k < n + 1 ==> FitsAt(o, bodies, k, count, size)
  {
    hide FitsAt;
    forall k | 0 <= k < n + 1 ensures FitsAt(o, bodies, k, count, size) {
      if k > 0 {
        FitsLater(o, bodies, k - 1, count, size);
      }
    }
  }

  lemma NumbersGoOn(number: UInt32, n: nat)
    ensures forall i: nat :: NumberAt(number, i + 1) == NumberAt(SequenceNumbers.Next(number), i)
    ensures NumberAt(number, 0) == SequenceNumbers.Next(number)
    ensures (number + (n + 1)) % 0x1_0000_0000 == (SequenceNumbers.Next(number) + n) % 0x1_0000_0000
  {
  }

  lemma Extended(o: Sending, number: UInt32, requestId: UInt32, m: MessageType, bodies: seq<Bytes>, n: nat,
                 chunks: seq<Bytes>)
    requires o.suite.blockSize > 0 && bodies != [] && n < |bodies|
    requires ChunksOf(o, SequenceNumbers.Next(number), requestId, m, bodies[1..], n, chunks)
    ensures ChunksOf(o, number, requestId, m, bodies, n + 1,
                     [EncodeChunk(o, SequenceNumbers.Next(number), requestId, m, |bodies| == 1, bodies[0])] + chunks)
  {
    hide EncodeChunk, NumberAt;
    NumbersGoOn(number, n);
    var all := [EncodeChunk(o, SequenceNumbers.Next(number), requestId, m, |bodies| == 1, bodies[0])] + chunks;
    forall i | 0 <= i < n + 1
      ensures all[i] == EncodeChunk(o, NumberAt(number, i), requestId, m, i == |bodies| - 1, bodies[i])
    {
      if i > 0 {
        assert all[i] == chunks[i - 1] && bodies[1..][i - 1] == bodies[i];
        assert NumberAt(number, (i - 1) + 1) == NumberAt(SequenceNumbers.Next(number), i - 1);
      }
    }
  }

  /** For any number of bodies: exactly the chunks of the longest front part that fits are sent, and the
      sequence number moves by as many. */
  lemma SentExactly(o: Sending, number: UInt32, requestId: UInt32, m: MessageType, bodies: seq<Bytes>) returns (n: nat)
    requires o.suite.blockSize > 0 && (m == MSG || m == CLO)
    ensures SentUpTo(o, number, requestId, m, bodies, 0, 0, n, SendMessage(o, number, requestId, m, bodies))
  {
    n := BodiesSent(o, number, requestId, m, bodies, 0, 0);
  }

  /** A front part of the message is within both limits. */
  predicate Within(o: Sending, bodies: seq<Bytes>, n: nat)
    requires n <= |bodies|
  {
    && (o.maxMessageSize == 0 || |Joined(bodies[..n])| <= o.maxMessageSize)
    && (o.maxChunkCount == 0 || n <= o.maxChunkCount)
  }

  lemma {:induction false} JoinedGrows(bodies: seq<Bytes>, i: nat, j: nat)
    requires i <= j <= |bodies|
    ensures |Joined(bodies[..i])| <= |Joined(bodies[..j])|
    decreases i
  {
    if i > 0 {
      assert bodies[..i][1..] == bodies[1..][..i - 1] && bodies[..j][1..] == bodies[1..][..j - 1];
      JoinedGrows(bodies[1..], i - 1, j - 1);
    }
  }

  /** The message is sent whole if and only if it is within both limits. Otherwise exactly the longest
      front part within them is sent. This is so for all messages of less than 65536 chunks, and for all
      others when the limit on chunks is below 65535. */
  lemma SentWhole(o: Sending, number: UInt32, requestId: UInt32, m: MessageType, bodies: seq<Bytes>) returns (n: nat)
    requires o.suite.blockSize > 0 && (m == MSG || m == CLO)
    requires |bodies| < 65536 || o.maxChunkCount < 65535
    ensures var e := SendMessage(o, number, requestId, m, bodies);
            && (e.status.Good? <==> Within(o, bodies, |bodies|)) && (!e.status.Good? ==> e.status == BadResponseTooLarge)
            && n <= |bodies| && (forall k :: 0 < k <= |bodies| ==> (Within(o, bodies, k) <==> k <= n))
            && ChunksOf(o, number, requestId, m, bodies, n, e.chunks) && e.number == (number + n) % 0x1_0000_0000
    ensures bodies[..|bodies|] == bodies
  {
    hide Joined, EncodeChunk;
    n := SentExactly(o, number, requestId, m, bodies);
    CountStays(o, bodies, n);
    forall k: nat | 0 < k <= |bodies| ensures Within(o, bodies, k) <==> k <= n {
      if k <= n {
        assert FitsAt(o, bodies, k - 1, 0, 0);
      } else {
        JoinedGrows(bodies, n + 1, k);
        assert !FitsAt(o, bodies, n, 0, 0);
      }
    }
    EmptyWithin(o, bodies);
  }

  /** As long as every chunk so far fits, the counter has not wrapped around. */
  lemma {:induction false} CountStays(o: Sending, bodies: seq<Bytes>, n: nat)
    requires n <= |bodies| && forall k :: 0 <= k < n ==> FitsAt(o, bodies, k, 0, 0)
    requires |bodies| < 65536 || o.maxChunkCount < 65535
    ensures o.maxChunkCount != 0 ==> n <= o.maxChunkCount
    ensures o.maxChunkCount != 0 && n < |bodies| ==> (n + 1) % 65536 == n + 1
    decreases n
  {
    if n > 0 {
      CountStays(o, bodies, n - 1);
      assert FitsAt(o, bodies, n - 1, 0, 0);
    }
  }

  lemma EmptyWithin(o: Sending, bodies: seq<Bytes>)
    ensures Within(o, bodies, 0)
  {
  }

  /** The limit on chunks holds for every message exactly when it is below 65535: a counter of 16 bits
      never exceeds what is more. */
  lemma ChunkLimitHolds(o: Sending, number: UInt32, requestId: UInt32, m: MessageType)
    requires o.suite.blockSize > 0 && (m == MSG || m == CLO)
    ensures (forall bodies :: SendMessage(o, number, requestId, m, bodies).status.Good? ==> Within(o, bodies, |bodies|))
            <==> o.maxChunkCount < 65535
  {
    hide EncodeChunk, SendMessage, ChunksOf, Within;
    if o.maxChunkCount < 65535 {
      forall bodies | SendMessage(o, number, requestId, m, bodies).status.Good? ensures Within(o, bodies, |bodies|) {
        var _ := SentWhole(o, number, requestId, m, bodies);
      }
    } else {
      var bodies: seq<Bytes> := seq(o.maxChunkCount + 1, _ => []);
      var n := SentExactly(o, number, requestId, m, bodies);
      if n < |bodies| {
        AllEmpty(o, bodies, n);
      }
      TooMany(o, bodies);
      assert SendMessage(o, number, requestId, m, bodies).status.Good? && !Within(o, bodies, |bodies|);
    }
  }

  lemma AllEmpty(o: Sending, bodies: seq<Bytes>, n: nat)
    requires o.maxChunkCount >= 65535 && (forall i :: 0 <= i < |bodies| ==> bodies[i] == []) && n < |bodies|
    ensures FitsAt(o, bodies, n, 0, 0)
  {
    NothingJoined(bodies[..n + 1]);
  }

  lemma {:induction false} NothingJoined(bodies: seq<Bytes>)
    requires forall i :: 0 <= i < |bodies| ==> bodies[i] == []
    ensures Joined(bodies) == []
  {
    if bodies != [] {
      NothingJoined(bodies[1..]);
    }
  }

  lemma TooMany(o: Sending, bodies: seq<Bytes>)
    requires o.maxChunkCount != 0 && |bodies| > o.maxChunkCount
    ensures !Within(o, bodies, |bodies|)
  {
  }
}

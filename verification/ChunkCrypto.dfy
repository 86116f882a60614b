/** Padding, signing and encrypting of symmetric chunks, and undoing it. The algorithms themselves
    are parameters. */
module ChunkCrypto {
  import opened Options
  import opened Wire

  datatype SecurityMode = ModeNone | ModeSign | ModeSignAndEncrypt

  predicate Signed(mode: SecurityMode) {
    mode.ModeSign? || mode.ModeSignAndEncrypt?
  }

  /** The symmetric algorithms of a security policy; keys are named by a number. A decryption may
      fail. Keys of more than 2048 bits take a second padding byte. */
  datatype Suite = Suite(
    signatureSize: nat,
    blockSize: nat,
    extraPadding: bool,
    sign: (nat, Bytes) -> Bytes,
    verify: (nat, Bytes, Bytes) -> bool,
    encrypt: (nat, Bytes) -> Bytes,
    decrypt: (nat, Bytes) -> Option<Bytes>)

  // ---------- rounding up to whole blocks ----------

  lemma Distribute(a: int, b: int, size: int)
    ensures (a - b) * size == a * size - b * size
  {
  }

  lemma {:induction false} AtLeastOne(k: nat, size: nat)
    requires k > 0
    ensures k * size >= size
  {
    if k > 1 {
      AtLeastOne(k - 1, size);
      Distribute(k, 1, size);
    }
  }

  /** Two multiples of the block size less than a block apart are the same. */
  lemma SameMultiple(p: int, q: int, size: nat)
    requires size > 0 && p * size < q * size + size && q * size < p * size + size
    ensures p == q
  {
    if p > q {
      AtLeastOne(p - q, size);
      Distribute(p, q, size);
    } else if p < q {
      AtLeastOne(q - p, size);
      Distribute(q, p, size);
    }
  }

  lemma LessMultiple(p: nat, q: nat, size: nat)
    requires size > 0 && p * size < q * size + size
    ensures p * size <= q * size
  {
    if p > q {
      AtLeastOne(p - q, size);
      Distribute(p, q, size);
    }
  }

  lemma Division(n: nat, size: nat)
    requires size > 0
    ensures n == n / size * size + n % size && n % size < size
  {
  }

  lemma Multiple(q: nat, size: nat)
    requires size > 0
    ensures q * size % size == 0
  {
    Division(q * size, size);
    SameMultiple(q * size / size, q, size);
  }

  function Gap(n: nat, size: nat): nat
    requires size > 0
  {
    if n % size != 0 then size - n % size else 0
  }

  /** Filling the gap reaches the next multiple of the block size. */
  lemma GapFills(n: nat, size: nat) returns (q: nat)
    requires size > 0
    ensures Gap(n, size) < size && n + Gap(n, size) == q * size
  {
    q := n / size + if n % size != 0 then 1 else 0;
    Division(n, size);
    Distribute(n / size + 1, 1, size);
  }

  // ---------- padding ----------

  function PaddingBytes(c: Suite): nat {
    if c.extraPadding then 2 else 1
  }

  /** How many bytes of padding bring the written bytes, the padding size and the signature to
      whole blocks. */
  function PaddingLength(c: Suite, written: nat): nat
    requires c.blockSize > 0
  {
    Gap(written + c.signatureSize + PaddingBytes(c), c.blockSize)
  }

  /** The padding bytes, each holding the padding length, which the first one announces; with extra
      padding a second byte holds the upper part of the length. */
  function Padding(c: Suite, written: nat): (s: Bytes)
    requires c.blockSize > 0
    ensures |s| == PaddingLength(c, written) + PaddingBytes(c)
  {
    var n := PaddingLength(c, written);
    seq(n + 1, _ => n % 0x100) + if c.extraPadding then [n / 0x100 % 0x100] else []
  }

  lemma PaddingAt(c: Suite, written: nat)
    requires c.blockSize > 0
    ensures var n, p := PaddingLength(c, written), Padding(c, written);
            && (forall k :: 0 <= k <= n ==> p[k] == n % 0x100)
            && (c.extraPadding ==> p[n + 1] == n / 0x100 % 0x100)
  {
  }

  /** A stretch of a buffer has been overwritten. */
  lemma Spliced(now: Bytes, was: Bytes, pos: nat, p: Bytes)
    requires |now| == |was| && pos + |p| <= |was|
    requires forall k :: 0 <= k < pos ==> now[k] == was[k]
    requires forall k :: pos <= k < pos + |p| ==> now[k] == p[k - pos]
    requires forall k :: pos + |p| <= k < |was| ==> now[k] == was[k]
    ensures now == was[..pos] + p + was[pos + |p|..]
  {
  }

  /** The 16-bit counter of the padding loop gets beyond n at some time. */
  ghost predicate LoopEnds(n: nat) {
    exists rounds: nat :: Counter(rounds) > n
  }

  function Counter(rounds: nat): nat {
    rounds % 0x1_0000
  }

  lemma LoopEndsBelow(n: nat)
    ensures LoopEnds(n) <==> n < 0xffff
  {
    assert Counter(0xffff) == 0xffff;
  }

  /** Writes the padding from pos on, for as long as the 16-bit loop counter allows. */
  method PadChunk(c: Suite, buffer: array<Byte>, start: nat, pos: nat) returns (pos': nat)
    requires c.blockSize > 0 && start <= pos && LoopEnds(PaddingLength(c, pos - start))
    requires pos + PaddingLength(c, pos - start) + PaddingBytes(c) <= buffer.Length
    modifies buffer
    ensures pos' == pos + |Padding(c, pos - start)| <= buffer.Length
    ensures buffer[..] == old(buffer[..])[..pos] + Padding(c, pos - start) + old(buffer[..])[pos'..]
  {
    hide Gap, Padding, PaddingLength, LoopEnds;
    var bytesToWrite := pos - start;
    var paddingLength := PaddingLength(c, bytesToWrite);
    LoopEndsBelow(paddingLength);
    var i := 0;
    pos' := pos;
    while i <= paddingLength
      invariant i <= paddingLength + 1 && pos' == pos + i
      invariant forall k :: 0 <= k < pos || pos' <= k < buffer.Length ==> buffer[k] == old(buffer[k])
      invariant forall k :: pos <= k < pos' ==> buffer[k] == paddingLength % 0x100
      decreases paddingLength + 1 - i
    {
      buffer[pos'] := paddingLength % 0x100;
      pos' := pos' + 1;
      i := (i + 1) % 0x1_0000;
    }
    if c.extraPadding {
      buffer[pos'] := paddingLength / 0x100 % 0x100;
      pos' := pos' + 1;
    }
    PaddingAt(c, bytesToWrite);
    Spliced(buffer[..], old(buffer[..]), pos, Padding(c, bytesToWrite));
  }

  /** How many bytes in front of the signature are padding, by what the last of them say. A chunk
      that does not even hold them all is refused by its length later, whatever is read here. */
  function DecodePadding(c: Suite, chunk: Bytes): nat
    requires c.signatureSize < |chunk|
  {
    var at := |chunk| - c.signatureSize;
    if c.extraPadding then
      (chunk[at - 1] as nat) * 0x100 + (if at >= 2 then chunk[at - 2] as nat else 0) + 2
    else
      chunk[at - 1] as nat + 1
  }

  /** The largest block size for which the padding loop ends and the padding length fits its bytes. */
  function LargestBlock(c: Suite): nat {
    if c.extraPadding then 0xffff else 0x100
  }

  lemma BeforeTheEnd(a: Bytes, b: Bytes, c: Bytes, k: nat)
    requires 0 < k <= |b|
    ensures (a + b + c)[|a| + |b| - k] == b[|b| - k]
  {
  }

  /** What the last padding bytes say. */
  lemma LastPaddingBytes(c: Suite, written: nat)
    requires c.blockSize > 0
    ensures var n, p := PaddingLength(c, written), Padding(c, written);
            if c.extraPadding then p[|p| - 1] == n / 0x100 % 0x100 && p[|p| - 2] == n % 0x100
            else p[|p| - 1] == n % 0x100
  {
  }

  lemma TwoBytes(n: nat)
    ensures n / 0x100 % 0x100 * 0x100 + n % 0x100 == n % 0x1_0000
  {
    Division(n, 0x100);
    Division(n / 0x100, 0x100);
  }

  lemma PaddingTail(c: Suite, front: Bytes, written: nat, signature: Bytes)
    requires c.blockSize > 0 && |signature| == c.signatureSize
    ensures var n := PaddingLength(c, written);
            DecodePadding(c, front + Padding(c, written) + signature)
            == (if c.extraPadding then n % 0x1_0000 else n % 0x100) + PaddingBytes(c)
  {
    hide Padding, PaddingLength;
    var p := Padding(c, written);
    LastPaddingBytes(c, written);
    BeforeTheEnd(front, p, signature, 1);
    if c.extraPadding {
      BeforeTheEnd(front, p, signature, 2);
      TwoBytes(PaddingLength(c, written));
    }
  }

  lemma PaddingRead(c: Suite, front: Bytes, written: nat, signature: Bytes)
    requires 0 < c.blockSize <= LargestBlock(c) && |signature| == c.signatureSize
    ensures LoopEnds(PaddingLength(c, written))
    ensures DecodePadding(c, front + Padding(c, written) + signature) == |Padding(c, written)|
  {
    hide Gap, Padding, DecodePadding, LoopEnds;
    PaddingTail(c, front, written, signature);
    var _ := GapFills(written + c.signatureSize + PaddingBytes(c), c.blockSize);
    LoopEndsBelow(PaddingLength(c, written));
  }

  /** The sender gets done with the padding, and the receiver recovers how many bytes it has. */
  ghost predicate PaddingWorks(c: Suite, front: Bytes, written: nat, signature: Bytes)
    requires c.blockSize > 0 && |signature| == c.signatureSize
  {
    && LoopEnds(PaddingLength(c, written))
    && DecodePadding(c, front + Padding(c, written) + signature) == |Padding(c, written)|
  }

  /** Padding works for every chunk exactly when the block size fits the padding bytes and the counter. */
  lemma PaddingRecovered(c: Suite)
    requires c.blockSize > 0
    ensures (forall front: Bytes, written: nat, signature: Bytes | |signature| == c.signatureSize ::
               PaddingWorks(c, front, written, signature))
            <==> c.blockSize <= LargestBlock(c)
  {
    hide Gap, Padding, DecodePadding, PaddingLength, LoopEnds;
    forall front: Bytes, written: nat, signature: Bytes | |signature| == c.signatureSize && c.blockSize <= LargestBlock(c)
      ensures PaddingWorks(c, front, written, signature)
    {
      PaddingRead(c, front, written, signature);
    }
    if c.blockSize > LargestBlock(c) {
      var written := LongestPadding(c);
      var signature: Bytes := seq(c.signatureSize, _ => 0);
      PaddingTail(c, [], written, signature);
      LoopEndsBelow(PaddingLength(c, written));
      assert !PaddingWorks(c, [], written, signature);
    }
  }

  lemma GapAfterMultiple(q: nat, size: nat)
    requires size > 1
    ensures Gap(q * size + 1, size) == size - 1
  {
    var p := GapFills(q * size + 1, size);
    SameMultiple(p - 1, q, size);
  }

  /** The longest padding occurs. */
  lemma LongestPadding(c: Suite) returns (written: nat)
    requires c.blockSize > 1
    ensures PaddingLength(c, written) == c.blockSize - 1
  {
    hide Gap;
    var fixed := c.signatureSize + PaddingBytes(c);
    written := (c.blockSize - 1) * fixed + 1;
    Distribute(c.blockSize, 1, fixed);
    GapAfterMultiple(fixed, c.blockSize);
  }

  // ---------- space ----------

  /** The end of the space for message bodies in a buffer; it may lie before its start if the
      buffer is tiny. */
  function BodyEnd(c: Suite, mode: SecurityMode, length: nat): int
    requires mode.ModeNone? || c.blockSize > 0
  {
    if mode.ModeNone? then length
    else length - c.signatureSize - length % c.blockSize - if mode.ModeSignAndEncrypt? then PaddingBytes(c) else 0
  }

  /** The length of the chunk for a body that ends at the given position. */
  function TotalLength(c: Suite, mode: SecurityMode, end: nat): nat
    requires end >= HEADER_TOTALLENGTH && (mode.ModeNone? || c.blockSize > 0)
  {
    end + (if mode.ModeSignAndEncrypt? then |Padding(c, end - HEADER_UNENCRYPTEDLENGTH)| else 0)
    + if Signed(mode) then c.signatureSize else 0
  }

  /** The encrypted part of a chunk is a whole number of blocks. */
  lemma WholeBlocks(c: Suite, end: nat) returns (q: nat)
    requires end >= HEADER_TOTALLENGTH && c.blockSize > 0
    ensures TotalLength(c, ModeSignAndEncrypt, end) - HEADER_UNENCRYPTEDLENGTH == q * c.blockSize
    ensures (TotalLength(c, ModeSignAndEncrypt, end) - HEADER_UNENCRYPTEDLENGTH) % c.blockSize == 0
    ensures TotalLength(c, ModeSignAndEncrypt, end) < end + PaddingBytes(c) + c.signatureSize + c.blockSize
  {
    q := GapFills(end - HEADER_UNENCRYPTEDLENGTH + c.signatureSize + PaddingBytes(c), c.blockSize);
    Multiple(q, c.blockSize);
  }

  /** A body that uses up all the space makes a chunk of exactly this length: the whole buffer without
      security, else all whole blocks of it, and where the headers in the clear are no whole number of
      blocks, that much more of an encrypted one. */
  lemma LongestChunk(c: Suite, mode: SecurityMode, length: nat)
    requires c.blockSize > 0 && BodyEnd(c, mode, length) >= HEADER_TOTALLENGTH
    ensures var end: nat := BodyEnd(c, mode, length);
            TotalLength(c, mode, end) == match mode
                                         case ModeNone => length
                                         case ModeSign => length - length % c.blockSize
                                         case ModeSignAndEncrypt => length - length % c.blockSize + 16 % c.blockSize
  {
    if mode.ModeSignAndEncrypt? {
      LongestEncrypted(c, length);
    }
  }

  lemma LongestEncrypted(c: Suite, length: nat)
    requires c.blockSize > 0 && BodyEnd(c, ModeSignAndEncrypt, length) >= HEADER_TOTALLENGTH
    ensures var end: nat := BodyEnd(c, ModeSignAndEncrypt, length);
            TotalLength(c, ModeSignAndEncrypt, end)
            == length - length % c.blockSize + HEADER_UNENCRYPTEDLENGTH % c.blockSize
  {
    var end: nat, size := BodyEnd(c, ModeSignAndEncrypt, length), c.blockSize;
    var total := TotalLength(c, ModeSignAndEncrypt, end);
    var q := WholeBlocks(c, end);
    Division(length, size);
    Division(HEADER_UNENCRYPTEDLENGTH, size);
    Distribute(length / size, HEADER_UNENCRYPTEDLENGTH / size, size);
    SameMultiple(q, length / size - HEADER_UNENCRYPTEDLENGTH / size, size);
  }

  lemma LongerBodyLongerChunk(c: Suite, e1: nat, e2: nat)
    requires c.blockSize > 0 && HEADER_TOTALLENGTH <= e1 <= e2
    ensures TotalLength(c, ModeSignAndEncrypt, e1) <= TotalLength(c, ModeSignAndEncrypt, e2)
  {
    var q1 := WholeBlocks(c, e1);
    var q2 := WholeBlocks(c, e2);
    LessMultiple(q1, q2, c.blockSize);
  }

  /** Every chunk fits the buffer it was laid out for, exactly when the unencrypted header does not
      reach further into a block than the buffer does. Block sizes that divide 16 always do. */
  lemma ChunksFit(c: Suite, length: nat)
    requires c.blockSize > 0 && BodyEnd(c, ModeSignAndEncrypt, length) >= HEADER_TOTALLENGTH
    ensures (forall end: nat :: HEADER_TOTALLENGTH <= end <= BodyEnd(c, ModeSignAndEncrypt, length) ==>
               TotalLength(c, ModeSignAndEncrypt, end) <= length)
            <==> HEADER_UNENCRYPTEDLENGTH % c.blockSize <= length % c.blockSize
    ensures HEADER_UNENCRYPTEDLENGTH % c.blockSize == 0 ==>
              forall end: nat :: HEADER_TOTALLENGTH <= end <= BodyEnd(c, ModeSignAndEncrypt, length) ==>
                TotalLength(c, ModeSignAndEncrypt, end) <= length
  {
    LongestEncrypted(c, length);
    var last: nat := BodyEnd(c, ModeSignAndEncrypt, length);
    forall end: nat | HEADER_TOTALLENGTH <= end <= last
      ensures TotalLength(c, ModeSignAndEncrypt, end) <= TotalLength(c, ModeSignAndEncrypt, last)
    {
      LongerBodyLongerChunk(c, end, last);
    }
  }

  /** Without encryption there is nothing to round up. */
  lemma PlainChunksFit(c: Suite, mode: SecurityMode, length: nat, end: nat)
    requires !mode.ModeSignAndEncrypt? && (mode.ModeNone? || c.blockSize > 0)
    requires HEADER_TOTALLENGTH <= end <= BodyEnd(c, mode, length)
    ensures TotalLength(c, mode, end) <= length
  {
  }
}

/** Base64 as in section 4 of RFC 4648: both loops fill exactly the buffer that was allocated for
    them, and decoding undoes encoding. */
module Base64 {
  import opened Arithmetic
  import opened Wire
  import Seqs

  const PAD: Byte := 61

  /** The character of a six-bit value. */
  function ToChar(v: nat): Byte
    requires v < 64
  {
    if v < 26 then 65 + v else if v < 52 then 71 + v else if v < 62 then v - 4 else if v == 62 then 43 else 47
  }

  /** The value of a character; some further characters are read like plus and slash, and all
      others like the letter A. */
  function FromChar(c: Byte): (v: nat)
    ensures v < 64
  {
    if 65 <= c <= 90 then c - 65
    else if 97 <= c <= 122 then c - 71
    else if 48 <= c <= 57 then (c as nat) + 4
    else if c == 43 || c == 45 || c == 46 then 62
    else if c == 44 || c == 47 || c == 95 then 63
    else 0
  }

  lemma CharRoundTrip(v: nat)
    requires v < 64
    ensures FromChar(ToChar(v)) == v && ToChar(v) != PAD
  {
  }

  // ---------- encoding ----------

  /** The four characters of three bytes, and of one or two bytes at the end. */
  function Four(a: Byte, b: Byte, c: Byte): (s: Bytes)
    ensures |s| == 4
  {
    [ToChar(a / 4), ToChar(a % 4 * 16 + b / 16), ToChar(b % 16 * 4 + c / 64), ToChar(c % 64)]
  }

  function Tail(s: Bytes): (t: Bytes)
    requires |s| < 3
    ensures |t| == if s == [] then 0 else 4
  {
    if s == [] then []
    else if |s| == 1 then [ToChar(s[0] / 4), ToChar(s[0] % 4 * 16), PAD, PAD]
    else [ToChar(s[0] / 4), ToChar(s[0] % 4 * 16 + s[1] / 16), ToChar(s[1] % 16 * 4), PAD]
  }

  function Encoded(s: Bytes): Bytes {
    if |s| >= 3 then Four(s[0], s[1], s[2]) + Encoded(s[3..]) else Tail(s)
  }

  /** Four characters per begun block. */
  lemma {:induction false} EncodedLength(s: Bytes)
    ensures |Encoded(s)| == 4 * ((|s| + 2) / 3) && |Encoded(s)| % 4 == 0
    decreases |s|
  {
    hide Four, Tail;
    if |s| >= 3 {
      EncodedLength(s[3..]);
    }
  }

  /** Writes one byte and advances. */
  method Append(out: array<Byte>, pos: nat, c: Byte) returns (pos': nat)
    requires pos < out.Length
    modifies out
    ensures pos' == pos + 1 && out[..pos'] == old(out[..pos]) + [c]
  {
    out[pos] := c;
    pos' := pos + 1;
  }

  lemma InARow(s: Bytes, a: Byte, b: Byte, c: Byte, d: Byte)
    ensures s + [a] + [b] == s + [a, b] && s + [a] + [b] + [c] == s + [a, b, c] && s + [a] + [b] + [c] + [d] == s + [a, b, c, d]
  {
  }

  /** Sizes have 64 bits. */
  const SIZE_LIMIT := 0x1_0000_0000_0000_0000

  function Size(n: nat): nat {
    n % SIZE_LIMIT
  }

  /** A computed length that has wrapped around is always smaller than the input. */
  lemma WrapShows(len: nat)
    requires 0 < len < SIZE_LIMIT
    ensures Size(4 * (Size(len + 2) / 3)) < len <==> 4 * ((len + 2) / 3) >= SIZE_LIMIT
    ensures 4 * ((len + 2) / 3) < SIZE_LIMIT ==> Size(4 * (Size(len + 2) / 3)) == 4 * ((len + 2) / 3)
  {
    var blocks := (len + 2) / 3;
    assert 3 * blocks <= len + 2 < 3 * blocks + 3;
    if len + 2 >= SIZE_LIMIT {
      SizeOf(len + 2, 1);
    } else {
      SizeOf(len + 2, 0);
      SizeOf(4 * blocks, if 4 * blocks >= SIZE_LIMIT then 1 else 0);
    }
  }

  lemma SizeOf(n: nat, rounds: nat)
    requires rounds * SIZE_LIMIT <= n < (rounds + 1) * SIZE_LIMIT
    ensures Size(n) == n - rounds * SIZE_LIMIT
  {
    Unique(n, SIZE_LIMIT, rounds, n - rounds * SIZE_LIMIT);
  }

  /** Encodes into a buffer of four characters per begun block of three bytes; there is none when
      that length does not fit a size. */
  method Encode(src: Bytes) returns (r: array?<Byte>)
    requires |src| < SIZE_LIMIT
    ensures r == null <==> 4 * ((|src| + 2) / 3) >= SIZE_LIMIT
    ensures r != null ==> r.Length == 4 * ((|src| + 2) / 3) && r[..] == Encoded(src)
  {
    var len := |src|;
    if len == 0 {
      EncodedShort(src);
      return new Byte[0];
    }
    WrapShows(len);
    var olen := Size(4 * (Size(len + 2) / 3));
    if olen < len {
      return null;
    }
    r := EncodeInto(src, olen);
  }

  method EncodeInto(src: Bytes, olen: nat) returns (out: array<Byte>)
    requires olen == 4 * ((|src| + 2) / 3)
    ensures out.Length == olen && out[..] == Encoded(src)
  {
    hide ToChar, Four, Tail, Encoded;
    EncodedLength(src);
    var len := |src|;
    out := new Byte[olen](_ => 0);
    var i, pos := 0, 0;
    assert src[0..] == src && out[..0] == [];
    Seqs.Empty(Encoded(src));
    while len - i >= 3
      invariant 0 <= i <= len && pos + |Encoded(src[i..])| == olen == out.Length
      invariant out[..pos] + Encoded(src[i..]) == Encoded(src)
      decreases len - i
    {
      OneBlock(src, i);
      ghost var done := out[..pos];
      pos := EncodeBlock(out, pos, src[i], src[i + 1], src[i + 2]);
      Seqs.Assoc(done, Four(src[i], src[i + 1], src[i + 2]), Encoded(src[i + 3..]));
      i := i + 3;
    }
    EncodedShort(src[i..]);
    pos := EncodeTail(out, pos, src[i..]);
    assert out[..] == out[..pos];
  }

  method EncodeBlock(out: array<Byte>, pos: nat, a: Byte, b: Byte, c: Byte) returns (pos': nat)
    requires pos + 4 <= out.Length
    modifies out
    ensures pos' == pos + 4 && out[..pos'] == old(out[..pos]) + Four(a, b, c)
  {
    hide ToChar;
    InARow(out[..pos], ToChar(a / 4), ToChar(a % 4 * 16 + b / 16), ToChar(b % 16 * 4 + c / 64), ToChar(c % 64));
    pos' := Append(out, pos, ToChar(a / 4));
    pos' := Append(out, pos', ToChar(a % 4 * 16 + b / 16));
    pos' := Append(out, pos', ToChar(b % 16 * 4 + c / 64));
    pos' := Append(out, pos', ToChar(c % 64));
  }

  /** The last one or two bytes, if any. */
  method EncodeTail(out: array<Byte>, pos: nat, rest: Bytes) returns (pos': nat)
    requires |rest| < 3 && pos + |Tail(rest)| <= out.Length
    modifies out
    ensures pos' == pos + |Tail(rest)| && out[..pos'] == old(out[..pos]) + Tail(rest)
  {
    hide ToChar;
    pos' := pos;
    Seqs.Empty(out[..pos]);
    if |rest| > 0 {
      if |rest| == 1 {
        InARow(out[..pos], ToChar(rest[0] / 4), ToChar(rest[0] % 4 * 16), PAD, PAD);
      } else {
        InARow(out[..pos], ToChar(rest[0] / 4), ToChar(rest[0] % 4 * 16 + rest[1] / 16), ToChar(rest[1] % 16 * 4), PAD);
      }
      pos' := Append(out, pos', ToChar(rest[0] / 4));
      if |rest| == 1 {
        pos' := Append(out, pos', ToChar(rest[0] % 4 * 16));
        pos' := Append(out, pos', PAD);
      } else {
        pos' := Append(out, pos', ToChar(rest[0] % 4 * 16 + rest[1] / 16));
        pos' := Append(out, pos', ToChar(rest[1] % 16 * 4));
      }
      pos' := Append(out, pos', PAD);
    }
  }

  lemma EncodedShort(s: Bytes)
    requires |s| < 3
    ensures Encoded(s) == Tail(s)
  {
  }

  lemma OneBlock(s: Bytes, i: nat)
    requires i + 3 <= |s|
    ensures Encoded(s[i..]) == Four(s[i], s[i + 1], s[i + 2]) + Encoded(s[i + 3..])
  {
    assert s[i..][3..] == s[i + 3..];
  }

  // ---------- decoding ----------

  /** The 24 bits of four characters, and the bytes they make. */
  function Bits(a: nat, b: nat, c: nat, d: nat): nat {
    a * 0x4_0000 + b * 0x1000 + c * 0x40 + d
  }

  function Three(s: Bytes): (t: Bytes)
    requires |s| >= 4
    ensures |t| == 3
  {
    var n := Bits(FromChar(s[0]), FromChar(s[1]), FromChar(s[2]), FromChar(s[3]));
    [n / 0x1_0000, n / 0x100 % 0x100, n % 0x100]
  }

  function Quads(s: Bytes): (t: Bytes)
    requires |s| % 4 == 0
    ensures |t| == |s| / 4 * 3
  {
    if s == [] then [] else Three(s) + Quads(s[4..])
  }

  /** The bytes of the characters behind the full quads, with padding read as such. */
  function FirstByte(s: Bytes): Byte
    requires |s| >= 2
  {
    Bits(FromChar(s[0]), FromChar(s[1]), 0, 0) / 0x1_0000
  }

  function SecondByte(s: Bytes): Byte
    requires |s| >= 3
  {
    Bits(FromChar(s[0]), FromChar(s[1]), FromChar(s[2]), 0) / 0x100 % 0x100
  }

  function LastBytes(s: Bytes, two: bool): (t: Bytes)
    requires |s| >= 2 && (two ==> |s| >= 3)
    ensures |t| == if two then 2 else 1
  {
    [FirstByte(s)] + if two then [SecondByte(s)] else []
  }

  lemma LastInOrder(s: Bytes, two: bool)
    requires |s| >= 2 && (two ==> |s| >= 3)
    ensures LastBytes(s, two) == if two then [FirstByte(s)] + [SecondByte(s)] else [FirstByte(s)]
  {
  }

  function HasPad(s: Bytes): bool
    requires |s| > 2
  {
    |s| % 4 != 0 || s[|s| - 1] == PAD
  }

  function HasSecond(s: Bytes): bool
    requires |s| > 2
  {
    HasPad(s) && (|s| % 4 > 2 || s[|s| - 2] != PAD)
  }

  /** Where the full quads end. */
  function LastQuad(s: Bytes): (n: nat)
    requires |s| > 2
    ensures n % 4 == 0 && n <= |s|
  {
    (|s| - if HasPad(s) then 1 else 0) / 4 * 4
  }

  predicate CutShort(s: Bytes)
    requires |s| > 2
  {
    HasPad(s) && (LastQuad(s) + 1 >= |s| || (HasSecond(s) && LastQuad(s) + 2 >= |s|))
  }

  function Decoded(s: Bytes): Bytes {
    if |s| <= 2 then []
    else if CutShort(s) then []
    else Quads(s[..LastQuad(s)]) + if HasPad(s) then LastBytes(s[LastQuad(s)..], HasSecond(s)) else []
  }

  /** Decodes into a buffer of three bytes per quad and one or two for the rest. Nothing is written
      behind it, and unless the input is cut short it is filled. */
  method Decode(src: Bytes) returns (out: array<Byte>, outLen: nat)
    ensures outLen <= out.Length && out[..outLen] == Decoded(src)
    ensures |src| <= 2 || !CutShort(src) ==> outLen == out.Length
  {
    hide FromChar, Three, Quads, LastBytes;
    var len := |src|;
    if len <= 2 {
      out := new Byte[0];
      return out, 0;
    }
    var pad1, pad2, last := HasPad(src), HasSecond(src), LastQuad(src);
    var size := last / 4 * 3 + (if pad1 then 1 else 0) + if pad2 then 1 else 0;
    out := new Byte[size](_ => 0);
    outLen := DecodeQuads(out, src[..last]);
    Seqs.Empty(out[..outLen]);
    if pad1 {
      if last + 1 >= len {
        out := new Byte[0];
        return out, 0;
      }
      ghost var done := out[..outLen];
      outLen := Append(out, outLen, FirstByte(src[last..]));
      if pad2 {
        if last + 2 >= len {
          out := new Byte[0];
          return out, 0;
        }
        outLen := Append(out, outLen, SecondByte(src[last..]));
        Seqs.Assoc(done, [FirstByte(src[last..])], [SecondByte(src[last..])]);
      }
      LastInOrder(src[last..], pad2);
    }
  }

  /** The full quads. */
  method DecodeQuads(out: array<Byte>, src: Bytes) returns (pos: nat)
    requires |src| % 4 == 0 && |src| / 4 * 3 <= out.Length
    modifies out
    ensures pos == |src| / 4 * 3 && out[..pos] == Quads(src)
  {
    hide FromChar, Three, Quads;
    var i := 0;
    pos := 0;
    assert src[0..] == src && out[..0] == [];
    Seqs.Empty(Quads(src));
    while i < |src|
      invariant 0 <= i <= |src| && i % 4 == 0 && pos == i / 4 * 3
      invariant out[..pos] + Quads(src[i..]) == Quads(src)
    {
      OneQuad(src, i);
      ghost var done := out[..pos];
      pos := DecodeQuad(out, pos, src[i..]);
      Seqs.Assoc(done, Three(src[i..]), Quads(src[i + 4..]));
      i := i + 4;
    }
    NoQuads();
    assert src[i..] == [];
    Seqs.Empty(out[..pos]);
  }

  lemma NoQuads()
    ensures Quads([]) == []
  {
  }

  method DecodeQuad(out: array<Byte>, pos: nat, s: Bytes) returns (pos': nat)
    requires |s| >= 4 && pos + 3 <= out.Length
    modifies out
    ensures pos' == pos + 3 && out[..pos'] == old(out[..pos]) + Three(s)
  {
    hide FromChar;
    var n := Bits(FromChar(s[0]), FromChar(s[1]), FromChar(s[2]), FromChar(s[3]));
    InARow(out[..pos], n / 0x1_0000, n / 0x100 % 0x100, n % 0x100, 0);
    pos' := Append(out, pos, n / 0x1_0000);
    pos' := Append(out, pos', n / 0x100 % 0x100);
    pos' := Append(out, pos', n % 0x100);
  }

  lemma OneQuad(s: Bytes, i: nat)
    requires |s| % 4 == 0 && i % 4 == 0 && i < |s|
    ensures i + 4 <= |s| && Quads(s[i..]) == Three(s[i..]) + Quads(s[i + 4..])
  {
    assert s[i..][4..] == s[i + 4..];
  }

  // ---------- there and back ----------

  lemma SplitByte(a: Byte, m: nat)
    requires m == 4 || m == 16 || m == 64
    ensures a as int == a / m * m + a % m
  {
  }

  /** Three bytes spread over four six-bit values and gathered again. */
  lemma Gathered(a: Byte, b: Byte, c: Byte)
    ensures var n := Bits(a / 4, a % 4 * 16 + b / 16, b % 16 * 4 + c / 64, c % 64);
            n == (a as int) * 0x1_0000 + (b as int) * 0x100 + c
            && n / 0x1_0000 == a && n / 0x100 % 0x100 == b && n % 0x100 == c
  {
    SplitByte(a, 4);
    SplitByte(b, 16);
    SplitByte(c, 64);
    var n := (a as int) * 0x1_0000 + (b as int) * 0x100 + c;
    assert n / 0x100 == (a as int) * 0x100 + b;
  }

  lemma ThreeOfFour(a: Byte, b: Byte, c: Byte, rest: Bytes)
    ensures Three(Four(a, b, c) + rest) == [a, b, c]
  {
    hide ToChar, FromChar;
    CharRoundTrip(a / 4);
    CharRoundTrip(a % 4 * 16 + b / 16);
    CharRoundTrip(b % 16 * 4 + c / 64);
    CharRoundTrip(c % 64);
    Gathered(a, b, c);
    var s := Four(a, b, c) + rest;
    assert s[0] == Four(a, b, c)[0] && s[1] == Four(a, b, c)[1] && s[2] == Four(a, b, c)[2] && s[3] == Four(a, b, c)[3];
  }

  lemma {:induction false} QuadsEncoded(x: Bytes)
    requires |x| % 3 == 0
    ensures |Encoded(x)| % 4 == 0 && Quads(Encoded(x)) == x
    decreases |x|
  {
    hide Three, Four, Tail;
    if x == [] {
      EncodedShort(x);
    } else {
      OneBlock(x, 0);
      assert x[0..] == x;
      var f, rest := Four(x[0], x[1], x[2]), Encoded(x[3..]);
      ThreeOfFour(x[0], x[1], x[2], rest);
      QuadsEncoded(x[3..]);
      assert (f + rest)[4..] == rest;
      assert x == [x[0], x[1], x[2]] + x[3..];
    }
  }

  /** Full blocks are encoded independently of what follows. */
  lemma {:induction false} EncodedAppend(x: Bytes, y: Bytes)
    requires |x| % 3 == 0
    ensures Encoded(x + y) == Encoded(x) + Encoded(y)
    decreases |x|
  {
    hide Four, Encoded;
    if x == [] {
      NothingEncoded();
      Seqs.Empty(y);
      Seqs.Empty(Encoded(y));
    } else {
      OneBlock(x, 0);
      OneBlock(x + y, 0);
      assert x[0..] == x && (x + y)[0..] == x + y && (x + y)[3..] == x[3..] + y;
      EncodedAppend(x[3..], y);
      Seqs.Assoc(Four(x[0], x[1], x[2]), Encoded(x[3..]), Encoded(y));
    }
  }

  /** The last character of full blocks is never padding. */
  lemma {:induction false} NoPadding(x: Bytes)
    requires |x| % 3 == 0 && x != []
    ensures Encoded(x) != [] && Encoded(x)[|Encoded(x)| - 1] != PAD
    decreases |x|
  {
    hide ToChar, Tail;
    OneBlock(x, 0);
    assert x[0..] == x;
    if |x| == 3 {
      EncodedShort(x[3..]);
      CharRoundTrip(x[2] % 64);
    } else {
      NoPadding(x[3..]);
    }
  }

  /** What is read from the characters of one or two last bytes. */
  lemma TailDecoded(y: Bytes)
    requires 0 < |y| < 3
    ensures var t := Tail(y); t[3] == PAD && (t[2] != PAD <==> |y| == 2) && LastBytes(t, |y| == 2) == y
  {
    hide ToChar, FromChar;
    CharRoundTrip(y[0] / 4);
    if |y| == 1 {
      CharRoundTrip(y[0] % 4 * 16);
      Gathered(y[0], 0, 0);
    } else {
      CharRoundTrip(y[0] % 4 * 16 + y[1] / 16);
      CharRoundTrip(y[1] % 16 * 4);
      Gathered(y[0], y[1], 0);
    }
  }

  lemma Parts(q: Bytes, t: Bytes)
    requires |t| == 4
    ensures var s := q + t;
            s[..|q|] == q && s[|q|..] == t && s[|s| - 1] == t[3] && s[|s| - 2] == t[2]
  {
  }

  /** Decoding the padded characters of a string whose full blocks are x and whose rest is y. */
  lemma DecodedParts(x: Bytes, y: Bytes)
    requires |x| % 3 == 0 && 0 < |y| < 3
    ensures Decoded(Encoded(x) + Tail(y)) == x + y
  {
    hide Tail, Quads, LastBytes, Encoded;
    EncodedLength(x);
    TailDecoded(y);
    QuadsEncoded(x);
    PaddedQuads(Encoded(x), Tail(y), |y| == 2);
  }

  lemma InQuads(n: nat)
    requires n % 4 == 0
    ensures n / 4 * 4 == n && (n + 3) / 4 * 4 == n && (n + 4) % 4 == 0
  {
  }

  /** Whole quads of characters, by their last two. */
  lemma Flags(s: Bytes)
    requires |s| % 4 == 0 && |s| > 0
    ensures |s| > 2
    ensures HasPad(s) <==> s[|s| - 1] == PAD
    ensures HasSecond(s) <==> s[|s| - 1] == PAD && s[|s| - 2] != PAD
    ensures LastQuad(s) == if s[|s| - 1] == PAD then |s| - 4 else |s|
    ensures !CutShort(s)
  {
    InQuads(|s|);
    InQuads(|s| - 4);
  }

  /** Where decoding stops reading full quads. */
  lemma PaddedQuads(q: Bytes, t: Bytes, two: bool)
    requires |q| % 4 == 0 && |t| == 4 && t[3] == PAD && (t[2] != PAD <==> two)
    ensures Decoded(q + t) == Quads(q) + LastBytes(t, two)
  {
    hide Quads, LastBytes, HasPad, HasSecond, LastQuad, CutShort;
    Parts(q, t);
    InQuads(|q|);
    Flags(q + t);
  }

  lemma UnpaddedQuads(q: Bytes)
    requires |q| % 4 == 0 && (q != [] ==> q[|q| - 1] != PAD)
    ensures Decoded(q) == Quads(q)
  {
    hide HasPad, HasSecond, LastQuad, CutShort, Quads;
    if q == [] {
      NoQuads();
    } else {
      Flags(q);
      assert q[..|q|] == q;
      Seqs.Empty(Quads(q));
    }
  }

  /** Decoding gives back every byte string. */
  lemma RoundTrip(x: Bytes)
    ensures Decoded(Encoded(x)) == x
  {
    hide Tail, Quads, LastBytes, Decoded, Encoded;
    var n := |x| / 3 * 3;
    assert x == x[..n] + x[n..];
    EncodedAppend(x[..n], x[n..]);
    EncodedShort(x[n..]);
    if x[n..] == [] {
      Seqs.Empty(x[..n]);
      EncodedLength(x);
      QuadsEncoded(x);
      if x != [] {
        NoPadding(x);
      } else {
        NothingEncoded();
      }
      UnpaddedQuads(Encoded(x));
    } else {
      DecodedParts(x[..n], x[n..]);
    }
  }

  lemma NothingEncoded()
    ensures Encoded([]) == []
  {
  }
}

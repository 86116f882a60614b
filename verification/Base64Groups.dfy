/** Base64 place by place, against the groups of 24 bits of section 4 of RFC 4648: what the encoding of
    any string and the decoding of any text are, and when text without its padding is still read. */
module Base64Groups {
  import opened Wire
  import opened Base64

  const ALPHABET := "ABCDEFGHIJKLMNOPQRSTUVWXYZ" + "abcdefghijklmnopqrstuvwxyz" + "0123456789+/"

  lemma Alphabet(v: nat)
    requires v < 64
    ensures |ALPHABET| == 64 && ToChar(v) == ALPHABET[v] as int
  {
  }

  predicate AlsoPlus(c: Byte) {
    c == '-' as int || c == '.' as int
  }

  predicate AlsoSlash(c: Byte) {
    c == ',' as int || c == '_' as int
  }

  ghost predicate Foreign(c: Byte) {
    !AlsoPlus(c) && !AlsoSlash(c) && |ALPHABET| == 64 && forall u :: 0 <= u < 64 ==> c != ALPHABET[u] as int
  }

  /** A character is read as its place in the alphabet, two more each like plus and slash, and all
      others as zero. */
  lemma ReadExactly(c: Byte, v: nat)
    requires v < 64
    ensures |ALPHABET| == 64
    ensures FromChar(c) == v <==>
              || c == ALPHABET[v] as int || (v == 62 && AlsoPlus(c)) || (v == 63 && AlsoSlash(c)) || (v == 0 && Foreign(c))
  {
    forall u: nat | u < 64 ensures |ALPHABET| == 64 && ALPHABET[u] as int == ToChar(u) && FromChar(ToChar(u)) == u {
      Alphabet(u);
      CharRoundTrip(u);
    }
    Alphabet(v);
    var w := FromChar(c);
    Alphabet(w);
    hide ALPHABET;
    assert ALPHABET[v] as int == ToChar(v) && ALPHABET[w] as int == ToChar(w);
  }

  // ---------- encoding ----------

  function ByteAt(s: Bytes, i: nat): Byte {
    if i < |s| then s[i] else 0
  }

  /** The 24 bits of three bytes, with zeros behind the end. */
  function Group(s: Bytes, i: nat): nat {
    (ByteAt(s, i) as nat) * 0x1_0000 + (ByteAt(s, i + 1) as nat) * 0x100 + ByteAt(s, i + 2)
  }

  /** Six of 24 bits. */
  function Sextet(n: nat, k: nat): (v: nat)
    ensures v < 64
  {
    if k == 0 then n / 0x4_0000 % 64
    else if k == 1 then n / 0x1000 % 64
    else if k == 2 then n / 0x40 % 64
    else n % 64
  }

  lemma Sextets(p: nat, q: nat, r: nat, t: nat)
    requires p < 64 && q < 64 && r < 64 && t < 64
    ensures var n := Bits(p, q, r, t); Sextet(n, 0) == p && Sextet(n, 1) == q && Sextet(n, 2) == r && Sextet(n, 3) == t
  {
    var n := Bits(p, q, r, t);
    assert n / 0x40 == p * 0x1000 + q * 0x40 + r;
    assert n / 0x1000 == p * 0x40 + q;
    assert n / 0x4_0000 == p;
  }

  lemma FourSextets(a: Byte, b: Byte, c: Byte)
    ensures var n := (a as nat) * 0x1_0000 + (b as nat) * 0x100 + c;
            && Sextet(n, 0) == a / 4 && Sextet(n, 1) == a % 4 * 16 + b / 16
            && Sextet(n, 2) == b % 16 * 4 + c / 64 && Sextet(n, 3) == c % 64
  {
    hide Sextet;
    Gathered(a, b, c);
    Sextets(a / 4, a % 4 * 16 + b / 16, b % 16 * 4 + c / 64, c % 64);
  }

  /** The character at a place of the encoding: while there are bits left, the one in the alphabet for
      the six bits there, and behind that the padding. */
  lemma {:induction false} EncodedAt(s: Bytes, j: nat)
    requires j < 4 * ((|s| + 2) / 3)
    ensures |Encoded(s)| == 4 * ((|s| + 2) / 3) && |ALPHABET| == 64
    ensures Encoded(s)[j] == (if 6 * j < 8 * |s| then ALPHABET[Sextet(Group(s, j / 4 * 3), j % 4)] else '=') as int
    decreases |s|
  {
    hide Sextet, ToChar, ALPHABET, Group;
    EncodedLength(s);
    Alphabet(Sextet(Group(s, j / 4 * 3), j % 4));
    if |s| < 3 || j < 4 {
      FirstGroup(s);
      assert j < 4;
    } else {
      OneBlock(s, 0);
      assert s[0..] == s;
      EncodedAt(s[3..], j - 4);
      Alphabet(Sextet(Group(s[3..], (j - 4) / 4 * 3), (j - 4) % 4));
      assert Encoded(s)[j] == Encoded(s[3..])[j - 4];
      GroupBehind(s, (j - 4) / 4 * 3);
    }
  }

  lemma GroupBehind(s: Bytes, i: nat)
    requires |s| >= 3
    ensures Group(s[3..], i) == Group(s, i + 3)
  {
  }

  /** The first four characters. */
  lemma FirstGroup(s: Bytes)
    requires s != []
    ensures |Encoded(s)| >= 4 && Encoded(s)[0] == ToChar(Sextet(Group(s, 0), 0))
    ensures Encoded(s)[1] == ToChar(Sextet(Group(s, 0), 1))
    ensures Encoded(s)[2] == if |s| == 1 then '=' as int else ToChar(Sextet(Group(s, 0), 2))
    ensures Encoded(s)[3] == if |s| < 3 then '=' as int else ToChar(Sextet(Group(s, 0), 3))
  {
    hide Sextet, ToChar;
    FourSextets(ByteAt(s, 0), ByteAt(s, 1), ByteAt(s, 2));
    if |s| >= 3 {
      OneBlock(s, 0);
      assert s[0..] == s;
    } else {
      EncodedShort(s);
    }
  }

  // ---------- decoding ----------

  function ValueAt(s: Bytes, i: nat): (v: nat)
    ensures v < 64
  {
    if i < |s| then FromChar(s[i]) else 0
  }

  /** The 24 bits of four characters, with zeros behind the end. */
  function Gather(s: Bytes, i: nat): nat {
    Bits(ValueAt(s, i), ValueAt(s, i + 1), ValueAt(s, i + 2), ValueAt(s, i + 3))
  }

  /** Eight of 24 bits. */
  function Octet(n: nat, k: nat): Byte {
    if k == 0 then n / 0x1_0000 % 0x100
    else if k == 1 then n / 0x100 % 0x100
    else n % 0x100
  }

  /** How many bytes a text stands for. Of the characters behind the last four, one alone makes the
      text unreadable, and so do two, unless the first of them is the padding character. */
  function DecodedSize(s: Bytes): nat {
    var n, q := |s|, |s| / 4 * 3;
    if n <= 2 || n % 4 == 1 then 0
    else if n % 4 == 3 then q + 2
    else if n % 4 == 2 then if s[n - 2] == '=' as int then q + 1 else 0
    else if s[n - 1] != '=' as int then q
    else if s[n - 2] != '=' as int then q - 1
    else q - 2
  }

  lemma {:induction false} QuadsAt(s: Bytes, k: nat)
    requires |s| % 4 == 0 && k < |s| / 4 * 3
    ensures Quads(s)[k] == Octet(Gather(s, k / 3 * 4), k % 3)
    decreases |s|
  {
    hide FromChar, Gather, Octet, Three;
    OneQuad(s, 0);
    assert s[0..] == s;
    if k < 3 {
      ThreeOctets(s);
    } else {
      QuadsAt(s[4..], k - 3);
      GatherBehind(s, (k - 3) / 3 * 4);
      assert Quads(s)[k] == Quads(s[4..])[k - 3];
    }
  }

  lemma ThreeOctets(s: Bytes)
    requires |s| >= 4
    ensures forall k :: 0 <= k < 3 ==> Three(s)[k] == Octet(Gather(s, 0), k)
  {
    hide FromChar;
  }

  lemma GatherBehind(s: Bytes, i: nat)
    requires |s| >= 4
    ensures Gather(s[4..], i) == Gather(s, i + 4)
  {
    hide FromChar;
  }

  lemma LastOctets(s: Bytes, from: nat)
    requires from + 2 <= |s|
    ensures FirstByte(s[from..]) == Octet(Gather(s, from), 0)
    ensures from + 3 <= |s| ==> SecondByte(s[from..]) == Octet(Gather(s, from), 1)
  {
    hide FromChar, Octet, Bits;
    TopOctets(ValueAt(s, from), ValueAt(s, from + 1), ValueAt(s, from + 2), ValueAt(s, from + 3));
  }

  /** The bits behind those of a byte do not matter for it. */
  lemma TopOctets(a: nat, b: nat, c: nat, d: nat)
    requires a < 64 && b < 64 && c < 64 && d < 64
    ensures Bits(a, b, 0, 0) / 0x1_0000 == Octet(Bits(a, b, c, d), 0)
    ensures Bits(a, b, c, 0) / 0x100 % 0x100 == Octet(Bits(a, b, c, d), 1)
  {
    var top, middle, low := a * 4 + b / 16, b % 16 * 16 + c / 4, c % 4 * 64 + d;
    assert b == b / 16 * 16 + b % 16 && c == c / 4 * 4 + c % 4;
    hide Octet;
    ThreeBytes(top, middle, low);
    ThreeBytes(top, b % 16 * 16, 0);
    ThreeBytes(top, middle, c % 4 * 64);
  }

  lemma ThreeBytes(a: nat, b: nat, c: nat)
    requires a < 0x100 && b < 0x100 && c < 0x100
    ensures var n := a * 0x1_0000 + b * 0x100 + c;
            n / 0x1_0000 == a == Octet(n, 0) && n / 0x100 % 0x100 == b == Octet(n, 1)
  {
    var n := a * 0x1_0000 + b * 0x100 + c;
    assert n / 0x100 == a * 0x100 + b;
  }

  lemma GatherFront(s: Bytes, n: nat, i: nat)
    requires i + 4 <= n <= |s|
    ensures Gather(s[..n], i) == Gather(s, i)
  {
  }

  /** The decoding of any text: its length, and each of its bytes as eight bits of what four characters
      stand for. */
  lemma DecodedAt(s: Bytes, k: nat)
    ensures |Decoded(s)| == DecodedSize(s)
    ensures k < DecodedSize(s) ==> Decoded(s)[k] == Octet(Gather(s, k / 3 * 4), k % 3)
  {
    hide FromChar, Quads, LastBytes, Gather, Octet;
    DecodedLength(s);
    if k < DecodedSize(s) {
      var last := LastQuad(s);
      if k < last / 4 * 3 {
        QuadsAt(s[..last], k);
        GatherFront(s, last, k / 3 * 4);
      } else {
        LastOctets(s, last);
        LastInOrder(s[last..], HasSecond(s));
        Places(last, k);
      }
    }
  }

  lemma Places(last: nat, k: nat)
    requires last % 4 == 0 && last / 4 * 3 <= k < last / 4 * 3 + 2
    ensures k / 3 * 4 == last && k % 3 == k - last / 4 * 3
  {
  }

  lemma DecodedLength(s: Bytes)
    ensures |Decoded(s)| == DecodedSize(s)
    ensures DecodedSize(s) > 0 ==>
              && |s| > 2 && !CutShort(s)
              && DecodedSize(s) == LastQuad(s) / 4 * 3 + (if HasPad(s) then 1 else 0) + if HasSecond(s) then 1 else 0
  {
    hide Quads, LastBytes;
    if |s| > 2 {
      SizeByRest(s, |s| / 4, |s| % 4);
    }
  }

  lemma SizeByRest(s: Bytes, q: nat, r: nat)
    requires |s| > 2 && |s| == 4 * q + r && r < 4
    ensures LastQuad(s) == if r == 0 && HasPad(s) then 4 * q - 4 else 4 * q
    ensures q == |s| / 4 && r == |s| % 4
  {
  }

  // ---------- text without padding ----------

  lemma PaddedSize(x: Bytes)
    requires |x| % 3 != 0
    ensures var n := |Encoded(x)|;
            && n % 4 == 0 && n >= 4 && n / 4 * 3 == |x| + 3 - |x| % 3 && Encoded(x)[n - 1] == '=' as int
            && Encoded(x)[n - 4] != '=' as int
  {
    hide *;
    EncodedLength(x);
    var n := |Encoded(x)|;
    PaddedNumbers(|x|, |x| / 3, |x| % 3);
    EncodedAt(x, n - 1);
    EncodedAt(x, n - 4);
    NeverPadding(Sextet(Group(x, (n - 4) / 4 * 3), (n - 4) % 4));
  }

  lemma PaddedNumbers(length: nat, q: nat, r: nat)
    requires length == 3 * q + r && 0 < r < 3
    ensures (length + 2) / 3 == q + 1 && 4 * (q + 1) / 4 * 3 == length + 3 - r
    ensures 6 * (4 * (q + 1) - 1) >= 8 * length && 6 * (4 * (q + 1) - 4) < 8 * length
  {
  }

  lemma NeverPadding(v: nat)
    requires v < 64
    ensures |ALPHABET| == 64 && ALPHABET[v] != '='
  {
    hide ALPHABET;
    Alphabet(v);
    CharRoundTrip(v);
  }

  /** The encoding without its last one or two padding characters is read as the same bytes exactly when
      the whole padding is a single character: two of them cannot be left out. */
  lemma PaddingLeftOut(x: Bytes, k: nat)
    requires k <= if |x| % 3 == 0 then 0 else 3 - |x| % 3
    ensures k <= |Encoded(x)| && (Decoded(Encoded(x)[..|Encoded(x)| - k]) == x <==> k == 0 || |x| % 3 == 2)
  {
    hide Encoded, Decoded;
    RoundTrip(x);
    if k == 0 {
      assert Encoded(x)[..|Encoded(x)|] == Encoded(x);
    } else {
      PaddedSize(x);
      var t := Encoded(x)[..|Encoded(x)| - k];
      DecodedAt(t, 0);
      if |x| % 3 == 2 {
        OnePaddingLeftOut(x);
      }
    }
  }

  lemma OnePaddingLeftOut(x: Bytes)
    requires |x| % 3 == 2
    ensures Encoded(x) != [] && Decoded(Encoded(x)[..|Encoded(x)| - 1]) == x
  {
    hide Encoded, Decoded, Octet, Bits;
    RoundTrip(x);
    PaddedSize(x);
    var e := Encoded(x);
    var t := e[..|e| - 1];
    DecodedAt(t, 0);
    forall i | 0 <= i < |x| ensures Decoded(t)[i] == x[i] {
      DecodedAt(t, i);
      DecodedAt(e, i);
      SameGather(e, i / 3 * 4);
    }
  }

  /** A padding character at the end is read like nothing. */
  lemma SameGather(e: Bytes, i: nat)
    requires e != [] && e[|e| - 1] == '=' as int
    ensures Gather(e[..|e| - 1], i) == Gather(e, i)
  {
    hide Bits;
  }
}

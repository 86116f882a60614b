/** UTF-8 as in sections 3 and 4 of RFC 3629, with the program's checks for overlong forms,
    surrogates and the upper bound. */
module Utf8 {
  import opened Options
  import opened Wire
  import Seqs

  /** The code points that may be encoded: all but the surrogates. */
  predicate Scalar(c: int) {
    0 <= c <= 0x10FFFF && !(0xD800 <= c <= 0xDFFF)
  }

  /** The octets of a code point. */
  function Octets(c: int): (s: Bytes)
    requires 0 <= c <= 0x10FFFF
    ensures 1 <= |s| <= 4
  {
    if c < 0x80 then [c]
    else if c < 0x800 then [0xC0 + c / 0x40, 0x80 + c % 0x40]
    else if c < 0x1_0000 then [0xE0 + c / 0x1000, 0x80 + c / 0x40 % 0x40, 0x80 + c % 0x40]
    else [0xF0 + c / 0x4_0000, 0x80 + c / 0x1000 % 0x40, 0x80 + c / 0x40 % 0x40, 0x80 + c % 0x40]
  }

  /** The masks of the encoder cut nothing off. */
  lemma Masks(c: int)
    requires 0 <= c <= 0x10FFFF
    ensures c < 0x800 ==> c / 0x40 % 0x20 == c / 0x40
    ensures c < 0x1_0000 ==> c / 0x1000 % 0x10 == c / 0x1000
    ensures c / 0x4_0000 % 0x8 == c / 0x4_0000
  {
  }

  /** Writes the octets of a code point; surrogates are not refused here. */
  method Encode(codepoint: int, buffer: array<Byte>) returns (size: Option<nat>)
    requires buffer.Length >= 4
    modifies buffer
    ensures size.Some? <==> 0 <= codepoint <= 0x10FFFF
    ensures size.Some? ==> size.value <= 4 && buffer[..size.value] == Octets(codepoint)
    ensures forall i :: (if size.Some? then size.value else 0) <= i < buffer.Length ==> buffer[i] == old(buffer[i])
  {
    hide Octets;
    if codepoint < 0 {
      return None;
    } else if codepoint < 0x80 {
      OneOctet(codepoint);
      buffer[0] := codepoint;
      size := Some(1);
    } else if codepoint < 0x800 {
      TwoOctets(codepoint);
      buffer[0] := 0xC0 + codepoint / 0x40 % 0x20;
      buffer[1] := 0x80 + codepoint % 0x40;
      size := Some(2);
    } else if codepoint < 0x1_0000 {
      ThreeOctets(codepoint);
      buffer[0] := 0xE0 + codepoint / 0x1000 % 0x10;
      buffer[1] := 0x80 + codepoint / 0x40 % 0x40;
      buffer[2] := 0x80 + codepoint % 0x40;
      size := Some(3);
    } else if codepoint <= 0x10FFFF {
      FourOctets(codepoint);
      buffer[0] := 0xF0 + codepoint / 0x4_0000 % 0x8;
      buffer[1] := 0x80 + codepoint / 0x1000 % 0x40;
      buffer[2] := 0x80 + codepoint / 0x40 % 0x40;
      buffer[3] := 0x80 + codepoint % 0x40;
      size := Some(4);
    } else {
      return None;
    }
  }

  lemma OneOctet(c: int)
    requires 0 <= c < 0x80
    ensures Octets(c) == [c]
  {
  }

  lemma TwoOctets(c: int)
    requires 0x80 <= c < 0x800
    ensures Octets(c) == [0xC0 + c / 0x40 % 0x20, 0x80 + c % 0x40]
  {
    Masks(c);
  }

  lemma ThreeOctets(c: int)
    requires 0x800 <= c < 0x1_0000
    ensures Octets(c) == [0xE0 + c / 0x1000 % 0x10, 0x80 + c / 0x40 % 0x40, 0x80 + c % 0x40]
  {
    Masks(c);
  }

  lemma FourOctets(c: int)
    requires 0x1_0000 <= c <= 0x10FFFF
    ensures Octets(c) == [0xF0 + c / 0x4_0000 % 0x8, 0x80 + c / 0x1000 % 0x40, 0x80 + c / 0x40 % 0x40, 0x80 + c % 0x40]
  {
    Masks(c);
  }

  /** How many octets a sequence with this first octet has; zero if none may start with it. */
  function CheckFirst(u: Byte): (n: nat)
    ensures n <= 4
  {
    if u < 0x80 then 1
    else if 0x80 <= u <= 0xBF then 0
    else if u == 0xC0 || u == 0xC1 then 0
    else if 0xC2 <= u <= 0xDF then 2
    else if 0xE0 <= u <= 0xEF then 3
    else if 0xF0 <= u <= 0xF4 then 4
    else 0
  }

  predicate Continues(u: Byte) {
    0x80 <= u <= 0xBF
  }

  /** The value bits of the first octet. */
  function FirstBits(u: Byte, size: nat): nat {
    if size == 2 then u % 0x20 else if size == 3 then u % 0x10 else u % 0x8
  }

  /** The value bits of the other octets. */
  function Low(u: Byte): nat {
    u % 0x40
  }

  /** The value collected from the first n octets. */
  function Collected(s: Bytes, size: nat, n: nat): nat
    requires 0 < n <= |s|
  {
    if n == 1 then FirstBits(s[0], size) else Collected(s, size, n - 1) * 0x40 + Low(s[n - 1])
  }

  /** Whether a value needs at least the given number of octets. */
  predicate NotOverlong(value: int, size: nat) {
    (size == 2 ==> value >= 0x80) && (size == 3 ==> value >= 0x800) && (size == 4 ==> value >= 0x1_0000)
  }

  /** The value of a sequence of two to four octets, if it is well formed. */
  function FullValue(s: Bytes, size: nat): Option<int>
    requires 0 < size <= |s|
  {
    if (size == 2 || size == 3 || size == 4) && (forall i :: 1 <= i < size ==> Continues(s[i])) &&
       Scalar(Collected(s, size, size)) && NotOverlong(Collected(s, size, size), size)
    then Some(Collected(s, size, size)) else None
  }

  method CheckFull(buffer: Bytes, size: nat) returns (codepoint: Option<int>)
    requires 0 < size <= |buffer|
    ensures codepoint == FullValue(buffer, size)
  {
    var u := buffer[0];
    var value: int;
    if size == 2 {
      value := u % 0x20;
    } else if size == 3 {
      value := u % 0x10;
    } else if size == 4 {
      value := u % 0x8;
    } else {
      return None;
    }
    var i := 1;
    while i < size
      invariant 1 <= i <= size && value == Collected(buffer, size, i)
      invariant forall k :: 1 <= k < i ==> Continues(buffer[k])
    {
      u := buffer[i];
      if u < 0x80 || u > 0xBF {
        assert !Continues(buffer[i]);
        return None;
      }
      value := value * 0x40 + u % 0x40;
      i := i + 1;
    }
    if value > 0x10FFFF {
      return None;
    } else if 0xD800 <= value && value <= 0xDFFF {
      return None;
    } else if (size == 2 && value < 0x80) || (size == 3 && value < 0x800) || (size == 4 && value < 0x1_0000) {
      return None;
    }
    codepoint := Some(value);
  }

  /** One step through a buffer. */
  datatype Step = AtEnd | Invalid | Decoded(count: nat, codepoint: int)

  function Next(s: Bytes): Step {
    if s == [] then AtEnd
    else
      var count := CheckFirst(s[0]);
      if count == 0 then Invalid
      else if count == 1 then Decoded(1, s[0])
      else if count > |s| || FullValue(s, count).None? then Invalid
      else Decoded(count, FullValue(s, count).value)
  }

  method Iterate(buffer: Bytes) returns (r: Step)
    ensures r == Next(buffer)
  {
    if |buffer| == 0 {
      return AtEnd;
    }
    var count := CheckFirst(buffer[0]);
    if count <= 0 {
      return Invalid;
    }
    var value: int;
    if count == 1 {
      value := buffer[0];
    } else {
      if count > |buffer| {
        return Invalid;
      }
      var full := CheckFull(buffer, count);
      if full.None? {
        return Invalid;
      }
      value := full.value;
    }
    r := Decoded(count, value);
  }

  // ---------- one code point ----------

  lemma Collect2(s: Bytes)
    requires |s| >= 2
    ensures Collected(s, 2, 2) == FirstBits(s[0], 2) * 0x40 + Low(s[1])
  {
    assert Collected(s, 2, 1) == FirstBits(s[0], 2);
  }

  lemma Collect3(s: Bytes)
    requires |s| >= 3
    ensures Collected(s, 3, 3) == (FirstBits(s[0], 3) * 0x40 + Low(s[1])) * 0x40 + Low(s[2])
  {
    assert Collected(s, 3, 1) == FirstBits(s[0], 3);
    assert Collected(s, 3, 2) == FirstBits(s[0], 3) * 0x40 + Low(s[1]);
  }

  lemma Collect4(s: Bytes)
    requires |s| >= 4
    ensures Collected(s, 4, 4) == ((FirstBits(s[0], 4) * 0x40 + Low(s[1])) * 0x40 + Low(s[2])) * 0x40 + Low(s[3])
  {
    assert Collected(s, 4, 1) == FirstBits(s[0], 4);
    assert Collected(s, 4, 2) == FirstBits(s[0], 4) * 0x40 + Low(s[1]);
    assert Collected(s, 4, 3) == (FirstBits(s[0], 4) * 0x40 + Low(s[1])) * 0x40 + Low(s[2]);
  }

  lemma SixBits(c: nat)
    ensures c / 0x1000 == c / 0x40 / 0x40 && c / 0x4_0000 == c / 0x1000 / 0x40
    ensures c == c / 0x40 * 0x40 + c % 0x40
    ensures c / 0x40 == c / 0x1000 * 0x40 + c / 0x40 % 0x40
    ensures c / 0x1000 == c / 0x4_0000 * 0x40 + c / 0x1000 % 0x40
  {
  }

  /** What the octets of a code point collect to. */
  ghost predicate Collects(s: Bytes, n: nat, c: int)
    requires n <= |s|
  {
    && n >= 2 && CheckFirst(s[0]) == n && Collected(s, n, n) == c && NotOverlong(c, n)
    && forall i :: 1 <= i < n ==> Continues(s[i])
  }

  lemma Collected2(c: int, rest: Bytes)
    requires 0x80 <= c < 0x800
    ensures Collects(Octets(c) + rest, 2, c)
  {
    Collect2(Octets(c) + rest);
  }

  lemma Collected3(c: int, rest: Bytes)
    requires 0x800 <= c < 0x1_0000
    ensures Collects(Octets(c) + rest, 3, c)
  {
    SixBits(c);
    Collect3(Octets(c) + rest);
  }

  lemma Collected4(c: int, rest: Bytes)
    requires 0x1_0000 <= c <= 0x10FFFF
    ensures Collects(Octets(c) + rest, 4, c)
  {
    SixBits(c);
    FourOctets(c);
    Masks(c);
    hide Octets, Collected;
    var s := Octets(c) + rest;
    Collect4(s);
    assert FirstBits(s[0], 4) == c / 0x4_0000;
    assert Low(s[1]) == c / 0x1000 % 0x40 && Low(s[2]) == c / 0x40 % 0x40 && Low(s[3]) == c % 0x40;
    assert Continues(s[1]) && Continues(s[2]) && Continues(s[3]);
  }

  lemma CollectedOctets(c: int, rest: Bytes)
    requires 0x80 <= c <= 0x10FFFF
    ensures Collects(Octets(c) + rest, |Octets(c)|, c)
  {
    hide Collects;
    if c < 0x800 {
      Collected2(c, rest);
    } else if c < 0x1_0000 {
      Collected3(c, rest);
    } else {
      Collected4(c, rest);
    }
  }

  /** Decoding undoes encoding, whatever follows, for exactly the code points that are not
      surrogates. */
  lemma DecodeEncoded(c: int, rest: Bytes)
    requires 0 <= c <= 0x10FFFF
    ensures Next(Octets(c) + rest) == if 0xD800 <= c <= 0xDFFF then Invalid else Decoded(|Octets(c)|, c)
  {
    hide Collected, Octets;
    if c < 0x80 {
      OneOctet(c);
    } else {
      CollectedOctets(c, rest);
    }
  }

  lemma Octets2(s: Bytes)
    requires |s| >= 2 && CheckFirst(s[0]) == 2 && FullValue(s, 2).Some?
    ensures s[..2] == Octets(FullValue(s, 2).value)
  {
    Collect2(s);
    assert Continues(s[1]);
  }

  lemma Octets3(s: Bytes)
    requires |s| >= 3 && CheckFirst(s[0]) == 3 && FullValue(s, 3).Some?
    ensures s[..3] == Octets(FullValue(s, 3).value)
  {
    Collect3(s);
    assert Continues(s[1]) && Continues(s[2]);
    Digits3(FirstBits(s[0], 3), Low(s[1]), Low(s[2]));
  }

  lemma Octets4(s: Bytes)
    requires |s| >= 4 && CheckFirst(s[0]) == 4 && FullValue(s, 4).Some?
    ensures s[..4] == Octets(FullValue(s, 4).value)
  {
    var v := FullValue(s, 4).value;
    assert Continues(s[1]) && Continues(s[2]) && Continues(s[3]);
    hide FullValue, Collected, FirstBits, Low, CheckFirst, Continues;
    FirstOctet4(s[0]);
    OtherOctet(s[1]);
    OtherOctet(s[2]);
    OtherOctet(s[3]);
    Value4(s);
    Digits4(FirstBits(s[0], 4), Low(s[1]), Low(s[2]), Low(s[3]));
    FourOctets(v);
    Masks(v);
    assert s[..4] == [s[0], s[1], s[2], s[3]];
  }

  lemma FirstOctet4(u: Byte)
    requires CheckFirst(u) == 4
    ensures u as int == 0xF0 + FirstBits(u, 4)
  {
  }

  lemma OtherOctet(u: Byte)
    requires Continues(u)
    ensures u as int == 0x80 + Low(u) && Low(u) < 0x40
  {
  }

  lemma Value4(s: Bytes)
    requires |s| >= 4 && FullValue(s, 4).Some?
    ensures var v := FullValue(s, 4).value;
            v == ((FirstBits(s[0], 4) * 0x40 + Low(s[1])) * 0x40 + Low(s[2])) * 0x40 + Low(s[3]) && 0x1_0000 <= v <= 0x10FFFF
  {
    Collect4(s);
  }

  lemma Digits4(a: nat, b: nat, c: nat, d: nat)
    requires b < 0x40 && c < 0x40 && d < 0x40
    ensures var v := ((a * 0x40 + b) * 0x40 + c) * 0x40 + d;
            v / 0x4_0000 == a && v / 0x1000 % 0x40 == b && v / 0x40 % 0x40 == c && v % 0x40 == d
  {
    var v := ((a * 0x40 + b) * 0x40 + c) * 0x40 + d;
    assert v / 0x40 == (a * 0x40 + b) * 0x40 + c;
    Digits3(a, b, c);
    assert v / 0x1000 == v / 0x40 / 0x40;
    assert v / 0x4_0000 == v / 0x40 / 0x1000;
  }

  lemma Digits3(a: nat, b: nat, c: nat)
    requires b < 0x40 && c < 0x40
    ensures var v := (a * 0x40 + b) * 0x40 + c;
            v / 0x1000 == a && v / 0x40 % 0x40 == b && v % 0x40 == c
  {
    var v := (a * 0x40 + b) * 0x40 + c;
    assert v / 0x40 == a * 0x40 + b;
  }

  /** Whatever is accepted is exactly what encoding the decoded code point gives. */
  lemma EncodeDecoded(s: Bytes)
    ensures var r := Next(s);
            r.Decoded? ==> Scalar(r.codepoint) && r.count <= |s| && s[..r.count] == Octets(r.codepoint)
  {
    hide Collected;
    if s != [] {
      var n := CheckFirst(s[0]);
      if n == 1 {
        OneOctet(s[0]);
      } else if n <= |s| && n >= 2 && FullValue(s, n).Some? {
        hide Octets;
        if n == 2 {
          Octets2(s);
        } else if n == 3 {
          Octets3(s);
        } else {
          Octets4(s);
        }
      }
    }
  }

  // ---------- whole strings ----------

  function EncodeAll(cs: seq<int>): Bytes
    requires forall i :: 0 <= i < |cs| ==> 0 <= cs[i] <= 0x10FFFF
  {
    if cs == [] then [] else Octets(cs[0]) + EncodeAll(cs[1..])
  }

  /** Steps through the whole string, if all of it is well formed. */
  function DecodeAll(s: Bytes): Option<seq<int>>
    decreases |s|
  {
    match Next(s)
    case AtEnd => Some([])
    case Invalid => None
    case Decoded(count, c) =>
      EncodeDecoded(s);
      var r := DecodeAll(s[count..]);
      if r.None? then None else Some([c] + r.value)
  }

  predicate AllScalar(cs: seq<int>) {
    forall i :: 0 <= i < |cs| ==> Scalar(cs[i])
  }

  lemma {:induction false} DecodeAllEncoded(cs: seq<int>)
    requires AllScalar(cs)
    ensures DecodeAll(EncodeAll(cs)) == Some(cs)
    decreases |cs|
  {
    hide Octets, Next;
    if cs == [] {
      assert Next([]) == AtEnd by {
        NextOfNothing();
      }
    } else {
      var rest := EncodeAll(cs[1..]);
      DecodeEncoded(cs[0], rest);
      DecodeAllEncoded(cs[1..]);
      assert (Octets(cs[0]) + rest)[|Octets(cs[0])|..] == rest;
      assert cs == [cs[0]] + cs[1..];
    }
  }

  lemma NextOfNothing()
    ensures Next([]) == AtEnd
  {
  }

  lemma {:induction false} EncodeAllDecoded(s: Bytes)
    requires DecodeAll(s).Some?
    ensures AllScalar(DecodeAll(s).value) && EncodeAll(DecodeAll(s).value) == s
    decreases |s|
  {
    hide Octets;
    EncodeDecoded(s);
    var r := Next(s);
    if r.Decoded? {
      EncodeAllDecoded(s[r.count..]);
      var cs := DecodeAll(s[r.count..]).value;
      Seqs.Uncons([r.codepoint], cs);
      assert s == s[..r.count] + s[r.count..];
    }
  }

  /** Encoding and decoding are inverse: strings of scalar values and well-formed byte strings
      correspond one to one. */
  lemma OneToOne(cs: seq<int>, s: Bytes)
    ensures AllScalar(cs) && EncodeAll(cs) == s <==> DecodeAll(s) == Some(cs)
  {
    if AllScalar(cs) {
      DecodeAllEncoded(cs);
    }
    if DecodeAll(s).Some? {
      EncodeAllDecoded(s);
    }
  }
}

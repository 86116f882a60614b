/** The bytes of a chunk: little-endian words and the headers made of them. */
module Wire {
  import opened Options
  import opened Words

  type Byte = n: nat | n < 0x100

  type Bytes = seq<Byte>

  datatype MessageType = ACK | HEL | MSG | OPN | CLO | ERR

  datatype ChunkType = Final | Intermediate | Abort

  const MESSAGEHEADER_LENGTH := 8
  const HEADER_UNENCRYPTEDLENGTH := 16
  const HEADER_TOTALLENGTH := 24
  const MESSAGE_MIN_LENGTH := 16

  function EncodeU32(v: UInt32): (s: Bytes)
    ensures |s| == 4
  {
    [v % 0x100, v / 0x100 % 0x100, v / 0x1_0000 % 0x100, v / 0x100_0000]
  }

  function DecodeU32(s: Bytes, at: nat): UInt32
    requires at + 4 <= |s|
  {
    Word(s[at], s[at + 1], s[at + 2], s[at + 3])
  }

  function Word(a: nat, b: nat, c: nat, d: nat): (v: nat)
    ensures a < 0x100 && b < 0x100 && c < 0x100 && d < 0x100 ==> v < WORD
  {
    a + 0x100 * b + 0x1_0000 * c + 0x100_0000 * d
  }

  lemma WordOfParts(v: UInt32)
    ensures Word(v % 0x100, v / 0x100 % 0x100, v / 0x1_0000 % 0x100, v / 0x100_0000) == v
  {
    var b, c, d := v / 0x100, v / 0x1_0000, v / 0x100_0000;
    assert v == v % 0x100 + 0x100 * b;
    assert c == b / 0x100 && b == b % 0x100 + 0x100 * c;
    assert d == c / 0x100 && c == c % 0x100 + 0x100 * d;
  }

  lemma PartsOfWord(a: Byte, b: Byte, c: Byte, d: Byte)
    ensures var v := Word(a, b, c, d);
            v % 0x100 == a && v / 0x100 % 0x100 == b && v / 0x1_0000 % 0x100 == c && v / 0x100_0000 == d
  {
    var v := Word(a, b, c, d);
    assert v / 0x100 == b + 0x100 * c + 0x1_0000 * d;
    assert v / 0x1_0000 == c + 0x100 * d;
  }

  /** A word is read back where it was written. */
  lemma DecodeEncoded(pre: Bytes, v: UInt32, post: Bytes)
    ensures DecodeU32(pre + EncodeU32(v) + post, |pre|) == v
  {
    var s, e := pre + EncodeU32(v) + post, EncodeU32(v);
    assert forall i :: 0 <= i < 4 ==> s[|pre| + i] == e[i];
    SameWord(s, |pre|, v);
  }

  /** And no other four bytes are read as that word. */
  lemma EncodeDecoded(s: Bytes, at: nat)
    requires at + 4 <= |s|
    ensures EncodeU32(DecodeU32(s, at)) == s[at..at + 4]
  {
    PartsOfWord(s[at], s[at + 1], s[at + 2], s[at + 3]);
  }

  lemma SameWord(s: Bytes, at: nat, v: UInt32)
    requires at + 4 <= |s| && forall i :: 0 <= i < 4 ==> s[at + i] == EncodeU32(v)[i]
    ensures DecodeU32(s, at) == v
  {
    WordOfParts(v);
    assert s[at + 0] == EncodeU32(v)[0] && s[at + 1] == EncodeU32(v)[1];
    assert s[at + 2] == EncodeU32(v)[2] && s[at + 3] == EncodeU32(v)[3];
  }

  /** The message type fills the lower three bytes of the first word, in ASCII. */
  function TypeCode(t: MessageType): UInt32 {
    match t
    case ACK => 0x4B4341
    case HEL => 0x4C4548
    case MSG => 0x47534D
    case OPN => 0x4E504F
    case CLO => 0x4F4C43
    case ERR => 0x525245
  }

  /** The chunk type fills the top byte. */
  function ChunkCode(t: ChunkType): UInt32 {
    match t
    case Final => 0x46000000
    case Intermediate => 0x43000000
    case Abort => 0x41000000
  }

  function MessageTypeOf(word: UInt32): Option<MessageType> {
    var t := word % 0x100_0000;
    if t == TypeCode(ACK) then Some(ACK)
    else if t == TypeCode(HEL) then Some(HEL)
    else if t == TypeCode(MSG) then Some(MSG)
    else if t == TypeCode(OPN) then Some(OPN)
    else if t == TypeCode(CLO) then Some(CLO)
    else if t == TypeCode(ERR) then Some(ERR)
    else None
  }

  function ChunkTypeOf(word: UInt32): Option<ChunkType> {
    var t := word - word % 0x100_0000;
    if t == ChunkCode(Final) then Some(Final)
    else if t == ChunkCode(Intermediate) then Some(Intermediate)
    else if t == ChunkCode(Abort) then Some(Abort)
    else None
  }

  lemma TypeWord(m: MessageType, c: ChunkType)
    ensures TypeCode(m) + ChunkCode(c) < WORD
    ensures MessageTypeOf(TypeCode(m) + ChunkCode(c)) == Some(m)
    ensures ChunkTypeOf(TypeCode(m) + ChunkCode(c)) == Some(c)
  {
  }

  /** The names of message and chunk types. */
  function Name(m: MessageType): string {
    match m
    case ACK => "ACK"
    case HEL => "HEL"
    case MSG => "MSG"
    case OPN => "OPN"
    case CLO => "CLO"
    case ERR => "ERR"
  }

  function Letter(c: ChunkType): char {
    match c
    case Final => 'F'
    case Intermediate => 'C'
    case Abort => 'A'
  }

  lemma CodeOfName(m: MessageType)
    ensures |Name(m)| == 3 && Name(m)[0] as int < 0x100 && Name(m)[1] as int < 0x100 && Name(m)[2] as int < 0x100
    ensures TypeCode(m) == Word(Name(m)[0] as int, Name(m)[1] as int, Name(m)[2] as int, 0)
  {
  }

  lemma CodeOfLetter(c: ChunkType)
    ensures Letter(c) as int < 0x100 && ChunkCode(c) == Word(0, 0, 0, Letter(c) as int)
  {
  }

  /** The types are written as text: the name of the message type and the letter of the chunk type. */
  lemma TypesWritten(m: MessageType, c: ChunkType)
    ensures |Name(m)| == 3 && TypeCode(m) + ChunkCode(c) < WORD
    ensures var s := EncodeU32(TypeCode(m) + ChunkCode(c));
            && s[0] == Name(m)[0] as int && s[1] == Name(m)[1] as int && s[2] == Name(m)[2] as int
            && s[3] == Letter(c) as int
  {
    hide TypeCode, ChunkCode, Name, Letter;
    CodeOfName(m);
    CodeOfLetter(c);
    PartsOfWord(Name(m)[0] as int, Name(m)[1] as int, Name(m)[2] as int, Letter(c) as int);
  }

  /** And read as text: no other bytes stand for a message type or a chunk type. */
  lemma TypesRead(s: Bytes, at: nat, m: MessageType, c: ChunkType)
    requires at + 4 <= |s|
    ensures |Name(m)| == 3
    ensures MessageTypeOf(DecodeU32(s, at)) == Some(m) <==>
              s[at] == Name(m)[0] as int && s[at + 1] == Name(m)[1] as int && s[at + 2] == Name(m)[2] as int
    ensures ChunkTypeOf(DecodeU32(s, at)) == Some(c) <==> s[at + 3] == Letter(c) as int
  {
    CodeOfName(m);
    CodeOfLetter(c);
    TypesByCode(DecodeU32(s, at), m, c);
    hide TypeCode, ChunkCode, Name, Letter, MessageTypeOf, ChunkTypeOf;
    var word, low := DecodeU32(s, at), Word(s[at], s[at + 1], s[at + 2], 0);
    assert word == low + 0x100_0000 * (s[at + 3] as nat) && word % 0x100_0000 == low;
    PartsOfWord(s[at], s[at + 1], s[at + 2], 0);
    PartsOfWord(Name(m)[0] as int, Name(m)[1] as int, Name(m)[2] as int, 0);
  }

  lemma TypesByCode(word: UInt32, m: MessageType, c: ChunkType)
    ensures MessageTypeOf(word) == Some(m) <==> word % 0x100_0000 == TypeCode(m)
    ensures ChunkTypeOf(word) == Some(c) <==> word - word % 0x100_0000 == ChunkCode(c)
  {
  }

  /** The headers of a symmetric chunk: message header, channel id, token id, sequence header. */
  function Headers(typeWord: UInt32, size: UInt32, channelId: UInt32, tokenId: UInt32,
                   sequenceNumber: UInt32, requestId: UInt32): (s: Bytes)
    ensures |s| == HEADER_TOTALLENGTH
  {
    EncodeU32(typeWord) + EncodeU32(size) + EncodeU32(channelId) + EncodeU32(tokenId)
    + EncodeU32(sequenceNumber) + EncodeU32(requestId)
  }

  /** What the receiver reads at the fixed offsets is what the sender wrote, whatever follows. */
  lemma HeadersDecode(typeWord: UInt32, size: UInt32, channelId: UInt32, tokenId: UInt32,
                      sequenceNumber: UInt32, requestId: UInt32, rest: Bytes)
    ensures var s := Headers(typeWord, size, channelId, tokenId, sequenceNumber, requestId) + rest;
            && DecodeU32(s, 0) == typeWord && DecodeU32(s, 4) == size
            && DecodeU32(s, 8) == channelId && DecodeU32(s, 12) == tokenId
            && DecodeU32(s, 16) == sequenceNumber && DecodeU32(s, 20) == requestId
  {
    var h := Headers(typeWord, size, channelId, tokenId, sequenceNumber, requestId);
    var s := h + rest;
    assert s[..24] == h;
    var a, b, c := EncodeU32(typeWord), EncodeU32(size), EncodeU32(channelId);
    var d, e, f := EncodeU32(tokenId), EncodeU32(sequenceNumber), EncodeU32(requestId);
    assert h == a + b + c + d + e + f;
    assert forall i :: 0 <= i < 4 ==> h[i] == a[i] && h[4 + i] == b[i] && h[8 + i] == c[i];
    assert forall i :: 0 <= i < 4 ==> h[12 + i] == d[i] && h[16 + i] == e[i] && h[20 + i] == f[i];
    SameWord(s, 0, typeWord);
    SameWord(s, 4, size);
    SameWord(s, 8, channelId);
    SameWord(s, 12, tokenId);
    SameWord(s, 16, sequenceNumber);
    SameWord(s, 20, requestId);
  }
}

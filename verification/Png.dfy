/** PNG chunk streams, and the text chunk that `PixelDumpSupport.cpp` inserts into one. */
module Png {
  import opened Options
  import opened Crc32
  import opened Words

  // ----- Chunk streams, after section 3 of RFC 2083 -----

  const SIGNATURE: seq<Byte> := [0x89, 0x50, 0x4e, 0x47, 0x0d, 0x0a, 0x1a, 0x0a]
  const IHDR: seq<Byte> := [0x49, 0x48, 0x44, 0x52]
  const IEND: seq<Byte> := [0x49, 0x45, 0x4e, 0x44]
  const TEXT: seq<Byte> := [0x74, 0x45, 0x58, 0x74]
  const MAX_LENGTH := 0x7fffffff

  datatype Chunk = Chunk(kind: seq<Byte>, data: seq<Byte>) {
    predicate Valid() {
      |kind| == 4 && |data| <= MAX_LENGTH
    }
  }

  /** A CRC, most significant byte first. */
  function CrcBytes(w: Word): (bytes: seq<Byte>)
    ensures |bytes| == 4
  {
    [((w >> 24) & 0xff) as Byte, ((w >> 16) & 0xff) as Byte, ((w >> 8) & 0xff) as Byte, (w & 0xff) as Byte]
  }

  /** The word that four bytes spell, most significant byte first. */
  function WordOf(bytes: seq<Byte>): Word
    requires |bytes| == 4
  {
    ((bytes[0] as Word) << 24) | ((bytes[1] as Word) << 16) | ((bytes[2] as Word) << 8) | (bytes[3] as Word)
  }

  /** The bytes of a CRC can be read back. */
  lemma CrcReadsBack(w: Word)
    ensures WordOf(CrcBytes(w)) == w
  {
  }

  lemma CrcBytesOfWord(bytes: seq<Byte>)
    requires |bytes| == 4
    ensures CrcBytes(WordOf(bytes)) == bytes
  {
  }

  /** The most significant byte comes first. */
  lemma MostSignificantFirst(a: Byte, b: Byte, c: Byte, d: Byte)
    ensures CrcBytes((a as Word) * 0x100_0000 + (b as Word) * 0x1_0000 + (c as Word) * 0x100 + (d as Word)) == [a, b, c, d]
  {
  }

  /** The byte with value n, by counting up from zero. */
  function ByteOf(n: nat): Byte
    requires n < 0x100
  {
    if n == 0 then 0 else ByteOf(n - 1) + 1
  }

  function Value(b: Byte): (n: nat)
    ensures n < 0x100
  {
    b as nat
  }

  lemma ValueOfNext(b: Byte)
    requires Value(b) < 0xff
    ensures Value(b + 1) == Value(b) + 1
  {
  }

  lemma {:induction false} ValueOfByte(n: nat)
    requires n < 0x100
    ensures Value(ByteOf(n)) == n
  {
    hide Value;
    if n == 0 {
      ValueOfZero();
    } else {
      ValueOfByte(n - 1);
      ValueOfNext(ByteOf(n - 1));
    }
  }

  lemma ValueOfZero()
    ensures Value(0) == 0
  {
  }

  lemma SameValue(a: Byte, b: Byte)
    requires Value(a) == Value(b)
    ensures a == b
  {
  }

  lemma ByteOfValue(b: Byte)
    ensures ByteOf(Value(b)) == b
  {
    hide *;
    ValueOfByte(Value(b));
    SameValue(ByteOf(Value(b)), b);
  }

  /** A length, most significant byte first. */
  function LengthBytes(n: nat): (bytes: seq<Byte>)
    requires n <= MAX_LENGTH
    ensures |bytes| == 4
  {
    [ByteOf(n / 0x100 / 0x100 / 0x100), ByteOf(n / 0x100 / 0x100 % 0x100), ByteOf(n / 0x100 % 0x100), ByteOf(n % 0x100)]
  }

  function LengthOf(bytes: seq<Byte>): nat
    requires |bytes| == 4
  {
    ((Value(bytes[0]) * 0x100 + Value(bytes[1])) * 0x100 + Value(bytes[2])) * 0x100 + Value(bytes[3])
  }

  function Serialize(c: Chunk): (s: seq<Byte>)
    requires c.Valid()
    ensures |s| == |c.data| + 12
  {
    LengthBytes(|c.data|) + c.kind + c.data + CrcBytes(Crc(c.kind + c.data))
  }

  function SerializeAll(cs: seq<Chunk>): seq<Byte>
    requires forall c :: c in cs ==> c.Valid()
  {
    if cs == [] then [] else Serialize(cs[0]) + SerializeAll(cs[1..])
  }

  /** The chunk at the front of the stream and what follows it; `None` if it is cut short or its CRC is wrong. */
  function ParseChunk(s: seq<Byte>): (r: Option<(Chunk, seq<Byte>)>)
    ensures r.Some? ==> |r.value.1| < |s|
  {
    if |s| < 12 then None else
    var n := LengthOf(s[..4]);
    if n > MAX_LENGTH || |s| < n + 12 then None else
    var kind, data := s[4..8], s[8..n + 8];
    if s[n + 8..n + 12] != CrcBytes(Crc(kind + data)) then None else
    Some((Chunk(kind, data), s[n + 12..]))
  }

  function ParseChunks(s: seq<Byte>): Option<seq<Chunk>>
    decreases |s|
  {
    if s == [] then Some([]) else
    match ParseChunk(s)
    case None => None
    case Some((c, rest)) =>
      match ParseChunks(rest)
      case None => None
      case Some(cs) => Some([c] + cs)
  }

  function ParsePng(s: seq<Byte>): Option<seq<Chunk>> {
    if |s| < 8 || s[..8] != SIGNATURE then None else ParseChunks(s[8..])
  }

  /** IHDR comes first, IEND last, and neither anywhere else. */
  predicate WellFormed(cs: seq<Chunk>) {
    && |cs| >= 2
    && cs[0].kind == IHDR && |cs[0].data| == 13
    && cs[|cs| - 1] == Chunk(IEND, [])
    && forall i :: 0 < i < |cs| - 1 ==> cs[i].kind != IHDR && cs[i].kind != IEND
  }

  lemma LengthRoundTrip(n: nat)
    requires n <= MAX_LENGTH
    ensures LengthOf(LengthBytes(n)) == n
  {
    hide ByteOf, Value;
    ValueOfByte(n / 0x100 / 0x100 / 0x100);
    ValueOfByte(n / 0x100 / 0x100 % 0x100);
    ValueOfByte(n / 0x100 % 0x100);
    ValueOfByte(n % 0x100);
  }

  lemma LengthBytesOfLength(bytes: seq<Byte>)
    requires |bytes| == 4 && LengthOf(bytes) <= MAX_LENGTH
    ensures LengthBytes(LengthOf(bytes)) == bytes
  {
    hide ByteOf, Value;
    var n := LengthOf(bytes);
    assert n / 0x100 == (Value(bytes[0]) * 0x100 + Value(bytes[1])) * 0x100 + Value(bytes[2]);
    assert n / 0x100 / 0x100 == Value(bytes[0]) * 0x100 + Value(bytes[1]);
    ByteOfValue(bytes[0]);
    ByteOfValue(bytes[1]);
    ByteOfValue(bytes[2]);
    ByteOfValue(bytes[3]);
  }

  lemma ParseSerializedChunk(c: Chunk, rest: seq<Byte>)
    requires c.Valid()
    ensures ParseChunk(Serialize(c) + rest) == Some((c, rest))
  {
    hide Crc, CrcBytes, LengthBytes, LengthOf;
    var s, n := Serialize(c) + rest, |c.data|;
    LengthRoundTrip(n);
    assert s[..4] == LengthBytes(n);
    assert s[4..8] == c.kind;
    assert s[8..n + 8] == c.data;
    assert s[n + 8..n + 12] == CrcBytes(Crc(c.kind + c.data));
    assert s[n + 12..] == rest;
  }

  lemma SerializeParsedChunk(s: seq<Byte>)
    requires ParseChunk(s).Some?
    ensures var (c, rest) := ParseChunk(s).value;
            c.Valid() && s == Serialize(c) + rest
  {
    hide Crc, CrcBytes, LengthBytes, LengthOf;
    var n := LengthOf(s[..4]);
    LengthBytesOfLength(s[..4]);
    assert s == s[..4] + s[4..8] + s[8..n + 8] + s[n + 8..n + 12] + s[n + 12..];
  }

  /** Reading back what was written gives the same chunks. */
  lemma {:induction false} ParseOfSerialized(cs: seq<Chunk>)
    requires forall c :: c in cs ==> c.Valid()
    ensures ParseChunks(SerializeAll(cs)) == Some(cs)
  {
    hide Serialize, ParseChunk;
    if cs != [] {
      ParseSerializedChunk(cs[0], SerializeAll(cs[1..]));
      ParseOfSerialized(cs[1..]);
      assert [cs[0]] + cs[1..] == cs;
    }
  }

  /** Every stream that reads as chunks is exactly those chunks written out. */
  lemma {:induction false} SerializedOfParse(s: seq<Byte>)
    requires ParseChunks(s).Some?
    ensures forall c :: c in ParseChunks(s).value ==> c.Valid()
    ensures s == SerializeAll(ParseChunks(s).value)
    decreases |s|
  {
    hide Serialize, ParseChunk;
    if s != [] {
      SerializeParsedChunk(s);
      var (c, rest) := ParseChunk(s).value;
      SerializedOfParse(rest);
      var cs := ParseChunks(s).value;
      assert cs[0] == c && cs[1..] == ParseChunks(rest).value;
    }
  }

  // ----- The comment chunk -----

  const CHECKSUM_KEYWORD: seq<Byte> := [0x63, 0x68, 0x65, 0x63, 0x6b, 0x73, 0x75, 0x6d]

  /** A text chunk (section 4.2.7 of RFC 2083): keyword, a zero byte, text. */
  function TextChunk(keyword: seq<Byte>, text: seq<Byte>): Chunk {
    Chunk(TEXT, keyword + [0] + text)
  }

  function ChecksumChunk(checksum: seq<Byte>): Chunk {
    TextChunk(CHECKSUM_KEYWORD, checksum)
  }

  /** The keyword and text that a reader finds: they are separated at the first zero byte. */
  function KeywordAndText(data: seq<Byte>): Option<(seq<Byte>, seq<Byte>)> {
    if data == [] then None
    else if data[0] == 0 then Some(([], data[1..]))
    else
      match KeywordAndText(data[1..])
      case None => None
      case Some((k, t)) => Some(([data[0]] + k, t))
  }

  lemma {:induction false} TextReadsBack(keyword: seq<Byte>, text: seq<Byte>)
    requires 0 !in keyword
    ensures KeywordAndText(TextChunk(keyword, text).data) == Some((keyword, text))
  {
    var data := keyword + [0] + text;
    if keyword == [] {
      assert data[1..] == text;
    } else {
      assert data[1..] == TextChunk(keyword[1..], text).data;
      TextReadsBack(keyword[1..], text);
      assert [keyword[0]] + keyword[1..] == keyword;
    }
  }

  /** What `printPNG` is to write: the comment chunk goes in after the first 33 bytes. */
  function Payload(png: seq<Byte>, checksum: seq<Byte>): (s: seq<Byte>)
    requires |png| >= 33 && |checksum| == 32
    ensures |s| == |png| + 53
  {
    png[..33] + Serialize(ChecksumChunk(checksum)) + png[33..]
  }

  lemma SerializeAllSplits(cs: seq<Chunk>)
    requires forall c :: c in cs ==> c.Valid()
    requires cs != []
    ensures SerializeAll(cs) == Serialize(cs[0]) + SerializeAll(cs[1..])
  {
  }

  /** For every PNG whose first chunk is a 13-byte IHDR, the output reads as the same chunks with the comment after the first. */
  lemma PayloadInsertsOneChunk(png: seq<Byte>, checksum: seq<Byte>)
    requires |checksum| == 32
    requires ParsePng(png).Some?
    requires var cs := ParsePng(png).value; |cs| >= 1 && |cs[0].data| == 13
    ensures |png| >= 33
    ensures var cs := ParsePng(png).value;
            ParsePng(Payload(png, checksum)) == Some([cs[0], ChecksumChunk(checksum)] + cs[1..])
  {
    hide Serialize, SerializeAll, ParseChunks, ParseChunk;
    var cs, comment := ParsePng(png).value, ChecksumChunk(checksum);
    SerializedOfParse(png[8..]);
    assert png == SIGNATURE + png[8..];
    SerializeAllSplits(cs);
    var first, rest := Serialize(cs[0]), SerializeAll(cs[1..]);
    assert png == SIGNATURE + first + rest;
    assert png[..33] == SIGNATURE + first && png[33..] == rest;
    var out := [cs[0], comment] + cs[1..];
    assert out[1..] == [comment] + cs[1..] && out[1..][1..] == cs[1..];
    SerializeAllSplits(out);
    SerializeAllSplits(out[1..]);
    var s := Payload(png, checksum);
    assert s[..8] == SIGNATURE;
    assert s[8..] == first + (Serialize(comment) + rest);
    ParseOfSerialized(out);
  }

  /** Inserting the comment keeps a well-formed stream well formed, and its text can be read back. */
  lemma PayloadStaysWellFormed(png: seq<Byte>, checksum: seq<Byte>)
    requires |checksum| == 32
    requires ParsePng(png).Some? && WellFormed(ParsePng(png).value)
    ensures |png| >= 33 && ParsePng(Payload(png, checksum)).Some?
    ensures var out := ParsePng(Payload(png, checksum)).value;
            WellFormed(out) && KeywordAndText(out[1].data) == Some((CHECKSUM_KEYWORD, checksum))
  {
    hide ParsePng, KeywordAndText;
    PayloadInsertsOneChunk(png, checksum);
    var cs := ParsePng(png).value;
    var out := [cs[0], ChecksumChunk(checksum)] + cs[1..];
    assert out[|out| - 1] == cs[|cs| - 1];
    forall i | 0 < i < |out| - 1 ensures out[i].kind != IHDR && out[i].kind != IEND {
      assert i > 1 ==> out[i] == cs[i - 1];
    }
    TextReadsBack(CHECKSUM_KEYWORD, checksum);
  }

  // ----- The program -----

  /** WTF's growable vector of bytes. */
  class ByteVector {
    var bytes: seq<Byte>

    constructor ()
      ensures bytes == []
    {
      bytes := [];
    }

    method Append(more: seq<Byte>)
      modifies this
      ensures bytes == old(bytes) + more
    {
      bytes := bytes + more;
    }

    method Grow(size: nat)
      requires size >= |bytes|
      modifies this
      ensures bytes == old(bytes) + seq(size - old(|bytes|), i => 0)
    {
      bytes := bytes + seq(size - |bytes|, i => 0);
    }

    method Set(i: nat, b: Byte)
      requires i < |bytes|
      modifies this
      ensures bytes == old(bytes)[i := b]
    {
      bytes := bytes[i := b];
    }
  }

  method AppendIntToVector(number: Word, vector: ByteVector)
    modifies vector
    ensures vector.bytes == old(vector.bytes) + CrcBytes(number)
  {
    var offset := |vector.bytes|;
    vector.Grow(offset + 4);
    vector.Set(offset, ((number >> 24) & 0xff) as Byte);
    vector.Set(offset + 1, ((number >> 16) & 0xff) as Byte);
    vector.Set(offset + 2, ((number >> 8) & 0xff) as Byte);
    vector.Set(offset + 3, (number & 0xff) as Byte);
    assert vector.bytes == old(vector.bytes) + CrcBytes(number);
  }

  /** The literal in the source: the declared length 41, "tEXt", "checksum" and the separating zero byte. */
  const TEXT_COMMENT_PREFIX: seq<Byte> :=
    [0x00, 0x00, 0x00, 0x29, 0x74, 0x45, 0x58, 0x74, 0x63, 0x68, 0x65, 0x63, 0x6b, 0x73, 0x75, 0x6d, 0x00]

  method ConvertChecksumToPNGComment(checksum: seq<Byte>, bytesToAdd: ByteVector, crc: CrcComputer)
    requires |checksum| == 32
    requires crc.Valid()
    modifies bytesToAdd, crc, crc.table
    ensures crc.Valid() && crc.table == old(crc.table)
    ensures bytesToAdd.bytes == old(bytesToAdd.bytes) + Serialize(ChecksumChunk(checksum))
  {
    hide Crc, CrcBytes;
    bytesToAdd.Append(TEXT_COMMENT_PREFIX);
    bytesToAdd.Append(checksum);
    var dataToCrc := new ByteVector();
    dataToCrc.Append(TEXT_COMMENT_PREFIX[4..]);
    dataToCrc.Append(checksum);
    var crc32 := crc.ComputeCrc(dataToCrc.bytes);
    CommentBytes(checksum);
    ghost var before, comment := old(bytesToAdd.bytes), TEXT_COMMENT_PREFIX + checksum;
    assert dataToCrc.bytes == TEXT_COMMENT_PREFIX[4..] + checksum;
    assert bytesToAdd.bytes == before + comment;
    AppendIntToVector(crc32, bytesToAdd);
    assert before + comment + CrcBytes(crc32) == before + (comment + CrcBytes(crc32));
  }

  lemma CommentBytes(checksum: seq<Byte>)
    requires |checksum| == 32
    ensures Serialize(ChecksumChunk(checksum)) ==
            TEXT_COMMENT_PREFIX + checksum + CrcBytes(Crc(TEXT_COMMENT_PREFIX[4..] + checksum))
  {
    hide Crc, CrcBytes, LengthBytes;
    PrefixParts();
    var length, data := TEXT_COMMENT_PREFIX[..4], CHECKSUM_KEYWORD + [0] + checksum;
    assert |data| == 41;
    AssembleComment(length, TEXT, CHECKSUM_KEYWORD + [0], checksum);
  }

  lemma PrefixParts()
    ensures TEXT_COMMENT_PREFIX[4..] == TEXT + (CHECKSUM_KEYWORD + [0])
    ensures TEXT_COMMENT_PREFIX == TEXT_COMMENT_PREFIX[..4] + (TEXT + (CHECKSUM_KEYWORD + [0]))
    ensures TEXT_COMMENT_PREFIX[..4] == LengthBytes(41)
  {
    hide *;
    DeclaredLength();
    PrefixTail();
    PrefixSplits();
  }

  lemma PrefixSplits()
    ensures TEXT_COMMENT_PREFIX == TEXT_COMMENT_PREFIX[..4] + TEXT_COMMENT_PREFIX[4..]
  {
  }

  lemma DeclaredLength()
    ensures TEXT_COMMENT_PREFIX[..4] == LengthBytes(41)
  {
    hide ByteOf, Value;
    ByteOfZeroAnd41();
  }

  lemma ByteOfZeroAnd41()
    ensures ByteOf(0) == 0 && ByteOf(41) == 0x29
  {
    hide ByteOf;
    assert Value(0) == 0 && Value(0x29) == 41;
    ByteOfValue(0);
    ByteOfValue(0x29);
  }

  lemma PrefixTail()
    ensures TEXT_COMMENT_PREFIX[4..] == TEXT + (CHECKSUM_KEYWORD + [0])
  {
  }

  lemma AssembleComment(length: seq<Byte>, kind: seq<Byte>, keyword: seq<Byte>, text: seq<Byte>)
    ensures kind + keyword + text == kind + (keyword + text)
    ensures length + (kind + keyword) + text == length + kind + (keyword + text)
  {
  }

  /** The standard output, which takes `room` more bytes before writes come up short. */
  class Output {
    var written: seq<Byte>
    var room: nat

    method Fwrite(data: seq<Byte>) returns (count: nat)
      modifies this
      ensures count == (if |data| <= old(room) then |data| else old(room))
      ensures written == old(written) + data[..count] && room == old(room) - count
      ensures data[..count] == Fitting(data, old(room))
    {
      count := if |data| <= room then |data| else room;
      written := written + data[..count];
      room := room - count;
    }
  }

  /** As much of a message as there is room for. */
  function Fitting(s: seq<Byte>, room: nat): (t: seq<Byte>)
    ensures |t| <= room
  {
    if |s| <= room then s else s[..room]
  }

  lemma FittingIs(s: seq<Byte>, room: nat)
    ensures Fitting(s, room) == s[..if |s| <= room then |s| else room]
  {
  }

  /** What `printPNG` is for: to any reader the output is the image with one more chunk. */
  predicate ReadsAsWithComment(png: seq<Byte>, checksum: seq<Byte>, output: seq<Byte>)
    requires |png| >= 33
  {
    |output| == |png| + 53 && output[..33] == png[..33] && output[86..] == png[33..] &&
    match ParsePng(png)
    case Some(cs) =>
      |cs| >= 1 && |cs[0].data| == 13 ==>
        ParsePng(output) ==
        Some([cs[0], Chunk([0x74, 0x45, 0x58, 0x74], [0x63, 0x68, 0x65, 0x63, 0x6b, 0x73, 0x75, 0x6d, 0] + checksum)] + cs[1..])
    case None => true
  }

  lemma WrittenReads(png: seq<Byte>, checksum: seq<Byte>, before: seq<Byte>)
    requires |png| >= 33 && |checksum| == 32
    ensures ReadsAsWithComment(png, checksum, (before + Payload(png, checksum))[|before|..])
  {
    hide ParsePng, Serialize;
    assert (before + Payload(png, checksum))[|before|..] == Payload(png, checksum);
    if ParsePng(png).Some? && |ParsePng(png).value| >= 1 && |ParsePng(png).value[0].data| == 13 {
      PayloadInsertsOneChunk(png, checksum);
      CommentData(checksum);
    }
  }

  lemma CommentData(checksum: seq<Byte>)
    ensures ChecksumChunk(checksum) ==
            Chunk([0x74, 0x45, 0x58, 0x74], [0x63, 0x68, 0x65, 0x63, 0x6b, 0x73, 0x75, 0x6d, 0] + checksum)
  {
    assert CHECKSUM_KEYWORD + [0] == [0x63, 0x68, 0x65, 0x63, 0x6b, 0x73, 0x75, 0x6d, 0];
  }

  lemma FittingOfConcat(s: seq<Byte>, t: seq<Byte>, room: nat)
    ensures Fitting(s + t, room) == Fitting(s, room) + Fitting(t, room - |Fitting(s, room)|)
    ensures |s| > room ==> Fitting(s + t, room) == Fitting(s, room)
  {
  }

  /**
   * Announces the length and writes the bytes. However short of room the output is, what it takes is the
   * start of the payload; it takes all the announced bytes exactly when there is room for them.
   */
  method PrintPNG(png: seq<Byte>, checksum: seq<Byte>, crc: CrcComputer, stdout: Output) returns (contentLength: nat)
    requires |png| >= 33 && |checksum| == 32
    requires crc.Valid()
    modifies crc, crc.table, stdout
    ensures crc.Valid() && crc.table == old(crc.table)
    ensures contentLength == |png| + 53
    ensures var length, room := |png| + 53, old(stdout.room);
            stdout.written == old(stdout.written) + Payload(png, checksum)[..if length <= room then length else room]
    ensures old(stdout.room) >= |png| + 53 ==>
              ReadsAsWithComment(png, checksum, stdout.written[|old(stdout.written)|..])
  {
    hide Serialize, Fitting, ReadsAsWithComment;
    FittingIs(Payload(png, checksum), stdout.room);
    WrittenReads(png, checksum, stdout.written);
    var bytesToAdd := new ByteVector();
    ConvertChecksumToPNGComment(checksum, bytesToAdd, crc);
    contentLength := |png| + |bytesToAdd.bytes|;
    var insertOffset := 8 + 25;
    ghost var before, room := stdout.written, stdout.room;
    var ignored := stdout.Fwrite(png[..insertOffset]);
    FittingOfConcat(png[..insertOffset], bytesToAdd.bytes, room);
    ignored := stdout.Fwrite(bytesToAdd.bytes);
    assert Payload(png, checksum) == (png[..insertOffset] + bytesToAdd.bytes) + png[insertOffset..];
    WriteRest(png[insertOffset..], stdout, png[..insertOffset] + bytesToAdd.bytes, before, room);
    assert room >= |png| + 53 ==> Payload(png, checksum)[..|png| + 53] == Payload(png, checksum);
  }

  /** The loop of `printPNG`, after `sent` has been written as far as there was room. */
  method WriteRest(rest: seq<Byte>, stdout: Output, ghost sent: seq<Byte>, ghost before: seq<Byte>, ghost room: nat)
    requires stdout.written == before + Fitting(sent, room) && stdout.room == room - |Fitting(sent, room)|
    modifies stdout
    ensures stdout.written == before + Fitting(sent + rest, room)
  {
    hide Fitting;
    var data := rest;
    ghost var done := sent;
    var dataRemainingToWrite := |rest|;
    while dataRemainingToWrite != 0
      invariant dataRemainingToWrite == |data|
      invariant sent + rest == done + data
      invariant stdout.written == before + Fitting(done, room)
      invariant stdout.room == room - |Fitting(done, room)|
      modifies stdout
      decreases dataRemainingToWrite
    {
      var bytesToWriteInThisChunk := if dataRemainingToWrite < 0x8000 then dataRemainingToWrite else 0x8000;
      ghost var now := data[..bytesToWriteInThisChunk];
      WriteNext(done, data, bytesToWriteInThisChunk, room);
      var bytesWritten := stdout.Fwrite(data[..bytesToWriteInThisChunk]);
      if bytesWritten != bytesToWriteInThisChunk {
        break;
      }
      done := done + now;
      dataRemainingToWrite := dataRemainingToWrite - bytesWritten;
      data := data[bytesWritten..];
    }
    assert dataRemainingToWrite == 0 ==> done + data == done;
  }

  /** Writing the next `n` bytes of the data. If they do not fit, nothing after them does either. */
  lemma WriteNext(sent: seq<Byte>, data: seq<Byte>, n: nat, room: nat)
    requires n <= |data|
    ensures var now := data[..n];
            var left := room - |Fitting(sent, room)|;
            && sent + data == (sent + now) + data[n..]
            && Fitting(sent + now, room) == Fitting(sent, room) + Fitting(now, left)
            && (|Fitting(now, left)| != n ==> Fitting(sent + data, room) == Fitting(sent + now, room))
  {
    hide Fitting;
    var now, later := data[..n], data[n..];
    assert data == now + later;
    assert sent + (now + later) == (sent + now) + later;
    FittingOfConcat(sent, now, room);
    WhenAllFits(now, room - |Fitting(sent, room)|);
    WhenAllFits(sent, room);
    FittingOfConcat(sent + now, later, room);
  }

  lemma WhenAllFits(s: seq<Byte>, room: nat)
    ensures |Fitting(s, room)| == |s| <==> |s| <= room
    ensures |Fitting(s, room)| == if |s| <= room then |s| else room
  {
  }
}

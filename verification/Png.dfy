/**
 * PixelDumpSupport.cpp: writing a PNG image with its checksum in a comment chunk. The reference is the chunk
 * layout of section 3.2 of RFC 2083.
 */
module Png {
  import opened Options
  import opened Bitwise
  import opened Crc
  import opened Decimals

  /** A chunk's type is four bytes long and its data at most 2^31 - 1 bytes. */
  datatype Chunk = Chunk(kind: seq<Byte>, data: seq<Byte>)

  predicate ValidChunk(c: Chunk) {
    |c.kind| == 4 && |c.data| < 0x8000_0000
  }

  const SIGNATURE: seq<Byte> := [137, 80, 78, 71, 13, 10, 26, 10]

  // ---------------------------------------------------------------- the reference

  function BigEndian(w: Word32): seq<Byte> {
    [w / 0x100_0000 % 0x100, w / 0x1_0000 % 0x100, w / 0x100 % 0x100, w % 0x100]
  }

  function FromBigEndian(b: seq<Byte>): Word32
    requires |b| == 4
  {
    var b0: int, b1: int, b2: int, b3: int := b[0], b[1], b[2], b[3];
    0x100_0000 * b0 + 0x1_0000 * b1 + 0x100 * b2 + b3
  }

  lemma BigEndianRoundTrip(w: Word32)
    ensures FromBigEndian(BigEndian(w)) == w
  {
    assert w == 0x100 * (w / 0x100) + w % 0x100;
    assert w / 0x100 == 0x100 * (w / 0x1_0000) + w / 0x100 % 0x100;
    assert w / 0x1_0000 == 0x100 * (w / 0x100_0000) + w / 0x1_0000 % 0x100;
  }

  lemma BigEndianInverse(b: seq<Byte>)
    requires |b| == 4
    ensures BigEndian(FromBigEndian(b)) == b
  {
    var b0: int, b1: int, b2: int, b3: int := b[0], b[1], b[2], b[3];
    BytesOf(b0, b1, b2, b3, FromBigEndian(b));
  }

  lemma BytesOf(b0: nat, b1: nat, b2: nat, b3: nat, w: nat)
    requires b0 < 0x100 && b1 < 0x100 && b2 < 0x100 && b3 < 0x100
    requires w == 0x100_0000 * b0 + 0x1_0000 * b1 + 0x100 * b2 + b3
    ensures w / 0x100_0000 % 0x100 == b0 && w / 0x1_0000 % 0x100 == b1 && w / 0x100 % 0x100 == b2 && w % 0x100 == b3
  {
    var low, mid := 0x1_0000 * b1 + 0x100 * b2 + b3, 0x100 * b2 + b3;
    assert w == 0x100_0000 * b0 + low && low < 0x100_0000;
    assert w == 0x1_0000 * (0x100 * b0 + b1) + mid && mid < 0x1_0000;
    assert w == 0x100 * (0x1_0000 * b0 + 0x100 * b1 + b2) + b3;
    assert w / 0x100_0000 == b0;
    assert w / 0x1_0000 == 0x100 * b0 + b1;
    assert w / 0x100 == 0x1_0000 * b0 + 0x100 * b1 + b2;
  }

  function EncodeChunk(c: Chunk): seq<Byte>
    requires ValidChunk(c)
  {
    BigEndian(|c.data|) + c.kind + c.data + BigEndian(Crc32(c.kind + c.data))
  }

  function ParseChunk(bytes: seq<Byte>): Option<(Chunk, seq<Byte>)> {
    if |bytes| < 12 then None
    else
      var length := FromBigEndian(bytes[..4]);
      if length >= 0x8000_0000 || |bytes| < 12 + length then None
      else
        var c := Chunk(bytes[4..8], bytes[8..8 + length]);
        if FromBigEndian(bytes[8 + length..12 + length]) != Crc32(c.kind + c.data) then None
        else Some((c, bytes[12 + length..]))
  }

  function ParseChunks(bytes: seq<Byte>): Option<seq<Chunk>> {
    if bytes == [] then Some([])
    else
      var first := ParseChunk(bytes);
      if first.None? then None
      else
        var rest := ParseChunks(first.value.1);
        if rest.None? then None else Some([first.value.0] + rest.value)
  }

  function ParsePng(bytes: seq<Byte>): Option<seq<Chunk>> {
    if SIGNATURE <= bytes then ParseChunks(bytes[8..]) else None
  }

  lemma ChunkRoundTrip(c: Chunk, rest: seq<Byte>)
    requires ValidChunk(c)
    ensures ParseChunk(EncodeChunk(c) + rest) == Some((c, rest))
    ensures |EncodeChunk(c)| == 12 + |c.data|
  {
    var n := |c.data|;
    var bytes := EncodeChunk(c) + rest;
    BigEndianRoundTrip(n);
    BigEndianRoundTrip(Crc32(c.kind + c.data));
    Slices(BigEndian(n), c.kind, c.data, BigEndian(Crc32(c.kind + c.data)), rest);
  }

  lemma Slices(a: seq<Byte>, b: seq<Byte>, c: seq<Byte>, d: seq<Byte>, rest: seq<Byte>)
    requires |a| == |b| == |d| == 4
    ensures var bytes, n := a + b + c + d + rest, |c|;
      && |bytes| == 12 + n + |rest|
      && bytes[..4] == a && bytes[4..8] == b && bytes[8..8 + n] == c && bytes[8 + n..12 + n] == d
      && bytes[12 + n..] == rest
  {
  }

  /** Where the parts of a chunk are, and what the CRC is taken of: the type and the data. */
  lemma ChunkLayout(c: Chunk)
    requires ValidChunk(c)
    ensures var e, n := EncodeChunk(c), |c.data|;
      && |e| == 12 + n
      && Base256(e[..4]) == n && e[4..8] == c.kind && e[8..8 + n] == c.data
      && Base256(e[8 + n..]) == Crc32(e[4..8 + n])
  {
    var e, n := EncodeChunk(c), |c.data|;
    Base256Of(n);
    Base256Of(Crc32(c.kind + c.data));
    Slices(BigEndian(n), c.kind, c.data, BigEndian(Crc32(c.kind + c.data)), []);
    assert e + [] == e;
    assert e[4..8 + n] == e[4..8] + e[8..8 + n] && e[8 + n..] == e[8 + n..12 + n];
  }

  /** The number with these bytes, the most significant first. */
  function Base256(bytes: seq<Byte>): nat {
    if bytes == [] then 0
    else
      var last: int := bytes[|bytes| - 1];
      0x100 * Base256(bytes[..|bytes| - 1]) + last
  }

  lemma Base256Of(w: Word32)
    ensures Base256(BigEndian(w)) == w
  {
    var b := BigEndian(w);
    BigEndianRoundTrip(w);
    var b0: int, b1: int, b2: int, b3: int := b[0], b[1], b[2], b[3];
    assert b[..3][..2] == b[..2] && b[..2][..1] == b[..1] && b[..1][..0] == [];
    assert Base256(b[..1]) == b0;
    assert Base256(b[..2]) == 0x100 * b0 + b1;
    assert Base256(b[..3]) == 0x1_0000 * b0 + 0x100 * b1 + b2;
    assert Base256(b) == 0x100 * Base256(b[..3]) + b3;
  }

  lemma ChunkInverse(bytes: seq<Byte>)
    requires ParseChunk(bytes).Some?
    ensures var (c, rest) := ParseChunk(bytes).value; ValidChunk(c) && bytes == EncodeChunk(c) + rest
  {
    var (c, rest) := ParseChunk(bytes).value;
    var n := |c.data|;
    assert BigEndian(n) == bytes[..4] by {
      BigEndianInverse(bytes[..4]);
    }
    assert BigEndian(Crc32(c.kind + c.data)) == bytes[8 + n..12 + n] by {
      BigEndianInverse(bytes[8 + n..12 + n]);
    }
    FivePieces(bytes, 4, 8, 8 + n, 12 + n);
  }

  lemma FivePieces(b: seq<Byte>, i: nat, j: nat, k: nat, l: nat)
    requires i <= j <= k <= l <= |b|
    ensures b[..i] + b[i..j] + b[j..k] + b[k..l] + b[l..] == b
  {
  }

  /** The bytes are the encoding of the chunk. */
  ghost predicate Encodes(bytes: seq<Byte>, c: Chunk) {
    ValidChunk(c) && bytes == EncodeChunk(c)
  }

  lemma ParseChunksCons(e: seq<Byte>, c: Chunk, rest: seq<Byte>)
    requires Encodes(e, c)
    ensures |e| == 12 + |c.data|
    ensures var r := ParseChunks(rest);
      ParseChunks(e + rest) == if r.Some? then Some([c] + r.value) else None
  {
    ChunkRoundTrip(c, rest);
  }

  // ---------------------------------------------------------------- the comment

  function Ascii(s: string): (b: seq<Byte>)
    ensures |b| == |s|
  {
    seq(|s|, i requires 0 <= i < |s| => s[i] as int % 0x100)
  }

  const TEXT: seq<Byte> := [116, 69, 88, 116]  // tEXt
  const KEY: seq<Byte> := [99, 104, 101, 99, 107, 115, 117, 109, 0]  // checksum and a NUL
  const IHDR: seq<Byte> := [73, 72, 68, 82]
  const PREFIX: seq<Byte> := [0, 0, 0, 0x29] + TEXT + KEY

  /** The names as they are spelled. */
  lemma Names()
    ensures Latin(TEXT) == "tEXt" && Latin(KEY) == "checksum\0" && Latin(IHDR) == "IHDR"
    ensures Latin(SIGNATURE[1..4]) == "PNG"
  {
  }

  /** The comment a reader of the image should find. */
  function Comment(checksum: seq<Byte>): Chunk {
    Chunk(TEXT, KEY + checksum)
  }

  method AppendIntToVector(number: Word32, vector: seq<Byte>) returns (r: seq<Byte>)
    ensures r == vector + BigEndian(number)
  {
    var offset := |vector|;
    r := vector + [0, 0, 0, 0];
    r := r[offset := number / 0x100_0000 % 0x100];
    r := r[offset + 1 := number / 0x1_0000 % 0x100];
    r := r[offset + 2 := number / 0x100 % 0x100];
    r := r[offset + 3 := number % 0x100];
  }

  /** The bytes are the comment chunk of the checksum, with a valid length and CRC. */
  method ConvertChecksumToPngComment(table: CrcTable, checksum: seq<Byte>) returns (bytesToAdd: seq<Byte>)
    requires table.Valid() && |checksum| == 32
    modifies table, table.crcTable
    ensures table.Valid()
    ensures bytesToAdd == EncodeChunk(Comment(checksum)) && |bytesToAdd| == 53
  {
    bytesToAdd := PREFIX + checksum;
    var dataToCrc := PREFIX[4..] + checksum;
    var crc := table.ComputeCrc(dataToCrc);
    bytesToAdd := AppendIntToVector(crc, bytesToAdd);
    PrefixStartsComment(checksum);
  }

  lemma PrefixStartsComment(checksum: seq<Byte>)
    requires |checksum| == 32
    ensures var c := Comment(checksum);
      ValidChunk(c) && PREFIX[4..] + checksum == c.kind + c.data
      && PREFIX + checksum == BigEndian(|c.data|) + c.kind + c.data && |PREFIX| == 17
  {
    assert BigEndian(41) == [0, 0, 0, 0x29];
    assert PREFIX[4..] == TEXT + KEY;
    assert TEXT + KEY + checksum == TEXT + (KEY + checksum);
  }

  // ---------------------------------------------------------------- the output

  /** Standard output: it takes as many bytes as it has room for. */
  class Output {
    var bytes: seq<Byte>
    var room: nat

    /** `fwrite`: how many of the bytes were written. */
    method Write(data: seq<Byte>) returns (count: nat)
      modifies this
      ensures count == Min(|data|, old(room))
      ensures bytes == old(bytes) + data[..count] && room == old(room) - count
    {
      count := Min(|data|, room);
      bytes := bytes + data[..count];
      room := room - count;
    }
  }

  function Min(a: nat, b: nat): (m: nat)
    ensures m <= a && m <= b
  {
    if a < b then a else b
  }

  /** As much of the bytes as there is room for. */
  function Take(data: seq<Byte>, room: nat): seq<Byte> {
    data[..Min(|data|, room)]
  }

  const OFFSET_AFTER_IHDR: nat := 8 + 25

  function WithChunk(data: seq<Byte>, encoded: seq<Byte>): seq<Byte>
    requires |data| >= OFFSET_AFTER_IHDR
  {
    data[..OFFSET_AFTER_IHDR] + encoded + data[OFFSET_AFTER_IHDR..]
  }

  function Body(data: seq<Byte>, checksum: seq<Byte>): seq<Byte>
    requires |data| >= OFFSET_AFTER_IHDR && |checksum| == 32
  {
    WithChunk(data, EncodeChunk(Comment(checksum)))
  }

  function Header(length: nat): seq<Byte> {
    Ascii("Content-Type: image/png\n") + Ascii("Content-Length: " + Numeral(length) + "\n")
  }

  // ---------------------------------------------------------------- a reader of the header

  function Latin(bytes: seq<Byte>): string {
    seq(|bytes|, i requires 0 <= i < |bytes| => bytes[i] as char)
  }

  /** The bytes up to the first newline as text, and those after it. */
  function ReadLine(bytes: seq<Byte>): Option<(string, seq<Byte>)> {
    if bytes == [] then None
    else if bytes[0] as char == '\n' then Some(("", bytes[1..]))
    else
      var r := ReadLine(bytes[1..]);
      if r.None? then None else Some(([bytes[0] as char] + r.value.0, r.value.1))
  }

  /** The number that the digits stand for, read from the left after `n`. */
  function ReadDecimal(s: string, n: nat): Option<nat> {
    if s == [] then Some(n)
    else if '0' <= s[0] <= '9' then ReadDecimal(s[1..], 10 * n + (s[0] as int - '0' as int))
    else None
  }

  /** The length that is announced in two lines of text, and what follows them. */
  function ReadHeader(bytes: seq<Byte>): Option<(nat, seq<Byte>)> {
    var first := ReadLine(bytes);
    if first.None? || first.value.0 != "Content-Type: image/png" then None
    else
      var second := ReadLine(first.value.1);
      if second.None? || !("Content-Length: " <= second.value.0) then None
      else
        var digits := second.value.0[|"Content-Length: "|..];
        var n := ReadDecimal(digits, 0);
        if digits == [] || n.None? then None else Some((n.value, second.value.1))
  }

  lemma {:induction false} ReadDecimalAppend(s: string, c: char, n: nat)
    requires ReadDecimal(s, n).Some? && '0' <= c <= '9'
    ensures ReadDecimal(s + [c], n) == Some(10 * ReadDecimal(s, n).value + (c as int - '0' as int))
    decreases s
  {
    if s == [] {
      assert s + [c] == [c] && [c][1..] == [];
    } else {
      assert (s + [c])[1..] == s[1..] + [c];
      ReadDecimalAppend(s[1..], c, 10 * n + (s[0] as int - '0' as int));
    }
  }

  lemma {:induction false} ReadNumeral(n: nat)
    ensures Numeral(n) != [] && ReadDecimal(Numeral(n), 0) == Some(n)
    ensures forall c :: c in Numeral(n) ==> '0' <= c <= '9'
  {
    if n < 10 {
      assert Numeral(n)[1..] == [];
    } else {
      ReadNumeral(n / 10);
      ReadDecimalAppend(Numeral(n / 10), Digit(n % 10), 0);
    }
  }

  lemma {:induction false} ReadAscii(s: string, rest: seq<Byte>)
    requires forall i :: 0 <= i < |s| ==> s[i] != '\n' && s[i] as int < 0x100
    ensures ReadLine(Ascii(s + "\n") + rest) == Some((s, rest))
    decreases s
  {
    var bytes := Ascii(s + "\n") + rest;
    if s == [] {
      assert bytes[1..] == rest;
    } else {
      assert bytes[0] == s[0] as int && bytes[1..] == Ascii(s[1..] + "\n") + rest;
      ReadAscii(s[1..], rest);
      assert s == [s[0]] + s[1..];
    }
  }

  /** The header is read as the length it was written for. */
  lemma HeaderIsRead(length: nat, rest: seq<Byte>)
    ensures ReadHeader(Header(length) + rest) == Some((length, rest))
  {
    var kind, size := "Content-Type: image/png", "Content-Length: " + Numeral(length);
    ReadNumeral(length);
    SizeLine(Numeral(length), rest);
    KindLine(Ascii(size + "\n") + rest);
    assert Header(length) + rest == Ascii(kind + "\n") + (Ascii(size + "\n") + rest) by {
      assert "Content-Type: image/png\n" == kind + "\n";
    }
  }

  lemma KindLine(rest: seq<Byte>)
    ensures ReadLine(Ascii("Content-Type: image/png" + "\n") + rest) == Some(("Content-Type: image/png", rest))
  {
    ReadAscii("Content-Type: image/png", rest);
  }

  lemma SizeLine(digits: string, rest: seq<Byte>)
    requires forall c :: c in digits ==> '0' <= c <= '9'
    ensures var size := "Content-Length: " + digits;
      ReadLine(Ascii(size + "\n") + rest) == Some((size, rest)) && size[|"Content-Length: "|..] == digits
  {
    var size := "Content-Length: " + digits;
    forall i | 0 <= i < |size|
      ensures size[i] != '\n' && size[i] as int < 0x100
    {
      assert i < |"Content-Length: "| || size[i] in digits;
    }
    ReadAscii(size, rest);
  }

  // ---------------------------------------------------------------- the writes

  /** What the writes so far, of `sent` in all, have made of an output that started as `before`. */
  ghost predicate Sent(out: Output, before: seq<Byte>, room: nat, sent: seq<Byte>)
    reads out
  {
    out.bytes == before + Take(sent, room) && out.room == room - Min(|sent|, room)
  }

  method Send(out: Output, data: seq<Byte>, ghost before: seq<Byte>, ghost room: nat, ghost sent: seq<Byte>)
    returns (count: nat)
    requires Sent(out, before, room, sent)
    modifies out
    ensures Sent(out, before, room, sent + data)
    ensures count <= |data| && (count < |data| ==> out.room == 0)
  {
    count := out.Write(data);
    assert Take(sent + data, room) == Take(sent, room) + data[..count];
  }

  /** The loop that writes the rest of the image in pieces of 32 KB, and gives up at a short write. */
  method SendPieces(out: Output, data: seq<Byte>, ghost before: seq<Byte>, ghost room: nat, ghost sent: seq<Byte>)
    requires Sent(out, before, room, sent)
    modifies out
    ensures out.bytes == before + Take(sent + data, room)
  {
    var at := 0;
    assert sent + data[..0] == sent;
    while at < |data|
      invariant at <= |data| && Sent(out, before, room, sent + data[..at])
    {
      var piece := Min(|data| - at, 0x8000);
      var n := Send(out, data[at..at + piece], before, room, sent + data[..at]);
      assert sent + data[..at] + data[at..at + piece] == sent + data[..at + piece];
      if n != piece {
        OutOfRoom(sent + data, sent + data[..at + piece], room);
        return;
      }
      at := at + n;
    }
    assert data[..at] == data;
  }

  lemma OutOfRoom(all: seq<Byte>, sent: seq<Byte>, room: nat)
    requires sent <= all && room <= |sent|
    ensures Take(all, room) == Take(sent, room)
  {
  }

  /**
   * `printPNG`: the header, the image up to its IHDR chunk, the comment, and the rest of the image, cut off
   * where the output runs out of room.
   */
  method PrintPng(out: Output, table: CrcTable, data: seq<Byte>, checksum: seq<Byte>)
    requires table.Valid() && |checksum| == 32 && |data| >= OFFSET_AFTER_IHDR
    modifies out, table, table.crcTable
    ensures table.Valid()
    ensures out.bytes == old(out.bytes) + Take(Header(|Body(data, checksum)|) + Body(data, checksum), old(out.room))
    ensures old(out.room) >= |Header(|Body(data, checksum)|) + Body(data, checksum)| ==>
      ReadHeader(out.bytes[|old(out.bytes)|..]) == Some((|Body(data, checksum)|, Body(data, checksum)))
    ensures |Body(data, checksum)| == |data| + 53
  {
    ghost var body := Body(data, checksum);
    var bytesToAdd := ConvertChecksumToPngComment(table, checksum);
    var contentType := Ascii("Content-Type: image/png\n");
    var contentLength := Ascii("Content-Length: " + Numeral(|data| + |bytesToAdd|) + "\n");
    PrintParts(out, contentType, contentLength, data, bytesToAdd);
    OutputIsRead(out.bytes, old(out.bytes), body, old(out.room));
  }

  /** With enough room, a reader finds the length and exactly as many bytes after it. */
  lemma OutputIsRead(bytes: seq<Byte>, before: seq<Byte>, body: seq<Byte>, room: nat)
    requires bytes == before + Take(Header(|body|) + body, room)
    ensures room >= |Header(|body|) + body| ==> ReadHeader(bytes[|before|..]) == Some((|body|, body))
  {
    HeaderIsRead(|body|, body);
    if room >= |Header(|body|) + body| {
      assert bytes[|before|..] == Header(|body|) + body;
    }
  }

  /** The writes of `printPNG`, in order. */
  method PrintParts(
    out: Output, contentType: seq<Byte>, contentLength: seq<Byte>, data: seq<Byte>, bytesToAdd: seq<Byte>)
    requires |data| >= OFFSET_AFTER_IHDR
    modifies out
    ensures out.bytes
         == old(out.bytes) + Take(contentType + contentLength + WithChunk(data, bytesToAdd), old(out.room))
  {
    ghost var before, room := out.bytes, out.room;
    var start, rest := data[..OFFSET_AFTER_IHDR], data[OFFSET_AFTER_IHDR..];
    assert out.bytes == before + Take([], room);
    var n := Send(out, contentType, before, room, []);
    n := Send(out, contentLength, before, room, [] + contentType);
    n := Send(out, start, before, room, [] + contentType + contentLength);
    n := Send(out, bytesToAdd, before, room, [] + contentType + contentLength + start);
    SendPieces(out, rest, before, room, [] + contentType + contentLength + start + bytesToAdd);
    assert [] + contentType + contentLength + start + bytesToAdd + rest
        == contentType + contentLength + (start + bytesToAdd + rest);
  }

  // ---------------------------------------------------------------- what a reader finds

  /** A well-formed image starts with an IHDR chunk of 13 bytes. */
  ghost predicate WellFormedPng(data: seq<Byte>) {
    var cs := ParsePng(data);
    cs.Some? && cs.value != [] && cs.value[0].kind == IHDR && |cs.value[0].data| == 13
  }

  /**
   * The written image parses: its chunks are the original ones with the comment after IHDR, and every length
   * and CRC is right. The announced length is the number of bytes that follow the header.
   */
  lemma BodyHasComment(data: seq<Byte>, checksum: seq<Byte>)
    requires WellFormedPng(data) && |checksum| == 32
    ensures |data| >= OFFSET_AFTER_IHDR && |Body(data, checksum)| == |data| + 53
    ensures var cs := ParsePng(data).value;
      ParsePng(Body(data, checksum)) == Some([cs[0], Comment(checksum)] + cs[1..])
  {
    ChunkInserted(data, EncodeChunk(Comment(checksum)), Comment(checksum));
  }

  /** Any chunk can be put after IHDR. */
  lemma ChunkInserted(data: seq<Byte>, encoded: seq<Byte>, c: Chunk)
    requires WellFormedPng(data) && Encodes(encoded, c)
    ensures |data| >= OFFSET_AFTER_IHDR && |encoded| == 12 + |c.data|
    ensures var cs := ParsePng(data).value; ParsePng(WithChunk(data, encoded)) == Some([cs[0], c] + cs[1..])
  {
    var ihdr, e, rest := StartOfImage(data);
    Rearrange(data, encoded, e, rest);
    ParseBoth(data, WithChunk(data, encoded), e, ihdr, encoded, c, rest, ParseChunks(rest).value);
  }

  /** The image without and with the chunk. */
  lemma ParseBoth(
    data: seq<Byte>, body: seq<Byte>, e: seq<Byte>, ihdr: Chunk, encoded: seq<Byte>, c: Chunk, rest: seq<Byte>,
    cs: seq<Chunk>)
    requires SIGNATURE <= data && data[8..] == e + rest && SIGNATURE <= body && body[8..] == e + (encoded + rest)
    requires Encodes(e, ihdr) && Encodes(encoded, c) && ParseChunks(rest) == Some(cs)
    ensures |encoded| == 12 + |c.data| && ParsePng(data) == Some([ihdr] + cs)
    ensures ParsePng(body) == Some([ihdr, c] + ([ihdr] + cs)[1..])
  {
    ParseChunksCons(encoded, c, rest);
    ParseAfterSignature(data, e, ihdr, rest, cs);
    ParseAfterSignature(body, e, ihdr, encoded + rest, [c] + cs);
    SecondChunk(ihdr, c, cs);
  }

  lemma SecondChunk(ihdr: Chunk, c: Chunk, cs: seq<Chunk>)
    ensures [ihdr] + ([c] + cs) == [ihdr, c] + ([ihdr] + cs)[1..]
  {
    assert ([ihdr] + cs)[1..] == cs;
  }

  lemma ParseAfterSignature(image: seq<Byte>, e: seq<Byte>, c: Chunk, rest: seq<Byte>, cs: seq<Chunk>)
    requires SIGNATURE <= image && image[8..] == e + rest && Encodes(e, c) && ParseChunks(rest) == Some(cs)
    ensures ParsePng(image) == Some([c] + cs)
  {
    ParseChunksCons(e, c, rest);
  }

  lemma Rearrange(data: seq<Byte>, encoded: seq<Byte>, e: seq<Byte>, rest: seq<Byte>)
    requires data == SIGNATURE + (e + rest) && |e| == 25
    ensures data[8..] == e + rest
    ensures var body := WithChunk(data, encoded); SIGNATURE <= body && body[8..] == e + (encoded + rest)
  {
    assert data[..OFFSET_AFTER_IHDR] == SIGNATURE + e && data[OFFSET_AFTER_IHDR..] == rest;
    assert WithChunk(data, encoded) == SIGNATURE + (e + (encoded + rest));
  }

  lemma StartOfImage(data: seq<Byte>) returns (ihdr: Chunk, e: seq<Byte>, rest: seq<Byte>)
    requires WellFormedPng(data)
    ensures Encodes(e, ihdr) && |e| == 25 && data == SIGNATURE + (e + rest)
    ensures ParseChunks(rest).Some?
  {
    ihdr, rest := ParseChunk(data[8..]).value.0, ParseChunk(data[8..]).value.1;
    e := EncodeChunk(ihdr);
    ChunkInverse(data[8..]);
    assert data == SIGNATURE + data[8..];
  }
}

/**
 * PNG chunk framing (section 3 of RFC 2083): an eight-byte signature, then
 * chunks made of a 4-byte big-endian length, a 4-byte type, the data and a
 * 4-byte CRC. The decoder reads the CRC but never checks it.
 *
 * Bytes of the stream and of chunk data are kept as their 0..255 bit
 * patterns; where the decoder reads a Java `byte` without `& 0xff`, the model
 * applies `Signed8` explicitly.
 */
module PngChunk {
  import opened Wrappers
  import opened JavaInt

  /** Why a chunk could not be processed: the exception the decoder met. */
  datatype Cause =
    | NullChunk             // readChunk/getChunkType returned null: NullPointerException
    | IndexOutOfBounds      // ArrayIndexOutOfBoundsException: short chunk, bad index
    | NullArray             // NullPointerException on a palette or table never built
    | BadBitDepth           // PNGImageDecoder3
    | RgbBitDepth           // PNGImageDecoder5
    | PaletteBitDepth       // PNGImageDecoder6
    | GrayAlphaBitDepth     // PNGImageDecoder7
    | RgbAlphaBitDepth      // PNGImageDecoder8
    | BadCompression        // PNGImageDecoder9
    | BadFilterMethod       // PNGImageDecoder10
    | BadInterlace          // PNGImageDecoder11
    | BadUnitSpecifier      // PNGImageDecoder12
    | BadSignificantBits    // PNGImageDecoder13
    | TooManyAlphaEntries   // PNGImageDecoder14
    | AlphaChunkForbidden   // PNGImageDecoder15
    | UnknownFilter         // PNGImageDecoder16
    | HistBeforePalette     // PNGImageDecoder18
    | BadColor              // IllegalArgumentException from java.awt.Color
    | BadRaster             // exception while creating a raster
    | BadColorModel         // exception while creating the IndexColorModel
    | MissingHeader         // no IHDR before IEND: `bounds` is null
    | BadTile               // PNGImageDecoder17: a tile other than (0, 0) requested

  /** What the constructor throws: the signature message, or the one message for any chunk failure. */
  datatype DecodeError = BadSignature | ChunkFailed(cause: Cause)

  const SIGNATURE: seq<uint8> := [0x89, 0x50, 0x4E, 0x47, 0x0D, 0x0A, 0x1A, 0x0A]

  /** The signature as the Java `long` 0x89504e470d0a1a0aL, which is negative. */
  const MAGIC: int64 := 0x89504e470d0a1a0a - 0x1_0000_0000_0000_0000

  /** The number whose big-endian bytes are `bs`. */
  function BigEndian(bs: seq<uint8>): nat
  {
    if |bs| == 0 then 0 else BigEndian(bs[..|bs| - 1]) * 0x100 + bs[|bs| - 1]
  }

  /** The `n` big-endian bytes of `u`: the encoder `BigEndian` inverts. */
  function BigEndianBytes(u: nat, n: nat): (bs: seq<uint8>)
    ensures |bs| == n
  {
    if n == 0 then [] else BigEndianBytes(u / 0x100, n - 1) + [u % 0x100]
  }

  /** 256 to the power n. */
  function Pow256(n: nat): (r: nat)
    ensures r >= 1
  {
    if n == 0 then 1 else 0x100 * Pow256(n - 1)
  }

  lemma {:induction false} BigEndianBound(bs: seq<uint8>)
    ensures BigEndian(bs) < Pow256(|bs|)
  {
    if |bs| > 0 {
      BigEndianBound(bs[..|bs| - 1]);
    }
  }

  /** Encoding then decoding gives the number back. */
  lemma {:induction false} BigEndianOfBytes(u: nat, n: nat)
    requires u < Pow256(n)
    ensures BigEndian(BigEndianBytes(u, n)) == u
  {
    if n > 0 {
      var bs := BigEndianBytes(u, n);
      assert bs[..n - 1] == BigEndianBytes(u / 0x100, n - 1);
      BigEndianOfBytes(u / 0x100, n - 1);
    }
  }

  /** Decoding then encoding gives the bytes back. */
  lemma {:induction false} BytesOfBigEndian(bs: seq<uint8>)
    ensures BigEndianBytes(BigEndian(bs), |bs|) == bs
  {
    if |bs| > 0 {
      var init := bs[..|bs| - 1];
      BytesOfBigEndian(init);
      assert BigEndian(bs) / 0x100 == BigEndian(init);
      assert bs == init + [bs[|bs| - 1]];
    }
  }

  /** Equal-length byte strings with the same value are equal. */
  lemma BigEndianInjective(a: seq<uint8>, b: seq<uint8>)
    requires |a| == |b| && BigEndian(a) == BigEndian(b)
    ensures a == b
  {
    BytesOfBigEndian(a);
    BytesOfBigEndian(b);
  }

  /** A Java `int` read from the bit pattern `u`. */
  function AsInt32(u: nat): int32
    requires u < 0x1_0000_0000
  {
    if u < 0x8000_0000 then u else u - 0x1_0000_0000
  }

  /** A Java `long` read from the bit pattern `u`. */
  function AsInt64(u: nat): int64
    requires u < 0x1_0000_0000_0000_0000
  {
    if u < 0x8000_0000_0000_0000 then u else u - 0x1_0000_0000_0000_0000
  }

  /** The bit pattern of a Java `int`. */
  function Bits32(v: int32): (u: nat)
    ensures u < 0x1_0000_0000 && AsInt32(u) == v
  {
    if v < 0 then v + 0x1_0000_0000 else v
  }

  /** The four bytes `DataOutputStream.writeInt` would write. */
  function Int32Bytes(v: int32): (bs: seq<uint8>)
    ensures |bs| == 4
  {
    BigEndianBytes(Bits32(v), 4)
  }

  /** `(char) b` of a Java byte: sign-extended to sixteen bits. */
  function ByteChar(b: int8): (c: char)
    ensures b >= 0 ==> c as int == b
    ensures b < 0 ==> c as int == b + 0x1_0000
  {
    if b >= 0 then b as char else (b + 0x1_0000) as char
  }

  /** The constructor's `typeString`: the first character is `(char) (type >> 24)`, without a mask. */
  function TypeString(t: int32): (s: string)
  {
    [ByteChar(t / 0x100_0000), (t / 0x1_0000 % 0x100) as char, (t / 0x100 % 0x100) as char, (t % 0x100) as char]
  }

  /** `getChunkType`: the four type bytes, each masked with 0xff. */
  function ChunkTypeName(t: int32): (s: string)
    ensures |s| == 4
  {
    var u := Bits32(t);
    [(u / 0x100_0000) as char, (u / 0x1_0000 % 0x100) as char, (u / 0x100 % 0x100) as char, (u % 0x100) as char]
  }

  /** Each character of the name is the code of one of the type's big-endian bytes. */
  lemma ChunkTypeNameBytes(t: int32)
    ensures forall i | 0 <= i < 4 :: ChunkTypeName(t)[i] as int == Int32Bytes(t)[i]
  {
    TypeDigits(Bits32(t));
  }

  lemma TypeDigits(u: nat)
    requires u < 0x1_0000_0000
    ensures BigEndianBytes(u, 4) == [u / 0x100_0000, u / 0x1_0000 % 0x100, u / 0x100 % 0x100, u % 0x100]
  {
    assert u / 0x100 / 0x100 == u / 0x1_0000;
    assert u / 0x1_0000 / 0x100 == u / 0x100_0000;
    assert u / 0x100_0000 / 0x100 == 0;
    assert BigEndianBytes(u / 0x100_0000, 1) == [u / 0x100_0000];
    assert BigEndianBytes(u / 0x1_0000, 2) == [u / 0x100_0000, u / 0x1_0000 % 0x100];
    assert BigEndianBytes(u / 0x100, 3) == [u / 0x100_0000, u / 0x1_0000 % 0x100, u / 0x100 % 0x100];
  }

  lemma Pow256Facts()
    ensures Pow256(4) == 0x1_0000_0000 && Pow256(8) == 0x1_0000_0000_0000_0000
  {
  }

  /** Below the top byte, the bits of a negative type are those of its unsigned value. */
  lemma LowBytesOfNegative(t: int)
    requires -0x8000_0000 <= t < 0
    ensures (t + 0x1_0000_0000) / 0x1_0000 % 0x100 == t / 0x1_0000 % 0x100
    ensures (t + 0x1_0000_0000) / 0x100 % 0x100 == t / 0x100 % 0x100
    ensures (t + 0x1_0000_0000) % 0x100 == t % 0x100
    ensures -0x80 <= t / 0x100_0000 < 0
  {
    assert (t + 0x1_0000_0000) / 0x1_0000 == t / 0x1_0000 + 0x1_0000;
    assert (t + 0x1_0000_0000) / 0x100 == t / 0x100 + 0x100_0000;
  }

  /** The two conversions agree unless the first type byte has its high bit set. */
  lemma TypeStringsAgree(t: int32)
    ensures t >= 0 ==> TypeString(t) == ChunkTypeName(t)
    ensures t < 0 ==> TypeString(t)[0] as int >= 0xFF80 && TypeString(t)[1..] == ChunkTypeName(t)[1..]
  {
    if t < 0 {
      LowBytesOfNegative(t);
      var a := TypeString(t);
      var b := ChunkTypeName(t);
      assert a[1] == b[1] && a[2] == b[2] && a[3] == b[3];
    }
  }

  /** The chunk type code of a four-character name of Latin-1 characters. */
  function TypeCode(name: string): int32
    requires |name| == 4 && forall i | 0 <= i < 4 :: name[i] as int < 0x100
  {
    var bs: seq<uint8> := [name[0] as int, name[1] as int, name[2] as int, name[3] as int];
    BigEndianBound(bs);
    Pow256Facts();
    AsInt32(BigEndian(bs))
  }

  /** `getChunkType` gives back the name a type code was built from. */
  lemma ChunkTypeNameOfCode(name: string)
    requires |name| == 4 && forall i | 0 <= i < 4 :: name[i] as int < 0x100
    ensures ChunkTypeName(TypeCode(name)) == name
  {
    var bs: seq<uint8> := [name[0] as int, name[1] as int, name[2] as int, name[3] as int];
    BigEndianBound(bs);
    BytesOfBigEndian(bs);
    var s := ChunkTypeName(TypeCode(name));
    ChunkTypeNameBytes(TypeCode(name));
    forall i | 0 <= i < 4
      ensures s[i] == name[i]
    {
      assert s[i] as int == bs[i];
    }
  }

  datatype PNGChunk = PNGChunk(length: int32, chunkType: int32, data: seq<uint8>, crc: int32)
  {
    function GetLength(): int32 { length }
    function GetType(): int32 { chunkType }
    function GetTypeString(): string { TypeString(chunkType) }
    function GetData(): seq<uint8> { data }

    predicate IsType(typeName: string) { GetTypeString() == typeName }

    /** `getByte(offset)`: the Java byte at `offset`. */
    function GetByte(offset: int): (r: Result<int8, Cause>)
      ensures r.Ok? <==> 0 <= offset < |data|
      ensures r.Ok? ==> Unsigned8(r.value) == data[offset]
    {
      if 0 <= offset < |data| then Ok(Signed8(data[offset])) else Fail(IndexOutOfBounds)
    }

    /** `getInt1(offset)`: the byte at `offset`, unsigned. */
    function GetInt1(offset: int): (r: Result<int, Cause>)
      ensures r.Ok? <==> 0 <= offset < |data|
      ensures r.Ok? ==> 0 <= r.value < 0x100 && Signed8(r.value) == GetByte(offset).value
    {
      if 0 <= offset < |data| then Ok(data[offset]) else Fail(IndexOutOfBounds)
    }

    /** `getInt2(offset)`: two bytes, big-endian, unsigned. */
    function GetInt2(offset: int): (r: Result<int, Cause>)
      ensures r.Ok? <==> 0 <= offset && offset + 1 < |data|
      ensures r.Ok? ==> 0 <= r.value < 0x1_0000 && r.value / 0x100 == data[offset] && r.value % 0x100 == data[offset + 1]
    {
      if 0 <= offset && offset + 1 < |data| then Ok(data[offset] as int * 0x100 + data[offset + 1])
      else Fail(IndexOutOfBounds)
    }

    /** `getInt4(offset)`: four bytes, big-endian, as a signed Java `int`. */
    function GetInt4(offset: int): (r: Result<int32, Cause>)
      ensures r.Ok? <==> 0 <= offset && offset + 3 < |data|
      ensures r.Ok? ==> Int32Bytes(r.value) == data[offset..offset + 4]
      ensures r.Ok? ==> (r.value < 0 <==> data[offset] >= 0x80)
    {
      if 0 <= offset && offset + 3 < |data| then
        var bs := data[offset..offset + 4];
        BigEndianBound(bs);
        BytesOfBigEndian(bs);
        assert BigEndian(bs) == BigEndian(bs[..3]) * 0x100 + bs[3];
        assert bs[..3][..2] == bs[..2];
        assert BigEndian(bs[..3]) == BigEndian(bs[..2]) * 0x100 + bs[2];
        assert bs[..2][..1] == [bs[0]];
        assert BigEndian(bs[..2]) == bs[0] as int * 0x100 + bs[1];
        Pow256Facts();
        Ok(AsInt32(BigEndian(bs)))
      else Fail(IndexOutOfBounds)
    }

    /** `getString4(offset)`: four characters, each `(char)` of a signed byte. */
    function GetString4(offset: int): (r: Result<string, Cause>)
      ensures r.Ok? <==> 0 <= offset && offset + 3 < |data|
      ensures r.Ok? ==> |r.value| == 4
      ensures r.Ok? ==> forall i | 0 <= i < 4 :: data[offset + i] < 0x80 ==> r.value[i] as int == data[offset + i]
      ensures r.Ok? ==> forall i | 0 <= i < 4 :: data[offset + i] >= 0x80 ==> r.value[i] as int >= 0xFF80
    {
      if 0 <= offset && offset + 3 < |data| then
        Ok([ByteChar(Signed8(data[offset])), ByteChar(Signed8(data[offset + 1])),
            ByteChar(Signed8(data[offset + 2])), ByteChar(Signed8(data[offset + 3]))])
      else Fail(IndexOutOfBounds)
    }
  }

  /** `DataInputStream.readInt` at `pos`: None at end of stream. */
  function ReadInt(s: seq<uint8>, pos: nat): (r: Option<int32>)
    ensures r.Some? <==> pos + 4 <= |s|
    ensures r.Some? ==> Int32Bytes(r.value) == s[pos..pos + 4]
  {
    if pos + 4 <= |s| then
      var bs := s[pos..pos + 4];
      BigEndianBound(bs);
      Pow256Facts();
      BytesOfBigEndian(bs);
      Some(AsInt32(BigEndian(bs)))
    else None
  }

  /** `DataInputStream.readLong` at `pos`: None at end of stream. */
  function ReadLong(s: seq<uint8>, pos: nat): Option<int64>
  {
    if pos + 8 <= |s| then
      var bs := s[pos..pos + 8];
      BigEndianBound(bs);
      Pow256Facts();
      Some(AsInt64(BigEndian(bs)))
    else None
  }

  /** The constructor's signature check: a `long` equal to the magic number must be readable. */
  predicate SignatureOk(s: seq<uint8>)
  {
    ReadLong(s, 0) == Some(MAGIC)
  }

  lemma MagicBytes()
    ensures BigEndian(SIGNATURE) == 0x89504e470d0a1a0a
  {
    var s: seq<uint8> := SIGNATURE;
    assert BigEndian(s[..1]) == 0x89 by { assert s[..1][..0] == []; }
    assert BigEndian(s[..2]) == 0x8950 by { assert s[..2][..1] == s[..1]; }
    assert BigEndian(s[..3]) == 0x89504E by { assert s[..3][..2] == s[..2]; }
    assert BigEndian(s[..4]) == 0x89504E47 by { assert s[..4][..3] == s[..3]; }
    assert BigEndian(s[..5]) == 0x89504E470D by { assert s[..5][..4] == s[..4]; }
    assert BigEndian(s[..6]) == 0x89504E470D0A by { assert s[..6][..5] == s[..5]; }
    assert BigEndian(s[..7]) == 0x89504E470D0A1A by { assert s[..7][..6] == s[..6]; }
    assert s[..8] == s;
  }

  /** Decoding gets past the signature exactly when the stream starts with the eight PNG signature bytes. */
  lemma SignatureOkIff(s: seq<uint8>)
    ensures SignatureOk(s) <==> |s| >= 8 && s[..8] == SIGNATURE
  {
    MagicBytes();
    if |s| >= 8 {
      var bs := s[..8];
      assert s[0..8] == bs;
      BigEndianBound(bs);
      Pow256Facts();
      if BigEndian(bs) == BigEndian(SIGNATURE) {
        BigEndianInjective(bs, SIGNATURE);
      }
    }
  }

  /** `getChunkType`: the type name of the chunk at `pos`, read without consuming it; None near the end. */
  function GetChunkType(s: seq<uint8>, pos: nat): (r: Option<string>)
    ensures r.Some? <==> pos + 8 <= |s|
    ensures r.Some? ==> |r.value| == 4 && forall i | 0 <= i < 4 :: r.value[i] as int == s[pos + 4 + i]
  {
    match ReadInt(s, pos + 4)
    case None => None
    case Some(t) =>
      var name := ChunkTypeName(t);
      ChunkTypeNameBytes(t);
      Some(name)
  }

  /**
   * `readChunk`: length, type, data and CRC, and the position after them.
   * None where the source logs an exception and returns null: end of
   * stream, or a negative length.
   */
  function ReadChunk(s: seq<uint8>, pos: nat): (r: Option<(PNGChunk, nat)>)
    ensures r.Some? <==> pos + 8 <= |s| && ReadInt(s, pos).value >= 0 && pos + 12 + ReadInt(s, pos).value <= |s|
    ensures r.Some? ==> var (c, next) := r.value;
              c.length as int == |c.data| && next == pos + 12 + |c.data| && next <= |s| && c.data == s[pos + 8..pos + 8 + |c.data|] &&
              Some(c.chunkType) == ReadInt(s, pos + 4)
  {
    match ReadInt(s, pos)
    case None => None
    case Some(length) =>
      match ReadInt(s, pos + 4)
      case None => None
      case Some(chunkType) =>
        if length < 0 || pos + 8 + length > |s| then None
        else
          match ReadInt(s, pos + 8 + length)
          case None => None
          case Some(crc) => Some((PNGChunk(length, chunkType, s[pos + 8..pos + 8 + length], crc), pos + 12 + length))
  }

  /** The bytes of a chunk as it appears in a file. */
  function EncodeChunk(c: PNGChunk): seq<uint8>
  {
    Int32Bytes(c.length) + Int32Bytes(c.chunkType) + c.data + Int32Bytes(c.crc)
  }

  lemma ReadIntOfBytes(v: int32, s: seq<uint8>, pos: nat)
    requires pos + 4 <= |s| && s[pos..pos + 4] == Int32Bytes(v)
    ensures ReadInt(s, pos) == Some(v)
  {
    Pow256Facts();
    BigEndianOfBytes(Bits32(v), 4);
  }

  /** Reading a chunk written in file form gives back that chunk and the position after it. */
  lemma ReadChunkOfEncoded(c: PNGChunk, rest: seq<uint8>)
    requires c.length as int == |c.data|
    ensures ReadChunk(EncodeChunk(c) + rest, 0) == Some((c, |EncodeChunk(c)|))
  {
    var s := EncodeChunk(c) + rest;
    var n := |c.data|;
    assert s[0..4] == Int32Bytes(c.length);
    assert s[4..8] == Int32Bytes(c.chunkType);
    assert s[8..8 + n] == c.data;
    assert s[8 + n..12 + n] == Int32Bytes(c.crc);
    ReadIntOfBytes(c.length, s, 0);
    ReadIntOfBytes(c.chunkType, s, 4);
    ReadIntOfBytes(c.crc, s, 8 + n);
  }
}

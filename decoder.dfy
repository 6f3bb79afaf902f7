/** Reading a PNG datastream from a file: the eight-byte signature (PNG
    section 5.2), the chunk framing of length, type, data and CRC (sections
    5.3 and 5.5), and the chunk loop that collects the header, the image
    data and the gamma value until IEND, then builds the image. */
module Decoder {
  import opened Wrappers
  import opened Bytes
  import opened Errors
  import opened Crc
  import opened Chunks
  import opened Images

  /** The PNG signature: 137 80 78 71 13 10 26 10. */
  const Signature: seq<byte> := [0x89, 0x50, 0x4E, 0x47, 0x0D, 0x0A, 0x1A, 0x0A]

  // The file: a byte sequence read through a cursor.

  /** What one read hands back: an n-byte buffer whose first `count` bytes
      were read, the error if any, and the cursor after the read. */
  datatype ReadOutcome = ReadOutcome(buf: seq<byte>, count: nat, err: Option<Error>, next: nat)

  /** os.File.Read into a fresh n-byte slice: as many bytes as are left, up
      to n, the rest of the slice still zero. End of file is an error only
      when nothing was read into a non-empty slice. */
  function FileRead(data: seq<byte>, pos: nat, n: nat): (r: ReadOutcome)
    requires pos <= |data|
    ensures r.count == Min(n, |data| - pos) && r.next == pos + r.count <= |data|
    ensures |r.buf| == n && r.buf[..r.count] == data[pos..r.next]
    ensures forall i :: r.count <= i < n ==> r.buf[i] == 0
    ensures r.err.Some? <==> n > 0 && pos == |data|
    ensures r.err.Some? ==> r.err == Some(ReadFailed)
  {
    var count := Min(n, |data| - pos);
    ReadOutcome(data[pos..pos + count] + Zeros(n - count), count,
                if n > 0 && count == 0 then Some(ReadFailed) else None, pos + count)
  }

  /** io.ReadFull of n bytes: an error unless all n are there; whatever is
      there is consumed. */
  function FileReadFull(data: seq<byte>, pos: nat, n: nat): (r: ReadOutcome)
    requires pos <= |data|
    ensures r.count == Min(n, |data| - pos) && r.next == pos + r.count <= |data|
    ensures |r.buf| == n && r.buf[..r.count] == data[pos..r.next]
    ensures r.err.Some? <==> r.count < n
    ensures r.err.Some? ==> r.err == Some(ReadFailed)
  {
    var count := Min(n, |data| - pos);
    ReadOutcome(data[pos..pos + count] + Zeros(n - count), count,
                if count < n then Some(ReadFailed) else None, pos + count)
  }

  /** binary.Read of a big-endian uint32. */
  function ReadUint32At(data: seq<byte>, pos: nat): (r: (Result<uint32, Error>, nat))
    requires pos <= |data|
    ensures r.0.Success? <==> pos + 4 <= |data|
    ensures r.0.Success? ==> r.0.value == BigEndianUint32(data[pos..pos + 4]) && r.1 == pos + 4
    ensures r.0.Failure? ==> r.0.error == ReadFailed && r.1 == |data|
  {
    var o := FileReadFull(data, pos, 4);
    if o.err.Some? then (Failure(ReadFailed), o.next)
    else
      assert o.buf == data[pos..pos + 4];
      (Success(BigEndianUint32(o.buf)), o.next)
  }

  /** The same read where the uint32 is only compared with a CRC: the four
      bytes as a 32-bit pattern. */
  function ReadWordAt(data: seq<byte>, pos: nat): (r: (Result<bv32, Error>, nat))
    requires pos <= |data|
    ensures r.0.Success? <==> pos + 4 <= |data|
    ensures r.0.Success? ==> r.0.value == BigEndianWord(data[pos..pos + 4]) && r.1 == pos + 4
    ensures r.0.Failure? ==> r.0.error == ReadFailed && r.1 == |data|
  {
    var o := FileReadFull(data, pos, 4);
    if o.err.Some? then (Failure(ReadFailed), o.next)
    else
      assert o.buf == data[pos..pos + 4];
      (Success(BigEndianWord(o.buf)), o.next)
  }

  lemma SliceAppend(s: seq<byte>, i: nat, j: nat, k: nat)
    requires i <= j <= k <= |s|
    ensures s[i..j] + s[j..k] == s[i..k]
  {
  }

  /** An open file: its contents and the read cursor. */
  class File {
    const data: seq<byte>
    var pos: nat

    ghost predicate Valid()
      reads this
    {
      pos <= |data|
    }

    constructor (contents: seq<byte>)
      ensures data == contents && pos == 0 && Valid()
    {
      data := contents;
      pos := 0;
    }

    method Read(n: nat) returns (buf: seq<byte>, count: nat, err: Option<Error>)
      requires Valid()
      modifies this
      ensures Valid()
      ensures ReadOutcome(buf, count, err, pos) == FileRead(data, old(pos), n)
    {
      count := Min(n, |data| - pos);
      buf := data[pos..pos + count] + Zeros(n - count);
      err := if n > 0 && count == 0 then Some(ReadFailed) else None;
      pos := pos + count;
    }

    /** io.ReadFull: reads until n bytes have come in or a read fails. */
    method ReadFull(n: nat) returns (buf: seq<byte>, count: nat, err: Option<Error>)
      requires Valid()
      modifies this
      ensures Valid()
      ensures ReadOutcome(buf, count, err, pos) == FileReadFull(data, old(pos), n)
    {
      var got: seq<byte> := [];
      count, err := 0, None;
      while count < n && err.None?
        invariant Valid() && count <= n && pos == old(pos) + count
        invariant got == data[old(pos)..pos]
        invariant err.Some? ==> pos == |data|
        decreases n - count, if err.None? then 1 else 0
      {
        ghost var before := pos;
        var piece, nn, e := Read(n - count);
        SliceAppend(data, old(pos), before, pos);
        got := got + piece[..nn];
        count := count + nn;
        err := e;
      }
      buf := got + Zeros(n - count);
      err := if count < n then Some(ReadFailed) else None;
    }

    method ReadUint32() returns (x: uint32, err: Option<Error>)
      requires Valid()
      modifies this
      ensures Valid()
      ensures (if err.Some? then Failure(err.value) else Success(x), pos) == ReadUint32At(data, old(pos))
    {
      var buf, _, e := ReadFull(4);
      if e.Some? {
        return 0, Some(ReadFailed);
      }
      return BigEndianUint32(buf), None;
    }

    method ReadWord() returns (w: bv32, err: Option<Error>)
      requires Valid()
      modifies this
      ensures Valid()
      ensures (if err.Some? then Failure(err.value) else Success(w), pos) == ReadWordAt(data, old(pos))
    {
      var buf, _, e := ReadFull(4);
      if e.Some? {
        return 0, Some(ReadFailed);
      }
      return BigEndianWord(buf), None;
    }
  }

  // The signature.

  /** The signature check on the next eight bytes: None when they are the
      PNG signature, otherwise why not. */
  function CheckSignature(data: seq<byte>, pos: nat): (r: Option<Error>)
    requires pos <= |data|
    ensures r.None? <==> pos + 8 <= |data| && data[pos..pos + 8] == Signature
    ensures pos == |data| ==> r == Some(ReadFailed)
    ensures pos < |data| < pos + 8 ==> r == Some(ShortSignature(|data| - pos))
  {
    var o := FileRead(data, pos, 8);
    if o.err.Some? then o.err
    else if o.count != |Signature| then Some(ShortSignature(o.count))
    else if o.buf != Signature then Some(SignatureMismatch(o.buf))
    else
      assert o.buf == data[pos..pos + 8];
      None
  }

  /** Any byte of the first eight that differs from the signature is
      reported, together with the eight bytes read. */
  lemma SignatureByteDiffers(data: seq<byte>, pos: nat, k: nat)
    requires pos + 8 <= |data| && k < 8 && data[pos + k] != Signature[k]
    ensures CheckSignature(data, pos) == Some(SignatureMismatch(data[pos..pos + 8]))
  {
    var o := FileRead(data, pos, 8);
    assert o.buf == data[pos..pos + 8];
    assert o.buf[k] != Signature[k];
  }

  // One chunk.

  /** One chunk read: the chunk or the error, and the cursor after it. */
  datatype ChunkRead = ChunkRead(chunk: Result<Chunk, Error>, next: nat)

  /** readChunk on the bytes after `pos`, step 1: the big-endian length;
      fewer than four bytes left is a read error. */
  function ReadChunkAt(data: seq<byte>, pos: nat): (r: ChunkRead)
    requires pos <= |data|
    ensures pos <= r.next <= |data|
    ensures r.chunk.Success? ==> pos < r.next
  {
    if |data| - pos < 4 then ChunkRead(Failure(ReadFailed), |data|)
    else ReadTypeAt(data, pos + 4, BigEndianUint32(data[pos..pos + 4]))
  }

  /** Step 2: the four type bytes, looked up in the registry. At end of
      file the read fails; a short read leaves zero bytes in the tag, which
      the registry never knows. */
  function ReadTypeAt(data: seq<byte>, p: nat, length: uint32): (r: ChunkRead)
    requires p <= |data|
    ensures p <= r.next <= |data|
    ensures r.chunk.Success? ==> p < r.next
  {
    if p == |data| then ChunkRead(Failure(ReadFailed), p)
    else if |data| - p < 4 then ChunkRead(Failure(UnknownChunkType), |data|)
    else
      var tag := data[p..p + 4];
      var (chunkType, typeErr) := FromString(BytesToString(tag));
      if typeErr.Some? then ChunkRead(Failure(typeErr.value), p + 4)
      else ReadDataAt(data, p + 4, length, tag, chunkType)
  }

  /** Step 3: `length` data bytes; fewer is an error that reports how many
      there were. */
  function ReadDataAt(data: seq<byte>, p: nat, length: uint32, tag: seq<byte>, chunkType: ChunkType): (r: ChunkRead)
    requires p <= |data|
    ensures p <= r.next <= |data|
    ensures r.chunk.Success? ==> p < r.next
  {
    if |data| - p < length then ChunkRead(Failure(ShortChunkData(|data| - p, length)), |data|)
    else ReadCrcAt(data, p + length, length, tag, chunkType, data[p..p + length])
  }

  /** Step 4: the stored CRC, checked against CRC-32 of type and data. The
      chunk carries the computed value. */
  function ReadCrcAt(data: seq<byte>, p: nat, length: uint32, tag: seq<byte>, chunkType: ChunkType, chunkData: seq<byte>)
    : (r: ChunkRead)
    requires p <= |data|
    ensures p <= r.next <= |data|
    ensures r.chunk.Success? ==> p < r.next
  {
    if |data| - p < 4 then ChunkRead(Failure(ReadFailed), |data|)
    else
      var stored := BigEndianWord(data[p..p + 4]);
      var computed := Crc32(tag + chunkData);
      if computed != stored then ChunkRead(Failure(CrcMismatch(stored, computed)), p + 4)
      else ChunkRead(Success(Chunk(length, chunkType, chunkData, computed)), p + 4)
  }

  // Each step with its bytes all there.

  lemma LengthKnown(data: seq<byte>, pos: nat)
    requires pos + 4 <= |data|
    ensures ReadChunkAt(data, pos) == ReadTypeAt(data, pos + 4, BigEndianUint32(data[pos..pos + 4]))
  {
  }

  /** Four bytes that hold a registered tag pass on to the data step. */
  lemma TypeKnown(data: seq<byte>, p: nat, length: uint32)
    requires p + 4 <= |data| && FromString(BytesToString(data[p..p + 4])).1.None?
    ensures ReadTypeAt(data, p, length)
         == ReadDataAt(data, p + 4, length, data[p..p + 4], FromString(BytesToString(data[p..p + 4])).0)
  {
  }

  lemma DataFull(data: seq<byte>, p: nat, length: uint32, tag: seq<byte>, chunkType: ChunkType)
    requires p + length <= |data|
    ensures ReadDataAt(data, p, length, tag, chunkType) == ReadCrcAt(data, p + length, length, tag, chunkType, data[p..p + length])
  {
  }

  /** A stored CRC equal to the computed one lets the chunk through. */
  lemma CrcMatches(data: seq<byte>, p: nat, length: uint32, tag: seq<byte>, chunkType: ChunkType, chunkData: seq<byte>)
    requires p + 4 <= |data| && BigEndianWord(data[p..p + 4]) == Crc32(tag + chunkData)
    ensures ReadCrcAt(data, p, length, tag, chunkType, chunkData)
         == ChunkRead(Success(Chunk(length, chunkType, chunkData, Crc32(tag + chunkData))), p + 4)
  {
  }

  /** A successful read went through all four steps: the length field,
      a registered tag, `length` data bytes, and then the CRC step. */
  lemma ReadChunkStages(data: seq<byte>, pos: nat)
    requires pos <= |data| && ReadChunkAt(data, pos).chunk.Success?
    ensures pos + 8 <= |data|
    ensures var length := BigEndianUint32(data[pos..pos + 4]); var tag := data[pos + 4..pos + 8];
      FromString(BytesToString(tag)).1.None?
      && pos + 8 + length <= |data|
      && ReadChunkAt(data, pos)
         == ReadCrcAt(data, pos + 8 + length, length, tag, FromString(BytesToString(tag)).0, data[pos + 8..pos + 8 + length])
  {
  }

  /** A chunk as it can appear in a datastream: a known type, as many
      data bytes as the length says, and the CRC of type and data. */
  ghost predicate WellFormed(c: Chunk) {
    c.chunkType != Unknown && |c.data| == c.length as int
    && c.crc == Crc32(TagBytes(c.chunkType) + c.data)
  }

  /** The chunk's bytes: length, type, data, CRC. */
  function EncodeChunk(c: Chunk): (b: seq<byte>)
    requires c.chunkType != Unknown
    ensures |b| == 12 + |c.data|
  {
    Uint32Bytes(c.length) + TagBytes(c.chunkType) + c.data + WordBytes(c.crc)
  }

  /** The bytes from `pos` cut at the field boundaries of a chunk with `n`
      data bytes. */
  lemma FieldSplit(data: seq<byte>, pos: nat, n: nat)
    requires pos + 12 + n <= |data|
    ensures data[pos..pos + 12 + n]
         == data[pos..pos + 4] + data[pos + 4..pos + 8] + data[pos + 8..pos + 8 + n] + data[pos + 8 + n..pos + 12 + n]
  {
    SliceAppend(data, pos, pos + 4, pos + 8);
    SliceAppend(data, pos, pos + 8, pos + 8 + n);
    SliceAppend(data, pos, pos + 8 + n, pos + 12 + n);
  }

  /** Four pieces of fixed lengths side by side determine each piece. */
  lemma ConcatInjective(a1: seq<byte>, a2: seq<byte>, a3: seq<byte>, a4: seq<byte>,
                        b1: seq<byte>, b2: seq<byte>, b3: seq<byte>, b4: seq<byte>)
    requires |a1| == |b1| && |a2| == |b2| && |a3| == |b3| && |a4| == |b4|
    ensures a1 + a2 + a3 + a4 == b1 + b2 + b3 + b4 <==> a1 == b1 && a2 == b2 && a3 == b3 && a4 == b4
  {
    if a1 + a2 + a3 + a4 == b1 + b2 + b3 + b4 {
      var s, t := a1 + a2 + a3 + a4, b1 + b2 + b3 + b4;
      var i, j, k := |a1|, |a1| + |a2|, |a1| + |a2| + |a3|;
      assert s[..i] == a1 && t[..i] == b1;
      assert s[i..j] == a2 && t[i..j] == b2;
      assert s[j..k] == a3 && t[j..k] == b3;
      assert s[k..] == a4 && t[k..] == b4;
    }
  }

  /** The encoding is its four fields side by side. */
  lemma EncodingFields(data: seq<byte>, pos: nat, c: Chunk)
    requires c.chunkType != Unknown && pos + 12 + |c.data| <= |data|
    ensures data[pos..pos + 12 + |c.data|] == EncodeChunk(c)
        <==> data[pos..pos + 4] == Uint32Bytes(c.length)
             && data[pos + 4..pos + 8] == TagBytes(c.chunkType)
             && data[pos + 8..pos + 8 + |c.data|] == c.data
             && data[pos + 8 + |c.data|..pos + 12 + |c.data|] == WordBytes(c.crc)
  {
    var n := |c.data|;
    var a1, a2, a3, a4 := data[pos..pos + 4], data[pos + 4..pos + 8], data[pos + 8..pos + 8 + n], data[pos + 8 + n..pos + 12 + n];
    FieldSplit(data, pos, n);
    assert data[pos..pos + 12 + n] == a1 + a2 + a3 + a4;
    assert EncodeChunk(c) == Uint32Bytes(c.length) + TagBytes(c.chunkType) + c.data + WordBytes(c.crc);
    ConcatInjective(a1, a2, a3, a4, Uint32Bytes(c.length), TagBytes(c.chunkType), c.data, WordBytes(c.crc));
  }

  /** Four fields that hold the length, tag, data and CRC of a chunk are
      that chunk's encoding. */
  lemma EncodedFromFields(data: seq<byte>, pos: nat, c: Chunk)
    requires c.chunkType != Unknown && pos + 12 + |c.data| <= |data|
    requires BigEndianUint32(data[pos..pos + 4]) == c.length
    requires data[pos + 4..pos + 8] == TagBytes(c.chunkType)
    requires data[pos + 8..pos + 8 + |c.data|] == c.data
    requires BigEndianWord(data[pos + 8 + |c.data|..pos + 12 + |c.data|]) == c.crc
    ensures data[pos..pos + 12 + |c.data|] == EncodeChunk(c)
  {
    BigEndianBytesRoundTrip(data[pos..pos + 4]);
    WordBytesRoundTrip(data[pos + 8 + |c.data|..pos + 12 + |c.data|]);
    EncodingFields(data, pos, c);
  }

  /** A chunk that was read is well formed, and it is exactly the bytes it
      was read from: 12 + length of them, and the CRC it carries is the one
      stored. */
  lemma ReadChunkDecodes(data: seq<byte>, pos: nat)
    requires pos <= |data| && ReadChunkAt(data, pos).chunk.Success?
    ensures WellFormed(ReadChunkAt(data, pos).chunk.value)
    ensures ReadChunkAt(data, pos).next == pos + 12 + |ReadChunkAt(data, pos).chunk.value.data|
    ensures data[pos..ReadChunkAt(data, pos).next] == EncodeChunk(ReadChunkAt(data, pos).chunk.value)
  {
    ReadChunkStages(data, pos);
    var length := BigEndianUint32(data[pos..pos + 4]);
    var tag := data[pos + 4..pos + 8];
    var chunkData := data[pos + 8..pos + 8 + length];
    var chunkType := FromString(BytesToString(tag)).0;
    var c := ReadChunkAt(data, pos).chunk.value;
    assert c == Chunk(length, chunkType, chunkData, Crc32(tag + chunkData));
    KnownTagBytes(tag);
    EncodedFromFields(data, pos, c);
  }

  /** The fields of an encoded chunk, read back one by one. */
  lemma FieldsFromEncoded(data: seq<byte>, pos: nat, c: Chunk)
    requires c.chunkType != Unknown && pos + 12 + |c.data| <= |data|
    requires data[pos..pos + 12 + |c.data|] == EncodeChunk(c)
    ensures BigEndianUint32(data[pos..pos + 4]) == c.length
    ensures data[pos + 4..pos + 8] == TagBytes(c.chunkType)
    ensures data[pos + 8..pos + 8 + |c.data|] == c.data
    ensures BigEndianWord(data[pos + 8 + |c.data|..pos + 12 + |c.data|]) == c.crc
  {
    EncodingFields(data, pos, c);
    BigEndianRoundTrip(c.length);
    WordRoundTrip(c.crc);
  }

  /** Bytes whose fields hold a well-formed chunk read as that chunk. */
  lemma ReadChunkFromFields(data: seq<byte>, pos: nat, c: Chunk)
    requires WellFormed(c) && pos + 12 + |c.data| <= |data|
    requires BigEndianUint32(data[pos..pos + 4]) == c.length
    requires data[pos + 4..pos + 8] == TagBytes(c.chunkType)
    requires data[pos + 8..pos + 8 + |c.data|] == c.data
    requires BigEndianWord(data[pos + 8 + |c.data|..pos + 12 + |c.data|]) == c.crc
    ensures ReadChunkAt(data, pos) == ChunkRead(Success(c), pos + 12 + |c.data|)
  {
    var tag := data[pos + 4..pos + 8];
    FromStringOfString(c.chunkType);
    assert FromString(BytesToString(tag)) == (c.chunkType, None);
    LengthKnown(data, pos);
    TypeKnown(data, pos + 4, c.length);
    DataAndCrcFromFields(data, pos, c);
  }

  /** The data and CRC steps on the fields of a well-formed chunk. */
  lemma DataAndCrcFromFields(data: seq<byte>, pos: nat, c: Chunk)
    requires WellFormed(c) && pos + 12 + |c.data| <= |data|
    requires data[pos + 8..pos + 8 + |c.data|] == c.data
    requires BigEndianWord(data[pos + 8 + |c.data|..pos + 12 + |c.data|]) == c.crc
    ensures ReadDataAt(data, pos + 8, c.length, TagBytes(c.chunkType), c.chunkType)
         == ChunkRead(Success(c), pos + 12 + |c.data|)
  {
    var tag := TagBytes(c.chunkType);
    DataFull(data, pos + 8, c.length, tag, c.chunkType);
    CrcMatches(data, pos + 8 + |c.data|, c.length, tag, c.chunkType, c.data);
  }

  /** The bytes of a well-formed chunk read back as that chunk, whatever
      follows them. */
  lemma ReadChunkEncoded(data: seq<byte>, pos: nat, c: Chunk)
    requires WellFormed(c)
    requires pos + 12 + |c.data| <= |data| && data[pos..pos + 12 + |c.data|] == EncodeChunk(c)
    ensures ReadChunkAt(data, pos) == ChunkRead(Success(c), pos + 12 + |c.data|)
  {
    FieldsFromEncoded(data, pos, c);
    ReadChunkFromFields(data, pos, c);
  }

  /** readChunk succeeds with chunk c and cursor n exactly when the bytes
      from pos to n encode the well-formed chunk c. */
  lemma ReadChunkIff(data: seq<byte>, pos: nat, c: Chunk, n: nat)
    requires pos <= |data|
    ensures ReadChunkAt(data, pos) == ChunkRead(Success(c), n)
        <==> WellFormed(c) && n == pos + 12 + |c.data| && n <= |data| && data[pos..n] == EncodeChunk(c)
  {
    ReadChunkOnlyIf(data, pos, c, n);
    ReadChunkIf(data, pos, c, n);
  }

  /** One direction: a chunk that was read is well formed and encoded by the
      bytes consumed. */
  lemma ReadChunkOnlyIf(data: seq<byte>, pos: nat, c: Chunk, n: nat)
    requires pos <= |data|
    ensures ReadChunkAt(data, pos) == ChunkRead(Success(c), n)
        ==> WellFormed(c) && n == pos + 12 + |c.data| && n <= |data| && data[pos..n] == EncodeChunk(c)
  {
    if ReadChunkAt(data, pos) == ChunkRead(Success(c), n) {
      ReadChunkDecodes(data, pos);
    }
  }

  /** The other direction: an encoded well-formed chunk is read. */
  lemma ReadChunkIf(data: seq<byte>, pos: nat, c: Chunk, n: nat)
    requires pos <= |data|
    ensures WellFormed(c) && n == pos + 12 + |c.data| && n <= |data| && data[pos..n] == EncodeChunk(c)
        ==> ReadChunkAt(data, pos) == ChunkRead(Success(c), n)
  {
    if WellFormed(c) && n == pos + 12 + |c.data| && n <= |data| && data[pos..n] == EncodeChunk(c) {
      ReadChunkEncoded(data, pos, c);
    }
  }

  /** A successful read depends on the chunk's own bytes alone: any byte
      sequence that agrees with the file from `pos` to the cursor after the
      chunk reads the same. */
  lemma ReadChunkLocal(data: seq<byte>, other: seq<byte>, pos: nat)
    requires pos <= |data| && ReadChunkAt(data, pos).chunk.Success?
    requires ReadChunkAt(data, pos).next <= |other|
    requires other[pos..ReadChunkAt(data, pos).next] == data[pos..ReadChunkAt(data, pos).next]
    ensures ReadChunkAt(other, pos) == ReadChunkAt(data, pos)
  {
    var r := ReadChunkAt(data, pos);
    var c := r.chunk.value;
    ReadChunkDecodes(data, pos);
    assert r.next == pos + 12 + |c.data|;
    assert other[pos..pos + 12 + |c.data|] == EncodeChunk(c);
    ReadChunkEncoded(other, pos, c);
  }

  /** Appending bytes to the file leaves a successful read alone. */
  lemma ReadChunkIgnoresSuffix(data: seq<byte>, pos: nat, rest: seq<byte>)
    requires pos <= |data| && ReadChunkAt(data, pos).chunk.Success?
    ensures ReadChunkAt(data + rest, pos) == ReadChunkAt(data, pos)
  {
    var r := ReadChunkAt(data, pos);
    SlicePrefix(data, rest, pos, r.next);
    ReadChunkLocal(data, data + rest, pos);
  }

  /** Cutting the file anywhere after the chunk leaves a successful read
      alone: no byte past the chunk is needed. */
  lemma ReadChunkPrefix(data: seq<byte>, pos: nat, q: nat)
    requires pos <= |data| && ReadChunkAt(data, pos).chunk.Success?
    requires ReadChunkAt(data, pos).next <= q <= |data|
    ensures ReadChunkAt(data[..q], pos) == ReadChunkAt(data, pos)
  {
    var r := ReadChunkAt(data, pos);
    SliceTruncate(data, q, pos, r.next);
    ReadChunkLocal(data, data[..q], pos);
  }

  /** Changing any one byte of a chunk's type or data, a single flipped bit
      included, makes readChunk fail: either the type leaves the registry
      or the CRC no longer matches. The length is not covered by the CRC. */
  lemma CorruptedChunkRejected(data: seq<byte>, pos: nat, c: Chunk, k: nat, x: byte)
    requires WellFormed(c)
    requires pos + 12 + |c.data| <= |data| && data[pos..pos + 12 + |c.data|] == EncodeChunk(c)
    requires pos + 4 <= k < pos + 8 + |c.data| && x != data[k]
    ensures ReadChunkAt(data[k := x], pos).chunk.Failure?
  {
    var r := ReadChunkAt(data[k := x], pos);
    if r.chunk.Success? {
      ReadChunkDecodes(data[k := x], pos);
    }
    CorruptedReadFails(data, pos, c, k, x, r);
  }

  /** A read of the corrupted bytes that returned a chunk would have
      returned a well-formed one encoded there. */
  lemma CorruptedReadFails(data: seq<byte>, pos: nat, c: Chunk, k: nat, x: byte, r: ChunkRead)
    requires WellFormed(c)
    requires pos + 12 + |c.data| <= |data| && data[pos..pos + 12 + |c.data|] == EncodeChunk(c)
    requires pos + 4 <= k < pos + 8 + |c.data| && x != data[k]
    requires r.chunk.Success? ==>
      WellFormed(r.chunk.value) && r.next == pos + 12 + |r.chunk.value.data| && r.next <= |data|
      && data[k := x][pos..r.next] == EncodeChunk(r.chunk.value)
    ensures r.chunk.Failure?
  {
    if r.chunk.Success? {
      CorruptedEncodingMalformed(data, pos, c, k, x, r.chunk.value);
    }
  }

  /** No well-formed chunk is encoded by the bytes of a chunk with one byte
      of its type or data changed. */
  lemma CorruptedEncodingMalformed(data: seq<byte>, pos: nat, c: Chunk, k: nat, x: byte, c': Chunk)
    requires WellFormed(c)
    requires pos + 12 + |c.data| <= |data| && data[pos..pos + 12 + |c.data|] == EncodeChunk(c)
    requires pos + 4 <= k < pos + 8 + |c.data| && x != data[k]
    requires c'.chunkType != Unknown && pos + 12 + |c'.data| <= |data|
    requires data[k := x][pos..pos + 12 + |c'.data|] == EncodeChunk(c')
    ensures !WellFormed(c')
  {
    if WellFormed(c') {
      var n := |c.data|;
      var i := k - pos - 4;
      CorruptedLength(data, pos, c, k, x, c');
      CorruptedCrc(data, pos, c, k, x, c');
      CorruptedPayload(data, pos, c, k, x, c');
      SingleByteErrorDetected(TagBytes(c.chunkType) + c.data, i, x);
    }
  }

  /** The length field lies before the changed byte. */
  lemma CorruptedLength(data: seq<byte>, pos: nat, c: Chunk, k: nat, x: byte, c': Chunk)
    requires c.chunkType != Unknown && pos + 12 + |c.data| <= |data| && data[pos..pos + 12 + |c.data|] == EncodeChunk(c)
    requires pos + 4 <= k < |data|
    requires c'.chunkType != Unknown && pos + 12 + |c'.data| <= |data|
    requires data[k := x][pos..pos + 12 + |c'.data|] == EncodeChunk(c')
    ensures c'.length == c.length
  {
    FieldsFromEncoded(data, pos, c);
    FieldsFromEncoded(data[k := x], pos, c');
    SliceOutside(data, pos, pos + 4, k, x);
  }

  /** With the data fields of one length, the CRC field lies after the
      changed byte. */
  lemma CorruptedCrc(data: seq<byte>, pos: nat, c: Chunk, k: nat, x: byte, c': Chunk)
    requires c.chunkType != Unknown && pos + 12 + |c.data| <= |data| && data[pos..pos + 12 + |c.data|] == EncodeChunk(c)
    requires k < pos + 8 + |c.data|
    requires c'.chunkType != Unknown && |c'.data| == |c.data|
    requires data[k := x][pos..pos + 12 + |c'.data|] == EncodeChunk(c')
    ensures c'.crc == c.crc
  {
    var n := |c.data|;
    var changed := data[k := x];
    CrcFromEncoded(data, pos, c);
    CrcFromEncoded(changed, pos, c');
    SliceOutside(data, pos + 8 + n, pos + 12 + n, k, x);
  }

  /** The CRC field of an encoding holds the chunk's CRC. */
  lemma CrcFromEncoded(data: seq<byte>, pos: nat, c: Chunk)
    requires c.chunkType != Unknown && pos + 12 + |c.data| <= |data|
    requires data[pos..pos + 12 + |c.data|] == EncodeChunk(c)
    ensures BigEndianWord(data[pos + 8 + |c.data|..pos + 12 + |c.data|]) == c.crc
  {
    FieldsFromEncoded(data, pos, c);
  }

  /** With the data fields of one length, the type and data of the second
      chunk are those of the first with the one byte changed. */
  lemma CorruptedPayload(data: seq<byte>, pos: nat, c: Chunk, k: nat, x: byte, c': Chunk)
    requires c.chunkType != Unknown && pos + 12 + |c.data| <= |data| && data[pos..pos + 12 + |c.data|] == EncodeChunk(c)
    requires pos + 4 <= k < pos + 8 + |c.data|
    requires c'.chunkType != Unknown && |c'.data| == |c.data|
    requires data[k := x][pos..pos + 12 + |c'.data|] == EncodeChunk(c')
    ensures (TagBytes(c.chunkType) + c.data)[k - pos - 4] == data[k]
    ensures TagBytes(c'.chunkType) + c'.data == (TagBytes(c.chunkType) + c.data)[k - pos - 4 := x]
  {
    var n := |c.data|;
    PayloadFromEncoded(data, pos, c);
    PayloadFromEncoded(data[k := x], pos, c');
    SliceUpdate(data, pos + 4, pos + 8 + n, k, x);
    SliceIndex(data, pos + 4, pos + 8 + n, k);
  }

  /** The type and data fields of an encoded chunk, side by side: the
      bytes the CRC covers. */
  lemma PayloadFromEncoded(data: seq<byte>, pos: nat, c: Chunk)
    requires c.chunkType != Unknown && pos + 12 + |c.data| <= |data|
    requires data[pos..pos + 12 + |c.data|] == EncodeChunk(c)
    ensures data[pos + 4..pos + 8 + |c.data|] == TagBytes(c.chunkType) + c.data
  {
    FieldsFromEncoded(data, pos, c);
    SliceAppend(data, pos + 4, pos + 8, pos + 8 + |c.data|);
  }

  lemma SliceIndex(s: seq<byte>, lo: nat, hi: nat, k: nat)
    requires lo <= k < hi <= |s|
    ensures s[lo..hi][k - lo] == s[k]
  {
  }

  /** Cutting a sequence after a slice leaves the slice alone. */
  lemma SliceTruncate(s: seq<byte>, q: nat, lo: nat, hi: nat)
    requires lo <= hi <= q <= |s|
    ensures s[..q][lo..hi] == s[lo..hi]
  {
  }

  /** Appending bytes leaves a slice of the original alone. */
  lemma SlicePrefix(s: seq<byte>, rest: seq<byte>, lo: nat, hi: nat)
    requires lo <= hi <= |s|
    ensures (s + rest)[lo..hi] == s[lo..hi]
  {
  }

  /** Changing one byte inside a slice changes the slice at that offset. */
  lemma SliceUpdate(s: seq<byte>, lo: nat, hi: nat, k: nat, x: byte)
    requires lo <= k < hi <= |s|
    ensures s[k := x][lo..hi] == s[lo..hi][k - lo := x]
  {
  }

  /** Changing one byte outside a slice leaves the slice alone. */
  lemma SliceOutside(s: seq<byte>, lo: nat, hi: nat, k: nat, x: byte)
    requires lo <= hi <= |s| && k < |s| && (k < lo || hi <= k)
    ensures s[k := x][lo..hi] == s[lo..hi]
  {
  }

  /** The IEND chunk: no data, and the CRC of the tag alone. */
  const IendChunk := Chunk(0, ChunkIEND, [], 0xAE42_6082)

  /** Its twelve bytes. */
  const IendBytes: seq<byte> := [0, 0, 0, 0, 0x49, 0x45, 0x4E, 0x44, 0xAE, 0x42, 0x60, 0x82]

  lemma IendEncoding()
    ensures WellFormed(IendChunk) && EncodeChunk(IendChunk) == IendBytes
  {
    IendChecksum();
    assert TagBytes(ChunkIEND) + [] == [0x49, 0x45, 0x4E, 0x44];
    assert Uint32Bytes(0) == [0, 0, 0, 0];
    assert WordBytes(0xAE42_6082) == [0xAE, 0x42, 0x60, 0x82];
  }

  /** Wherever the twelve IEND bytes stand, readChunk returns the IEND
      chunk and stops right after it. */
  lemma IendRead(data: seq<byte>, pos: nat)
    requires pos + 12 <= |data| && data[pos..pos + 12] == IendBytes
    ensures ReadChunkAt(data, pos) == ChunkRead(Success(IendChunk), pos + 12)
  {
    IendEncoding();
    ReadChunkEncoded(data, pos, IendChunk);
  }

  // The chunk loop.

  /** What the loop has collected so far: the header, the concatenated IDAT
      payloads, the gamma chunk if one was seen, and the length of the last
      IDAT chunk. */
  datatype StreamState = StreamState(ihdr: IHDR, idat: seq<byte>, gamma: Option<GAMA>, idatLen: nat)

  const Start := StreamState(ZeroIHDR, [], None, 0)

  /** The loop body for one chunk other than IEND. */
  function Step(st: StreamState, c: Chunk): (r: Result<StreamState, Error>)
    ensures r.Failure? <==> (c.chunkType == ChunkIHDR && |c.data| != 13) || (c.chunkType == ChunkgAMA && |c.data| != 4)
    ensures c.chunkType !in {ChunkIHDR, ChunkIDAT, ChunkgAMA} ==> r == Success(st)
  {
    match c.chunkType
    case ChunkIHDR =>
      (match HandleIHDR(c)
       case Success(h) => Success(st.(ihdr := h))
       case Failure(e) => Failure(e))
    case ChunkIDAT => Success(st.(idat := st.idat + c.data, idatLen := c.length as int))
    case ChunkgAMA =>
      (match ParseGAMA(c.data)
       case Success(g) => Success(st.(gamma := Some(g)))
       case Failure(e) => Failure(e))
    case _ => Success(st)
  }

  /** The loop from `pos`: read a chunk; stop after IEND; else handle it and
      go on. It gives the final state and the cursor after IEND. */
  function RunLoop(data: seq<byte>, pos: nat, st: StreamState): (r: Result<(StreamState, nat), Error>)
    requires pos <= |data|
    ensures r.Success? ==> pos < r.value.1 <= |data|
    decreases |data| - pos
  {
    var rc := ReadChunkAt(data, pos);
    if rc.chunk.Failure? then Failure(rc.chunk.error)
    else if rc.chunk.value.chunkType == ChunkIEND then Success((st, rc.next))
    else
      match Step(st, rc.chunk.value)
      case Failure(e) => Failure(e)
      case Success(st') => RunLoop(data, rc.next, st')
  }

  /** Reference: the chunks from `pos` up to, not including, the first
      IEND, and the cursor after IEND. */
  function Frames(data: seq<byte>, pos: nat): (r: Result<(seq<Chunk>, nat), Error>)
    requires pos <= |data|
    ensures r.Success? ==> forall i :: 0 <= i < |r.value.0| ==> r.value.0[i].chunkType != ChunkIEND
    decreases |data| - pos
  {
    var rc := ReadChunkAt(data, pos);
    if rc.chunk.Failure? then Failure(rc.chunk.error)
    else if rc.chunk.value.chunkType == ChunkIEND then Success(([], rc.next))
    else
      match Frames(data, rc.next)
      case Failure(e) => Failure(e)
      case Success(f) => Success(([rc.chunk.value] + f.0, f.1))
  }

  /** Reference: the chunks handled one after the other. */
  function Fold(st: StreamState, cs: seq<Chunk>): (r: Result<StreamState, Error>)
    decreases |cs|
  {
    if cs == [] then Success(st)
    else
      match Step(st, cs[0])
      case Failure(e) => Failure(e)
      case Success(st') => Fold(st', cs[1..])
  }

  /** Reference: the IDAT payloads of `cs`, in order, concatenated. */
  function IdatOf(cs: seq<Chunk>): seq<byte>
    decreases |cs|
  {
    if cs == [] then []
    else (if cs[0].chunkType == ChunkIDAT then cs[0].data else []) + IdatOf(cs[1..])
  }

  /** Reference: the length of the last IDAT chunk of `cs`, or `d` when
      there is none. */
  function LastIdatLen(cs: seq<Chunk>, d: nat): nat
    decreases |cs|
  {
    if cs == [] then d
    else LastIdatLen(cs[1..], if cs[0].chunkType == ChunkIDAT then cs[0].length as int else d)
  }

  /** Reference: the header of the last IHDR chunk of `cs` that parses, or
      `d` when there is none. */
  function LastIhdr(cs: seq<Chunk>, d: IHDR): IHDR
    decreases |cs|
  {
    if cs == [] then d
    else LastIhdr(cs[1..], if cs[0].chunkType == ChunkIHDR && HandleIHDR(cs[0]).Success? then HandleIHDR(cs[0]).value else d)
  }

  /** Reference: the gamma value of the last gAMA chunk of `cs` that parses,
      or `d` when there is none. */
  function LastGamma(cs: seq<Chunk>, d: Option<GAMA>): Option<GAMA>
    decreases |cs|
  {
    if cs == [] then d
    else LastGamma(cs[1..], if cs[0].chunkType == ChunkgAMA && ParseGAMA(cs[0].data).Success? then Some(ParseGAMA(cs[0].data).value) else d)
  }

  /** Reference: whether `cs` holds a gAMA chunk. */
  predicate HasGamma(cs: seq<Chunk>) {
    exists i :: 0 <= i < |cs| && cs[i].chunkType == ChunkgAMA
  }

  /** The loop is the framing followed by the fold: it reads the chunks up
      to the first IEND and handles them in order; when the framing fails,
      so does the loop. */
  lemma {:induction false} RunLoopIsFold(data: seq<byte>, pos: nat, st: StreamState)
    requires pos <= |data|
    ensures Frames(data, pos).Success? ==>
      RunLoop(data, pos, st) == match Fold(st, Frames(data, pos).value.0)
                                case Success(s) => Success((s, Frames(data, pos).value.1))
                                case Failure(e) => Failure(e)
    ensures Frames(data, pos).Failure? ==> RunLoop(data, pos, st).Failure?
    decreases |data| - pos
  {
    var rc := ReadChunkAt(data, pos);
    if rc.chunk.Success? && rc.chunk.value.chunkType != ChunkIEND {
      match Step(st, rc.chunk.value)
      case Failure(e) =>
      case Success(st') =>
        RunLoopIsFold(data, rc.next, st');
        if Frames(data, rc.next).Success? {
          var cs := [rc.chunk.value] + Frames(data, rc.next).value.0;
          assert cs[0] == rc.chunk.value && cs[1..] == Frames(data, rc.next).value.0;
        }
    }
  }

  /** What the fold collects: the header of the last IHDR, the IDAT
      payloads appended in order (an empty one adds nothing), the length of
      the last IDAT, and the value of the last gAMA, which is there exactly
      when one was there before or a gAMA chunk came by. */
  lemma {:induction false} FoldCollects(st: StreamState, cs: seq<Chunk>)
    requires Fold(st, cs).Success?
    ensures Fold(st, cs).value.ihdr == LastIhdr(cs, st.ihdr)
    ensures Fold(st, cs).value.idat == st.idat + IdatOf(cs)
    ensures Fold(st, cs).value.idatLen == LastIdatLen(cs, st.idatLen)
    ensures Fold(st, cs).value.gamma == LastGamma(cs, st.gamma)
    ensures Fold(st, cs).value.gamma.Some? <==> st.gamma.Some? || HasGamma(cs)
    decreases |cs|
  {
    if cs != [] {
      var st' := Step(st, cs[0]).value;
      FoldCollects(st', cs[1..]);
      StepCollects(st, cs[0]);
      var piece := if cs[0].chunkType == ChunkIDAT then cs[0].data else [];
      ConcatAssoc(st.idat, piece, IdatOf(cs[1..]));
      if HasGamma(cs[1..]) {
        var i :| 0 <= i < |cs[1..]| && cs[1..][i].chunkType == ChunkgAMA;
        assert cs[i + 1].chunkType == ChunkgAMA;
      }
      if HasGamma(cs) && cs[0].chunkType != ChunkgAMA {
        var i :| 0 <= i < |cs| && cs[i].chunkType == ChunkgAMA;
        assert cs[1..][i - 1].chunkType == ChunkgAMA;
      }
    }
  }

  /** What one step changes: the header when the chunk is IHDR, the
      payload and length when it is IDAT, the gamma value when it is gAMA;
      the rest stays. */
  lemma StepCollects(st: StreamState, c: Chunk)
    requires Step(st, c).Success?
    ensures Step(st, c).value.ihdr == if c.chunkType == ChunkIHDR then HandleIHDR(c).value else st.ihdr
    ensures Step(st, c).value.idat == st.idat + (if c.chunkType == ChunkIDAT then c.data else [])
    ensures Step(st, c).value.idatLen == if c.chunkType == ChunkIDAT then c.length else st.idatLen
    ensures Step(st, c).value.gamma == if c.chunkType == ChunkgAMA then Some(ParseGAMA(c.data).value) else st.gamma
    ensures Step(st, c).value.gamma.Some? <==> st.gamma.Some? || c.chunkType == ChunkgAMA
  {
    if c.chunkType != ChunkIDAT {
      assert st.idat + [] == st.idat;
    }
  }

  lemma ConcatAssoc(a: seq<byte>, b: seq<byte>, c: seq<byte>)
    ensures a + b + c == a + (b + c)
  {
  }

  /** Appending bytes to a file the loop gets through changes nothing. */
  lemma {:induction false} RunLoopIgnoresSuffix(data: seq<byte>, pos: nat, st: StreamState, rest: seq<byte>)
    requires pos <= |data| && RunLoop(data, pos, st).Success?
    ensures RunLoop(data + rest, pos, st) == RunLoop(data, pos, st)
    decreases |data| - pos
  {
    ReadChunkIgnoresSuffix(data, pos, rest);
    var rc := ReadChunkAt(data, pos);
    if rc.chunk.value.chunkType != ChunkIEND {
      RunLoopIgnoresSuffix(data, rc.next, Step(st, rc.chunk.value).value, rest);
    }
  }

  /** The loop stops at the first IEND: cutting the file anywhere after the
      cursor it ends at changes nothing, so bytes past IEND are never read. */
  lemma {:induction false} RunLoopPrefix(data: seq<byte>, pos: nat, st: StreamState, q: nat)
    requires pos <= |data| && RunLoop(data, pos, st).Success?
    requires RunLoop(data, pos, st).value.1 <= q <= |data|
    ensures RunLoop(data[..q], pos, st) == RunLoop(data, pos, st)
    decreases |data| - pos
  {
    var rc := ReadChunkAt(data, pos);
    if rc.chunk.value.chunkType != ChunkIEND {
      RunLoopPrefix(data, rc.next, Step(st, rc.chunk.value).value, q);
    }
    ReadChunkPrefix(data, pos, q);
  }

  /** A loop that gets through leaves its cursor just past an IEND chunk:
      a read at some position from its start on gives that chunk. */
  lemma {:induction false} RunLoopEndsAtIend(data: seq<byte>, pos: nat, st: StreamState)
    requires pos <= |data| && RunLoop(data, pos, st).Success?
    ensures exists q :: pos <= q <= |data| && IendReadAt(data, q, RunLoop(data, pos, st).value.1)
    decreases |data| - pos
  {
    var rc := ReadChunkAt(data, pos);
    if rc.chunk.value.chunkType == ChunkIEND {
      assert IendReadAt(data, pos, RunLoop(data, pos, st).value.1);
    } else {
      RunLoopEndsAtIend(data, rc.next, Step(st, rc.chunk.value).value);
    }
  }

  /** Reading at `q` gives an IEND chunk and leaves the cursor at `n`. */
  predicate IendReadAt(data: seq<byte>, q: nat, n: nat)
    requires q <= |data|
  {
    var rc := ReadChunkAt(data, q);
    rc.chunk.Success? && rc.chunk.value.chunkType == ChunkIEND && rc.next == n
  }

  /** An IEND chunk ends the loop at once, with nothing more collected. */
  lemma IendStreamStops(data: seq<byte>, pos: nat, st: StreamState)
    requires pos + 12 <= |data| && data[pos..pos + 12] == IendBytes
    ensures RunLoop(data, pos, st) == Success((st, pos + 12))
  {
    IendRead(data, pos);
  }

  // After the loop.

  /** The inflater (zlib), given as a parameter: the inflated bytes, or None
      when the stream is not valid zlib. */
  type Inflate = seq<byte> -> Option<seq<byte>>

  /** The pixels handed on: the last `idatLen` bytes of the inflated IDAT
      data; the slice panics when there are fewer. */
  function TailPixels(st: StreamState, inflate: Inflate): (r: Result<seq<byte>, Error>)
    ensures inflate(st.idat).None? ==> r == Failure(InflateFailed)
    ensures inflate(st.idat).Some? && |inflate(st.idat).value| < st.idatLen ==>
      r == Failure(SliceOutOfRangePanic(|inflate(st.idat).value| - st.idatLen))
    ensures inflate(st.idat).Some? && st.idatLen <= |inflate(st.idat).value| ==>
      r == Success(inflate(st.idat).value[|inflate(st.idat).value| - st.idatLen..])
    ensures r.Success? ==>
              |r.value| == st.idatLen
              && inflate(st.idat).value == inflate(st.idat).value[..|inflate(st.idat).value| - st.idatLen] + r.value
  {
    match inflate(st.idat)
    case None => Failure(InflateFailed)
    case Some(inflated) =>
      var temp := |inflated| - st.idatLen;
      if temp < 0 then Failure(SliceOutOfRangePanic(temp))
      else Success(inflated[temp..])
  }

  /** The header and the gamma-corrected samples that reach the image. */
  datatype Decoded = Decoded(ihdr: IHDR, pixels: seq<byte>)

  /** ParseChunkStream up to the image: the loop, the tail slice, and gamma
      correction, which panics when no gAMA chunk was seen. */
  function DecodeStream(data: seq<byte>, pos: nat, inflate: Inflate, transfer: Transfer): (r: Result<Decoded, Error>)
    requires pos <= |data|
    ensures r.Success? ==> RunLoop(data, pos, Start).Success? && |r.value.pixels| == RunLoop(data, pos, Start).value.0.idatLen
    ensures RunLoop(data, pos, Start).Success? && RunLoop(data, pos, Start).value.0.gamma.None? ==> r.Failure?
    ensures r.Success? <==>
              RunLoop(data, pos, Start).Success?
              && RunLoop(data, pos, Start).value.0.gamma.Some?
              && inflate(RunLoop(data, pos, Start).value.0.idat).Some?
              && RunLoop(data, pos, Start).value.0.idatLen <= |inflate(RunLoop(data, pos, Start).value.0.idat).value|
  {
    match RunLoop(data, pos, Start)
    case Failure(e) => Failure(e)
    case Success(res) =>
      var st := res.0;
      match TailPixels(st, inflate)
      case Failure(e) => Failure(e)
      case Success(px) =>
        if st.gamma.None? then Failure(NilGammaPanic)
        else Success(Decoded(st.ihdr, GammaCorrected(st.gamma.value, st.ihdr.bitDepth, transfer, px)))
  }

  /** A decoded stream had a gAMA chunk before its first IEND, and its
      samples are the corrected tail, as long as the last IDAT chunk, of the
      inflated IDAT payloads in order. */
  lemma DecodeStreamSuccess(data: seq<byte>, pos: nat, inflate: Inflate, transfer: Transfer)
    requires pos <= |data| && DecodeStream(data, pos, inflate, transfer).Success?
    ensures Frames(data, pos).Success?
    ensures var cs := Frames(data, pos).value.0;
      HasGamma(cs)
      && inflate(IdatOf(cs)).Some?
      && |DecodeStream(data, pos, inflate, transfer).value.pixels| == LastIdatLen(cs, 0) <= |inflate(IdatOf(cs)).value|
    ensures var cs := Frames(data, pos).value.0;
      var inflated := inflate(IdatOf(cs)).value;
      var d := DecodeStream(data, pos, inflate, transfer).value;
      LastGamma(cs, None).Some?
      && d.ihdr == LastIhdr(cs, ZeroIHDR)
      && LastIdatLen(cs, 0) <= |inflated|
      && d.pixels == GammaCorrected(LastGamma(cs, None).value, d.ihdr.bitDepth, transfer, inflated[|inflated| - LastIdatLen(cs, 0)..])
  {
    var st := RunLoop(data, pos, Start).value.0;
    RunLoopIsFold(data, pos, Start);
    var cs := Frames(data, pos).value.0;
    assert st == Fold(Start, cs).value;
    FoldCollects(Start, cs);
    assert st.idat == IdatOf(cs);
    DecodeStreamState(data, pos, inflate, transfer);
  }

  /** A decoded stream in terms of the loop's final state: the header it
      ends with, and the corrected tail of the inflated IDAT bytes. */
  lemma DecodeStreamState(data: seq<byte>, pos: nat, inflate: Inflate, transfer: Transfer)
    requires pos <= |data| && DecodeStream(data, pos, inflate, transfer).Success?
    ensures RunLoop(data, pos, Start).Success?
    ensures var st := RunLoop(data, pos, Start).value.0;
      var d := DecodeStream(data, pos, inflate, transfer).value;
      st.gamma.Some? && inflate(st.idat).Some? && st.idatLen <= |inflate(st.idat).value|
      && d.ihdr == st.ihdr
      && d.pixels == GammaCorrected(st.gamma.value, st.ihdr.bitDepth, transfer,
                                    inflate(st.idat).value[|inflate(st.idat).value| - st.idatLen..])
  {
    var st := RunLoop(data, pos, Start).value.0;
    var inflated := inflate(st.idat).value;
    var px := TailPixels(st, inflate).value;
    assert px == inflated[|inflated| - st.idatLen..];
  }

  /** Without a gAMA chunk before IEND the decoder never produces an image. */
  lemma NoGammaNoImage(data: seq<byte>, pos: nat, inflate: Inflate, transfer: Transfer)
    requires pos <= |data| && Frames(data, pos).Success? && !HasGamma(Frames(data, pos).value.0)
    ensures DecodeStream(data, pos, inflate, transfer).Failure?
  {
    if DecodeStream(data, pos, inflate, transfer).Success? {
      DecodeStreamSuccess(data, pos, inflate, transfer);
    }
  }

  // readChunk's reads, one by one, against the steps of ReadChunkAt.

  lemma LengthStage(data: seq<byte>, p: nat)
    requires p <= |data|
    ensures ReadUint32At(data, p).0.Failure? ==> ReadChunkAt(data, p) == ChunkRead(Failure(ReadFailed), ReadUint32At(data, p).1)
    ensures ReadUint32At(data, p).0.Success? ==>
      ReadChunkAt(data, p) == ReadTypeAt(data, ReadUint32At(data, p).1, ReadUint32At(data, p).0.value)
  {
  }

  /** The four-byte type read: at end of file an error; a short read leaves
      zero bytes that no registered tag has. */
  lemma TypeStage(data: seq<byte>, p: nat, length: uint32, buf: seq<byte>, count: nat, err: Option<Error>, next: nat)
    requires p <= |data| && |buf| == 4 && count == Min(4, |data| - p) && next == p + count
    requires buf[..count] == data[p..next] && forall i :: count <= i < 4 ==> buf[i] == 0
    requires err.Some? <==> p == |data|
    ensures err.Some? ==> ReadTypeAt(data, p, length) == ChunkRead(Failure(ReadFailed), next)
    ensures err.None? && FromString(BytesToString(buf)).1.Some? ==>
      ReadTypeAt(data, p, length) == ChunkRead(Failure(FromString(BytesToString(buf)).1.value), next)
    ensures err.None? && FromString(BytesToString(buf)).1.None? ==>
      next == p + 4 && ReadTypeAt(data, p, length) == ReadDataAt(data, p + 4, length, buf, FromString(BytesToString(buf)).0)
  {
    if err.Some? {
      assert ReadTypeAt(data, p, length) == ChunkRead(Failure(ReadFailed), next);
    } else if count < 4 {
      TypeShortTag(data, p, length, buf, count);
    } else {
      TypeFour(data, p, length, buf);
    }
  }

  /** One to three tag bytes: the zero padding is never registered. */
  lemma TypeShortTag(data: seq<byte>, p: nat, length: uint32, buf: seq<byte>, count: nat)
    requires p < |data| && count == |data| - p < 4
    requires |buf| == 4 && forall i :: count <= i < 4 ==> buf[i] == 0
    ensures FromString(BytesToString(buf)).1.Some?
    ensures ReadTypeAt(data, p, length) == ChunkRead(Failure(FromString(BytesToString(buf)).1.value), p + count)
  {
    assert buf[3] == 0;
    ZeroTagUnknown(buf);
    TypeShort(data, p, length);
  }

  /** Four tag bytes: the lookup's error, or on to the data step. */
  lemma TypeFour(data: seq<byte>, p: nat, length: uint32, buf: seq<byte>)
    requires p + 4 <= |data| && |buf| == 4 && buf[..4] == data[p..p + 4]
    ensures FromString(BytesToString(buf)).1.Some? ==>
      ReadTypeAt(data, p, length) == ChunkRead(Failure(FromString(BytesToString(buf)).1.value), p + 4)
    ensures FromString(BytesToString(buf)).1.None? ==>
      ReadTypeAt(data, p, length) == ReadDataAt(data, p + 4, length, buf, FromString(BytesToString(buf)).0)
  {
    assert buf == data[p..p + 4] by {
      assert buf == buf[..4];
    }
    if FromString(BytesToString(buf)).1.None? {
      TypeKnown(data, p, length);
    } else {
      TypeUnknown(data, p, length);
    }
  }

  lemma TypeShort(data: seq<byte>, p: nat, length: uint32)
    requires p < |data| < p + 4
    ensures ReadTypeAt(data, p, length) == ChunkRead(Failure(UnknownChunkType), |data|)
  {
  }

  lemma TypeUnknown(data: seq<byte>, p: nat, length: uint32)
    requires p + 4 <= |data| && FromString(BytesToString(data[p..p + 4])).1.Some?
    ensures ReadTypeAt(data, p, length) == ChunkRead(Failure(UnknownChunkType), p + 4)
  {
  }

  /** A tag whose last byte is zero is not registered. */
  lemma ZeroTagUnknown(b: seq<byte>)
    requires |b| == 4 && b[3] == 0
    ensures FromString(BytesToString(b)).1.Some?
  {
    if FromString(BytesToString(b)).1.None? {
      KnownTagLetters(b);
    }
  }

  /** The data read: fewer than `length` bytes is an error whatever the
      file reports. */
  lemma DataStage(data: seq<byte>, p: nat, length: uint32, tag: seq<byte>, chunkType: ChunkType,
                  buf: seq<byte>, count: nat, err: Option<Error>, next: nat)
    requires p <= |data| && |buf| == length && count == Min(length, |data| - p) && next == p + count
    requires buf[..count] == data[p..next] && (err.Some? <==> length > 0 && p == |data|)
    ensures count != length ==> ReadDataAt(data, p, length, tag, chunkType) == ChunkRead(Failure(ShortChunkData(count, length)), next)
    ensures count == length ==>
      err.None? && next == p + length
      && ReadDataAt(data, p, length, tag, chunkType) == ReadCrcAt(data, next, length, tag, chunkType, buf)
  {
    if count == length {
      assert buf == buf[..count];
    }
  }

  lemma CrcStage(data: seq<byte>, p: nat, length: uint32, tag: seq<byte>, chunkType: ChunkType, chunkData: seq<byte>)
    requires p <= |data|
    ensures var w := ReadWordAt(data, p); var computed := Crc32(tag + chunkData);
      (w.0.Failure? ==> ReadCrcAt(data, p, length, tag, chunkType, chunkData) == ChunkRead(Failure(w.0.error), w.1))
      && (w.0.Success? && computed != w.0.value ==>
            ReadCrcAt(data, p, length, tag, chunkType, chunkData) == ChunkRead(Failure(CrcMismatch(w.0.value, computed)), w.1))
      && (w.0.Success? && computed == w.0.value ==>
            ReadCrcAt(data, p, length, tag, chunkType, chunkData) == ChunkRead(Success(Chunk(length, chunkType, chunkData, computed)), w.1))
  {
  }

  // The decoder object.

  class PngDecoder {
    var chunks: seq<Chunk>

    constructor ()
      ensures chunks == []
    {
      chunks := [];
    }

    /** The signature check: one eight-byte read and a comparison. */
    method IsPng(file: File) returns (ok: bool, err: Option<Error>)
      requires file.Valid()
      modifies file
      ensures file.Valid() && file.pos == FileRead(file.data, old(file.pos), 8).next
      ensures err == CheckSignature(file.data, old(file.pos)) && ok == err.None?
    {
      var signature, n, e := file.Read(8);
      if e.Some? {
        return false, e;
      }
      if n != |Signature| {
        return false, Some(ShortSignature(n));
      }
      if signature != Signature {
        return false, Some(SignatureMismatch(signature));
      }
      return true, None;
    }

    /** readChunk: one chunk from the cursor, step by step. */
    method ReadChunk(file: File) returns (r: Result<Chunk, Error>)
      requires file.Valid()
      modifies file
      ensures file.Valid()
      ensures ChunkRead(r, file.pos) == ReadChunkAt(file.data, old(file.pos))
    {
      ghost var data, p := file.data, file.pos;
      var length, e := file.ReadUint32();
      LengthStage(data, p);
      if e.Some? {
        return Failure(e.value);
      }
      ghost var pType := file.pos;
      var readType, got, e2 := file.Read(4);
      TypeStage(data, pType, length, readType, got, e2, file.pos);
      if e2.Some? {
        return Failure(ReadFailed);
      }
      var chunkBuffer := BytesToString(readType);
      var (chunkType, e3) := FromString(chunkBuffer);
      if e3.Some? {
        return Failure(e3.value);
      }
      ghost var pData := file.pos;
      var chunkData, n, e4 := file.Read(length as int);
      DataStage(data, pData, length, readType, chunkType, chunkData, n, e4, file.pos);
      if n != length as int {
        return Failure(ShortChunkData(n, length as int));
      } else if e4.Some? {
        return Failure(ReadFailed);
      }
      ghost var pCrc := file.pos;
      var storedCRC, e5 := file.ReadWord();
      CrcStage(data, pCrc, length, readType, chunkType, chunkData);
      if e5.Some? {
        return Failure(e5.value);
      }
      var precedingBytes := readType + chunkData;
      var computedCRC := Crc32(precedingBytes);
      if computedCRC != storedCRC {
        return Failure(CrcMismatch(storedCRC, computedCRC));
      }
      return Success(Chunk(length, chunkType, chunkData, computedCRC));
    }

    /** The chunk loop of ParseChunkStream: read a chunk, handle it, stop
        after IEND. It ends in RunLoop's outcome: its error, or its final
        state with the cursor just past IEND. */
    method ChunkLoop(file: File) returns (ihdr: IHDR, idat: ByteBuffer, gamma: Option<GAMA>, idatLen: nat, err: Option<Error>)
      requires file.Valid()
      modifies file
      ensures file.Valid() && fresh(idat)
      ensures RunLoop(file.data, old(file.pos), Start).Failure? ==> err == Some(RunLoop(file.data, old(file.pos), Start).error)
      ensures RunLoop(file.data, old(file.pos), Start).Success? ==>
        err == None && RunLoop(file.data, old(file.pos), Start).value == (StreamState(ihdr, idat.bytes, gamma, idatLen), file.pos)
    {
      idat := new ByteBuffer();
      ihdr := ZeroIHDR;
      gamma := None;
      idatLen := 0;
      ghost var start := file.pos;
      while true
        invariant file.Valid() && fresh(idat)
        invariant start <= file.pos
        invariant RunLoop(file.data, start, Start) == RunLoop(file.data, file.pos, StreamState(ihdr, idat.bytes, gamma, idatLen))
        decreases |file.data| - file.pos
      {
        ghost var before := file.pos;
        ghost var st := StreamState(ihdr, idat.bytes, gamma, idatLen);
        var r := ReadChunk(file);
        if r.Failure? {
          return ihdr, idat, gamma, idatLen, Some(r.error);
        }
        var c := r.value;
        match c.chunkType
        case ChunkIHDR =>
          var h := HandleIHDR(c);
          if h.Failure? {
            return ihdr, idat, gamma, idatLen, Some(h.error);
          }
          ihdr := h.value;
        case ChunkIDAT =>
          var e := HandleIDAT(c, idat);
          if e.Some? {
            return ihdr, idat, gamma, idatLen, e;
          }
          idatLen := c.length as int;
        case ChunkgAMA =>
          var g := ParseGAMA(c.data);
          if g.Failure? {
            return ihdr, idat, gamma, idatLen, Some(g.error);
          }
          gamma := Some(g.value);
        case ChunkIEND =>
          assert RunLoop(file.data, before, st) == Success((st, file.pos));
          break;
        case _ =>
      }
      err := None;
    }

    /** ParseChunkStream: the chunk loop, then inflation, the tail slice,
        gamma correction and the image. */
    method ParseChunkStream(file: File, inflate: Inflate, transfer: Transfer)
      returns (img: array2?<byte>, err: Option<Error>)
      requires file.Valid()
      modifies file
      ensures file.Valid()
      ensures RunLoop(file.data, old(file.pos), Start).Success? ==> file.pos == RunLoop(file.data, old(file.pos), Start).value.1
      ensures DecodeStream(file.data, old(file.pos), inflate, transfer).Failure? ==>
        img == null && err == Some(DecodeStream(file.data, old(file.pos), inflate, transfer).error)
      ensures DecodeStream(file.data, old(file.pos), inflate, transfer).Success? ==>
        var d := DecodeStream(file.data, old(file.pos), inflate, transfer).value;
        (ColorTypeKind(d.ihdr.colorType).Failure? ==>
           img == null && err == Some(ColorTypeKind(d.ihdr.colorType).error))
        && (ColorTypeKind(d.ihdr.colorType) == Success(false) ==> img == null && err == None)
        && (ColorTypeKind(d.ihdr.colorType) == Success(true) ==>
              err == None && img != null && fresh(img) && IsGreyImage(img, d.pixels, d.ihdr))
    {
      ghost var start := file.pos;
      ghost var outcome := DecodeStream(file.data, start, inflate, transfer);
      var ihdr, idat, gamma, idatLen, e0 := ChunkLoop(file);
      if e0.Some? {
        return null, e0;
      }
      var st := StreamState(ihdr, idat.bytes, gamma, idatLen);
      assert RunLoop(file.data, start, Start) == Success((st, file.pos));
      var inflated := inflate(idat.bytes);
      if inflated.None? {
        assert outcome == Failure(InflateFailed);
        return null, Some(InflateFailed);
      }
      var pixels := inflated.value;
      var temp := |pixels| - idatLen;
      if temp < 0 {
        assert outcome == Failure(SliceOutOfRangePanic(temp));
        return null, Some(SliceOutOfRangePanic(temp));
      }
      pixels := pixels[temp..];
      var buf := new byte[|pixels|](i requires 0 <= i < |pixels| => pixels[i]);
      assert buf[..] == pixels;
      var e := HandleGAMA(gamma, buf, ihdr.bitDepth, transfer);
      if e.Some? {
        assert outcome == Failure(NilGammaPanic);
        return null, e;
      }
      assert outcome == Success(Decoded(ihdr, buf[..]));
      img, err := CreateImage(buf[..], ihdr);
    }
  }
}

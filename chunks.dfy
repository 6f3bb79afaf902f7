/** The chunk vocabulary of the decoder: the closed registry of chunk-type
    tags with its critical/ancillary rule (section 5.4 of ISO/IEC 15948), the
    chunk record produced by the framing reader, and the payload parsers for
    IHDR (section 11.2.2), gAMA (section 11.3.3.2) and IDAT. */
module Chunks {
  import opened Wrappers
  import opened Bytes
  import opened Errors

  /** The registry: the eighteen tags the decoder knows, plus Unknown, whose
      tag is the empty string. */
  datatype ChunkType =
    | Unknown
      // critical chunks
    | ChunkIHDR | ChunkPLTE | ChunkIDAT | ChunkIEND
      // ancillary chunks
    | ChunkcHRM | ChunkgAMA | ChunkiCCP | ChunksBIT | ChunksRGB | ChunkbKGD | ChunkhIST
    | ChunktRNS | ChunkpHYs | ChunksPLT | ChunktIME | ChunkiTXt | ChunktEXt | ChunkzTXt
  {
    /** The type's tag: four ASCII letters, or "" for Unknown. */
    function String(): (s: string)
      ensures (s == "") <==> this == Unknown
      ensures this != Unknown ==> |s| == 4 && forall i :: 0 <= i < 4 ==> IsAsciiLetter(s[i])
    {
      match this
      case Unknown => ""
      case ChunkIHDR => "IHDR"
      case ChunkPLTE => "PLTE"
      case ChunkIDAT => "IDAT"
      case ChunkIEND => "IEND"
      case ChunkcHRM => "cHRM"
      case ChunkgAMA => "gAMA"
      case ChunkiCCP => "iCCP"
      case ChunksBIT => "sBIT"
      case ChunksRGB => "sRGB"
      case ChunkbKGD => "bKGD"
      case ChunkhIST => "hIST"
      case ChunktRNS => "tRNS"
      case ChunkpHYs => "pHYs"
      case ChunksPLT => "sPLT"
      case ChunktIME => "tIME"
      case ChunkiTXt => "iTXt"
      case ChunktEXt => "tEXt"
      case ChunkzTXt => "zTXt"
    }
  }

  predicate IsAsciiLetter(c: char) {
    ('A' <= c <= 'Z') || ('a' <= c <= 'z')
  }

  const Critical: seq<ChunkType> := [ChunkIHDR, ChunkPLTE, ChunkIDAT, ChunkIEND]

  const Ancillary: seq<ChunkType> :=
    [ChunkcHRM, ChunkgAMA, ChunkiCCP, ChunksBIT, ChunksRGB, ChunkbKGD, ChunkhIST,
     ChunktRNS, ChunkpHYs, ChunksPLT, ChunktIME, ChunkiTXt, ChunktEXt, ChunkzTXt]

  /** The registry in the order the lookup tries it. */
  const KnownTypes: seq<ChunkType> := Critical + Ancillary

  /** Looks a tag up in the registry. An unknown tag yields Unknown together
      with an error; the result never depends on anything but the tag. */
  function FromString(s: string): (r: (ChunkType, Option<Error>))
    ensures r.1.None? ==> r.0 != Unknown && r.0.String() == s
    ensures r.1.Some? ==> r == (Unknown, Some(UnknownChunkType))
  {
    if s == ChunkIHDR.String() then (ChunkIHDR, None)
    else if s == ChunkPLTE.String() then (ChunkPLTE, None)
    else if s == ChunkIDAT.String() then (ChunkIDAT, None)
    else if s == ChunkIEND.String() then (ChunkIEND, None)
    else if s == ChunkcHRM.String() then (ChunkcHRM, None)
    else if s == ChunkgAMA.String() then (ChunkgAMA, None)
    else if s == ChunkiCCP.String() then (ChunkiCCP, None)
    else if s == ChunksBIT.String() then (ChunksBIT, None)
    else if s == ChunksRGB.String() then (ChunksRGB, None)
    else if s == ChunkbKGD.String() then (ChunkbKGD, None)
    else if s == ChunkhIST.String() then (ChunkhIST, None)
    else if s == ChunktRNS.String() then (ChunktRNS, None)
    else if s == ChunkpHYs.String() then (ChunkpHYs, None)
    else if s == ChunksPLT.String() then (ChunksPLT, None)
    else if s == ChunktIME.String() then (ChunktIME, None)
    else if s == ChunkiTXt.String() then (ChunkiTXt, None)
    else if s == ChunktEXt.String() then (ChunktEXt, None)
    else if s == ChunkzTXt.String() then (ChunkzTXt, None)
    else (Unknown, Some(UnknownChunkType))
  }

  /** The four tag bytes of a known type, as they appear in a datastream. */
  function TagBytes(t: ChunkType): (b: seq<byte>)
    requires t != Unknown
    ensures |b| == 4 && BytesToString(b) == t.String()
  {
    match t
    case ChunkIHDR => [0x49, 0x48, 0x44, 0x52]
    case ChunkPLTE => [0x50, 0x4C, 0x54, 0x45]
    case ChunkIDAT => [0x49, 0x44, 0x41, 0x54]
    case ChunkIEND => [0x49, 0x45, 0x4E, 0x44]
    case ChunkcHRM => [0x63, 0x48, 0x52, 0x4D]
    case ChunkgAMA => [0x67, 0x41, 0x4D, 0x41]
    case ChunkiCCP => [0x69, 0x43, 0x43, 0x50]
    case ChunksBIT => [0x73, 0x42, 0x49, 0x54]
    case ChunksRGB => [0x73, 0x52, 0x47, 0x42]
    case ChunkbKGD => [0x62, 0x4B, 0x47, 0x44]
    case ChunkhIST => [0x68, 0x49, 0x53, 0x54]
    case ChunktRNS => [0x74, 0x52, 0x4E, 0x53]
    case ChunkpHYs => [0x70, 0x48, 0x59, 0x73]
    case ChunksPLT => [0x73, 0x50, 0x4C, 0x54]
    case ChunktIME => [0x74, 0x49, 0x4D, 0x45]
    case ChunkiTXt => [0x69, 0x54, 0x58, 0x74]
    case ChunktEXt => [0x74, 0x45, 0x58, 0x74]
    case ChunkzTXt => [0x7A, 0x54, 0x58, 0x74]
  }

  /** One PNG chunk as the framing reader hands it on. The length is a
      number; the CRC is kept as the 32-bit pattern it is compared as. */
  datatype Chunk = Chunk(length: uint32, chunkType: ChunkType, data: seq<byte>, crc: bv32)

  /** Whether the chunk is critical: its tag starts with an upper-case letter.
      The tag is indexed, so Unknown's empty tag is excluded. Exactly IHDR,
      PLTE, IDAT and IEND are. */
  predicate IsCritical(c: Chunk)
    requires |c.chunkType.String()| > 0
    ensures IsCritical(c) <==> c.chunkType in Critical
  {
    'A' <= c.chunkType.String()[0] <= 'Z'
  }

  /** The image header (PNG section 11.2.2). */
  datatype IHDR = IHDR(
    width: uint32,
    height: uint32,
    bitDepth: byte,
    colorType: byte,
    compressionMethod: byte,
    filterMethod: byte,
    interlaceMethod: byte)

  /** The header the decoder holds before any IHDR chunk is read. */
  const ZeroIHDR := IHDR(0, 0, 0, 0, 0, 0, 0)

  /** The 13-byte IHDR payload of a header: width and height big-endian, then
      the five one-byte fields. */
  function IHDRBytes(h: IHDR): (b: seq<byte>)
    ensures |b| == 13
  {
    Uint32Bytes(h.width) + Uint32Bytes(h.height)
      + [h.bitDepth, h.colorType, h.compressionMethod, h.filterMethod, h.interlaceMethod]
  }

  function HandleIHDR(c: Chunk): (r: Result<IHDR, Error>)
    ensures r.Failure? <==> |c.data| != 13
    ensures r.Failure? ==> r.error == InvalidIHDRLength(|c.data|)
  {
    if |c.data| != 13 then Failure(InvalidIHDRLength(|c.data|))
    else Success(IHDR(
      BigEndianUint32(c.data[0..4]),
      BigEndianUint32(c.data[4..8]),
      c.data[8], c.data[9], c.data[10], c.data[11], c.data[12]))
  }

  /** The image gamma times 100000 (PNG section 11.3.3.2). */
  datatype GAMA = GAMA(gamma: uint32)

  function ParseGAMA(data: seq<byte>): (r: Result<GAMA, Error>)
    ensures r.Failure? <==> |data| != 4
    ensures r.Failure? ==> r.error == InvalidGAMALength(|data|)
  {
    if |data| != 4 then Failure(InvalidGAMALength(|data|))
    else Success(GAMA(BigEndianUint32(data)))
  }

  /** The per-sample display transfer of a gamma-corrected image: from the
      file gamma (times 100000), the bit depth and one sample to the new
      sample. The floating-point formula is not part of this model; it is a
      parameter. */
  type Transfer = (uint32, byte, byte) -> byte

  /** Every sample of `s` passed through the transfer, on its own. */
  function GammaCorrected(g: GAMA, bitDepth: byte, transfer: Transfer, s: seq<byte>): (r: seq<byte>)
    ensures |r| == |s|
    ensures forall i :: 0 <= i < |s| ==> r[i] == transfer(g.gamma, bitDepth, s[i])
  {
    seq(|s|, i requires 0 <= i < |s| => transfer(g.gamma, bitDepth, s[i]))
  }

  /** Gamma correction in place. `g` is the parsed gAMA chunk, None when
      the datastream had none: the method then reads a field through a nil receiver
      before touching a sample. */
  method HandleGAMA(g: Option<GAMA>, pixels: array<byte>, bitDepth: byte, transfer: Transfer)
    returns (err: Option<Error>)
    modifies pixels
    ensures g.None? ==> err == Some(NilGammaPanic) && pixels[..] == old(pixels[..])
    ensures g.Some? ==> err == None && pixels[..] == GammaCorrected(g.value, bitDepth, transfer, old(pixels[..]))
  {
    if g.None? {
      return Some(NilGammaPanic);
    }
    var gamma := g.value.gamma;
    var i := 0;
    while i < pixels.Length
      invariant 0 <= i <= pixels.Length
      invariant forall k :: 0 <= k < i ==> pixels[k] == transfer(gamma, bitDepth, old(pixels[k]))
      invariant forall k :: i <= k < pixels.Length ==> pixels[k] == old(pixels[k])
    {
      pixels[i] := transfer(gamma, bitDepth, pixels[i]);
      i := i + 1;
    }
    return None;
  }

  /** An in-memory byte buffer that only grows, as Go's bytes.Buffer does
      when written to. */
  class ByteBuffer {
    var bytes: seq<byte>

    constructor ()
      ensures bytes == []
    {
      bytes := [];
    }

    method Write(p: seq<byte>) returns (n: nat, err: Option<Error>)
      modifies this
      ensures bytes == old(bytes) + p
      ensures n == |p| && err == None
    {
      bytes := bytes + p;
      n, err := |p|, None;
    }
  }

  /** Appends the payload of an IDAT chunk to `dest`. */
  method HandleIDAT(c: Chunk, dest: ByteBuffer) returns (err: Option<Error>)
    modifies dest
    ensures dest.bytes == old(dest.bytes) + c.data
    ensures err == None
  {
    var _, e := dest.Write(c.data);
    if e.Some? {
      return e;
    }
    return None;
  }

  // Properties of the registry.

  /** Each known type is found under its own tag; no tag names two types. */
  lemma FromStringOfString(t: ChunkType)
    requires t != Unknown
    ensures FromString(t.String()) == (t, None)
  {
    FromStringKnown(t);
    SlugsInjective(FromString(t.String()).0, t);
  }

  /** Every known tag is found: the lookup passes over each tag before
      the type's own, since those belong to other types. */
  lemma FromStringKnown(t: ChunkType)
    requires t != Unknown
    ensures FromString(t.String()).1.None?
  {
    SlugsInjective(t, ChunkIHDR);
    SlugsInjective(t, ChunkPLTE);
    SlugsInjective(t, ChunkIDAT);
    SlugsInjective(t, ChunkIEND);
    SlugsInjective(t, ChunkcHRM);
    SlugsInjective(t, ChunkgAMA);
    SlugsInjective(t, ChunkiCCP);
    SlugsInjective(t, ChunksBIT);
    SlugsInjective(t, ChunksRGB);
    SlugsInjective(t, ChunkbKGD);
    SlugsInjective(t, ChunkhIST);
    SlugsInjective(t, ChunktRNS);
    SlugsInjective(t, ChunkpHYs);
    SlugsInjective(t, ChunksPLT);
    SlugsInjective(t, ChunktIME);
    SlugsInjective(t, ChunkiTXt);
    SlugsInjective(t, ChunktEXt);
  }

  /** The lookup fails only on a tag that no registered type has. */
  lemma FromStringUnknown(s: string, t: ChunkType)
    requires FromString(s).1.Some? && t != Unknown
    ensures t.String() != s
  {
    FromStringOfString(t);
  }

  /** No two types share a tag. */
  lemma SlugsInjective(t: ChunkType, u: ChunkType)
    ensures t.String() == u.String() ==> t == u
  {
    if t.String() == u.String() {
      match t
      case Unknown =>
      case ChunkIHDR => assert t.String()[3] == 'R';
      case ChunkPLTE =>
      case ChunkIDAT => assert t.String()[1] == 'D';
      case ChunkIEND => assert t.String()[1] == 'E';
      case ChunkcHRM =>
      case ChunkgAMA =>
      case ChunkiCCP =>
      case ChunksBIT =>
      case ChunksRGB =>
      case ChunkbKGD =>
      case ChunkhIST =>
      case ChunktRNS =>
      case ChunkpHYs =>
      case ChunksPLT => assert t.String()[1] == 'P';
      case ChunktIME =>
      case ChunkiTXt => assert t.String()[1] == 'T';
      case ChunktEXt => assert t.String()[1] == 'E';
      case ChunkzTXt =>
    }
  }

  /** The position of a known type in KnownTypes. */
  function Index(t: ChunkType): (i: nat)
    requires t != Unknown
    ensures i < |KnownTypes|
  {
    match t
    case ChunkIHDR => 0
    case ChunkPLTE => 1
    case ChunkIDAT => 2
    case ChunkIEND => 3
    case ChunkcHRM => 4
    case ChunkgAMA => 5
    case ChunkiCCP => 6
    case ChunksBIT => 7
    case ChunksRGB => 8
    case ChunkbKGD => 9
    case ChunkhIST => 10
    case ChunktRNS => 11
    case ChunkpHYs => 12
    case ChunksPLT => 13
    case ChunktIME => 14
    case ChunkiTXt => 15
    case ChunktEXt => 16
    case ChunkzTXt => 17
  }

  /** Every type but Unknown is in the registry, at the position Index
      gives it. */
  lemma KnownTypesComplete(t: ChunkType)
    ensures t != Unknown <==> t in KnownTypes
    ensures t != Unknown ==> KnownTypes[Index(t)] == t
  {
  }

  /** No type is in the registry twice: position i holds the type whose
      index is i. */
  lemma KnownTypesIndexed()
    ensures forall i :: 0 <= i < |KnownTypes| ==> KnownTypes[i] != Unknown && Index(KnownTypes[i]) == i
  {
  }

  /** Eighteen tags, pairwise distinct. */
  lemma KnownTagsDistinct(i: nat, j: nat)
    requires i < j < |KnownTypes|
    ensures |KnownTypes| == 18
    ensures KnownTypes[i].String() != KnownTypes[j].String()
  {
    KnownTypesIndexed();
    if KnownTypes[i].String() == KnownTypes[j].String() {
      SlugsInjective(KnownTypes[i], KnownTypes[j]);
    }
  }

  /** Four critical types and fourteen ancillary ones. */
  lemma CriticalCensus()
    ensures |Critical| == 4 && |Ancillary| == 14
    ensures forall i :: 0 <= i < |Critical| ==> IsCritical(Chunk(0, Critical[i], [], 0))
    ensures forall i :: 0 <= i < |Ancillary| ==> !IsCritical(Chunk(0, Ancillary[i], [], 0))
  {
  }

  /** A known tag is four ASCII letters, so never holds a zero byte: a
      zero-padded short read is never a known tag. */
  lemma KnownTagLetters(b: seq<byte>)
    requires FromString(BytesToString(b)).1.None?
    ensures |b| == 4
    ensures forall i :: 0 <= i < 4 ==> IsAsciiLetter((b[i] as int) as char) && b[i] != 0
  {
    var s := BytesToString(b);
    var t := FromString(s).0;
    assert t.String() == s;
    forall i | 0 <= i < 4
      ensures IsAsciiLetter((b[i] as int) as char) && b[i] != 0
    {
      assert (b[i] as int) as char == s[i];
    }
  }

  /** The tag bytes a known type was looked up from are its tag bytes. */
  lemma KnownTagBytes(b: seq<byte>)
    requires FromString(BytesToString(b)).1.None?
    ensures TagBytes(FromString(BytesToString(b)).0) == b
  {
    var t := FromString(BytesToString(b)).0;
    BytesToStringInjective(b, TagBytes(t));
  }

  // Properties of the payload parsers.

  /** HandleIHDR accepts exactly the 13-byte encodings of headers, and
      decodes each back to the header it encodes. */
  lemma HandleIHDRInverse(c: Chunk, h: IHDR)
    ensures HandleIHDR(c) == Success(h) <==> c.data == IHDRBytes(h)
  {
    if c.data == IHDRBytes(h) {
      HandleIHDREncoded(c, h);
    }
    if HandleIHDR(c) == Success(h) {
      HandleIHDRDecoded(c);
    }
  }

  /** An encoded header decodes to itself. */
  lemma HandleIHDREncoded(c: Chunk, h: IHDR)
    requires c.data == IHDRBytes(h)
    ensures HandleIHDR(c) == Success(h)
  {
    var w, t := Uint32Bytes(h.width), Uint32Bytes(h.height);
    var rest := [h.bitDepth, h.colorType, h.compressionMethod, h.filterMethod, h.interlaceMethod];
    assert c.data == w + t + rest;
    assert c.data[0..4] == w && c.data[4..8] == t;
    BigEndianRoundTrip(h.width);
    BigEndianRoundTrip(h.height);
  }

  /** An accepted payload is the encoding of the header it decodes to. */
  lemma HandleIHDRDecoded(c: Chunk)
    requires HandleIHDR(c).Success?
    ensures c.data == IHDRBytes(HandleIHDR(c).value)
  {
    BigEndianBytesRoundTrip(c.data[0..4]);
    BigEndianBytesRoundTrip(c.data[4..8]);
    assert c.data == c.data[0..4] + c.data[4..8] + c.data[8..13];
  }

  /** ParseGAMA accepts exactly the 4-byte big-endian encodings. */
  lemma ParseGAMAInverse(data: seq<byte>, g: GAMA)
    ensures ParseGAMA(data) == Success(g) <==> data == Uint32Bytes(g.gamma)
  {
    if data == Uint32Bytes(g.gamma) {
      BigEndianRoundTrip(g.gamma);
    }
    if ParseGAMA(data) == Success(g) {
      BigEndianBytesRoundTrip(data);
    }
  }

  /** Correction is sample by sample, so correcting the tail of a buffer is
      the tail of the corrected buffer. */
  lemma GammaCorrectedTail(g: GAMA, bitDepth: byte, transfer: Transfer, s: seq<byte>, k: nat)
    requires k <= |s|
    ensures GammaCorrected(g, bitDepth, transfer, s[k..]) == GammaCorrected(g, bitDepth, transfer, s)[k..]
  {
  }

  /** A transfer that fixes every sample leaves the buffer as it is. */
  lemma GammaCorrectedIdentity(g: GAMA, bitDepth: byte, transfer: Transfer, s: seq<byte>)
    requires forall v: byte :: transfer(g.gamma, bitDepth, v) == v
    ensures GammaCorrected(g, bitDepth, transfer, s) == s
  {
    var r := GammaCorrected(g, bitDepth, transfer, s);
    forall i | 0 <= i < |s|
      ensures r[i] == s[i]
    {
      assert transfer(g.gamma, bitDepth, s[i]) == s[i];
    }
  }
}

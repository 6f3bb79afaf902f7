/** Option and Result values, the decoder's error kinds, and the byte-level
    vocabulary (bytes, big-endian 32-bit words) shared by every other module. */

module Wrappers {

  datatype Option<+T> = None | Some(value: T)

  datatype Result<+T, +E> = Success(value: T) | Failure(error: E)
}

module Errors {
  import opened Bytes

  /** Every way the decoder can stop without an image. The two panic kinds
      stand for Go run-time panics, which abort the program just as surely. */
  datatype Error =
    | ReadFailed                                  // a read hit end of file
    | ShortSignature(read: nat)                   // fewer than 8 signature bytes
    | SignatureMismatch(signature: seq<byte>)        // the 8 bytes are not the PNG magic
    | UnknownChunkType                            // tag outside the registry
    | ShortChunkData(n: nat, length: nat)          // data field cut short
    | CrcMismatch(stored: bv32, computed: bv32)   // checksum disagrees
    | InvalidIHDRLength(n: nat)                   // header payload is not 13 bytes
    | InvalidGAMALength(n: nat)                   // gamma payload is not 4 bytes
    | InflateFailed                               // zlib refused the IDAT stream
    | SliceOutOfRangePanic(start: int)            // pixels[temp:] with temp < 0
    | NilGammaPanic                               // method call on a nil *GAMA
    | InvalidColorType(colorType: byte)           // colour type outside {0,2,3,4,6}
}

module Bytes {

  type byte = bv8

  function Min(a: int, b: int): int { if a <= b then a else b }

  /** `n` zero bytes, the contents of a freshly made Go byte slice. */
  function Zeros(n: nat): (z: seq<byte>)
    ensures |z| == n && forall i :: 0 <= i < n ==> z[i] == 0
  {
    seq(n, _ => 0)
  }

  /** Go's string(b): one character per byte, no decoding. */
  function BytesToString(b: seq<byte>): (s: string)
    ensures |s| == |b| && forall i :: 0 <= i < |b| ==> s[i] as int == b[i] as int
  {
    seq(|b|, i requires 0 <= i < |b| => (b[i] as int) as char)
  }

  /** Distinct byte strings give distinct Go strings. */
  lemma BytesToStringInjective(a: seq<byte>, b: seq<byte>)
    requires BytesToString(a) == BytesToString(b)
    ensures a == b
  {
    assert |a| == |b|;
    forall i | 0 <= i < |a|
      ensures a[i] == b[i]
    {
      assert a[i] as int == BytesToString(a)[i] as int == b[i] as int;
    }
  }

  /** Go's uint32, as a number. */
  type uint32 = x: int | 0 <= x < 0x1_0000_0000

  /** The number a byte stands for, read bit by bit from the top. */
  function ByteValue(b: byte): nat
    decreases b as int
  {
    if b == 0 then 0 else 2 * ByteValue(b >> 1) + (if b & 1 == 1 then 1 else 0)
  }

  lemma {:induction false} ByteValueIs(b: byte)
    ensures ByteValue(b) == b as int
    decreases b as int
  {
    if b != 0 {
      ByteValueIs(b >> 1);
      assert b as int == 2 * ((b >> 1) as int) + (if b & 1 == 1 then 1 else 0);
    }
  }

  lemma ByteValueBound(b: byte)
    ensures ByteValue(b) < 0x100
  {
    ByteValueIs(b);
  }

  /** The byte that stands for the number `k`, built bit by bit from the
      top. */
  function ByteOf(k: nat): byte
    requires k < 0x100
    decreases k
  {
    if k == 0 then 0 else (ByteOf(k / 2) << 1) | (if k % 2 == 1 then 1 else 0)
  }

  lemma {:induction false} ByteOfIs(k: nat)
    requires k < 0x100
    ensures ByteOf(k) as int == k
    decreases k
  {
    if k != 0 {
      ByteOfIs(k / 2);
      ShiftIn(ByteOf(k / 2), k % 2 == 1);
    }
  }

  /** Shifting a bit in at the bottom doubles the number and adds the bit. */
  lemma ShiftIn(y: byte, bit: bool)
    requires y < 0x80
    ensures ((y << 1) | (if bit then 1 else 0)) as int == 2 * (y as int) + (if bit then 1 else 0)
  {
  }

  lemma ValueInjective(u: byte, v: byte)
    requires u as int == v as int
    ensures u == v
  {
  }

  lemma ByteValueOf(k: nat)
    requires k < 0x100
    ensures ByteValue(ByteOf(k)) == k
  {
    ByteValueIs(ByteOf(k));
    ByteOfIs(k);
  }

  /** The byte of the number a byte stands for is that byte. */
  lemma ByteOfValue(k: nat, v: byte)
    requires k == v as int
    ensures ByteOf(k) == v
  {
    ByteOfIs(k);
    ValueInjective(ByteOf(k), v);
  }

  /** The big-endian number the bytes stand for: base 256, most significant
      digit first. */
  function BigEndian(b: seq<byte>): nat
    decreases |b|
  {
    if b == [] then 0 else BigEndian(b[..|b| - 1]) * 0x100 + ByteValue(b[|b| - 1])
  }

  /** Four bytes as four base-256 digits. */
  lemma BigEndianDigits(b: seq<byte>)
    requires |b| == 4
    ensures BigEndian(b)
         == ByteValue(b[0]) * 0x100_0000 + ByteValue(b[1]) * 0x1_0000 + ByteValue(b[2]) * 0x100 + ByteValue(b[3])
  {
    var b3, b2, b1 := b[..3], b[..2], b[..1];
    assert b3[..2] == b2 && b2[..1] == b1 && b1[..0] == [];
    assert BigEndian(b1) == ByteValue(b[0]);
    assert BigEndian(b2) == BigEndian(b1) * 0x100 + ByteValue(b[1]);
    assert BigEndian(b3) == BigEndian(b2) * 0x100 + ByteValue(b[2]);
  }

  lemma BigEndianBound(b: seq<byte>)
    requires |b| == 4
    ensures BigEndian(b) < 0x1_0000_0000
  {
    BigEndianDigits(b);
    ByteValueBound(b[0]);
    ByteValueBound(b[1]);
    ByteValueBound(b[2]);
    ByteValueBound(b[3]);
  }

  /** encoding/binary's BigEndian.Uint32. */
  function BigEndianUint32(b: seq<byte>): (x: uint32)
    requires |b| == 4
  {
    BigEndianBound(b);
    BigEndian(b)
  }

  /** BigEndian.Uint32 of four bytes: the first byte is the most significant. */
  lemma BigEndianUint32Value(b: seq<byte>)
    requires |b| == 4
    ensures BigEndianUint32(b)
         == (b[0] as int) * 0x100_0000 + (b[1] as int) * 0x1_0000 + (b[2] as int) * 0x100 + (b[3] as int)
  {
    BigEndianDigits(b);
    ByteValueIs(b[0]);
    ByteValueIs(b[1]);
    ByteValueIs(b[2]);
    ByteValueIs(b[3]);
  }

  /** The four bytes that BigEndianUint32 reads back as `x`. */
  function Uint32Bytes(x: uint32): (b: seq<byte>)
    ensures |b| == 4
  {
    [ByteOf(x / 0x100_0000), ByteOf(x / 0x1_0000 % 0x100), ByteOf(x / 0x100 % 0x100), ByteOf(x % 0x100)]
  }

  lemma BigEndianRoundTrip(x: uint32)
    ensures BigEndianUint32(Uint32Bytes(x)) == x
  {
    var b := Uint32Bytes(x);
    BigEndianDigits(b);
    var q1 := x / 0x100;
    var q2 := q1 / 0x100;
    assert x / 0x1_0000 == q2;
    assert x / 0x100_0000 == q2 / 0x100;
    ByteValueOf(q2 / 0x100);
    ByteValueOf(q2 % 0x100);
    ByteValueOf(q1 % 0x100);
    ByteValueOf(x % 0x100);
  }

  lemma BigEndianBytesRoundTrip(b: seq<byte>)
    requires |b| == 4
    ensures Uint32Bytes(BigEndianUint32(b)) == b
  {
    var a0, a1, a2, a3 := ByteValue(b[0]), ByteValue(b[1]), ByteValue(b[2]), ByteValue(b[3]);
    BigEndianDigits(b);
    ByteValueBound(b[0]);
    ByteValueBound(b[1]);
    ByteValueBound(b[2]);
    ByteValueBound(b[3]);
    Digits(a0, a1, a2, a3);
    var x := BigEndianUint32(b);
    assert x == a0 * 0x100_0000 + a1 * 0x1_0000 + a2 * 0x100 + a3;
    DigitBytes(x, b);
  }

  /** Bytes that stand for the digits of `x` are the bytes of `x`. */
  lemma DigitBytes(x: uint32, b: seq<byte>)
    requires |b| == 4
    requires x / 0x100_0000 == ByteValue(b[0]) && x / 0x1_0000 % 0x100 == ByteValue(b[1])
    requires x / 0x100 % 0x100 == ByteValue(b[2]) && x % 0x100 == ByteValue(b[3])
    ensures Uint32Bytes(x) == b
  {
    ByteValueIs(b[0]);
    ByteValueIs(b[1]);
    ByteValueIs(b[2]);
    ByteValueIs(b[3]);
    ByteOfValue(x / 0x100_0000, b[0]);
    ByteOfValue(x / 0x1_0000 % 0x100, b[1]);
    ByteOfValue(x / 0x100 % 0x100, b[2]);
    ByteOfValue(x % 0x100, b[3]);
  }

  /** The base-256 digits of a four-digit number. */
  lemma Digits(a0: int, a1: int, a2: int, a3: int)
    requires 0 <= a0 < 0x100 && 0 <= a1 < 0x100 && 0 <= a2 < 0x100 && 0 <= a3 < 0x100
    ensures var x := a0 * 0x100_0000 + a1 * 0x1_0000 + a2 * 0x100 + a3;
      x / 0x100_0000 == a0 && x / 0x1_0000 % 0x100 == a1 && x / 0x100 % 0x100 == a2 && x % 0x100 == a3
  {
    var q2 := a0 * 0x100 + a1;
    var q1 := q2 * 0x100 + a2;
    var x := q1 * 0x100 + a3;
    assert x / 0x100 == q1 && x % 0x100 == a3;
    assert q1 / 0x100 == q2 && q1 % 0x100 == a2;
    assert q2 / 0x100 == a0 && q2 % 0x100 == a1;
    assert x / 0x1_0000 == q2;
    assert x / 0x100_0000 == a0;
  }

  /** The same four bytes as a 32-bit pattern, the form in which a stored
      CRC is compared. */
  function BigEndianWord(b: seq<byte>): (w: bv32)
    requires |b| == 4
  {
    ((b[0] as bv32) << 24) | ((b[1] as bv32) << 16) | ((b[2] as bv32) << 8) | (b[3] as bv32)
  }

  /** The four bytes that BigEndianWord reads back as `w`. */
  function WordBytes(w: bv32): (b: seq<byte>)
    ensures |b| == 4
  {
    [(w >> 24) as bv8, ((w >> 16) & 0xFF) as bv8, ((w >> 8) & 0xFF) as bv8, (w & 0xFF) as bv8]
  }

  lemma WordRoundTrip(w: bv32)
    ensures BigEndianWord(WordBytes(w)) == w
  {
  }

  lemma WordBytesRoundTrip(b: seq<byte>)
    requires |b| == 4
    ensures WordBytes(BigEndianWord(b)) == b
  {
    var w := BigEndianWord(b);
    assert WordBytes(w)[0] == b[0] && WordBytes(w)[1] == b[1];
    assert WordBytes(w)[2] == b[2] && WordBytes(w)[3] == b[3];
  }
}

/** CRC-32 as ISO/IEC 15948 defines it for chunk checksums (section 5.5
    and Annex D): the reflected polynomial 0xEDB88320, a
    register preset to all ones, and a final complement. The decoder computes
    it through a library call; this module states the algorithm itself, one
    bit at a time, and proves that two messages of one length that differ in a
    single byte never share a checksum. */
module Crc {
  import opened Bytes

  const Polynomial: bv32 := 0xEDB8_8320

  /** One bit of the shift register: shift right, folding in the polynomial
      when a one falls off the end. */
  function Shift(c: bv32): bv32 {
    if c & 1 == 1 then (c >> 1) ^ Polynomial else c >> 1
  }

  /** `n` shifts in a row. */
  function Shifts(c: bv32, n: nat): bv32
    decreases n
  {
    if n == 0 then c else Shifts(Shift(c), n - 1)
  }

  /** Feed one byte, least significant bit first: one shift per bit. */
  function UpdateByte(c: bv32, b: byte): bv32 {
    Shifts(c ^ (b as bv32), 8)
  }

  /** The register after feeding every byte of `s`, in order. */
  function Register(c: bv32, s: seq<byte>): bv32
    decreases |s|
  {
    if s == [] then c else Register(UpdateByte(c, s[0]), s[1..])
  }

  /** The checksum: the preset and the final complement cancel on the
      empty message. */
  function Crc32(s: seq<byte>): (c: bv32)
    ensures s == [] ==> c == 0
  {
    Register(0xFFFF_FFFF, s) ^ 0xFFFF_FFFF
  }

  /** The polynomial's top bit is set, so the shift loses nothing: the bit
      that falls off can be read back from the top bit of the result. */
  lemma ShiftInjective(u: bv32, v: bv32)
    requires Shift(u) == Shift(v)
    ensures u == v
  {
  }

  lemma {:induction false} ShiftsInjective(u: bv32, v: bv32, n: nat)
    requires Shifts(u, n) == Shifts(v, n)
    ensures u == v
    decreases n
  {
    if n > 0 {
      ShiftsInjective(Shift(u), Shift(v), n - 1);
      ShiftInjective(u, v);
    }
  }

  lemma XorByteInjective(c: bv32, d: bv32, x: byte, y: byte)
    requires c ^ (x as bv32) == d ^ (y as bv32)
    ensures c == d <==> x == y
  {
    XorCancels(c, d, x as bv32, y as bv32);
    assert x as bv32 == y as bv32 <==> x == y;
  }

  /** Two words that agree after one xor each are equal exactly when the
      two masks are. */
  lemma XorCancels(c: bv32, d: bv32, m: bv32, n: bv32)
    requires c ^ m == d ^ n
    ensures c == d <==> m == n
  {
    XorSelfInverse(c, m);
    XorSelfInverse(d, n);
    if c == d {
      assert m == (c ^ m) ^ c == (d ^ n) ^ d == n;
    }
    if m == n {
      assert c == (c ^ m) ^ m == (d ^ n) ^ n == d;
    }
  }

  /** Xor with the same word twice gives the word back. */
  lemma XorSelfInverse(c: bv32, m: bv32)
    ensures (c ^ m) ^ m == c && (c ^ m) ^ c == m
  {
  }

  /** Feeding one byte is one-to-one in the register and in the byte. */
  lemma UpdateByteInjective(c: bv32, d: bv32, x: byte, y: byte)
    requires UpdateByte(c, x) == UpdateByte(d, y)
    ensures c == d <==> x == y
  {
    ShiftsInjective(c ^ (x as bv32), d ^ (y as bv32), 8);
    XorByteInjective(c, d, x, y);
  }

  /** Two different registers fed the same bytes never meet again. */
  lemma {:induction false} RegisterInjective(c: bv32, d: bv32, s: seq<byte>)
    requires Register(c, s) == Register(d, s)
    ensures c == d
    decreases |s|
  {
    if s != [] {
      RegisterInjective(UpdateByte(c, s[0]), UpdateByte(d, s[0]), s[1..]);
      UpdateByteInjective(c, d, s[0], s[0]);
    }
  }

  lemma {:induction false} RegisterAppend(c: bv32, s: seq<byte>, t: seq<byte>)
    ensures Register(c, s + t) == Register(Register(c, s), t)
    decreases |s|
  {
    if s != [] {
      assert (s + t)[0] == s[0] && (s + t)[1..] == s[1..] + t;
      RegisterAppend(UpdateByte(c, s[0]), s[1..], t);
    } else {
      assert s + t == t;
    }
  }

  /** Changing any one byte of a message to any other value (a single
      flipped bit included) changes its CRC-32. */
  lemma SingleByteErrorDetected(s: seq<byte>, i: nat, x: byte)
    requires i < |s| && x != s[i]
    ensures Crc32(s[i := x]) != Crc32(s)
  {
    var s' := s[i := x];
    var prefix, suffix := s[..i], s[i + 1..];
    assert s == prefix + [s[i]] + suffix;
    assert s' == prefix + [x] + suffix;
    var r := Register(0xFFFF_FFFF, prefix);
    RegisterAppend(0xFFFF_FFFF, prefix + [s[i]], suffix);
    RegisterAppend(0xFFFF_FFFF, prefix, [s[i]]);
    RegisterAppend(0xFFFF_FFFF, prefix + [x], suffix);
    RegisterAppend(0xFFFF_FFFF, prefix, [x]);
    assert Register(r, [s[i]]) == UpdateByte(r, s[i]);
    assert Register(r, [x]) == UpdateByte(r, x);
    if Crc32(s') == Crc32(s) {
      RegisterInjective(UpdateByte(r, x), UpdateByte(r, s[i]), suffix);
      UpdateByteInjective(r, r, x, s[i]);
    }
  }

  // Each assertion below feeds one byte, last byte first.

  /** The standard check value of CRC-32: the nine ASCII digits "123456789". */
  lemma CheckValue()
    ensures Crc32([0x31, 0x32, 0x33, 0x34, 0x35, 0x36, 0x37, 0x38, 0x39]) == 0xCBF4_3926
  {
    assert Register(0x651F_2550, [0x39]) == Register(0x340B_C6D9, []);
    assert Register(0xAFFC_9660, [0x38, 0x39]) == Register(0x651F_2550, [0x39]);
    assert Register(0xF68D_2C9E, [0x37, 0x38, 0x39]) == Register(0xAFFC_9660, [0x38, 0x39]);
    assert Register(0x340A_C5E3, [0x36, 0x37, 0x38, 0x39]) == Register(0xF68D_2C9E, [0x37, 0x38, 0x39]);
    assert Register(0x641C_1F5C, [0x35, 0x36, 0x37, 0x38, 0x39]) == Register(0x340A_C5E3, [0x36, 0x37, 0x38, 0x39]);
    assert Register(0x77B7_9C2D, [0x34, 0x35, 0x36, 0x37, 0x38, 0x39]) == Register(0x641C_1F5C, [0x35, 0x36, 0x37, 0x38, 0x39]);
    assert Register(0xB0AC_BB32, [0x33, 0x34, 0x35, 0x36, 0x37, 0x38, 0x39]) == Register(0x77B7_9C2D, [0x34, 0x35, 0x36, 0x37, 0x38, 0x39]);
    assert Register(0x7C23_1048, [0x32, 0x33, 0x34, 0x35, 0x36, 0x37, 0x38, 0x39]) == Register(0xB0AC_BB32, [0x33, 0x34, 0x35, 0x36, 0x37, 0x38, 0x39]);
    assert Register(0xFFFF_FFFF, [0x31, 0x32, 0x33, 0x34, 0x35, 0x36, 0x37, 0x38, 0x39]) == Register(0x7C23_1048, [0x32, 0x33, 0x34, 0x35, 0x36, 0x37, 0x38, 0x39]);
  }

  /** The checksum every IEND chunk carries: CRC-32 of the tag "IEND". */
  lemma IendChecksum()
    ensures Crc32([0x49, 0x45, 0x4E, 0x44]) == 0xAE42_6082
  {
    assert Register(0x639F_4775, [0x44]) == Register(0x51BD_9F7D, []);
    assert Register(0x992B_AC53, [0x4E, 0x44]) == Register(0x639F_4775, [0x44]);
    assert Register(0x22FD_E946, [0x45, 0x4E, 0x44]) == Register(0x992B_AC53, [0x4E, 0x44]);
    assert Register(0xFFFF_FFFF, [0x49, 0x45, 0x4E, 0x44]) == Register(0x22FD_E946, [0x45, 0x4E, 0x44]);
  }
}

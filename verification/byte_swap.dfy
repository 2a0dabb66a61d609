/** Byte-order reversal and sign extension on fixed-width integers.

    Each ByteSwapN reverses the order of the N/8 bytes of its argument; each
    CondByteSwapN{BE,LE} converts between the host's native byte order and a
    fixed one, so that it is a reversal on a host of the other byte order and
    the identity otherwise; each SignExtendN reads the low N bits of its
    argument as a two's-complement number and widens it to the full integer
    width. Results that are signed in C++ (int32_t, int64_t) are modelled by
    their two's-complement bit pattern, which is what the tests compare.

    The host byte order, fixed at compile time in C++, is a parameter here.
 */
module ByteSwap {
  import opened Bytes

  /** Byte order of the host on which the code runs. */
  datatype Endianness = LittleEndian | BigEndian

  /** The bytes a host stores in memory for an n-byte native integer x. */
  function NativeBytes(host: Endianness, x: nat, n: nat): (r: seq<uint8>)
    ensures |r| == n
  {
    match host
    case LittleEndian => ToLE(x, n)
    case BigEndian => ToBE(x, n)
  }

  /** The native integer a host reads from the bytes b in memory. */
  function NativeValue(host: Endianness, b: seq<uint8>): (r: nat)
    ensures r < Pow256(|b|)
  {
    match host
    case LittleEndian => FromLE(b)
    case BigEndian => FromBE(b)
  }

  /** Storing a native integer that fits in n bytes and reading it back
      gives the same integer, whatever the host. */
  lemma NativeRoundTrip(host: Endianness, x: nat, n: nat)
    requires x < Pow256(n)
    ensures NativeValue(host, NativeBytes(host, x, n)) == x
  {
    DivModUnique(x, Pow256(n), x, 0);
    match host
    case LittleEndian => FromToLE(x, n);
    case BigEndian => FromToBE(x, n);
  }

  // ---------------------------------------------------------------------
  // Unconditional swaps. The bodies follow the shift-and-mask formulation:
  // (x >> 8k) & 0xFF is x / 256^k % 256 and y << 8k is y * 256^k.
  // ---------------------------------------------------------------------

  function ByteSwap16(x: uint16): (r: uint16)
  {
    (x % 0x100) * 0x100 + x / 0x100
  }

  /** Swaps the three low-order bytes of x; the high-order byte of the
      result is zero, whatever the high-order byte of x. */
  function ByteSwap24(x: uint32): (r: uint32)
  {
    (x % 0x100) * 0x1_0000 + (x / 0x100 % 0x100) * 0x100 + x / 0x1_0000 % 0x100
  }

  function ByteSwap32(x: uint32): (r: uint32)
  {
    (x % 0x100) * 0x100_0000
    + (x / 0x100 % 0x100) * 0x1_0000
    + (x / 0x1_0000 % 0x100) * 0x100
    + x / 0x100_0000
  }

  function ByteSwap64(x: uint64): (r: uint64)
  {
    (x % 0x100) * 0x100_0000_0000_0000
    + (x / 0x100 % 0x100) * 0x1_0000_0000_0000
    + (x / 0x1_0000 % 0x100) * 0x100_0000_0000
    + (x / 0x100_0000 % 0x100) * 0x1_0000_0000
    + (x / 0x1_0000_0000 % 0x100) * 0x100_0000
    + (x / 0x100_0000_0000 % 0x100) * 0x1_0000
    + (x / 0x1_0000_0000_0000 % 0x100) * 0x100
    + x / 0x100_0000_0000_0000
  }

  // ---------------------------------------------------------------------
  // Byte-level characterisation: byte i of the result is byte n-1-i of
  // the argument.
  // ---------------------------------------------------------------------

  lemma ByteSwap16Reverses(x: uint16)
    ensures ToLE(ByteSwap16(x), 2) == Reverse(ToLE(x, 2))
  {
  }

  lemma ByteSwap24Reverses(x: uint32)
    ensures ToLE(ByteSwap24(x), 3) == Reverse(ToLE(x, 3))
    ensures ByteSwap24(x) < 0x100_0000
  {
    var b0, b1, b2 := x % 0x100, x / 0x100 % 0x100, x / 0x1_0000 % 0x100;
    ToLE3(x);
    assert Reverse(ToLE(x, 3)) == [b2, b1, b0];
    assert ByteSwap24(x) == b2 + 0x100 * b1 + 0x1_0000 * b0;
    ToLE3Of(b2, b1, b0);
  }

  lemma ByteSwap32Reverses(x: uint32)
    ensures ToLE(ByteSwap32(x), 4) == Reverse(ToLE(x, 4))
  {
    var b0, b1, b2, b3 := x % 0x100, x / 0x100 % 0x100, x / 0x1_0000 % 0x100, x / 0x100_0000;
    ToLE4(x);
    assert Reverse(ToLE(x, 4)) == [b3, b2, b1, b0];
    assert ByteSwap32(x) == b3 + 0x100 * b2 + 0x1_0000 * b1 + 0x100_0000 * b0;
    ToLE4Of(b3, b2, b1, b0);
  }

  /** The eight bytes of the little-endian image of a 64-bit value. */
  lemma LE8(x: uint64)
    ensures ToLE(x, 8)[0] == x % 0x100
    ensures ToLE(x, 8)[1] == x / 0x100 % 0x100
    ensures ToLE(x, 8)[2] == x / 0x1_0000 % 0x100
    ensures ToLE(x, 8)[3] == x / 0x100_0000 % 0x100
    ensures ToLE(x, 8)[4] == x / 0x1_0000_0000 % 0x100
    ensures ToLE(x, 8)[5] == x / 0x100_0000_0000 % 0x100
    ensures ToLE(x, 8)[6] == x / 0x1_0000_0000_0000 % 0x100
    ensures ToLE(x, 8)[7] == x / 0x100_0000_0000_0000
  {
    Pow256Values();
    ToLEDigit(x, 8, 0);
    ToLEDigit(x, 8, 1);
    ToLEDigit(x, 8, 2);
    ToLEDigit(x, 8, 3);
    ToLEDigit(x, 8, 4);
    ToLEDigit(x, 8, 5);
    ToLEDigit(x, 8, 6);
    ToLEDigit(x, 8, 7);
  }

  lemma ByteSwap64Reverses(x: uint64)
    ensures ToLE(ByteSwap64(x), 8) == Reverse(ToLE(x, 8))
  {
    var b0, b1, b2, b3 := x % 0x100, x / 0x100 % 0x100, x / 0x1_0000 % 0x100, x / 0x100_0000 % 0x100;
    var b4, b5, b6, b7 := x / 0x1_0000_0000 % 0x100, x / 0x100_0000_0000 % 0x100,
                          x / 0x1_0000_0000_0000 % 0x100, x / 0x100_0000_0000_0000;
    var s := ToLE(x, 8);
    assert Reverse(s) == [b7, b6, b5, b4, b3, b2, b1, b0] by {
      Reverse8(s);
      LE8(x);
    }
    assert ByteSwap64(x) == b7 + 0x100 * b6 + 0x1_0000 * b5 + 0x100_0000 * b4
                            + 0x1_0000_0000 * b3 + 0x100_0000_0000 * b2
                            + 0x1_0000_0000_0000 * b1 + 0x100_0000_0000_0000 * b0;
    ToLE8Of(b7, b6, b5, b4, b3, b2, b1, b0);
  }

  /** Swapping twice gives back the original value. */
  lemma ByteSwap16Involutive(x: uint16)
    ensures ByteSwap16(ByteSwap16(x)) == x
  {
    var z := ByteSwap16(ByteSwap16(x));
    assert ToLE(z, 2) == ToLE(x, 2) by {
      ByteSwap16Reverses(x);
      ByteSwap16Reverses(ByteSwap16(x));
      ReverseReverse(ToLE(x, 2));
    }
    Pow256Values();
    ToLEInjective(z, x, 2);
  }

  /** Swapping twice gives back a value below 2^24; above, the high-order
      byte is lost. */
  lemma ByteSwap24Involutive(x: uint32)
    ensures ByteSwap24(ByteSwap24(x)) == x % 0x100_0000
  {
    var y := ByteSwap24(x);
    var z := ByteSwap24(y);
    assert ToLE(z, 3) == ToLE(x, 3) by {
      ByteSwap24Reverses(x);
      ByteSwap24Reverses(y);
      ReverseReverse(ToLE(x, 3));
    }
    assert z < 0x100_0000 by {
      ByteSwap24Reverses(y);
    }
    Pow256Values();
    ToLELowBytes(z, x, 3);
  }

  lemma ByteSwap32Involutive(x: uint32)
    ensures ByteSwap32(ByteSwap32(x)) == x
  {
    var z := ByteSwap32(ByteSwap32(x));
    assert ToLE(z, 4) == ToLE(x, 4) by {
      ByteSwap32Reverses(x);
      ByteSwap32Reverses(ByteSwap32(x));
      ReverseReverse(ToLE(x, 4));
    }
    Pow256Values();
    ToLEInjective(z, x, 4);
  }

  lemma ByteSwap64Involutive(x: uint64)
    ensures ByteSwap64(ByteSwap64(x)) == x
  {
    var y := ByteSwap64(x);
    var z := ByteSwap64(y);
    assert ToLE(z, 8) == ToLE(x, 8) by {
      ByteSwap64Reverses(x);
      ByteSwap64Reverses(y);
      ReverseReverse(ToLE(x, 8));
    }
    Pow256Values();
    ToLEInjective(z, x, 8);
  }

  // ---------------------------------------------------------------------
  // Conditional swaps: convert between native order and a fixed order.
  // ---------------------------------------------------------------------

  /** Converts between native and big-endian order: the host's memory
      image of the result is the big-endian image of x. */
  function CondByteSwap16BE(host: Endianness, x: uint16): (r: uint16)
    ensures NativeBytes(host, r, 2) == ToBE(x, 2)
  {
    match host
    case LittleEndian => ByteSwap16Reverses(x); ByteSwap16(x)
    case BigEndian => x
  }

  /** Converts between native and little-endian order: the host's memory
      image of the result is the little-endian image of x. */
  function CondByteSwap16LE(host: Endianness, x: uint16): (r: uint16)
    ensures NativeBytes(host, r, 2) == ToLE(x, 2)
  {
    match host
    case LittleEndian => x
    case BigEndian => ByteSwap16Reverses(x); ReverseReverse(ToLE(x, 2)); ByteSwap16(x)
  }

  function CondByteSwap32BE(host: Endianness, x: uint32): (r: uint32)
    ensures NativeBytes(host, r, 4) == ToBE(x, 4)
  {
    match host
    case LittleEndian => ByteSwap32Reverses(x); ByteSwap32(x)
    case BigEndian => x
  }

  function CondByteSwap32LE(host: Endianness, x: uint32): (r: uint32)
    ensures NativeBytes(host, r, 4) == ToLE(x, 4)
  {
    match host
    case LittleEndian => x
    case BigEndian => ByteSwap32Reverses(x); ReverseReverse(ToLE(x, 4)); ByteSwap32(x)
  }

  function CondByteSwap64BE(host: Endianness, x: uint64): (r: uint64)
    ensures NativeBytes(host, r, 8) == ToBE(x, 8)
  {
    match host
    case LittleEndian => ByteSwap64Reverses(x); ByteSwap64(x)
    case BigEndian => x
  }

  function CondByteSwap64LE(host: Endianness, x: uint64): (r: uint64)
    ensures NativeBytes(host, r, 8) == ToLE(x, 8)
  {
    match host
    case LittleEndian => x
    case BigEndian => ByteSwap64Reverses(x); ReverseReverse(ToLE(x, 8)); ByteSwap64(x)
  }

  /** A conditional swap is its own inverse: converting to a fixed order and
      back gives the native value again. */
  lemma CondByteSwap16Involutive(host: Endianness, x: uint16)
    ensures CondByteSwap16BE(host, CondByteSwap16BE(host, x)) == x
    ensures CondByteSwap16LE(host, CondByteSwap16LE(host, x)) == x
  {
    ByteSwap16Involutive(x);
  }

  lemma CondByteSwap32Involutive(host: Endianness, x: uint32)
    ensures CondByteSwap32BE(host, CondByteSwap32BE(host, x)) == x
    ensures CondByteSwap32LE(host, CondByteSwap32LE(host, x)) == x
  {
    ByteSwap32Involutive(x);
  }

  lemma CondByteSwap64Involutive(host: Endianness, x: uint64)
    ensures CondByteSwap64BE(host, CondByteSwap64BE(host, x)) == x
    ensures CondByteSwap64LE(host, CondByteSwap64LE(host, x)) == x
  {
    ByteSwap64Involutive(x);
  }

  // ---------------------------------------------------------------------
  // Sign extension. A value is read as an N-bit two's-complement number
  // when it is below 2^N: Signed(bits, 2^N).
  // ---------------------------------------------------------------------

  /** The number whose two's-complement image, modulo the given power of
      two, is bits. */
  function Signed(bits: nat, modulus: nat): (v: int)
    requires bits < modulus
    ensures -(modulus as int) <= 2 * v < modulus
    ensures (v - bits) % modulus == 0
  {
    if 2 * bits < modulus then
      DivModUnique(0, modulus, 0, 0);
      bits
    else
      DivModUnique(-(modulus as int), modulus, 0, -1);
      bits - modulus
  }

  /** The sign bit of an N-bit field, bit N-1 of x with h == 2^(N-1), is
      clear exactly when the field's value is below h. */
  lemma SignBit(x: nat, h: nat)
    requires h > 0
    ensures x / h % 2 == 0 <==> x % (2 * h) < h
  {
    var q, lo := x / (2 * h), x % (2 * h);
    assert x == lo + (2 * h) * q;
    if lo < h {
      assert x == lo + h * (2 * q);
      DivModUnique(x, h, lo, 2 * q);
      DivModUnique(2 * q, 2, 0, q);
    } else {
      assert x == (lo - h) + h * (2 * q + 1);
      DivModUnique(x, h, lo - h, 2 * q + 1);
      DivModUnique(2 * q + 1, 2, 1, q);
    }
  }

  /** Sign extension from an N-bit field (h == 2^(N-1), p == 2^N) to a word
      of m == p * (k + 1) values: the field is kept, and the high-order
      digit is k, all ones, exactly when the sign bit is set. Read as two's
      complement, the word and the field have the same value. */
  lemma SignExtendFacts(x: nat, h: nat, k: nat, m: nat, r: nat)
    requires h > 0 && m == 2 * h * k + 2 * h
    requires r == if x / h % 2 == 0 then x % (2 * h) else x % (2 * h) + 2 * h * k
    ensures r % (2 * h) == x % (2 * h)
    ensures r / (2 * h) == if x % (2 * h) < h then 0 else k
    ensures r < m
    ensures Signed(r, m) == Signed(x % (2 * h), 2 * h)
  {
    var p, lo := 2 * h, x % (2 * h);
    SignBit(x, h);
    if lo < h {
      DivModUnique(r, p, lo, 0);
    } else {
      DivModUnique(r, p, lo, k);
    }
  }

  /** Keeps the low 24 bits of x and sets the 8 high-order bits to copies
      of bit 23. */
  function SignExtend24(x: uint32): (r: uint32)
    ensures r % 0x100_0000 == x % 0x100_0000
    ensures r / 0x100_0000 == if x % 0x100_0000 < 0x80_0000 then 0x00 else 0xFF
    ensures Signed(r, 0x1_0000_0000) == Signed(x % 0x100_0000, 0x100_0000)
  {
    var r := if x / 0x80_0000 % 2 == 0 then x % 0x100_0000 else x % 0x100_0000 + 0xFF00_0000;
    SignExtendFacts(x, 0x80_0000, 0xFF, 0x1_0000_0000, r);
    r
  }

  /** Keeps the low 40 bits of x and sets the 24 high-order bits to copies
      of bit 39. */
  function SignExtend40(x: uint64): (r: uint64)
    ensures r % 0x100_0000_0000 == x % 0x100_0000_0000
    ensures r / 0x100_0000_0000 == if x % 0x100_0000_0000 < 0x80_0000_0000 then 0x00_0000 else 0xFF_FFFF
    ensures Signed(r, 0x1_0000_0000_0000_0000) == Signed(x % 0x100_0000_0000, 0x100_0000_0000)
  {
    var r := if x / 0x80_0000_0000 % 2 == 0 then x % 0x100_0000_0000
             else x % 0x100_0000_0000 + 0xFFFF_FF00_0000_0000;
    SignExtendFacts(x, 0x80_0000_0000, 0xFF_FFFF, 0x1_0000_0000_0000_0000, r);
    r
  }

  /** Keeps the low 48 bits of x and sets the 16 high-order bits to copies
      of bit 47. */
  function SignExtend48(x: uint64): (r: uint64)
    ensures r % 0x1_0000_0000_0000 == x % 0x1_0000_0000_0000
    ensures r / 0x1_0000_0000_0000 == if x % 0x1_0000_0000_0000 < 0x8000_0000_0000 then 0x0000 else 0xFFFF
    ensures Signed(r, 0x1_0000_0000_0000_0000) == Signed(x % 0x1_0000_0000_0000, 0x1_0000_0000_0000)
  {
    var r := if x / 0x8000_0000_0000 % 2 == 0 then x % 0x1_0000_0000_0000
             else x % 0x1_0000_0000_0000 + 0xFFFF_0000_0000_0000;
    SignExtendFacts(x, 0x8000_0000_0000, 0xFFFF, 0x1_0000_0000_0000_0000, r);
    r
  }

  // ---------------------------------------------------------------------
  // The unit-test vectors.
  // ---------------------------------------------------------------------

  lemma SignExtend24Vectors()
    ensures SignExtend24(0xAA72_3456) == 0x0072_3456
    ensures SignExtend24(0xAA92_3456) == 0xFF92_3456
  {
  }

  lemma SignExtend40Vectors()
    ensures SignExtend40(0xAAAA_AA72_3456_789A) == 0x0000_0072_3456_789A
    ensures SignExtend40(0xAAAA_AAA2_3456_789A) == 0xFFFF_FFA2_3456_789A
  {
  }

  lemma SignExtend48Vectors()
    ensures SignExtend48(0xAAAA_7234_5678_9ABC) == 0x0000_7234_5678_9ABC
    ensures SignExtend48(0xAAAA_A234_5678_9ABC) == 0xFFFF_A234_5678_9ABC
  {
  }

  lemma ByteSwap16Vectors()
    ensures ByteSwap16(0x1234) == 0x3412
  {
  }

  lemma ByteSwap24Vectors()
    ensures ByteSwap24(0x12_3456) == 0x56_3412
    ensures ByteSwap24(0xAB_CDEF) == 0xEF_CDAB
  {
    var x, y := 0x12_3456, 0xAB_CDEF;
    assert x % 0x100 == 0x56 && x / 0x100 % 0x100 == 0x34 && x / 0x1_0000 % 0x100 == 0x12;
    assert y % 0x100 == 0xEF && y / 0x100 % 0x100 == 0xCD && y / 0x1_0000 % 0x100 == 0xAB;
  }

  lemma ByteSwap32Vectors()
    ensures ByteSwap32(0x1234_5678) == 0x7856_3412
  {
    var x := 0x1234_5678;
    assert x % 0x100 == 0x78 && x / 0x100 % 0x100 == 0x56;
    assert x / 0x1_0000 % 0x100 == 0x34 && x / 0x100_0000 == 0x12;
  }

  lemma ByteSwap64Vectors()
    ensures ByteSwap64(0x0123_4567_89AB_CDEF) == 0xEFCD_AB89_6745_2301
  {
    var x := 0x0123_4567_89AB_CDEF;
    assert x % 0x100 == 0xEF && x / 0x100 % 0x100 == 0xCD;
    assert x / 0x1_0000 % 0x100 == 0xAB && x / 0x100_0000 % 0x100 == 0x89;
    assert x / 0x1_0000_0000 % 0x100 == 0x67 && x / 0x100_0000_0000 % 0x100 == 0x45;
    assert x / 0x1_0000_0000_0000 % 0x100 == 0x23 && x / 0x100_0000_0000_0000 == 0x01;
  }

  /** On a little-endian host the big-endian conversions swap and the
      little-endian ones do not; on a big-endian host the reverse. */
  lemma CondByteSwap16Vectors(host: Endianness)
    ensures CondByteSwap16BE(host, 0x1234) == if host == LittleEndian then 0x3412 else 0x1234
    ensures CondByteSwap16LE(host, 0x1234) == if host == LittleEndian then 0x1234 else 0x3412
  {
    ByteSwap16Vectors();
  }

  lemma CondByteSwap32Vectors(host: Endianness)
    ensures CondByteSwap32BE(host, 0x1234_5678) == if host == LittleEndian then 0x7856_3412 else 0x1234_5678
    ensures CondByteSwap32LE(host, 0x1234_5678) == if host == LittleEndian then 0x1234_5678 else 0x7856_3412
  {
    ByteSwap32Vectors();
  }

  lemma CondByteSwap64Vectors(host: Endianness)
    ensures CondByteSwap64BE(host, 0x0123_4567_89AB_CDEF)
            == if host == LittleEndian then 0xEFCD_AB89_6745_2301 else 0x0123_4567_89AB_CDEF
    ensures CondByteSwap64LE(host, 0x0123_4567_89AB_CDEF)
            == if host == LittleEndian then 0x0123_4567_89AB_CDEF else 0xEFCD_AB89_6745_2301
  {
    ByteSwap64Vectors();
  }
}

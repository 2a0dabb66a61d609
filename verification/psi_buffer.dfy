/** The part of the PSI serialisation buffer that descriptor payloads use:
    32-bit unsigned fields, written and read most significant byte first as
    in every MPEG PSI structure, and raw byte blocks.

    A write buffer is the sequence of bytes written so far; a read buffer is
    the sequence of bytes not yet read. The buffer's bit-level cursor and its
    error flags are not modelled: readers check the length first.
 */
module PsiBuffer {
  import opened Bytes
  import opened ByteSwap

  /** The four bytes written for a 32-bit field. */
  function PutUInt32(x: uint32): (r: seq<uint8>)
    ensures r == ToBE(x, 4)
    ensures FromBE(r) == x
  {
    var r := [x / 0x100_0000, x / 0x1_0000 % 0x100, x / 0x100 % 0x100, x % 0x100];
    assert ToBE(x, 4) == r by {
      ToLE4(x);
      Reverse4(ToLE(x, 4));
    }
    assert FromBE(ToBE(x, 4)) == x by {
      Pow256Values();
      DivModUnique(x, Pow256(4), x, 0);
      FromToBE(x, 4);
    }
    r
  }

  /** The 32-bit field at the start of a read buffer holding at least four
      bytes. */
  function GetUInt32(s: seq<uint8>): (r: uint32)
    requires |s| >= 4
    ensures r == FromBE(s[..4])
  {
    var r: int := s[0] as int * 0x100_0000 + s[1] as int * 0x1_0000 + s[2] as int * 0x100 + s[3] as int;
    var t := Reverse(s[..4]);
    Reverse4(s[..4]);
    var h2: int := s[1] as int + 0x100 * s[0] as int;
    var h3: int := s[2] as int + 0x100 * h2;
    assert r == s[3] as int + 0x100 * h3;
    assert ToLE(r, 4) == t by {
      ToLECons(s[0], 0, 0);
      assert ToLE(s[0], 1) == [s[0]];
      ToLECons(s[1], s[0], 1);
      assert ToLE(h2, 2) == [s[1], s[0]];
      ToLECons(s[2], h2, 2);
      assert ToLE(h3, 3) == [s[2], s[1], s[0]];
      ToLECons(s[3], h3, 3);
    }
    ToFromLE(t);
    Pow256Values();
    ToLEInjective(r, FromLE(t), 4);
    r
  }

  /** putBytes appends the block to what was written. */
  function PutBytes(buf: seq<uint8>, data: seq<uint8>): (r: seq<uint8>)
    ensures |r| == |buf| + |data|
    ensures r[..|buf|] == buf && r[|buf|..] == data
  {
    buf + data
  }

  /** getBytes with no size reads every byte from the read position pos to
      the end of the buffer. */
  function GetBytes(s: seq<uint8>, pos: nat): (r: seq<uint8>)
    requires pos <= |s|
    ensures |r| == |s| - pos
    ensures forall i :: 0 <= i < |r| ==> r[i] == s[pos + i]
  {
    s[pos..]
  }

  /** Reading the rest of a buffer after what preceded a block gives back
      the block appended there. */
  lemma GetPutBytes(buf: seq<uint8>, data: seq<uint8>)
    ensures GetBytes(PutBytes(buf, data), |buf|) == data
  {
  }

  /** A buffer is what precedes the read position followed by what
      getBytes reads from there. */
  lemma PutGetBytes(s: seq<uint8>, pos: nat)
    requires pos <= |s|
    ensures PutBytes(s[..pos], GetBytes(s, pos)) == s
  {
  }

  /** Reading back a written 32-bit field gives the value written, whatever
      follows it. */
  lemma GetPutUInt32(x: uint32, rest: seq<uint8>)
    ensures GetUInt32(PutUInt32(x) + rest) == x
  {
    assert (PutUInt32(x) + rest)[..4] == PutUInt32(x);
  }

  /** Writing back a field that was read reproduces its four bytes. */
  lemma PutGetUInt32(s: seq<uint8>)
    requires |s| >= 4
    ensures PutUInt32(GetUInt32(s)) == s[..4]
  {
    ToFromBE(s[..4]);
  }

  /** The big-endian image of x is what the host stores in memory for
      CondByteSwap32BE(x): on a little-endian host, ByteSwap32(x) stored
      natively. */
  lemma PutUInt32IsNativeStore(host: Endianness, x: uint32)
    ensures PutUInt32(x) == NativeBytes(host, CondByteSwap32BE(host, x), 4)
    ensures host == LittleEndian ==> PutUInt32(x) == ToLE(ByteSwap32(x), 4)
  {
  }

  /** Reading a big-endian field is loading the four bytes natively and
      converting with CondByteSwap32BE. */
  lemma GetUInt32IsNativeLoad(host: Endianness, s: seq<uint8>)
    requires |s| >= 4
    ensures GetUInt32(s) == CondByteSwap32BE(host, NativeValue(host, s[..4]))
  {
    var w := GetUInt32(s);
    var u := CondByteSwap32BE(host, w);
    assert NativeBytes(host, u, 4) == s[..4] by {
      ToFromBE(s[..4]);
    }
    Pow256Values();
    NativeRoundTrip(host, u, 4);
    CondByteSwap32Involutive(host, w);
  }
}

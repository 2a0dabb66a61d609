/** Fixed-width unsigned integers and their byte images.

    An n-byte field holds a value in [0, 256^n). Its little-endian image lists
    the base-256 digits least significant first; its big-endian image, the
    convention of every multi-byte field in MPEG PSI, lists them most
    significant first. All values are bounded naturals: the C++ uintN_t types
    become subset types of int, and shifts and masks become division,
    remainder and multiplication by powers of two.
 */
module Bytes {

  type uint8 = x: int | 0 <= x < 0x100
  type uint16 = x: int | 0 <= x < 0x1_0000
  type uint32 = x: int | 0 <= x < 0x1_0000_0000
  type uint64 = x: int | 0 <= x < 0x1_0000_0000_0000_0000

  /** 256^n, the number of distinct values of an n-byte field. */
  function Pow256(n: nat): (r: nat)
    ensures r > 0
    ensures n > 0 ==> r >= 0x100
  {
    if n == 0 then 1 else 0x100 * Pow256(n - 1)
  }

  lemma Pow256Values()
    ensures Pow256(1) == 0x100 && Pow256(2) == 0x1_0000 && Pow256(3) == 0x100_0000
    ensures Pow256(4) == 0x1_0000_0000 && Pow256(5) == 0x100_0000_0000
    ensures Pow256(6) == 0x1_0000_0000_0000 && Pow256(7) == 0x100_0000_0000_0000
    ensures Pow256(8) == 0x1_0000_0000_0000_0000
  {
  }

  /** The elements of s in the opposite order. */
  function Reverse<T>(s: seq<T>): (r: seq<T>)
    ensures |r| == |s|
    ensures forall i :: 0 <= i < |s| ==> r[i] == s[|s| - 1 - i]
  {
    if |s| == 0 then [] else Reverse(s[1..]) + [s[0]]
  }

  lemma ReverseReverse<T>(s: seq<T>)
    ensures Reverse(Reverse(s)) == s
  {
  }

  lemma Reverse4<T>(s: seq<T>)
    requires |s| == 4
    ensures Reverse(s) == [s[3], s[2], s[1], s[0]]
  {
    var r := Reverse(s);
    assert r[0] == s[3] && r[1] == s[2] && r[2] == s[1] && r[3] == s[0];
  }

  lemma Reverse8<T>(s: seq<T>)
    requires |s| == 8
    ensures Reverse(s) == [s[7], s[6], s[5], s[4], s[3], s[2], s[1], s[0]]
  {
    var r := Reverse(s);
    assert r[0] == s[7] && r[1] == s[6] && r[2] == s[5] && r[3] == s[4];
    assert r[4] == s[3] && r[5] == s[2] && r[6] == s[1] && r[7] == s[0];
  }

  /** The n low-order base-256 digits of x, least significant first.
      Digits above position n are dropped, as a store into an n-byte
      field drops them. */
  function ToLE(x: nat, n: nat): (r: seq<uint8>)
    ensures |r| == n
  {
    if n == 0 then [] else [x % 0x100] + ToLE(x / 0x100, n - 1)
  }

  /** The value of a little-endian byte image. */
  function FromLE(s: seq<uint8>): (r: nat)
    ensures r < Pow256(|s|)
  {
    if |s| == 0 then 0 else s[0] + 0x100 * FromLE(s[1..])
  }

  /** The n low-order base-256 digits of x, most significant first. */
  function ToBE(x: nat, n: nat): (r: seq<uint8>)
    ensures |r| == n
  {
    Reverse(ToLE(x, n))
  }

  /** The value of a big-endian byte image. */
  function FromBE(s: seq<uint8>): (r: nat)
    ensures r < Pow256(|s|)
  {
    FromLE(Reverse(s))
  }

  // ---------------------------------------------------------------------
  // Division facts. The solver does not reason well about division by a
  // symbolic divisor; everything below goes through DivModUnique.
  // ---------------------------------------------------------------------

  lemma MulAtLeast(p: int, k: int)
    requires p > 0 && k >= 1
    ensures p * k >= p
  {
  }

  /** Quotient and remainder are the unique pair with x == lo + p * hi and
      0 <= lo < p. */
  lemma DivModUnique(x: int, p: int, lo: int, hi: int)
    requires 0 <= lo < p && x == lo + p * hi
    ensures x / p == hi && x % p == lo
  {
    var q, r := x / p, x % p;
    assert x == p * q + r && 0 <= r < p;
    assert p * (q - hi) == lo - r;
    assert p * (hi - q) == r - lo;
    if q > hi {
      MulAtLeast(p, q - hi);
    } else if q < hi {
      MulAtLeast(p, hi - q);
    }
  }

  /** Dividing by a, then by b, is dividing by a * b. */
  lemma DivDiv(x: nat, a: nat, b: nat)
    requires a > 0 && b > 0
    ensures x / a / b == x / (a * b)
  {
    var q1, r1 := x / a, x % a;
    var q2, r2 := q1 / b, q1 % b;
    assert r2 <= b - 1;
    assert a * r2 <= a * (b - 1) by {
      MulMonotone(a, r2, b - 1);
    }
    assert a * (b - 1) == a * b - a;
    assert x == (a * b) * q2 + (a * r2 + r1) by {
      assert x == a * q1 + r1;
      assert q1 == b * q2 + r2;
      assert a * (b * q2 + r2) == (a * b) * q2 + a * r2;
    }
    DivModUnique(x, a * b, a * r2 + r1, q2);
  }

  lemma MulMonotone(a: nat, u: nat, v: nat)
    requires u <= v
    ensures a * u <= a * v
  {
    assert a * v - a * u == a * (v - u);
  }

  // ---------------------------------------------------------------------
  // Little-endian images
  // ---------------------------------------------------------------------

  /** Byte k of the little-endian image of x is the k-th base-256 digit. */
  lemma {:induction false} ToLEDigit(x: nat, n: nat, k: nat)
    requires k < n
    ensures ToLE(x, n)[k] == x / Pow256(k) % 0x100
  {
    if k > 0 {
      ToLEDigit(x / 0x100, n - 1, k - 1);
      DivDiv(x, 0x100, Pow256(k - 1));
    }
  }

  /** Prepending a low byte multiplies the rest of the value by 256. */
  lemma ToLECons(lo: uint8, hi: nat, n: nat)
    ensures ToLE(lo + 0x100 * hi, n + 1) == [lo] + ToLE(hi, n)
  {
    DivModUnique(lo + 0x100 * hi, 0x100, lo, hi);
  }

  /** The remainder modulo 256 * p splits into the low byte and the
      remainder of the rest modulo p. */
  lemma ModSplit(x: nat, p: nat)
    requires p > 0
    ensures x % (0x100 * p) == x % 0x100 + 0x100 * (x / 0x100 % p)
  {
    var q := x / 0x100;
    DivDiv(x, 0x100, p);
    assert x == x % 0x100 + 0x100 * (q % p) + (0x100 * p) * (q / p) by {
      assert q == q % p + p * (q / p);
      assert 0x100 * (p * (q / p)) == (0x100 * p) * (q / p);
    }
    DivModUnique(x, 0x100 * p, x % 0x100 + 0x100 * (q % p), q / p);
  }

  /** Decoding the n-byte little-endian image of x gives back x modulo
      256^n: exactly x when x fits in n bytes. */
  lemma {:induction false} FromToLE(x: nat, n: nat)
    ensures FromLE(ToLE(x, n)) == x % Pow256(n)
  {
    if n > 0 {
      FromToLE(x / 0x100, n - 1);
      assert ToLE(x, n)[1..] == ToLE(x / 0x100, n - 1);
      ModSplit(x, Pow256(n - 1));
    }
  }

  /** A value below 256^n is determined by its n-byte image: it is any
      value with that image, reduced modulo 256^n. */
  lemma ToLELowBytes(a: nat, b: nat, n: nat)
    requires a < Pow256(n)
    requires ToLE(a, n) == ToLE(b, n)
    ensures a == b % Pow256(n)
  {
    DivModUnique(a, Pow256(n), a, 0);
    FromToLE(a, n);
    FromToLE(b, n);
  }

  /** Two values below 256^n with the same n-byte image are equal. */
  lemma ToLEInjective(a: nat, b: nat, n: nat)
    requires a < Pow256(n) && b < Pow256(n)
    requires ToLE(a, n) == ToLE(b, n)
    ensures a == b
  {
    ToLELowBytes(a, b, n);
    DivModUnique(b, Pow256(n), b, 0);
  }

  /** Encoding the value of a byte sequence gives back the sequence. */
  lemma {:induction false} ToFromLE(s: seq<uint8>)
    ensures ToLE(FromLE(s), |s|) == s
  {
    if |s| > 0 {
      ToFromLE(s[1..]);
      ToLECons(s[0], FromLE(s[1..]), |s| - 1);
    }
  }

  /** The little-endian image of three given bytes' value. */
  lemma ToLE3Of(c0: uint8, c1: uint8, c2: uint8)
    ensures ToLE(c0 + 0x100 * c1 + 0x1_0000 * c2, 3) == [c0, c1, c2]
  {
    var h1 := c1 + 0x100 * c2;
    ToLECons(c2, 0, 0);
    assert ToLE(c2, 1) == [c2];
    ToLECons(c1, c2, 1);
    assert ToLE(h1, 2) == [c1, c2];
    ToLECons(c0, h1, 2);
  }

  /** The little-endian image of four given bytes' value. */
  lemma ToLE4Of(c0: uint8, c1: uint8, c2: uint8, c3: uint8)
    ensures ToLE(c0 + 0x100 * c1 + 0x1_0000 * c2 + 0x100_0000 * c3, 4) == [c0, c1, c2, c3]
  {
    var h2 := c2 + 0x100 * c3;
    var h1 := c1 + 0x100 * h2;
    ToLECons(c3, 0, 0);
    assert ToLE(c3, 1) == [c3];
    ToLECons(c2, c3, 1);
    assert ToLE(h2, 2) == [c2, c3];
    ToLECons(c1, h2, 2);
    assert ToLE(h1, 3) == [c1, c2, c3];
    ToLECons(c0, h1, 3);
  }

  /** The little-endian image of eight given bytes' value. */
  lemma ToLE8Of(c0: uint8, c1: uint8, c2: uint8, c3: uint8, c4: uint8, c5: uint8, c6: uint8, c7: uint8)
    ensures ToLE(c0 + 0x100 * c1 + 0x1_0000 * c2 + 0x100_0000 * c3
                 + 0x1_0000_0000 * c4 + 0x100_0000_0000 * c5
                 + 0x1_0000_0000_0000 * c6 + 0x100_0000_0000_0000 * c7, 8)
            == [c0, c1, c2, c3, c4, c5, c6, c7]
  {
    var h4 := c4 + 0x100 * c5 + 0x1_0000 * c6 + 0x100_0000 * c7;
    var h3 := c3 + 0x100 * h4;
    var h2 := c2 + 0x100 * h3;
    var h1 := c1 + 0x100 * h2;
    assert ToLE(h4, 4) == [c4, c5, c6, c7] by {
      ToLE4Of(c4, c5, c6, c7);
    }
    assert ToLE(h3, 5) == [c3, c4, c5, c6, c7] by {
      ToLECons(c3, h4, 4);
    }
    assert ToLE(h2, 6) == [c2, c3, c4, c5, c6, c7] by {
      ToLECons(c2, h3, 5);
    }
    assert ToLE(h1, 7) == [c1, c2, c3, c4, c5, c6, c7] by {
      ToLECons(c1, h2, 6);
    }
    var v := c0 + 0x100 * c1 + 0x1_0000 * c2 + 0x100_0000 * c3
             + 0x1_0000_0000 * c4 + 0x100_0000_0000 * c5
             + 0x1_0000_0000_0000 * c6 + 0x100_0000_0000_0000 * c7;
    assert v == c0 + 0x100 * h1;
    ToLECons(c0, h1, 7);
  }

  /** The three-byte little-endian image of x, digit by digit. */
  lemma ToLE3(x: nat)
    ensures ToLE(x, 3) == [x % 0x100, x / 0x100 % 0x100, x / 0x1_0000 % 0x100]
  {
    var h1, h2 := x / 0x100, x / 0x1_0000;
    assert h2 == h1 / 0x100;
    assert ToLE(h2, 1) == [h2 % 0x100];
    assert ToLE(h1, 2) == [h1 % 0x100, h2 % 0x100];
  }

  /** The little-endian image of a 32-bit value, digit by digit. */
  lemma ToLE4(x: nat)
    requires x < 0x1_0000_0000
    ensures ToLE(x, 4) == [x % 0x100, x / 0x100 % 0x100, x / 0x1_0000 % 0x100, x / 0x100_0000]
  {
    var h1, h2, h3 := x / 0x100, x / 0x1_0000, x / 0x100_0000;
    assert h2 == h1 / 0x100 && h3 == h2 / 0x100 && h3 < 0x100;
    assert ToLE(h3, 1) == [h3];
    assert ToLE(h2, 2) == [h2 % 0x100, h3];
    assert ToLE(h1, 3) == [h1 % 0x100, h2 % 0x100, h3];
  }

  // ---------------------------------------------------------------------
  // Big-endian images
  // ---------------------------------------------------------------------

  lemma FromToBE(x: nat, n: nat)
    ensures FromBE(ToBE(x, n)) == x % Pow256(n)
  {
    ReverseReverse(ToLE(x, n));
    FromToLE(x, n);
  }

  lemma ToFromBE(s: seq<uint8>)
    ensures ToBE(FromBE(s), |s|) == s
  {
    ToFromLE(Reverse(s));
    ReverseReverse(s);
  }
}

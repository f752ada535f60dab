/** Bytes as the integers 0..255, with the operations the wire formats need. */
module Bytes {
  type byte = x: int | 0 <= x < 256

  /** Bitwise exclusive or of two naturals below 2^n. */
  function XorBits(a: nat, b: nat, n: nat): nat {
    if n == 0 then 0 else (if a % 2 == b % 2 then 0 else 1) + 2 * XorBits(a / 2, b / 2, n - 1)
  }

  function Pow2(n: nat): nat {
    if n == 0 then 1 else 2 * Pow2(n - 1)
  }

  lemma {:induction false} XorBitsBound(a: nat, b: nat, n: nat)
    ensures XorBits(a, b, n) < Pow2(n)
  {
    if n > 0 {
      XorBitsBound(a / 2, b / 2, n - 1);
    }
  }

  lemma {:induction false} XorBitsTwice(a: nat, b: nat, n: nat)
    requires a < Pow2(n)
    ensures XorBits(XorBits(a, b, n), b, n) == a
  {
    if n > 0 {
      XorBitsTwice(a / 2, b / 2, n - 1);
      var x, y := XorBits(a, b, n), XorBits(a / 2, b / 2, n - 1);
      var bit := if a % 2 == b % 2 then 0 else 1;
      assert x == bit + 2 * y;
      assert x / 2 == y && x % 2 == bit;
    }
  }

  /** Exclusive or of two bytes. */
  function Xor(a: byte, b: byte): byte {
    XorBitsBound(a, b, 8);
    assert Pow2(8) == 256 by { Pow2Of8(); }
    XorBits(a, b, 8)
  }

  lemma Pow2Of8()
    ensures Pow2(8) == 256
  {
    assert Pow2(4) == 16;
  }

  /** Masking a byte twice with the same key byte gives it back. */
  lemma XorTwice(a: byte, b: byte)
    ensures Xor(Xor(a, b), b) == a
  {
    Pow2Of8();
    XorBitsTwice(a, b, 8);
  }

  lemma DivTwice(x: nat, m: nat)
    requires m > 0
    ensures x / (2 * m) == x / 2 / m
  {
    var q := x / 2 / m;
    assert x / 2 == q * m + x / 2 % m && x == 2 * (x / 2) + x % 2;
    assert x == q * (2 * m) + (2 * (x / 2 % m) + x % 2);
    QuotientIs(x, 2 * m, q, 2 * (x / 2 % m) + x % 2);
  }

  lemma QuotientIs(x: nat, d: nat, q: nat, r: nat)
    requires x == q * d + r && r < d
    ensures x / d == q
  {
    MulLess(x / d, q, d);
    MulLess(q, x / d, d);
  }

  lemma {:induction false} MulLess(a: nat, b: nat, d: nat)
    ensures a < b ==> a * d + d <= b * d
    decreases b
  {
    if a < b {
      MulLess(a, b - 1, d);
      assert b * d == (b - 1) * d + d;
    }
  }

  /** Bit k of x. */
  function Bit(x: nat, k: nat): nat {
    if k == 0 then x % 2 else Bit(x / 2, k - 1)
  }

  lemma {:induction false} BitIs(x: nat, k: nat)
    ensures Pow2(k) > 0 && Bit(x, k) == x / Pow2(k) % 2
  {
    if k > 0 {
      BitIs(x / 2, k - 1);
      DivTwice(x, Pow2(k - 1));
    }
  }

  lemma {:induction false} XorBitsAt(a: nat, b: nat, n: nat, k: nat)
    requires k < n
    ensures Bit(XorBits(a, b, n), k) == (Bit(a, k) + Bit(b, k)) % 2
  {
    var x, y := XorBits(a, b, n), XorBits(a / 2, b / 2, n - 1);
    assert x == (if a % 2 == b % 2 then 0 else 1) + 2 * y;
    hide XorBits;
    if k > 0 {
      XorBitsAt(a / 2, b / 2, n - 1, k - 1);
      assert x / 2 == y;
    }
  }

  lemma XorBit(a: byte, b: byte, k: nat)
    requires k < 8
    ensures Bit(Xor(a, b), k) == (Bit(a, k) + Bit(b, k)) % 2
  {
    XorBitsAt(a, b, 8, k);
  }

  /** Bit k of the exclusive or is set exactly when bit k of one of the two bytes is, and not of both. */
  lemma XorAt(a: byte, b: byte, k: nat)
    requires k < 8
    ensures Pow2(k) > 0 && Xor(a, b) / Pow2(k) % 2 == (a / Pow2(k) % 2 + b / Pow2(k) % 2) % 2
  {
    XorBit(a, b, k);
    BitIs(Xor(a, b), k);
    BitIs(a, k);
    BitIs(b, k);
    hide XorBits, Bit, Pow2;
  }

  lemma {:induction false} XorBitsZero(a: nat, n: nat)
    requires a < Pow2(n)
    ensures XorBits(a, 0, n) == a
  {
    if n > 0 {
      XorBitsZero(a / 2, n - 1);
    }
  }

  lemma XorZero(a: byte)
    ensures Xor(a, 0) == a
  {
    Pow2Of8();
    XorBitsZero(a, 8);
  }

  /** Big-endian value of a byte string. */
  function BigEndian(s: seq<byte>): nat {
    if s == [] then 0 else 256 * BigEndian(s[..|s| - 1]) + s[|s| - 1]
  }

  /** The n low-order bytes of v, most significant first. */
  function BytesOf(v: nat, n: nat): (s: seq<byte>)
    ensures |s| == n
  {
    if n == 0 then [] else BytesOf(v / 256, n - 1) + [v % 256]
  }

  function Pow256(n: nat): nat {
    if n == 0 then 1 else 256 * Pow256(n - 1)
  }

  lemma {:induction false} BytesOfValue(v: nat, n: nat)
    requires v < Pow256(n)
    ensures BigEndian(BytesOf(v, n)) == v
  {
    if n > 0 {
      BytesOfValue(v / 256, n - 1);
      var s := BytesOf(v, n);
      assert s[..|s| - 1] == BytesOf(v / 256, n - 1);
    }
  }

  lemma {:induction false} BigEndianBytes(s: seq<byte>)
    ensures BigEndian(s) < Pow256(|s|)
    ensures BytesOf(BigEndian(s), |s|) == s
  {
    if s != [] {
      BigEndianBytes(s[..|s| - 1]);
      var v := BigEndian(s);
      assert v / 256 == BigEndian(s[..|s| - 1]) && v % 256 == s[|s| - 1];
    }
  }
}

/**
 * Bit strings as the cipher handles them: Python lists of the ints 0 and 1,
 * read most significant bit first. This module gives them their numeric
 * value (what `int(s, 2)` computes), the digits `bin(v)[2:]` produces, the
 * zero padding `zfill` and the "0" * k prefix add, and the position-wise XOR
 * of `encrypt` and `decrypt`.
 */
module Bits {

  import opened IntBits

  /** One bit, as the Python int 0 or 1. */
  type Bit = b: int | 0 <= b <= 1

  /** One byte, as Python yields it when iterating over a bytes object. */
  type Byte = b: int | 0 <= b < 256

  /** The number a bit string denotes, most significant bit first (`int(s, 2)`). */
  function BitsValue(b: seq<Bit>): nat
  {
    if b == [] then 0 else 2 * BitsValue(b[..|b| - 1]) + b[|b| - 1]
  }

  lemma {:induction false} BitsValueBound(b: seq<Bit>)
    ensures BitsValue(b) < Pow2(|b|)
  {
    if b != [] {
      BitsValueBound(b[..|b| - 1]);
    }
  }

  /**
   * The digits of `bin(v)[2:]`: at least one digit, no leading zero except
   * for zero itself (which is "0"), and denoting v.
   */
  function Binary(v: nat): (b: seq<Bit>)
    ensures |b| >= 1
    ensures v == 0 <==> b == [0]
    ensures b[0] == 1 || v == 0
    ensures BitsValue(b) == v
    decreases v
  {
    if v < 2 then [v] else
      var hi := Binary(v / 2);
      assert (hi + [v % 2])[..|hi|] == hi;
      hi + [v % 2]
  }

  /** A value below 2^k has at most k binary digits (k >= 1, since zero has one digit). */
  lemma {:induction false} BinaryLength(v: nat, k: nat)
    requires 1 <= k && v < Pow2(k)
    ensures |Binary(v)| <= k
    decreases k
  {
    if v >= 2 {
      BinaryLength(v / 2, k - 1);
    }
  }

  /** `bin` inverts `int(s, 2)` on every bit string that starts with a 1. */
  lemma {:induction false} BinaryOfValue(b: seq<Bit>)
    requires |b| >= 1 && b[0] == 1
    ensures Binary(BitsValue(b)) == b
    decreases |b|
  {
    if |b| > 1 {
      var hi := b[..|b| - 1];
      BinaryOfValue(hi);
      assert hi + [b[|b| - 1]] == b;
    }
  }

  function Zeros(n: nat): (z: seq<Bit>)
    ensures |z| == n && forall i :: 0 <= i < n ==> z[i] == 0
  {
    seq(n, _ => 0)
  }

  /** Python's `zfill(width)`: prepend zeros until the string is `width` long. */
  function ZeroFill(b: seq<Bit>, width: nat): (r: seq<Bit>)
    ensures |r| == if |b| < width then width else |b|
    ensures r[|r| - |b|..] == b && forall i :: 0 <= i < |r| - |b| ==> r[i] == 0
  {
    if |b| < width then Zeros(width - |b|) + b else b
  }

  lemma {:induction false} ZerosValue(n: nat)
    ensures BitsValue(Zeros(n)) == 0
  {
    if n > 0 {
      assert Zeros(n)[..n - 1] == Zeros(n - 1);
      ZerosValue(n - 1);
    }
  }

  /** Leading zeros do not change the value a bit string denotes. */
  lemma {:induction false} LeadingZerosValue(n: nat, b: seq<Bit>)
    ensures BitsValue(Zeros(n) + b) == BitsValue(b)
    decreases |b|
  {
    if b == [] {
      assert Zeros(n) + b == Zeros(n);
      ZerosValue(n);
    } else {
      var hi := b[..|b| - 1];
      assert (Zeros(n) + b)[..n + |b| - 1] == Zeros(n) + hi;
      LeadingZerosValue(n, hi);
    }
  }

  /** The low k binary digits of x, most significant first. */
  function Digits(x: nat, k: nat): (b: seq<Bit>)
    ensures |b| == k
  {
    if k == 0 then [] else Digits(x / 2, k - 1) + [x % 2]
  }

  /** The low k digits of x denote x modulo 2^k. */
  lemma {:induction false} DigitsValue(x: nat, k: nat)
    ensures BitsValue(Digits(x, k)) == x % Pow2(k)
  {
    if k > 0 {
      var d := Digits(x, k);
      assert d[..k - 1] == Digits(x / 2, k - 1);
      DigitsValue(x / 2, k - 1);
      var p := Pow2(k - 1);
      var q, r := x / 2 / p, x / 2 % p;
      assert x == (2 * p) * q + (2 * r + x % 2);
      DivModUnique(x, 2 * p, q, 2 * r + x % 2);
    }
  }

  /** Two bit strings of one length that denote the same number are equal. */
  lemma {:induction false} BitsValueInjective(a: seq<Bit>, b: seq<Bit>)
    requires |a| == |b| && BitsValue(a) == BitsValue(b)
    ensures a == b
    decreases |a|
  {
    if a != [] {
      var n := |a|;
      var va, vb := BitsValue(a[..n - 1]), BitsValue(b[..n - 1]);
      DivModUnique(BitsValue(a), 2, va, a[n - 1]);
      DivModUnique(BitsValue(b), 2, vb, b[n - 1]);
      BitsValueInjective(a[..n - 1], b[..n - 1]);
      assert a == a[..n - 1] + [a[n - 1]];
      assert b == b[..n - 1] + [b[n - 1]];
    }
  }

  function XorBit(a: Bit, b: Bit): Bit
  {
    if a == b then 0 else 1
  }

  /**
   * `[p ^ k for p, k in zip(ps, ks)]`: as long as the shorter input, and a
   * position of the result differs from the plaintext bit exactly where the
   * key bit is 1.
   */
  function XorBits(ps: seq<Bit>, ks: seq<Bit>): (cs: seq<Bit>)
    ensures |cs| == if |ps| <= |ks| then |ps| else |ks|
    ensures forall i :: 0 <= i < |cs| ==> (cs[i] != ps[i] <==> ks[i] == 1)
  {
    var n := if |ps| <= |ks| then |ps| else |ks|;
    seq(n, i requires 0 <= i < n => XorBit(ps[i], ks[i]))
  }

  /** Combining twice with the same (long enough) keystream gives the input back. */
  lemma XorBitsInvolution(ps: seq<Bit>, ks: seq<Bit>)
    requires |ps| <= |ks|
    ensures XorBits(XorBits(ps, ks), ks) == ps
  {
  }
}

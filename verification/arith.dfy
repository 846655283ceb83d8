/** Integer facts shared by the modules: multiplication bounds, the
    uniqueness of quotient and remainder, C++'s truncating division, and
    two's complement wrap-around. */
module Arith {

  /** A positive multiple of a positive number is at least that number. */
  lemma {:induction false} MulAtLeast(x: int, b: int)
    requires x >= 0 && b > 0
    ensures x * b >= 0 && (x >= 1 ==> x * b >= b)
    decreases x
  {
    if x > 1 {
      MulAtLeast(x - 1, b);
      assert x * b == (x - 1) * b + b;
    }
  }

  /** Quotient and remainder are determined by the division equation. */
  lemma DivModUnique(a: int, b: int, q: int, r: int)
    requires b > 0 && 0 <= r < b && a == q * b + r
    ensures a / b == q && a % b == r
  {
    var q', r' := a / b, a % b;
    assert a == q' * b + r';
    if q - q' >= 1 {
      assert (q - q') * b == r' - r;
      MulAtLeast(q - q', b);
    } else if q' - q >= 1 {
      assert (q' - q) * b == r - r';
      MulAtLeast(q' - q, b);
    }
  }

  /** Euclidean division of a natural number by a positive one. */
  lemma DivBounds(a: int, b: int)
    requires a >= 0 && b > 0
    ensures 0 <= (a / b) * b <= a < (a / b) * b + b
  {
    var q := a / b;
    assert a == q * b + a % b;
    MulAtLeast(q, b);
  }

  /** C++ integer division, which truncates toward zero (Dafny's `/`
      is Euclidean). */
  function TruncDiv(a: int, b: int): (q: int)
    requires b > 0
    ensures a >= 0 ==> 0 <= q * b <= a < q * b + b
    ensures a < 0 ==> q * b - b < a <= q * b <= 0
  {
    if a >= 0 then
      DivBounds(a, b);
      a / b
    else
      DivBounds(-a, b);
      NegMul((-a) / b, b);
      -((-a) / b)
  }

  lemma NegMul(x: int, b: int)
    ensures (-x) * b == -(x * b)
  {
  }

  /** A multiple of `m` leaves no remainder. */
  lemma MultipleMod(k: int, m: int)
    requires m > 0
    ensures (k * m) % m == 0
  {
    DivModUnique(k * m, m, k, 0);
  }

  /** Reducing the first summand first does not change the sum's
      remainder: modular addition accumulates correctly. */
  lemma ModAddMod(a: int, d: int, m: int)
    requires m > 0
    ensures (a % m + d) % m == (a + d) % m
  {
    var q, r := a / m, a % m;
    var s, t := (r + d) / m, (r + d) % m;
    assert a == q * m + r;
    assert r + d == s * m + t;
    assert a + d == (q + s) * m + t;
    DivModUnique(a + d, m, q + s, t);
  }

  /** 2 to the power `n`. */
  function Pow2(n: nat): (r: int)
    ensures r > 0
  {
    if n == 0 then 1 else 2 * Pow2(n - 1)
  }

  /** Exponents add. */
  lemma {:induction false} Pow2Add(a: nat, b: nat)
    ensures Pow2(a + b) == Pow2(a) * Pow2(b)
    decreases b
  {
    if b > 0 {
      Pow2Add(a, b - 1);
      assert Pow2(a + b) == 2 * Pow2(a + b - 1);
      assert Pow2(b) == 2 * Pow2(b - 1);
    }
  }

  /** The powers the integer type widths need. */
  lemma Pow2Values()
    ensures Pow2(7) == 128 && Pow2(8) == 256
    ensures Pow2(15) == 32768 && Pow2(16) == 65536
    ensures Pow2(31) == 2147483648 && Pow2(32) == 4294967296
    ensures Pow2(63) == 9223372036854775808 && Pow2(64) == 18446744073709551616
  {
    assert Pow2(8) == 256;
    Pow2Add(8, 8);
    Pow2Add(16, 16);
    Pow2Add(32, 32);
  }

  /** Reducing modulo `m`, and stepping one `m` down from there, both
      stay congruent. */
  lemma ModCongruent(v: int, m: int)
    requires m > 0
    ensures (v % m - v) % m == 0
    ensures (v % m - m - v) % m == 0
  {
    var q := v / m;
    assert v == q * m + v % m;
    DivModUnique(v % m - v, m, -q, 0);
    DivModUnique(v % m - m - v, m, -q - 1, 0);
  }

  /** A value stored into a signed integer of `bits` bits: two's
      complement wrap-around. The result is in range and congruent to
      `v`. */
  function WrapSigned(v: int, bits: nat): (r: int)
    requires bits > 0
    ensures -Pow2(bits - 1) <= r < Pow2(bits - 1)
    ensures (r - v) % Pow2(bits) == 0
  {
    var m, h := Pow2(bits), Pow2(bits - 1);
    WrapSignedRange(v, m, h);
    if v % m < h then v % m else v % m - m
  }

  lemma WrapSignedRange(v: int, m: int, h: int)
    requires h > 0 && m == 2 * h
    ensures var r := if v % m < h then v % m else v % m - m;
      -h <= r < h && (r - v) % m == 0
  {
    ModCongruent(v, m);
  }

  /** A value stored into an unsigned integer of `bits` bits. */
  function WrapUnsigned(v: int, bits: nat): (r: int)
    ensures 0 <= r < Pow2(bits)
    ensures (r - v) % Pow2(bits) == 0
  {
    var m := Pow2(bits);
    ModCongruent(v, m);
    v % m
  }

  /** A value that fits is stored unchanged. */
  lemma WrapKeepsFittingValues(v: int, bits: nat)
    requires bits > 0
    ensures -Pow2(bits - 1) <= v < Pow2(bits - 1) ==> WrapSigned(v, bits) == v
    ensures 0 <= v < Pow2(bits) ==> WrapUnsigned(v, bits) == v
  {
    var m := Pow2(bits);
    if 0 <= v < m {
      DivModUnique(v, m, 0, v);
    } else if -m <= v < 0 {
      DivModUnique(v, m, -1, v + m);
    }
  }
}

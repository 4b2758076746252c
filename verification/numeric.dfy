/** Unbounded-integer views of the fixed-width values the firmware handles:
    bytes, 32-bit words, powers and positional digit strings. C's unsigned
    wrap-around is written out explicitly wherever the firmware relies on it. */
module Numeric {

  /** 2^32: the modulus of a C `uint` on the RP2040. */
  const WordModulus: int := 0x1_0000_0000

  /** A C `uint8_t`. */
  type Byte = b: int | 0 <= b < 256

  /** A C `uint16_t`. */
  type Half = h: int | 0 <= h < 0x1_0000

  /** A C `uint` (32 bits on the RP2040). */
  type Word = w: int | 0 <= w < 0x1_0000_0000

  /** The contents of a NUL-terminated C string: 8-bit characters, none of
      them NUL (the terminator itself is not part of the contents). */
  predicate IsCString(s: string)
  {
    forall i :: 0 <= i < |s| ==> 0 < s[i] as int < 256
  }

  function Pow(base: nat, n: nat): (r: nat)
    ensures base > 0 ==> r > 0
  {
    if n == 0 then 1 else base * Pow(base, n - 1)
  }

  lemma {:induction false} PowAdd(base: nat, a: nat, b: nat)
    ensures Pow(base, a + b) == Pow(base, a) * Pow(base, b)
  {
    if a > 0 {
      PowAdd(base, a - 1, b);
      assert Pow(base, a + b) == base * Pow(base, a - 1 + b);
    }
  }

  /** A power of two is a power of 256 when the exponent is a whole number of bytes. */
  lemma {:induction false} PowBytes(n: nat)
    ensures Pow(2, 8 * n) == Pow(256, n)
  {
    if n > 0 {
      PowBytes(n - 1);
      PowAdd(2, 8, 8 * (n - 1));
      assert Pow(2, 8) == 256;
    }
  }

  lemma PowWord()
    ensures Pow(2, 32) == WordModulus
    ensures Pow(2, 16) == 0x1_0000
    ensures Pow(2, 8) == 256
  {
    PowBytes(4);
    PowBytes(2);
    PowBytes(1);
  }

  lemma PowMonotone(base: nat, a: nat, b: nat)
    requires base > 0 && a <= b
    ensures Pow(base, a) <= Pow(base, b)
  {
    var p, q := Pow(base, a), Pow(base, b - a);
    assert Pow(base, b) == p * q by {
      PowAdd(base, a, b - a);
    }
    MulGrows(p, q);
  }

  lemma MulGrows(p: nat, q: nat)
    requires q >= 1
    ensures p <= p * q
  {
    assert p * q - p == p * (q - 1);
  }

  /** Scaling a positional sum: the weight of the scaled digit takes the factor. */
  lemma ScaleSum(a: int, x: int, d: int, w: int)
    ensures a * (x + d * w) == a * x + d * (a * w)
  {
    assert a * (x + d * w) == a * x + a * (d * w);
    assert a * (d * w) == d * (a * w);
  }

  lemma MulMonotone(a: int, b: int, c: int)
    requires a <= b && c >= 0
    ensures a * c <= b * c
  {
    assert b * c - a * c == (b - a) * c;
  }

  /** Quotient and remainder are determined by any decomposition x = q*m + r with 0 <= r < m. */
  lemma DivModUnique(x: int, m: int, q: int, r: int)
    requires m > 0 && 0 <= r < m && x == q * m + r
    ensures x / m == q && x % m == r
  {
    var q', r' := x / m, x % m;
    assert x == q' * m + r';
    if q' > q {
      MulMonotone(q + 1, q', m);
      assert false;
    } else if q' < q {
      MulMonotone(q' + 1, q, m);
      assert false;
    }
  }

  /** Reducing the accumulator modulo m first does not change the reduced result. */
  lemma ModShiftAdd(a: int, k: int, b: int, m: int)
    requires m > 0
    ensures ((a % m) * k + b) % m == (a * k + b) % m
  {
    var q := a / m;
    assert a * k + b == (a % m) * k + b + (q * k) * m;
    var x := (a % m) * k + b;
    DivModUnique(x + (q * k) * m, m, x / m + q * k, x % m);
  }

  function Reverse<T>(s: seq<T>): (r: seq<T>)
    ensures |r| == |s|
    ensures forall i :: 0 <= i < |s| ==> r[i] == s[|s| - 1 - i]
  {
    if |s| == 0 then [] else [s[|s| - 1]] + Reverse(s[..|s| - 1])
  }

  predicate DigitsBelow(digits: seq<int>, base: nat)
  {
    forall i :: 0 <= i < |digits| ==> 0 <= digits[i] < base
  }

  /** Value of a digit string written most significant digit first:
      each step shifts the accumulator one digit up and adds the next digit. */
  function BigEndian(digits: seq<int>, base: nat): int
  {
    if |digits| == 0 then 0
    else BigEndian(digits[..|digits| - 1], base) * base + digits[|digits| - 1]
  }

  /** Value of a digit string written least significant digit first: digit i weighs base^i. */
  function LittleEndian(digits: seq<int>, base: nat): int
  {
    if |digits| == 0 then 0 else digits[0] + base * LittleEndian(digits[1..], base)
  }

  lemma {:induction false} BigEndianIsReversedLittleEndian(digits: seq<int>, base: nat)
    ensures BigEndian(digits, base) == LittleEndian(Reverse(digits), base)
  {
    if |digits| > 0 {
      var prefix := digits[..|digits| - 1];
      BigEndianIsReversedLittleEndian(prefix, base);
      assert Reverse(digits)[1..] == Reverse(prefix);
    }
  }

  /** The most significant digit weighs base^(n-1). */
  lemma {:induction false} BigEndianSplit(digits: seq<int>, base: nat)
    requires |digits| >= 1
    ensures BigEndian(digits, base)
         == digits[0] * Pow(base, |digits| - 1) + BigEndian(digits[1..], base)
  {
    var n := |digits|;
    if n > 1 {
      var prefix := digits[..n - 1];
      var last := digits[n - 1];
      BigEndianSplit(prefix, base);
      var rest := BigEndian(prefix[1..], base);
      var w := Pow(base, n - 2);
      assert prefix[1..] == digits[1..][..n - 2];
      assert BigEndian(digits[1..], base) == rest * base + last;
      assert BigEndian(prefix, base) == digits[0] * w + rest;
      assert BigEndian(digits, base) == (digits[0] * w + rest) * base + last;
      assert (digits[0] * w + rest) * base == digits[0] * (w * base) + rest * base;
      assert Pow(base, n - 1) == base * w;
    } else {
      assert digits[..0] == [];
    }
  }

  /** Appending a digit shifts the value one place. */
  lemma BigEndianAppend(digits: seq<int>, d: int, base: nat)
    ensures BigEndian(digits + [d], base) == BigEndian(digits, base) * base + d
  {
    assert (digits + [d])[..|digits|] == digits;
  }

  lemma {:induction false} BigEndianBound(digits: seq<int>, base: nat)
    requires base > 0 && DigitsBelow(digits, base)
    ensures 0 <= BigEndian(digits, base) < Pow(base, |digits|)
  {
    if |digits| > 0 {
      var prefix := digits[..|digits| - 1];
      BigEndianBound(prefix, base);
      var v := BigEndian(prefix, base);
      var d := digits[|digits| - 1];
      assert 0 <= v * base;
      assert (v + 1) * base == v * base + base;
      MulMonotone(v + 1, Pow(base, |prefix|), base);
      assert Pow(base, |digits|) == Pow(base, |prefix|) * base;
    }
  }

  /** The leading digit is recovered by dividing out the weight of the others. */
  lemma BigEndianLeading(digits: seq<int>, base: nat)
    requires base > 0 && |digits| >= 1 && DigitsBelow(digits, base)
    ensures Pow(base, |digits| - 1) > 0
    ensures BigEndian(digits, base) / Pow(base, |digits| - 1) == digits[0]
  {
    BigEndianSplit(digits, base);
    BigEndianBound(digits[1..], base);
    DivModUnique(BigEndian(digits, base), Pow(base, |digits| - 1), digits[0], BigEndian(digits[1..], base));
  }

  lemma {:induction false} LittleEndianBound(digits: seq<int>, base: nat)
    requires base > 0 && DigitsBelow(digits, base)
    ensures 0 <= LittleEndian(digits, base) < Pow(base, |digits|)
  {
    if |digits| > 0 {
      var d, rest := digits[0], digits[1..];
      assert DigitsBelow(rest, base);
      LittleEndianBound(rest, base);
      var v := LittleEndian(rest, base);
      var weight := Pow(base, |rest|);
      assert LittleEndian(digits, base) == d + base * v;
      assert Pow(base, |digits|) == base * weight;
      // v < weight, so base * v + base <= base * weight.
      assert 0 <= base * v && base * v + base <= base * weight by {
        MulMonotone(0, v, base);
        MulMonotone(v + 1, weight, base);
        assert (v + 1) * base == base * v + base;
        assert weight * base == base * weight;
        assert v * base == base * v;
      }
    }
  }
}

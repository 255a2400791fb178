/**
  The `arithmetic(K,B)` macro of src/arithmetic.hh, instantiated as at
  src/qzip.cc:40 with the unsigned 16-bit base `uint16_t`: an enumeration
  whose `min` and `max` are the limits of the base, and whose operators
  compute `(B)x R y` in `int` and convert the result back to the base, that
  is, modulo 2^16. `ordinality` is the number of values of a type of a given
  size.
*/
module Arithmetic {
  import opened Symbols

  const Modulus: int := 0x1_0000

  /** A value of the 16-bit base type. */
  type Word = x: int | 0 <= x < Modulus

  /** `K::min` and `K::max` (src/arithmetic.hh:11-14). */
  const Min: Word := 0
  const Max: Word := 0xFFFF

  /** Conversion of an `int` to the unsigned 16-bit base. */
  function Narrow(v: int): (w: Word)
    ensures 0 <= v < Modulus ==> w == v
    ensures v < 0 && -Modulus <= v ==> w == v + Modulus
    ensures Modulus <= v < 2 * Modulus ==> w == v - Modulus
  {
    v % Modulus
  }

  /**
    Both operands are promoted to `int`: `*` of two 16-bit values can exceed
    `INT_MAX`, and `%` by zero is undefined.
  */
  predicate Defined(op: Op, x: Word, y: Word) {
    match op
    case Times => x * y <= IntMax
    case Rem => y != 0
    case _ => true
  }

  /** `x R y` (src/arithmetic.hh:5): `K((B)x R y)`. */
  function Infix(op: Op, x: Word, y: Word): (r: Word)
    requires Defined(op, x, y)
    ensures op == Plus ==> if x + y < Modulus then r == x + y else r == x + y - Modulus
    ensures op == Minus ==> if y <= x then r == x - y else r == x - y + Modulus
    ensures op == Times ==> r == x * y - Modulus * (x * y / Modulus)
    ensures op == Rem ==> r < y && x == y * (x / y) + r
  {
    match op
    case Plus => Narrow(x + y)
    case Minus => Narrow(x - y)
    case Times => ProductInRange(x, y); Narrow(x * y)
    case Rem => RemainderInRange(x, y); Narrow(x % y)
  }

  lemma ProductInRange(x: Word, y: Word)
    ensures 0 <= x * y
  {
  }

  lemma RemainderInRange(x: Word, y: Word)
    requires y != 0
    ensures 0 <= x % y < y && x == y * (x / y) + x % y
  {
  }

  /** `x R= y` (src/arithmetic.hh:6): assigns `x R y` to `x` and returns `x`. */
  method Compound(op: Op, x: Word, y: Word) returns (x': Word, r: Word)
    requires Defined(op, x, y)
    ensures x' == Infix(op, x, y) && r == x'
  {
    x' := Infix(op, x, y);
    r := x';
  }

  /** Prefix `++x` (src/arithmetic.hh:21): `max` steps to `min`. */
  method PreIncrement(x: Word) returns (x': Word, r: Word)
    ensures x' == (if x == Max then Min else x + 1) && r == x'
  {
    x', r := Compound(Plus, x, 1);
  }

  /** Prefix `--x` (src/arithmetic.hh:22): `min` steps to `max`. */
  method PreDecrement(x: Word) returns (x': Word, r: Word)
    ensures x' == (if x == Min then Max else x - 1) && r == x'
  {
    x', r := Compound(Minus, x, 1);
  }

  /** Postfix `x++` (src/arithmetic.hh:24): returns the previous value. */
  method PostIncrement(x: Word) returns (x': Word, r: Word)
    ensures r == x && x' == (if x == Max then Min else x + 1)
  {
    r := x;
    var ref;
    x', ref := PreIncrement(x);
  }

  /** Postfix `x--` (src/arithmetic.hh:25): returns the previous value. */
  method PostDecrement(x: Word) returns (x': Word, r: Word)
    ensures r == x && x' == (if x == Min then Max else x - 1)
  {
    r := x;
    var ref;
    x', ref := PreDecrement(x);
  }

  function Pow2(n: nat): (p: nat)
    ensures p >= 1
  {
    if n == 0 then 1 else 2 * Pow2(n - 1)
  }

  lemma Pow2Byte()
    ensures Pow2(8) == 0x100
  {
    assert Pow2(2) == 4;
    assert Pow2(4) == 16;
    assert Pow2(6) == 64;
  }

  lemma {:induction false} Pow2Add(a: nat, b: nat)
    ensures Pow2(a + b) == Pow2(a) * Pow2(b)
  {
    if a > 0 {
      Pow2Add(a - 1, b);
      assert Pow2(a + b) == 2 * Pow2(a - 1 + b) == 2 * (Pow2(a - 1) * Pow2(b));
    }
  }

  /**
    `ordinality(x)` (src/arithmetic.hh:28-33): `1L << (sizeof(T) * CHAR_BIT)`.
    The shift of a 64-bit `long` is undefined from 8 bytes on.
  */
  function Ordinality(bytes: nat): (n: nat)
    requires bytes < 8
    ensures bytes > 0 ==> n == 0x100 * Ordinality(bytes - 1)
  {
    if bytes == 0 then 1
    else
      Pow2Add(8, 8 * (bytes - 1));
      Pow2Byte();
      assert Ordinality(bytes - 1) == Pow2(8 * (bytes - 1));
      Pow2(8 * bytes)
  }

  /**
    The 16-bit base has exactly `max - min + 1` values, and the `blocksize`
    of src/qzip.cc:49, the product of two 16-bit ordinalities, is 2^32.
  */
  lemma BlocksizeIs2To32()
    ensures Ordinality(2) == Max - Min + 1 == Modulus
    ensures Ordinality(2) * Ordinality(2) == 0x1_0000_0000
  {
  }
}

/**
  The symbol code space of src/symbol.hh: an `int`-based enumeration whose
  values are the wildcard (-1), the byte literals 0..255 and the
  non-terminals from 256 upwards, with the four arithmetic operators
  overloaded as plain `int` arithmetic.
*/
module Symbols {

  type Symbol = int

  const Wildcard: Symbol := -1
  const AsciiMin: Symbol := 0
  const AsciiMax: Symbol := 255
  /** The first non-terminal; every dictionary key is allocated from here up. */
  const First: Symbol := 256

  /** Bounds of the C++ `int` that underlies the enumeration. */
  const IntMin: int := -0x8000_0000
  const IntMax: int := 0x7FFF_FFFF

  predicate IsLiteral(x: Symbol) { AsciiMin <= x <= AsciiMax }
  predicate IsNonTerminal(x: Symbol) { x >= First }
  predicate InIntRange(v: int) { IntMin <= v <= IntMax }

  /** The wildcard, the literals and the non-terminals never overlap. */
  lemma Partition(x: Symbol)
    ensures !(x == Wildcard && IsLiteral(x))
    ensures !(x == Wildcard && IsNonTerminal(x))
    ensures !(IsLiteral(x) && IsNonTerminal(x))
  {
  }

  /** The operators the headers overload for their enumerations. */
  datatype Op = Plus | Minus | Times | Rem

  /** C++ `/` on `int`: truncates toward zero. */
  function TruncDiv(x: int, y: int): (q: int)
    requires y != 0
    ensures x >= 0 && y > 0 ==> q == x / y
  {
    var a := if x < 0 then -x else x;
    var c := if y < 0 then -y else y;
    if (x < 0) == (y < 0) then a / c else -(a / c)
  }

  /** C++ `%` on `int`: the remainder takes the sign of the dividend. */
  function TruncRem(x: int, y: int): (r: int)
    requires y != 0
    ensures x == y * TruncDiv(x, y) + r
    ensures -(if y < 0 then -y else y) < r < (if y < 0 then -y else y)
    ensures r != 0 ==> (r < 0 <==> x < 0)
  {
    x - y * TruncDiv(x, y)
  }

  /** The operands for which `(int)x R y` has no undefined behaviour. */
  predicate Defined(op: Op, x: Symbol, y: int) {
    InIntRange(x) && InIntRange(y) &&
    match op
    case Plus => InIntRange(x + y)
    case Minus => InIntRange(x - y)
    case Times => InIntRange(x * y)
    case Rem => y != 0 && !(x == IntMin && y == -1)
  }

  /** `x R y` (src/symbol.hh:10): the `int` result converted back to a symbol. */
  function Infix(op: Op, x: Symbol, y: int): (r: Symbol)
    requires Defined(op, x, y)
    ensures InIntRange(r)
    ensures op == Plus ==> r - y == x
    ensures op == Minus ==> r + y == x
    ensures op == Times ==> r == x * y
    ensures op == Rem ==> x == y * TruncDiv(x, y) + r && (r != 0 ==> (r < 0 <==> x < 0))
  {
    match op
    case Plus => x + y
    case Minus => x - y
    case Times => x * y
    case Rem => TruncRem(x, y)
  }

  /**
    `x R= y` (src/symbol.hh:11): the reference argument `x` becomes `x R y`,
    and the reference returned designates the updated `x`.
  */
  method Compound(op: Op, x: Symbol, y: int) returns (x': Symbol, r: Symbol)
    requires Defined(op, x, y)
    ensures x' == Infix(op, x, y) && r == x'
  {
    x' := Infix(op, x, y);
    r := x';
  }

  /** Prefix `++x` (src/symbol.hh:19): `x += 1`, returning the updated `x`. */
  method PreIncrement(x: Symbol) returns (x': Symbol, r: Symbol)
    requires InIntRange(x) && InIntRange(x + 1)
    ensures x' == x + 1 && r == x'
  {
    x', r := Compound(Plus, x, 1);
  }

  /** Prefix `--x` (src/symbol.hh:20). */
  method PreDecrement(x: Symbol) returns (x': Symbol, r: Symbol)
    requires InIntRange(x) && InIntRange(x - 1)
    ensures x' == x - 1 && r == x'
  {
    x', r := Compound(Minus, x, 1);
  }

  /**
    Postfix `x++` (src/symbol.hh:22): returns the old value and steps `x`, so
    a non-terminal counter only ever hands out fresh, larger non-terminals.
  */
  method PostIncrement(x: Symbol) returns (x': Symbol, r: Symbol)
    requires InIntRange(x) && InIntRange(x + 1)
    ensures r == x && x' == x + 1
    ensures IsNonTerminal(r) ==> IsNonTerminal(x') && r < x'
  {
    r := x;
    var ref;
    x', ref := PreIncrement(x);
  }

  /** Postfix `x--` (src/symbol.hh:23). */
  method PostDecrement(x: Symbol) returns (x': Symbol, r: Symbol)
    requires InIntRange(x) && InIntRange(x - 1)
    ensures r == x && x' == x - 1
  {
    r := x;
    var ref;
    x', ref := PreDecrement(x);
  }
}

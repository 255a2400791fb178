/**
  The pattern tools of src/esl.cc: the wildcard comparison of atoms
  (line 33), a prefix match and a subsequence search over two ranges
  (lines 36-55), and the printer `to_string` (lines 78-93). An `atom` is an
  `int` enumeration whose one named value is the wildcard -1; the searches
  return a position, with `|haystack|` standing for `haystack_end`.
*/
module Esl {
  import Matching
  import opened Errors

  type Atom = int

  const Wildcard: Atom := -1

  /** `atom_wildcard_eq_compare` (src/esl.cc:33). */
  function AtomEq(a: Atom, b: Atom): (r: bool)
    ensures a == b ==> r
    ensures a == Wildcard || b == Wildcard ==> r
    ensures r && a != Wildcard && b != Wildcard ==> a == b
  {
    a == b || a == Wildcard || b == Wildcard
  }

  /** The comparison does not depend on the order of its arguments. */
  lemma AtomEqSymmetric(a: Atom, b: Atom)
    ensures AtomEq(a, b) == AtomEq(b, a)
  {
  }

  /**
    `prefix_matches` (src/esl.cc:36-44): steps through both ranges while
    neither is exhausted and answers whether the needle ran out, so the
    needle must fit in the haystack and agree with it element by element.
  */
  function PrefixMatches(haystack: seq<Atom>, needle: seq<Atom>): (r: bool)
    ensures r <==> |needle| <= |haystack| &&
                   forall i :: 0 <= i < |needle| ==> AtomEq(haystack[i], needle[i])
  {
    if haystack == [] || needle == [] then needle == []
    else AtomEq(haystack[0], needle[0]) && PrefixMatches(haystack[1..], needle[1..])
  }

  /**
    `find_subseq` (src/esl.cc:46-55): the offset of the first haystack
    position where the needle matches, or `|haystack|` when none does.
  */
  function FindSubseq(haystack: seq<Atom>, needle: seq<Atom>): (p: nat)
    ensures p <= |haystack|
    ensures p < |haystack| ==> PrefixMatches(haystack[p..], needle)
    ensures forall q :: 0 <= q < p ==> !PrefixMatches(haystack[q..], needle)
  {
    if haystack == [] then 0
    else if PrefixMatches(haystack, needle) then 0
    else
      var p := 1 + FindSubseq(haystack[1..], needle);
      assert forall q :: 1 <= q < p ==> haystack[q..] == haystack[1..][q - 1..];
      p
  }

  /**
    The end of an empty haystack is returned even for the empty needle,
    while a non-empty haystack matches the empty needle at its start.
  */
  lemma EmptyRanges(haystack: seq<Atom>)
    ensures FindSubseq([], haystack) == 0
    ensures haystack != [] ==> FindSubseq(haystack, []) == 0
  {
  }

  /**
    The search of src/esl.cc finds exactly what `qz_find_block` of
    src/qzip.cc finds from the start of a block: the two implementations of
    wildcard search agree.
  */
  lemma {:induction false} AgreesWithFindBlock(haystack: seq<Atom>, needle: seq<Atom>)
    ensures FindSubseq(haystack, needle) == Matching.FirstMatch(haystack, 0, needle)
  {
    var p := FindSubseq(haystack, needle);
    var m := Matching.FirstMatch(haystack, 0, needle);
    forall q | 0 <= q < |haystack|
      ensures PrefixMatches(haystack[q..], needle) == Matching.MatchesAt(haystack, q, needle)
    {
      if Matching.MatchesAt(haystack, q, needle) {
        forall i | 0 <= i < |needle| ensures AtomEq(haystack[q..][i], needle[i]) {
          assert Matching.CompareSymbols(needle[i], haystack[q + i]);
        }
      }
      if PrefixMatches(haystack[q..], needle) {
        forall i | 0 <= i < |needle| ensures Matching.CompareSymbols(needle[i], haystack[q + i]) {
          assert AtomEq(haystack[q..][i], needle[i]);
        }
      }
    }
  }

  const HexDigits: string := "0123456789abcdef"

  /** `std::hex` digits of a non-negative value, without leading zeros. */
  function Hex(v: nat): (r: string)
    ensures 1 <= |r|
    ensures v < 0x10 ==> |r| == 1
    ensures 0x10 <= v < 0x100 ==> |r| == 2
    decreases v
  {
    if v < 0x10 then [HexDigits[v]] else Hex(v / 0x10) + [HexDigits[v % 0x10]]
  }

  /** `std::setw(2)` with `std::setfill('0')`: padded on the left to two characters. */
  function Pad2(h: string): (r: string)
    ensures |r| == if |h| < 2 then 2 else |h|
  {
    if |h| < 2 then seq(2 - |h|, _ => '0') + h else h
  }

  /**
    How `to_string` writes one atom (src/esl.cc:82-89): the wildcard as '.',
    '/' and '.' behind a backslash, other printable characters as
    themselves, and anything else as "\x" and its hexadecimal value; a
    negative `int` is printed by `std::hex` as its unsigned 32-bit pattern.
  */
  function Escape(a: Atom): (r: string)
    ensures r == "." <==> a == Wildcard
    ensures a == '/' as int || a == '.' as int ==> r == ['\\', a as char]
    ensures 32 <= a <= 126 && a != '/' as int && a != '.' as int ==> r == [a as char]
    ensures 0 <= a < 32 || 127 <= a <= 255 ==> |r| == 4 && r[..2] == "\\x"
  {
    if a == Wildcard then "."
    else if a == '/' as int || a == '.' as int then ['\\', a as char]
    else if 32 <= a <= 126 then [a as char]
    else "\\x" + Pad2(Hex(a % 0x1_0000_0000))
  }

  function Body(s: seq<Atom>): string {
    if s == [] then "" else Escape(s[0]) + Body(s[1..])
  }

  /** `to_string` (src/esl.cc:78-93): the escaped atoms between two slashes. */
  function ToString(s: seq<Atom>): (r: string)
    ensures |r| >= |s| + 2 && r[0] == '/' && r[|r| - 1] == '/'
  {
    BodyLength(s);
    "/" + Body(s) + "/"
  }

  lemma {:induction false} BodyLength(s: seq<Atom>)
    ensures |Body(s)| >= |s|
  {
    if s != [] {
      BodyLength(s[1..]);
    }
  }

  /**
    The backslash is printed as itself, so the byte 0x01 and the four
    characters '\', 'x', '0', '1' print alike: the printed form does not
    determine the sequence.
  */
  lemma ShowNotInjective()
    ensures ToString([1]) == ToString([92, 120, 48, 49])
    ensures [1] != [92, 120, 48, 49]
  {
    EscapedByte();
    EscapedCharacters();
  }

  lemma EscapedByte()
    ensures Body([1]) == "\\x01"
  {
    EscapeHexForm(1);
    assert HexDigits[0] == '0' && HexDigits[1] == '1';
    BodyCons(1, []);
    assert [1] + [] == [1];
  }

  lemma EscapedCharacters()
    ensures Body([92, 120, 48, 49]) == "\\x01"
  {
    BodyCons(49, []);
    assert [49] + [] == [49];
    assert Body([49]) == "1";
    BodyCons(48, [49]);
    assert Body([48, 49]) == "01";
    BodyCons(120, [48, 49]);
    assert Body([120, 48, 49]) == "x01";
    BodyCons(92, [120, 48, 49]);
  }

  lemma BodyCons(a: Atom, s: seq<Atom>)
    ensures Body([a] + s) == Escape(a) + Body(s)
  {
    assert ([a] + s)[1..] == s;
  }

  /** The printer with the backslash escaped like '/' and '.'. */
  function EscapeFixed(a: Atom): (r: string)
    ensures a != '\\' as int ==> r == Escape(a)
  {
    if a == '\\' as int then "\\\\" else Escape(a)
  }

  function BodyFixed(s: seq<Atom>): string {
    if s == [] then "" else EscapeFixed(s[0]) + BodyFixed(s[1..])
  }

  function ToStringFixed(s: seq<Atom>): (r: string)
    ensures |r| >= 2 && r[0] == '/' && r[|r| - 1] == '/'
  {
    "/" + BodyFixed(s) + "/"
  }

  function HexValue(c: char): (v: int)
    ensures 0 <= v < 0x10 ==> HexDigits[v] == c
  {
    if '0' <= c <= '9' then c as int - '0' as int
    else if 'a' <= c <= 'f' then c as int - 'a' as int + 10
    else -1
  }

  function Prepend(a: Atom, rest: Option<seq<Atom>>): Option<seq<Atom>> {
    if rest.Some? then Some([a] + rest.value) else None
  }

  /**
    Reads back what `BodyFixed` prints: '.' is the wildcard, a backslash
    introduces an escaped '/', '.', backslash or a two-digit hexadecimal
    value, and any other printable character other than '/' stands for
    itself.
  */
  function Parse(t: string): Option<seq<Atom>> {
    if t == [] then Some([])
    else if t[0] == '.' then Prepend(Wildcard, Parse(t[1..]))
    else if t[0] == '\\' then
      if |t| >= 2 && (t[1] == '/' || t[1] == '.' || t[1] == '\\') then
        Prepend(t[1] as int, Parse(t[2..]))
      else if |t| >= 4 && t[1] == 'x' && 0 <= HexValue(t[2]) && 0 <= HexValue(t[3]) then
        Prepend(HexValue(t[2]) * 0x10 + HexValue(t[3]), Parse(t[4..]))
      else None
    else if 32 <= t[0] as int <= 126 && t[0] != '/' then Prepend(t[0] as int, Parse(t[1..]))
    else None
  }

  predicate IsByteOrWildcard(a: Atom) { -1 <= a <= 255 }

  lemma HexByte(a: int)
    requires 0 <= a < 0x100
    ensures Pad2(Hex(a)) == [HexDigits[a / 0x10], HexDigits[a % 0x10]]
  {
    if a >= 0x10 {
      assert Hex(a) == Hex(a / 0x10) + [HexDigits[a % 0x10]];
    }
  }

  lemma HexDigitValue(d: int)
    requires 0 <= d < 0x10
    ensures HexValue(HexDigits[d]) == d
  {
  }

  lemma ParseHexPrefix(hi: char, lo: char, rest: string)
    requires 0 <= HexValue(hi) && 0 <= HexValue(lo)
    ensures Parse(['\\', 'x', hi, lo] + rest) == Prepend(HexValue(hi) * 0x10 + HexValue(lo), Parse(rest))
  {
    var t := ['\\', 'x', hi, lo] + rest;
    assert t[4..] == rest;
  }

  lemma ParseHexEscape(a: Atom, rest: string)
    requires 0 <= a < 32 || 127 <= a <= 255
    ensures Parse(EscapeFixed(a) + rest) == Prepend(a, Parse(rest))
  {
    var hi, lo := a / 0x10, a % 0x10;
    EscapeHexForm(a);
    HexDigitValue(hi);
    HexDigitValue(lo);
    ParseHexPrefix(HexDigits[hi], HexDigits[lo], rest);
    assert hi * 0x10 + lo == a;
  }

  /** A byte outside the printable range is written as "\\x" and two hexadecimal digits. */
  lemma EscapeHexForm(a: Atom)
    requires 0 <= a < 32 || 127 <= a <= 255
    ensures 0 <= a / 0x10 < 0x10 && 0 <= a % 0x10 < 0x10
    ensures Escape(a) == EscapeFixed(a) == ['\\', 'x', HexDigits[a / 0x10], HexDigits[a % 0x10]]
  {
    assert a % 0x1_0000_0000 == a;
    assert Escape(a) == "\\x" + Pad2(Hex(a));
    HexByte(a);
  }

  lemma ParseCharEscape(a: Atom, rest: string)
    requires a == '/' as int || a == '.' as int || a == '\\' as int
    ensures Parse(EscapeFixed(a) + rest) == Prepend(a, Parse(rest))
  {
    var t := EscapeFixed(a) + rest;
    assert t[0] == '\\' && t[1] == a as char;
    assert t[2..] == rest;
  }

  lemma ParsePlain(a: Atom, rest: string)
    requires a == Wildcard || (32 <= a <= 126 && a != '/' as int && a != '.' as int && a != '\\' as int)
    ensures Parse(EscapeFixed(a) + rest) == Prepend(a, Parse(rest))
  {
    var t := EscapeFixed(a) + rest;
    assert t[1..] == rest;
  }

  /** One escaped atom is read back, whatever follows it. */
  lemma ParseEscape(a: Atom, rest: string)
    requires IsByteOrWildcard(a)
    ensures Parse(EscapeFixed(a) + rest) == Prepend(a, Parse(rest))
  {
    if a == '/' as int || a == '.' as int || a == '\\' as int {
      ParseCharEscape(a, rest);
    } else if a == Wildcard || 32 <= a <= 126 {
      ParsePlain(a, rest);
    } else {
      ParseHexEscape(a, rest);
    }
  }

  /** With the backslash escaped, printing bytes and wildcards loses nothing. */
  lemma {:induction false} ParseBodyFixed(s: seq<Atom>)
    requires forall i :: 0 <= i < |s| ==> IsByteOrWildcard(s[i])
    ensures Parse(BodyFixed(s)) == Some(s)
  {
    if s != [] {
      ParseBodyFixed(s[1..]);
      ParseEscape(s[0], BodyFixed(s[1..]));
      assert [s[0]] + s[1..] == s;
    }
  }

  /** The corrected printer tells every two sequences of bytes and wildcards apart. */
  lemma ToStringFixedInjective(s: seq<Atom>, u: seq<Atom>)
    requires forall i :: 0 <= i < |s| ==> IsByteOrWildcard(s[i])
    requires forall i :: 0 <= i < |u| ==> IsByteOrWildcard(u[i])
    requires ToStringFixed(s) == ToStringFixed(u)
    ensures s == u
  {
    var t, w := ToStringFixed(s), ToStringFixed(u);
    assert t[1..|t| - 1] == BodyFixed(s);
    assert w[1..|w| - 1] == BodyFixed(u);
    ParseBodyFixed(s);
    ParseBodyFixed(u);
  }
}

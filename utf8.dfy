/**
  `write_utf8` (src/qzip.cc:368-384): the bytes a code point is written as,
  following the bit patterns of section 3 of RFC 3629. The encoder does not
  reject the surrogate range and writes nothing above U+10FFFF. The
  `putchar` calls become the returned byte sequence.
*/
module Utf8 {
  import opened Errors

  type Byte = x: int | 0 <= x < 0x100

  /** An `unsigned int` argument. */
  type CodePoint = x: int | 0 <= x < 0x1_0000_0000

  const MaxCodePoint: int := 0x10FFFF

  /** A continuation byte carrying six payload bits: `10xxxxxx`. */
  function Continuation(bits: int): (b: Byte)
    requires 0 <= bits < 0x40
    ensures 0x80 <= b < 0xC0
  {
    bits + 0x80
  }

  /**
    The bytes written for `code_point`: one for ASCII, two up to U+07FF,
    three up to U+FFFF, four up to U+10FFFF, none beyond. The shifts are
    divisions by powers of two and the masks with 0x3F are remainders
    modulo 64.
  */
  function Encode(cp: CodePoint): (r: seq<Byte>)
    ensures cp < 0x80 ==> r == [cp]
    ensures 0x80 <= cp <= 0x7FF ==> |r| == 2 && 0xC2 <= r[0] < 0xE0
    ensures 0x800 <= cp <= 0xFFFF ==> |r| == 3 && 0xE0 <= r[0] < 0xF0
    ensures 0x10000 <= cp <= MaxCodePoint ==> |r| == 4 && 0xF0 <= r[0] <= 0xF4
    ensures r == [] <==> cp > MaxCodePoint
    ensures forall i :: 1 <= i < |r| ==> 0x80 <= r[i] < 0xC0
  {
    if cp < 0x80 then
      [cp]
    else if cp <= 0x7FF then
      [cp / 0x40 + 0xC0, Continuation(cp % 0x40)]
    else if cp <= 0xFFFF then
      [cp / 0x1000 + 0xE0, Continuation(cp / 0x40 % 0x40), Continuation(cp % 0x40)]
    else if cp <= MaxCodePoint then
      [cp / 0x4_0000 + 0xF0, Continuation(cp / 0x1000 % 0x40),
       Continuation(cp / 0x40 % 0x40), Continuation(cp % 0x40)]
    else
      []
  }

  predicate IsContinuation(b: Byte) { 0x80 <= b < 0xC0 }

  /**
    Reads one encoded character back from exactly the bytes given, by the
    patterns of section 3 of RFC 3629: a lead byte that announces the
    length, continuation bytes, and no over-long form. Like the encoder, it
    lets the surrogate range through.
  */
  function Decode(s: seq<Byte>): (r: Option<int>)
    ensures r.Some? ==> 0 <= r.value <= MaxCodePoint
    ensures r.Some? ==> 1 <= |s| <= 4
  {
    if |s| == 1 && s[0] < 0x80 then
      Some(s[0])
    else if |s| == 2 && 0xC0 <= s[0] < 0xE0 && IsContinuation(s[1]) then
      var v: int := (s[0] as int - 0xC0) * 0x40 + (s[1] as int - 0x80);
      if v < 0x80 then None else Some(v)
    else if |s| == 3 && 0xE0 <= s[0] < 0xF0 && IsContinuation(s[1]) && IsContinuation(s[2]) then
      var v: int := ((s[0] as int - 0xE0) * 0x40 + (s[1] as int - 0x80)) * 0x40 + (s[2] as int - 0x80);
      if v < 0x800 then None else Some(v)
    else if |s| == 4 && 0xF0 <= s[0] < 0xF8 && IsContinuation(s[1]) && IsContinuation(s[2])
            && IsContinuation(s[3]) then
      var v: int := (((s[0] as int - 0xF0) * 0x40 + (s[1] as int - 0x80)) * 0x40 + (s[2] as int - 0x80)) * 0x40 + (s[3] as int - 0x80);
      if v < 0x10000 || v > MaxCodePoint then None else Some(v)
    else
      None
  }

  /** Splitting off the low six bits: `(a << 6 | b) >> 6 == a` and `& 0x3F == b`. */
  lemma Split64(v: int, a: int, b: int)
    requires 0 <= b < 0x40 && v == a * 0x40 + b
    ensures v / 0x40 == a && v % 0x40 == b
  {
  }

  lemma DecodeEncode2(cp: CodePoint)
    requires 0x80 <= cp <= 0x7FF
    ensures Decode(Encode(cp)) == Some(cp)
  {
    Split64(cp, cp / 0x40, cp % 0x40);
  }

  lemma DecodeEncode3(cp: CodePoint)
    requires 0x800 <= cp <= 0xFFFF
    ensures Decode(Encode(cp)) == Some(cp)
  {
    var hi: int := cp / 0x40;
    Split64(cp, hi, cp % 0x40);
    Split64(hi, hi / 0x40, hi % 0x40);
    assert cp / 0x1000 == hi / 0x40;
  }

  lemma DecodeEncode4(cp: CodePoint)
    requires 0x10000 <= cp <= MaxCodePoint
    ensures Decode(Encode(cp)) == Some(cp)
  {
    var hi: int := cp / 0x40;
    var top: int := hi / 0x40;
    Split64(cp, hi, cp % 0x40);
    Split64(hi, top, hi % 0x40);
    Split64(top, top / 0x40, top % 0x40);
    assert cp / 0x1000 == top;
    assert cp / 0x4_0000 == top / 0x40;
  }

  /** Every code point the encoder writes is read back unchanged. */
  lemma DecodeEncode(cp: CodePoint)
    requires cp <= MaxCodePoint
    ensures Decode(Encode(cp)) == Some(cp)
  {
    if 0x80 <= cp <= 0x7FF {
      DecodeEncode2(cp);
    } else if 0x800 <= cp <= 0xFFFF {
      DecodeEncode3(cp);
    } else if 0x10000 <= cp {
      DecodeEncode4(cp);
    }
  }

  lemma EncodeDecode2(s: seq<Byte>)
    requires |s| == 2 && Decode(s).Some?
    ensures Encode(Decode(s).value) == s
  {
    var v := Decode(s).value;
    Split64(v, s[0] as int - 0xC0, s[1] as int - 0x80);
  }

  lemma EncodeDecode3(s: seq<Byte>)
    requires |s| == 3 && Decode(s).Some?
    ensures Encode(Decode(s).value) == s
  {
    var v := Decode(s).value;
    var hi: int := (s[0] as int - 0xE0) * 0x40 + (s[1] as int - 0x80);
    Split64(v, hi, s[2] as int - 0x80);
    Split64(hi, s[0] as int - 0xE0, s[1] as int - 0x80);
    assert v / 0x1000 == hi / 0x40;
  }

  lemma EncodeDecode4(s: seq<Byte>)
    requires |s| == 4 && Decode(s).Some?
    ensures Encode(Decode(s).value) == s
  {
    var v := Decode(s).value;
    var top: int := (s[0] as int - 0xF0) * 0x40 + (s[1] as int - 0x80);
    var hi: int := top * 0x40 + (s[2] as int - 0x80);
    Split64(v, hi, s[3] as int - 0x80);
    Split64(hi, top, s[2] as int - 0x80);
    Split64(top, s[0] as int - 0xF0, s[1] as int - 0x80);
    assert v / 0x1000 == top;
    assert v / 0x4_0000 == top / 0x40;
  }

  /**
    What the decoder reads back is encoded by exactly those bytes, so the
    encoder writes the one shortest form of each code point.
  */
  lemma EncodeDecode(s: seq<Byte>)
    requires Decode(s).Some?
    ensures Encode(Decode(s).value) == s
  {
    if |s| == 2 {
      EncodeDecode2(s);
    } else if |s| == 3 {
      EncodeDecode3(s);
    } else if |s| == 4 {
      EncodeDecode4(s);
    }
  }

  /**
    A surrogate code point is written as a three-byte sequence starting
    0xED 0xA0..0xBF, a form that section 3 of RFC 3629 forbids.
  */
  lemma SurrogatesAreEncoded(cp: CodePoint)
    requires 0xD800 <= cp <= 0xDFFF
    ensures |Encode(cp)| == 3 && Encode(cp)[0] == 0xED && 0xA0 <= Encode(cp)[1] < 0xC0
  {
  }
}

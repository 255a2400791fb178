/**
  `qz_process_fd` (src/qzip.cc:474-595): reads the input as a block of byte
  literals, rewrites frequent pairs into rules until no pair is frequent,
  cleans up and renumbers the rules, writes the rules and the block as
  16-bit words, and finally checks that expanding the block gives back the
  input.
*/
module Compressor {
  import opened Symbols
  import opened Expansion
  import opened Errors
  import Ordering
  import Mining
  import Cleanup
  import Renaming
  import Engine
  import Rewriting

  type Byte = x: int | 0 <= x < 0x100
  type Word = x: int | 0 <= x < 0x1_0000

  /** A symbol or a signed `int16_t` as written: its value modulo 2^16, as the casts to 16 bits give it. */
  function Word16(x: int): (w: Word)
    ensures 0 <= x < 0x1_0000 ==> w == x
    ensures x == Wildcard ==> w == 0xFFFF
  {
    x % 0x1_0000
  }

  /** The word written after every rule body: `(int16_t)symbol::wildcard`. */
  const Terminator: Word := 0xFFFF

  /** The symbols of a block, one word each. */
  function Words(s: Block): (w: seq<Word>)
    ensures |w| == |s| && forall i :: 0 <= i < |s| ==> w[i] == Word16(s[i])
  {
    seq(|s|, i requires 0 <= i < |s| => Word16(s[i]))
  }

  /** One rule as written (src/qzip.cc:564-576): its key, its body, the terminator. */
  function RuleWords(k: Symbol, body: Block): seq<Word> {
    [Word16(k)] + Words(body) + [Terminator]
  }

  /** The rules of the keys `ks`, in that order. */
  function RulesWords(d: Dictionary, ks: seq<Symbol>): seq<Word>
    requires forall i :: 0 <= i < |ks| ==> ks[i] in d
  {
    if ks == [] then [] else RuleWords(ks[0], d[ks[0]]) + RulesWords(d, ks[1..])
  }

  /** Everything `qz_process_fd` writes: the rules in ascending key order, then the block. */
  function Layout(d: Dictionary, b: Block): seq<Word> {
    var ks := Ordering.SortedKeys(d.Keys);
    RulesWords(d, ks) + Words(b)
  }

  lemma {:induction false} RulesWordsSnoc(d: Dictionary, ks: seq<Symbol>, k: Symbol)
    requires forall i :: 0 <= i < |ks| ==> ks[i] in d
    requires k in d
    ensures RulesWords(d, ks + [k]) == RulesWords(d, ks) + RuleWords(k, d[k])
  {
    if ks != [] {
      assert (ks + [k])[1..] == ks[1..] + [k];
      RulesWordsSnoc(d, ks[1..], k);
    }
  }

  /**
    The output loops (src/qzip.cc:561-583): for each rule in ascending key
    order the key, the body and the terminator, then every block symbol,
    each cast to 16 bits.
  */
  method Emit(d: Dictionary, b: Block) returns (out: seq<Word>)
    ensures out == Layout(d, b)
  {
    var ks := Ordering.SortedKeys(d.Keys);
    out := EmitRules(d, ks);
    out := EmitWords(out, b);
  }

  /** The loop over the rules (src/qzip.cc:561-576). */
  method EmitRules(d: Dictionary, ks: seq<Symbol>) returns (out: seq<Word>)
    requires forall i :: 0 <= i < |ks| ==> ks[i] in d
    ensures out == RulesWords(d, ks)
  {
    out := [];
    var i := 0;
    while i < |ks|
      invariant i <= |ks|
      invariant out == RulesWords(d, ks[..i])
    {
      out := EmitRule(out, ks[i], d[ks[i]]);
      assert ks[..i + 1] == ks[..i] + [ks[i]];
      RulesWordsSnoc(d, ks[..i], ks[i]);
      i := i + 1;
    }
    assert ks[..i] == ks;
  }

  /** The words of one rule (src/qzip.cc:564-576). */
  method EmitRule(out: seq<Word>, k: Symbol, body: Block) returns (out': seq<Word>)
    ensures out' == out + RuleWords(k, body)
  {
    out' := out + [Word16(k)];
    out' := EmitWords(out', body);
    out' := out' + [Terminator];
  }

  /** The loop that writes a sequence of symbols (src/qzip.cc:570-574 and 578-582). */
  method EmitWords(out: seq<Word>, s: Block) returns (out': seq<Word>)
    ensures out' == out + Words(s)
  {
    out' := out;
    var j := 0;
    while j < |s|
      invariant j <= |s|
      invariant out' == out + Words(s[..j])
    {
      assert Words(s[..j + 1]) == Words(s[..j]) + [Word16(s[j])];
      out' := out' + [Word16(s[j])];
      j := j + 1;
    }
    assert s[..j] == s;
  }

  /** The largest key, which `std::max_element` finds (src/qzip.cc:552-556). */
  function MaxKey(d: Dictionary): (m: Symbol)
    requires d != map[]
    ensures m in d && forall k :: k in d ==> k <= m
  {
    var ks := Ordering.SortedKeys(d.Keys);
    assert ks[|ks| - 1] in d.Keys;
    forall k | k in d ensures k <= ks[|ks| - 1] {
      var i :| 0 <= i < |ks| && ks[i] == k;
    }
    ks[|ks| - 1]
  }

  /** Every symbol fits a word other than the terminator. */
  ghost predicate Fits(s: Block) {
    forall y :: y in s ==> 0 <= y < 0xFFFF
  }

  ghost predicate FitsAll(d: Dictionary, b: Block) {
    (forall k :: k in d ==> 0 <= k < 0xFFFF && Fits(d[k])) && Fits(b)
  }

  /** The position of the first terminator, or the length when there is none. */
  function FirstTerminator(w: seq<Word>): (j: nat)
    ensures j <= |w| && (j < |w| ==> w[j] == Terminator)
    ensures forall i :: 0 <= i < j ==> w[i] != Terminator
  {
    if w == [] then 0 else if w[0] == Terminator then 0 else FirstTerminator(w[1..]) + 1
  }

  /**
    How the written words determine what was written: while a terminator
    is left, the words up to it are a key and its body; the rest is the block.
  */
  ghost function ReadLayout(w: seq<Word>): (Dictionary, Block)
    decreases |w|
  {
    var j := FirstTerminator(w);
    if j == |w| then (map[], w)
    else if j == 0 then ReadLayout(w[1..])
    else
      var (d, b) := ReadLayout(w[j + 1..]);
      (d[w[0] := w[1..j]], b)
  }

  lemma WordsFit(s: Block)
    requires Fits(s)
    ensures Words(s) == s
    ensures forall i :: 0 <= i < |s| ==> Words(s)[i] != Terminator
  {
    forall i | 0 <= i < |s| ensures Words(s)[i] == s[i] && Words(s)[i] != Terminator {
      assert s[i] in s;
    }
  }

  /** The rules of the keys `ks`. */
  function Restrict(d: Dictionary, ks: seq<Symbol>): (e: Dictionary)
    requires forall i :: 0 <= i < |ks| ==> ks[i] in d
    ensures forall k :: k in e <==> k in ks
    ensures forall k :: k in e ==> e[k] == d[k]
  {
    map k | k in ks :: d[k]
  }

  /** Reading the words of the rules `ks` and a block gives back those rules and that block. */
  lemma {:induction false} ReadRules(d: Dictionary, ks: seq<Symbol>, b: Block)
    requires FitsAll(d, b) && Ordering.StrictlyIncreasing(ks)
    requires forall i :: 0 <= i < |ks| ==> ks[i] in d
    ensures ReadLayout(RulesWords(d, ks) + Words(b)) == (Restrict(d, ks), b)
  {
    if ks == [] {
      WordsFit(b);
      assert RulesWords(d, ks) + Words(b) == Words(b);
      assert FirstTerminator(Words(b)) == |b|;
      assert Restrict(d, ks) == map[];
    } else {
      var k := ks[0];
      var rest := RulesWords(d, ks[1..]) + Words(b);
      assert RulesWords(d, ks) + Words(b) == RuleWords(k, d[k]) + rest;
      assert Ordering.StrictlyIncreasing(ks[1..]);
      ReadRules(d, ks[1..], b);
      ReadRule(k, d[k], rest);
      RestrictCons(d, ks);
    }
  }

  /** The rules of `ks` are the first rule added to the rules of the rest. */
  lemma RestrictCons(d: Dictionary, ks: seq<Symbol>)
    requires Ordering.StrictlyIncreasing(ks) && ks != []
    requires forall i :: 0 <= i < |ks| ==> ks[i] in d
    ensures Restrict(d, ks) == Restrict(d, ks[1..])[ks[0] := d[ks[0]]]
  {
    assert ks[0] !in ks[1..];
  }

  /** Reading one rule's words: the key and body up to the terminator are one rule of what follows. */
  lemma ReadRule(k: Symbol, body: Block, rest: seq<Word>)
    requires 0 <= k < 0xFFFF && Fits(body)
    ensures var (d, b) := ReadLayout(rest);
      ReadLayout(RuleWords(k, body) + rest) == (d[k := body], b)
  {
    var w := RuleWords(k, body) + rest;
    WordsFit(body);
    assert w == [k] + body + [Terminator] + rest;
    assert w[|body| + 1] == Terminator;
    forall i | 0 <= i < |body| + 1 ensures w[i] != Terminator {
      if i > 0 {
        assert w[i] == body[i - 1];
      }
    }
    FirstTerminatorAt(w, |body| + 1);
    assert w[|body| + 2..] == rest;
    assert w[1..|body| + 1] == body;
  }

  lemma {:induction false} FirstTerminatorAt(w: seq<Word>, j: nat)
    requires j < |w| && w[j] == Terminator
    requires forall i :: 0 <= i < j ==> w[i] != Terminator
    ensures FirstTerminator(w) == j
    decreases j
  {
    if j > 0 {
      FirstTerminatorAt(w[1..], j - 1);
    }
  }

  /**
    The output is unambiguous while every key and symbol fits below
    0xFFFF: the words determine the rules and the block, even though no
    rule count is written.
  */
  lemma LayoutDetermines(d: Dictionary, b: Block)
    requires FitsAll(d, b)
    ensures ReadLayout(Layout(d, b)) == (d, b)
  {
    var ks := Ordering.SortedKeys(d.Keys);
    ReadRules(d, ks, b);
    RestrictAll(d, ks);
  }

  /** Restricting to a sequence of exactly the keys changes nothing. */
  lemma RestrictAll(d: Dictionary, ks: seq<Symbol>)
    requires forall i :: 0 <= i < |ks| ==> ks[i] in d
    requires forall k :: k in d ==> k in ks
    ensures Restrict(d, ks) == d
  {
    var e := Restrict(d, ks);
    assert forall k :: k in e <==> k in d;
  }

  /** Any two outputs that are equal were written from the same rules and block. */
  lemma LayoutInjective(d1: Dictionary, b1: Block, d2: Dictionary, b2: Block)
    requires FitsAll(d1, b1) && FitsAll(d2, b2) && Layout(d1, b1) == Layout(d2, b2)
    ensures d1 == d2 && b1 == b2
  {
    LayoutDetermines(d1, b1);
    LayoutDetermines(d2, b2);
  }

  /** No symbol below the byte literals: the block and the bodies hold no wildcard. */
  ghost predicate Unsigned(s: Block) {
    forall y :: y in s ==> y >= AsciiMin
  }

  ghost predicate UnsignedRules(d: Dictionary) {
    forall k :: k in d ==> Unsigned(d[k])
  }

  /** Inlining copies symbols of the block and of the bodies only. */
  lemma {:induction false} InlineUnsigned(d: Dictionary, sh: multiset<Symbol>, s: Block)
    requires UnsignedRules(d) && Unsigned(s)
    ensures Unsigned(Cleanup.Inline(d, sh, s))
    decreases d.Keys, |s|
  {
    if s != [] {
      var x := s[0];
      assert x in s && forall y :: y in s[1..] ==> y in s;
      if Cleanup.Singleton(sh, x) && x in d {
        InlineUnsigned(Below(d, x), sh, d[x]);
      }
      InlineUnsigned(d, sh, s[1..]);
      assert Cleanup.Inline(d, sh, s) == Cleanup.InlineSymbol(d, sh, x) + Cleanup.Inline(d, sh, s[1..]);
    }
  }

  /** Renaming maps non-terminals to non-terminals and keeps the other symbols. */
  lemma RenameUnsigned(f: Renaming.Table, s: Block)
    requires Unsigned(s) && Renaming.Covers(f, s)
    requires forall k :: k in f ==> f[k] >= First
    ensures Unsigned(Renaming.Rename(f, s))
  {
    forall i | 0 <= i < |s| ensures Renaming.Rename(f, s)[i] >= AsciiMin {
      assert s[i] in s;
    }
  }

  /**
    The outer loop of `qz_process_fd` (src/qzip.cc:505-541): while some
    pair occurs at least four times, one rewriting pass over the block.
    Each pass shortens the block, so the loop ends; when it does, no pair
    is frequent, and the rules expand the block back to the input.
  */
  method Rewrite(input: seq<Byte>) returns (b: Block, d: Dictionary)
    requires InIntRange(First + |input| - 1)
    ensures Ranked(d) && Closed(d) && ClosedSeq(d, b)
    ensures Unsigned(b) && UnsignedRules(d)
    ensures Expand(d, b) == input
    ensures Mining.NGrams(b) == {} && |b| <= |input|
  {
    b, d := input, map[];
    var rd: Rewriting.RDictionary := map[];
    var cur := First;
    ExpandNoKeys(d, b);
    var ngrams := Mining.GetNGrams(b);
    while ngrams != {}
      invariant Rewriting.Grammar(b, d, rd, cur)
      invariant Expand(d, b) == input
      invariant cur + |b| <= First + |input|
      invariant ngrams == Mining.NGrams(b)
      decreases |b|
    {
      var x := Ordering.Member(ngrams);
      Mining.NGramOccurs(b, x);
      b, d, rd, cur := Rewriting.RewritePass(b, d, rd, cur, ngrams);
      ngrams := Mining.GetNGrams(b);
    }
  }

  /**
    The clean-up of `qz_process_fd` (src/qzip.cc:543-546): inline the
    singletons, trim the rules nobody uses, renumber. Each step keeps what
    the block expands to, and the renumbered keys are `first`,
    `first + 1`, ... with no gaps. The rules are closed, so `qz_remap`
    finds every symbol it looks up and does not throw.
  */
  method Tidy(b: Block, d: Dictionary) returns (b': Block, d': Dictionary)
    requires Ranked(d) && Closed(d) && ClosedSeq(d, b)
    requires Unsigned(b) && UnsignedRules(d)
    ensures Ranked(d') && Closed(d') && ClosedSeq(d', b')
    ensures Unsigned(b') && UnsignedRules(d')
    ensures Expand(d', b') == Expand(d, b)
    ensures forall k :: k in d' ==> First <= k < First + |d'|
  {
    ghost var sh := Cleanup.SymbolHistogram(b, d);
    var b1, d1, n := Engine.InlineSingletons(b, d);
    Cleanup.InliningPreservesExpand(d, sh, b, d1);
    InlineUnsigned(d, sh, b);
    assert UnsignedRules(d1) by {
      forall k | k in d1 ensures Unsigned(d1[k]) {
        if k in d {
          InlineUnsigned(d, sh, d[k]);
        }
      }
    }
    var d2 := Engine.TrimDictionary(b1, d1);
    Cleanup.TrimPreservesExpand(b1, d1);
    var res;
    b', d', res := Engine.Remap(b1, d2);
    RemapSucceeds(b1, d2, b', d');
  }

  /** The renumbering step of `Tidy` on rules that are closed over the block. */
  lemma RemapSucceeds(b: Block, d: Dictionary, b': Block, d': Dictionary)
    requires Ranked(d) && Closed(d) && ClosedSeq(d, b)
    requires Unsigned(b) && UnsignedRules(d)
    requires var f := Renaming.NumberingOf(d);
      var j := Renaming.FirstUncovered(f, b);
      b' == Renaming.Rename(f, b[..j]) + b[j..]
    requires Renaming.RemapDefined(d, b) ==> d' == Renaming.Renumbered(d)
    ensures Ranked(d') && Closed(d') && ClosedSeq(d', b')
    ensures Unsigned(b') && UnsignedRules(d')
    ensures Expand(d', b') == Expand(d, b)
    ensures forall k :: k in d' ==> First <= k < First + |d'|
  {
    var f := Renaming.NumberingOf(d);
    assert Renaming.RemapDefined(d, b);
    assert b' == Renaming.Rename(f, b) by {
      Engine.RenameFailed(f, b);
      assert b[..|b|] == b && b[|b|..] == [];
    }
    RenumberedExpands(d, b);
    RenumberedShape(d, b);
  }

  lemma RenumberedExpands(d: Dictionary, b: Block)
    requires Ranked(d) && Closed(d) && ClosedSeq(d, b)
    ensures Renaming.Covers(Renaming.NumberingOf(d), b)
    ensures var e, c := Renaming.Renumbered(d), Renaming.Rename(Renaming.NumberingOf(d), b);
      Expand(e, c) == Expand(d, b) && Closed(e) && ClosedSeq(e, c)
  {
    Renaming.RenumberingExpands(d, b);
  }

  lemma RenumberedShape(d: Dictionary, b: Block)
    requires Ranked(d) && Closed(d) && ClosedSeq(d, b) && Unsigned(b) && UnsignedRules(d)
    ensures Renaming.Covers(Renaming.NumberingOf(d), b)
    ensures var e, c := Renaming.Renumbered(d), Renaming.Rename(Renaming.NumberingOf(d), b);
      Ranked(e) && (forall k :: k in e ==> First <= k < First + |e|) && Unsigned(c) && UnsignedRules(e)
  {
    Renaming.RenumberingDense(d);
    var f := Renaming.NumberingOf(d);
    assert Renaming.Covers(f, b) by {
      forall y | y in b && y >= First ensures y in f {
        assert y in d;
      }
    }
    RenameUnsigned(f, b);
    RenumberedUnsigned(d);
  }

  lemma RenumberedUnsigned(d: Dictionary)
    requires Ranked(d) && Closed(d) && UnsignedRules(d)
    ensures UnsignedRules(Renaming.Renumbered(d))
  {
    var f, e := Renaming.NumberingOf(d), Renaming.Renumbered(d);
    Renaming.RenumberedRenames(d);
    forall k2 | k2 in e ensures Unsigned(e[k2]) {
      var k :| k in d && f[k] == k2;
      RenameUnsigned(f, d[k]);
    }
  }

  /**
    `qz_process_fd` (src/qzip.cc:474-595) on the bytes read: rewrite, clean
    up and renumber, refuse an empty dictionary (whose largest key the
    source reads past the end of the map) and a largest key at or above
    `max16`, write the layout, and check that expanding the block gives
    back the input.

    The check always passes and the renumbering never throws: the only
    failures are the two refusals. The ghost results are the rules and the
    block that were written; they expand to the input, and while
    `max16 <= 0xFFFF` the words written determine them.
  */
  method ProcessFd(input: seq<Byte>, max16: Symbol) returns (r: Result<seq<Word>>, ghost d: Dictionary, ghost b: Block)
    requires InIntRange(First + |input| - 1)
    ensures r.Success? || r == Failure(EmptyDictionary) || r == Failure(SymbolTooLarge)
    ensures Expand(d, b) == input && Ranked(d) && Closed(d) && ClosedSeq(d, b)
    ensures forall k :: k in d ==> First <= k < First + |d|
    ensures r == Failure(EmptyDictionary) <==> d == map[]
    ensures r == Failure(SymbolTooLarge) <==> d != map[] && MaxKey(d) >= max16
    ensures r.Success? ==> r.value == Layout(d, b)
    ensures r.Success? && max16 <= 0xFFFF ==> ReadLayout(r.value) == (d, b)
  {
    var b0, d0 := Rewrite(input);
    var b1, d1 := Tidy(b0, d0);
    d, b := d1, b1;
    if d1 == map[] {
      return Failure(EmptyDictionary), d, b;
    }
    if MaxKey(d1) >= max16 {
      return Failure(SymbolTooLarge), d, b;
    }
    var out := Emit(d1, b1);
    var e := Engine.ExpandBlock(b1, d1);
    r := if e == input then Success(out) else Failure(ExpansionMismatch);
    if max16 <= 0xFFFF {
      OutputFits(d1, b1, max16);
      LayoutDetermines(d1, b1);
    }
  }

  /** Below `max16 <= 0xFFFF` every key and symbol written fits a word other than the terminator. */
  lemma OutputFits(d: Dictionary, b: Block, max16: Symbol)
    requires d != map[] && MaxKey(d) < max16 <= 0xFFFF
    requires Ranked(d) && ClosedSeq(d, b) && Unsigned(b) && UnsignedRules(d)
    ensures FitsAll(d, b)
  {
    var m := MaxKey(d);
    forall k | k in d ensures 0 <= k < 0xFFFF && Fits(d[k]) {
      assert Unsigned(d[k]);
    }
    forall y | y in b ensures 0 <= y < 0xFFFF {
      if y >= First {
        assert y in d;
      }
    }
  }
}

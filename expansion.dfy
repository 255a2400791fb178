/**
  The meaning of a block under a dictionary: `qz_expand`
  (src/qzip.cc:402-416) replaces every symbol that is a key by its rule
  body until no key is left. Here the expansion is defined by recursion on
  the rules: a key expands to the expansion of its body under the rules
  with smaller keys only, which makes it total. When every body refers only
  to symbols below its own key (`Ranked`), the two readings agree.
*/
module Expansion {
  import opened Symbols

  type Block = seq<Symbol>

  /** `dictionary`: a rule body for each key, ordered by key. */
  type Dictionary = map<Symbol, Block>

  /** The rules whose key is below `k`. */
  function Below(d: Dictionary, k: Symbol): (e: Dictionary)
    ensures e.Keys <= d.Keys && k !in e
    ensures forall x :: x in e <==> x in d && x < k
    ensures forall x :: x in e ==> e[x] == d[x]
  {
    map x | x in d && x < k :: d[x]
  }

  /**
    Every key is a non-terminal and every symbol of its body lies below it:
    rules only refer to literals and to rules made before them.
  */
  ghost predicate Ranked(d: Dictionary) {
    forall k :: k in d ==> k >= First && forall y :: y in d[k] ==> y < k
  }

  /** Every non-terminal of `s` is a key of `d`. */
  ghost predicate ClosedSeq(d: Dictionary, s: Block) {
    forall y :: y in s && y >= First ==> y in d
  }

  /** Every non-terminal of every body is a key. */
  ghost predicate Closed(d: Dictionary) {
    forall k :: k in d ==> ClosedSeq(d, d[k])
  }

  function ExpandSymbol(d: Dictionary, x: Symbol): Block
    decreases d.Keys, 0
  {
    if x in d then Expand(Below(d, x), d[x]) else [x]
  }

  /** The symbols that remain once every key has been replaced by its body. */
  function Expand(d: Dictionary, s: Block): Block
    decreases d.Keys, |s|
  {
    if s == [] then [] else ExpandSymbol(d, s[0]) + Expand(d, s[1..])
  }

  lemma RankedBelow(d: Dictionary, k: Symbol)
    requires Ranked(d)
    ensures Ranked(Below(d, k))
  {
  }

  /** Expansion distributes over concatenation. */
  lemma {:induction false} ExpandAppend(d: Dictionary, s: Block, t: Block)
    ensures Expand(d, s + t) == Expand(d, s) + Expand(d, t)
    decreases |s|
  {
    if s != [] {
      assert (s + t)[1..] == s[1..] + t;
      ExpandAppend(d, s[1..], t);
    } else {
      assert s + t == t;
    }
  }

  lemma ExpandSingle(d: Dictionary, x: Symbol)
    ensures Expand(d, [x]) == ExpandSymbol(d, x)
  {
    assert [x][1..] == [];
  }

  lemma ExpandSymbolBelow(d: Dictionary, k: Symbol, x: Symbol)
    requires x < k
    ensures ExpandSymbol(Below(d, k), x) == ExpandSymbol(d, x)
  {
    if x in d {
      assert Below(Below(d, k), x) == Below(d, x);
    }
  }

  /** Rules with keys above every symbol of `s` play no part in its expansion. */
  lemma {:induction false} ExpandBelow(d: Dictionary, k: Symbol, s: Block)
    requires forall y :: y in s ==> y < k
    ensures Expand(Below(d, k), s) == Expand(d, s)
    decreases |s|
  {
    if s != [] {
      assert s[0] in s && forall y :: y in s[1..] ==> y in s;
      ExpandSymbolBelow(d, k, s[0]);
      ExpandBelow(d, k, s[1..]);
    }
  }

  /**
    In a ranked dictionary a key expands as its body does under the whole
    dictionary, which is what `qz_expand`'s in-place rescan computes.
  */
  lemma ExpandKey(d: Dictionary, x: Symbol)
    requires Ranked(d) && x in d
    ensures ExpandSymbol(d, x) == Expand(d, d[x])
  {
    ExpandBelow(d, x, d[x]);
  }

  /** A block without keys is its own expansion. */
  lemma {:induction false} ExpandNoKeys(d: Dictionary, s: Block)
    requires forall y :: y in s ==> y !in d
    ensures Expand(d, s) == s
    decreases |s|
  {
    if s != [] {
      ExpandNoKeys(d, s[1..]);
    }
  }

  /** Replacing one symbol of a block by a block that expands alike keeps the expansion. */
  lemma Splice(d: Dictionary, s: Block, i: nat, t: Block)
    requires i < |s| && Expand(d, t) == ExpandSymbol(d, s[i])
    ensures Expand(d, s[..i] + t + s[i + 1..]) == Expand(d, s)
  {
    assert s == s[..i] + [s[i]] + s[i + 1..];
    ExpandAppend(d, s[..i] + t, s[i + 1..]);
    ExpandAppend(d, s[..i], t);
    ExpandAppend(d, s[..i] + [s[i]], s[i + 1..]);
    ExpandAppend(d, s[..i], [s[i]]);
    ExpandSingle(d, s[i]);
  }

  /**
    Dropping rules changes nothing as long as every key still referred to by
    the block or by a remaining body is kept.
  */
  lemma {:induction false} ExpandSub(d: Dictionary, e: Dictionary, s: Block)
    requires forall k :: k in e ==> k in d && e[k] == d[k]
    requires forall y :: y in s && y in d ==> y in e
    requires forall k, y :: k in e && y in e[k] && y in d ==> y in e
    ensures Expand(e, s) == Expand(d, s)
    decreases d.Keys, |s|
  {
    if s != [] {
      var x := s[0];
      if x in e {
        var d', e' := Below(d, x), Below(e, x);
        forall y | y in d[x] && y in d' ensures y in e' {
        }
        ExpandSub(d', e', d[x]);
      }
      ExpandSub(d, e, s[1..]);
    }
  }

  /**
    Replacing every body by one that expands alike, keeping the keys and
    the ranking, keeps every expansion.
  */
  lemma {:induction false} ExpandEquivalent(d: Dictionary, d2: Dictionary, s: Block)
    requires Ranked(d) && Ranked(d2) && d2.Keys == d.Keys
    requires forall k :: k in d ==> Expand(d, d2[k]) == Expand(d, d[k])
    ensures Expand(d2, s) == Expand(d, s)
    decreases d.Keys, |s|
  {
    if s != [] {
      var x := s[0];
      if x in d {
        var b, b2 := Below(d, x), Below(d2, x);
        forall k | k in b ensures Expand(b, b2[k]) == Expand(b, b[k]) {
          ExpandBelow(d, x, d2[k]);
          ExpandBelow(d, x, d[k]);
        }
        ExpandEquivalent(b, b2, d2[x]);
        ExpandBelow(d, x, d2[x]);
        ExpandKey(d, x);
      }
      ExpandEquivalent(d, d2, s[1..]);
    }
  }

  function WeightSymbol(d: Dictionary, x: Symbol): nat
    decreases d.Keys, 0
  {
    if x in d then 1 + Weight(Below(d, x), d[x]) else 1
  }

  /**
    The number of symbols written during a full expansion, counting every
    replaced key once: the measure that a rescanning expansion decreases.
  */
  function Weight(d: Dictionary, s: Block): nat
    decreases d.Keys, |s|
  {
    if s == [] then 0 else WeightSymbol(d, s[0]) + Weight(d, s[1..])
  }

  lemma {:induction false} WeightAppend(d: Dictionary, s: Block, t: Block)
    ensures Weight(d, s + t) == Weight(d, s) + Weight(d, t)
    decreases |s|
  {
    if s != [] {
      assert (s + t)[1..] == s[1..] + t;
      WeightAppend(d, s[1..], t);
    } else {
      assert s + t == t;
    }
  }

  lemma {:induction false} WeightBelow(d: Dictionary, k: Symbol, s: Block)
    requires forall y :: y in s ==> y < k
    ensures Weight(Below(d, k), s) == Weight(d, s)
    decreases |s|
  {
    if s != [] {
      assert s[0] in s && forall y :: y in s[1..] ==> y in s;
      if s[0] in d {
        assert Below(Below(d, k), s[0]) == Below(d, s[0]);
      }
      WeightBelow(d, k, s[1..]);
    }
  }

  /**
    Replacing a key at the head of a block by its body lowers the weight of
    the block by one, as does dropping a head symbol that is not a key.
  */
  lemma WeightStep(d: Dictionary, s: Block)
    requires Ranked(d) && s != []
    ensures s[0] in d ==> Weight(d, d[s[0]] + s[1..]) + 1 == Weight(d, s)
    ensures s[0] !in d ==> Weight(d, s[1..]) + 1 == Weight(d, s)
  {
    if s[0] in d {
      WeightBelow(d, s[0], d[s[0]]);
      WeightAppend(d, d[s[0]], s[1..]);
    }
  }
}

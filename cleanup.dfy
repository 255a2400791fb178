/**
  The dictionary clean-up that follows the rewriting pass of src/qzip.cc:
  the count of non-terminals (`qz_symbol_histogram`, lines 386-400), the
  inlining of rules used exactly once (`qz_expand_singletons`, lines
  308-352) and the removal of rules nobody uses (`qz_trim_dictionary`,
  lines 354-366). A `metric<symbol>` count is a multiset; looking up a
  symbol that was never counted gives 0, just as the map's `operator[]`
  does.
*/
module Cleanup {
  import opened Symbols
  import opened Expansion
  import Ordering

  /** The non-terminals of a block, each as often as it occurs. */
  function NonTerminals(s: Block): (m: multiset<Symbol>)
    ensures forall x :: x in m <==> x in s && x >= First
    ensures |m| <= |s|
  {
    if s == [] then multiset{}
    else (if s[0] >= First then multiset{s[0]} else multiset{}) + NonTerminals(s[1..])
  }

  /** The non-terminals of the bodies of the rules `ks`, in that order. */
  function BodiesNonTerminals(d: Dictionary, ks: seq<Symbol>): (m: multiset<Symbol>)
    requires forall i :: 0 <= i < |ks| ==> ks[i] in d
    ensures forall x :: x in m <==> x >= First && exists i :: 0 <= i < |ks| && x in d[ks[i]]
  {
    if ks == [] then multiset{}
    else
      var m := NonTerminals(d[ks[0]]) + BodiesNonTerminals(d, ks[1..]);
      assert forall i :: 1 <= i < |ks| ==> ks[i] == ks[1..][i - 1];
      m
  }

  /**
    `qz_symbol_histogram` (src/qzip.cc:386-400): the non-terminals of the
    block, then those of every rule body in key order. Keys themselves are
    not counted.
  */
  function SymbolHistogram(b: Block, d: Dictionary): multiset<Symbol> {
    NonTerminals(b) + BodiesNonTerminals(d, Ordering.SortedKeys(d.Keys))
  }

  /**
    A symbol is counted exactly when it is a non-terminal that occurs in the
    block or in some rule body.
  */
  lemma SymbolHistogramMembers(b: Block, d: Dictionary, x: Symbol)
    ensures x in SymbolHistogram(b, d) <==> x >= First && (x in b || exists k :: k in d && x in d[k])
  {
    var ks := Ordering.SortedKeys(d.Keys);
    if x >= First && x !in b && exists k :: k in d && x in d[k] {
      var k :| k in d && x in d[k];
      var i :| 0 <= i < |ks| && ks[i] == k;
      assert x in d[ks[i]];
    }
  }

  /**
    The loops of `qz_symbol_histogram` (src/qzip.cc:386-400): one pass over
    the block, then one over each rule body in ascending key order, adding
    one to the count of every non-terminal met.
  */
  method CountSymbols(b: Block, d: Dictionary) returns (h: multiset<Symbol>)
    ensures h == SymbolHistogram(b, d)
  {
    h := CountNonTerminals(b, multiset{});
    var ks := Ordering.SortedKeys(d.Keys);
    h := CountBodies(d, ks, h);
  }

  /** The loop over the rule bodies, in the order `ks`. */
  method CountBodies(d: Dictionary, ks: seq<Symbol>, h0: multiset<Symbol>) returns (h: multiset<Symbol>)
    requires forall i :: 0 <= i < |ks| ==> ks[i] in d
    ensures h == h0 + BodiesNonTerminals(d, ks)
  {
    h := h0;
    var j := 0;
    while j < |ks|
      invariant 0 <= j <= |ks|
      invariant h + BodiesNonTerminals(d, ks[j..]) == h0 + BodiesNonTerminals(d, ks)
    {
      assert ks[j..][1..] == ks[j + 1..];
      h := CountNonTerminals(d[ks[j]], h);
      j := j + 1;
    }
    assert ks[j..] == [];
  }

  /** One inner loop of `qz_symbol_histogram`: adds the non-terminals of `s` to `h`. */
  method CountNonTerminals(s: Block, h0: multiset<Symbol>) returns (h: multiset<Symbol>)
    ensures h == h0 + NonTerminals(s)
  {
    h := h0;
    var i := 0;
    while i < |s|
      invariant 0 <= i <= |s|
      invariant h + NonTerminals(s[i..]) == h0 + NonTerminals(s)
    {
      assert s[i..][1..] == s[i + 1..];
      if s[i] >= First {
        h := h + multiset{s[i]};
      }
      i := i + 1;
    }
  }

  /** A symbol the count saw exactly once. */
  predicate Singleton(sh: multiset<Symbol>, x: Symbol) {
    x >= First && sh[x] == 1
  }

  function InlineSymbol(d: Dictionary, sh: multiset<Symbol>, x: Symbol): Block
    decreases d.Keys, 0
  {
    if !Singleton(sh, x) then [x]
    else if x in d then Inline(Below(d, x), sh, d[x])
    else []
  }

  /**
    What the first overload of `qz_expand_singletons` (src/qzip.cc:308-334)
    leaves of a block: every symbol counted once is replaced by its rule
    body, which is scanned again, so singletons inside it are replaced too;
    a singleton without a rule becomes the empty body `d[sym]` creates.
  */
  function Inline(d: Dictionary, sh: multiset<Symbol>, s: Block): Block
    decreases d.Keys, |s|
  {
    if s == [] then [] else InlineSymbol(d, sh, s[0]) + Inline(d, sh, s[1..])
  }

  lemma {:induction false} InlineAppend(d: Dictionary, sh: multiset<Symbol>, s: Block, t: Block)
    ensures Inline(d, sh, s + t) == Inline(d, sh, s) + Inline(d, sh, t)
    decreases |s|
  {
    if s != [] {
      assert (s + t)[1..] == s[1..] + t;
      InlineAppend(d, sh, s[1..], t);
    } else {
      assert s + t == t;
    }
  }

  lemma {:induction false} InlineBelow(d: Dictionary, k: Symbol, sh: multiset<Symbol>, s: Block)
    requires forall y :: y in s ==> y < k
    ensures Inline(Below(d, k), sh, s) == Inline(d, sh, s)
    decreases |s|
  {
    if s != [] {
      assert s[0] in s && forall y :: y in s[1..] ==> y in s;
      if s[0] in d {
        assert Below(Below(d, k), s[0]) == Below(d, s[0]);
      }
      InlineBelow(d, k, sh, s[1..]);
    }
  }

  /** In a ranked dictionary a singleton key is replaced by its inlined body. */
  lemma InlineKey(d: Dictionary, sh: multiset<Symbol>, x: Symbol)
    requires Ranked(d) && x in d && Singleton(sh, x)
    ensures InlineSymbol(d, sh, x) == Inline(d, sh, d[x])
  {
    InlineBelow(d, x, sh, d[x]);
  }

  /**
    One step of the scan: a singleton at the head is replaced by its body
    (empty when it has no rule), which leaves the inlined result alone and
    lowers the weight of what remains to be scanned.
  */
  lemma InlineHead(d: Dictionary, sh: multiset<Symbol>, s: Block, body: Block)
    requires Ranked(d) && s != [] && Singleton(sh, s[0])
    requires body == if s[0] in d then d[s[0]] else []
    ensures Inline(d, sh, body + s[1..]) == Inline(d, sh, s)
    ensures Weight(d, body + s[1..]) < Weight(d, s)
  {
    WeightStep(d, s);
    InlineAppend(d, sh, body, s[1..]);
    if s[0] in d {
      InlineKey(d, sh, s[0]);
    } else {
      assert body + s[1..] == s[1..];
    }
  }

  /** The scan of `qz_expand_singletons` replaces the singleton at `pos` by its body. */
  lemma InlineScanReplace(d: Dictionary, sh: multiset<Symbol>, s: Block, pos: nat, body: Block)
    requires Ranked(d) && pos < |s| && Singleton(sh, s[pos])
    requires body == if s[pos] in d then d[s[pos]] else []
    ensures var s' := s[..pos] + body + s[pos + 1..];
      s'[..pos] == s[..pos] &&
      Inline(d, sh, s'[pos..]) == Inline(d, sh, s[pos..]) &&
      Weight(d, s'[pos..]) < Weight(d, s[pos..])
  {
    var s' := s[..pos] + body + s[pos + 1..];
    assert s'[pos..] == body + s[pos + 1..];
    assert s[pos..][1..] == s[pos + 1..];
    InlineHead(d, sh, s[pos..], body);
  }

  /** The scan of `qz_expand_singletons` steps over a symbol that is not a singleton. */
  lemma InlineScanSkip(d: Dictionary, sh: multiset<Symbol>, s: Block, pos: nat)
    requires pos < |s| && !Singleton(sh, s[pos])
    ensures s[..pos + 1] + Inline(d, sh, s[pos + 1..]) == s[..pos] + Inline(d, sh, s[pos..])
    ensures Weight(d, s[pos + 1..]) < Weight(d, s[pos..])
  {
    assert s[pos..][1..] == s[pos + 1..];
    assert s[..pos + 1] == s[..pos] + [s[pos]];
  }

  /** Nothing counted exactly once survives the inlining. */
  lemma {:induction false} InlineFree(d: Dictionary, sh: multiset<Symbol>, s: Block)
    ensures forall y :: y in Inline(d, sh, s) ==> !Singleton(sh, y)
    decreases d.Keys, |s|
  {
    if s != [] {
      if Singleton(sh, s[0]) && s[0] in d {
        InlineFree(Below(d, s[0]), sh, d[s[0]]);
      }
      InlineFree(d, sh, s[1..]);
    }
  }

  /** A block without singletons is left as it is. */
  lemma {:induction false} InlineNoSingletons(d: Dictionary, sh: multiset<Symbol>, s: Block)
    requires forall y :: y in s ==> !Singleton(sh, y)
    ensures Inline(d, sh, s) == s
    decreases |s|
  {
    if s != [] {
      assert s[0] in s && forall y :: y in s[1..] ==> y in s;
      InlineNoSingletons(d, sh, s[1..]);
    }
  }

  /** Inlining in a ranked dictionary brings in no symbol above those already there. */
  lemma {:induction false} InlineBound(d: Dictionary, sh: multiset<Symbol>, s: Block, k: Symbol)
    requires Ranked(d)
    requires forall y :: y in s ==> y < k
    ensures forall y :: y in Inline(d, sh, s) ==> y < k
    decreases d.Keys, |s|
  {
    if s != [] {
      var x := s[0];
      assert x in s && forall y :: y in s[1..] ==> y in s;
      if Singleton(sh, x) && x in d {
        InlineBound(Below(d, x), sh, d[x], x);
        assert InlineSymbol(d, sh, x) == Inline(Below(d, x), sh, d[x]);
      }
      assert forall y :: y in InlineSymbol(d, sh, x) ==> y < k;
      InlineBound(d, sh, s[1..], k);
      assert Inline(d, sh, s) == InlineSymbol(d, sh, x) + Inline(d, sh, s[1..]);
    }
  }

  /** In a closed, ranked dictionary inlining only brings in keys. */
  lemma {:induction false} InlineClosed(d: Dictionary, sh: multiset<Symbol>, s: Block)
    requires Ranked(d) && Closed(d) && ClosedSeq(d, s)
    ensures ClosedSeq(d, Inline(d, sh, s))
    decreases d.Keys, |s|
  {
    if s != [] {
      var x := s[0];
      assert x in s && forall y :: y in s[1..] ==> y in s;
      if Singleton(sh, x) && x in d {
        var b := Below(d, x);
        forall k | k in b ensures ClosedSeq(b, b[k]) {
          assert forall y :: y in b[k] ==> y < k;
        }
        assert forall y :: y in d[x] ==> y < x;
        InlineClosed(b, sh, d[x]);
      }
      InlineClosed(d, sh, s[1..]);
    }
  }

  /**
    When every non-terminal is a key, inlining singletons does not change
    what a block expands to.
  */
  lemma {:induction false} InlinePreservesExpand(d: Dictionary, sh: multiset<Symbol>, s: Block)
    requires Ranked(d) && Closed(d) && ClosedSeq(d, s)
    ensures Expand(d, Inline(d, sh, s)) == Expand(d, s)
    decreases d.Keys, |s|
  {
    if s != [] {
      var x := s[0];
      assert x in s && forall y :: y in s[1..] ==> y in s;
      var t := Inline(d, sh, s[1..]);
      InlinePreservesExpand(d, sh, s[1..]);
      if Singleton(sh, x) {
        var b := Below(d, x);
        forall k | k in b ensures ClosedSeq(b, b[k]) {
          assert forall y :: y in b[k] ==> y < k;
        }
        assert forall y :: y in d[x] ==> y < x;
        InlinePreservesExpand(b, sh, d[x]);
        InlineBound(b, sh, d[x], x);
        ExpandBelow(d, x, Inline(b, sh, d[x]));
        ExpandAppend(d, Inline(b, sh, d[x]), t);
      } else {
        ExpandAppend(d, [x], t);
        ExpandSingle(d, x);
      }
    }
  }

  /**
    The rules `d` are `d0` plus empty rules for singletons: what the
    lookups `d[sym]` of the first overload of `qz_expand_singletons` add.
  */
  ghost predicate GrownBy(d0: Dictionary, sh: multiset<Symbol>, d: Dictionary) {
    (forall k :: k in d0 ==> k in d && d[k] == d0[k]) &&
    (forall k :: k in d && k !in d0 ==> d[k] == [] && Singleton(sh, k))
  }

  /** Adding an empty rule for a singleton keeps the rules ranked and grown only by such rules. */
  lemma GrowEmpty(d0: Dictionary, sh: multiset<Symbol>, d: Dictionary, x: Symbol)
    requires Ranked(d) && GrownBy(d0, sh, d) && Singleton(sh, x) && x !in d
    ensures Ranked(d[x := []]) && GrownBy(d0, sh, d[x := []])
  {
  }

  /**
    The rules after the second overload of `qz_expand_singletons`
    (src/qzip.cc:336-347) relative to those before it: every rule has its
    body inlined, and the only new rules are the empty ones that the map's
    `operator[]` creates for singletons without a rule.
  */
  ghost predicate InlinedRules(d: Dictionary, sh: multiset<Symbol>, d': Dictionary) {
    (forall k :: k in d ==> k in d' && d'[k] == Inline(d, sh, d[k])) &&
    (forall k :: k in d' && k !in d ==> d'[k] == [] && Singleton(sh, k))
  }

  /** The rules as they stand part-way through that pass, inlined or not yet. */
  ghost predicate PartlyInlined(d0: Dictionary, sh: multiset<Symbol>, d1: Dictionary) {
    (forall k :: k in d0 ==> k in d1 && (d1[k] == d0[k] || d1[k] == Inline(d0, sh, d0[k]))) &&
    (forall k :: k in d1 && k !in d0 ==> d1[k] == [] && Singleton(sh, k))
  }

  /**
    Inlining against rules that are already partly inlined, or that have
    gained empty rules for singletons, gives what inlining against the
    original rules gives: the pass may update the bodies one by one.
  */
  lemma {:induction false} InlineStable(d0: Dictionary, d1: Dictionary, sh: multiset<Symbol>, s: Block)
    requires Ranked(d0) && Ranked(d1) && PartlyInlined(d0, sh, d1)
    ensures Inline(d1, sh, s) == Inline(d0, sh, s)
    decreases d1.Keys, |s|
  {
    if s != [] {
      var x := s[0];
      if Singleton(sh, x) && x in d0 {
        var b0, b1 := Below(d0, x), Below(d1, x);
        forall k | k in b0
          ensures k in b1 && (b1[k] == b0[k] || b1[k] == Inline(b0, sh, b0[k]))
        {
          InlineBelow(d0, x, sh, d0[k]);
        }
        assert PartlyInlined(b0, sh, b1);
        if d1[x] == d0[x] {
          InlineStable(b0, b1, sh, d0[x]);
        } else {
          var t := Inline(d0, sh, d0[x]);
          InlineStable(b0, b1, sh, t);
          InlineFree(d0, sh, d0[x]);
          InlineNoSingletons(b0, sh, t);
          InlineBelow(d0, x, sh, d0[x]);
        }
      } else if Singleton(sh, x) && x in d1 {
        assert InlineSymbol(d1, sh, x) == Inline(Below(d1, x), sh, []);
      }
      InlineStable(d0, d1, sh, s[1..]);
    }
  }

  /**
    Inlining the block and every rule body keeps the rules ranked and
    closed and leaves the expansion of the block unchanged.
  */
  lemma InliningPreservesExpand(d: Dictionary, sh: multiset<Symbol>, b: Block, d': Dictionary)
    requires Ranked(d) && Closed(d) && ClosedSeq(d, b)
    requires InlinedRules(d, sh, d')
    ensures Ranked(d') && Closed(d') && ClosedSeq(d', Inline(d, sh, b))
    ensures Expand(d', Inline(d, sh, b)) == Expand(d, b)
  {
    var t := Inline(d, sh, b);
    var d2 := map k | k in d :: d'[k];
    forall k | k in d
      ensures forall y :: y in d2[k] ==> y < k
      ensures ClosedSeq(d, d2[k]) && Expand(d, d2[k]) == Expand(d, d[k])
      ensures forall y :: y in d2[k] ==> !Singleton(sh, y)
    {
      InlineBound(d, sh, d[k], k);
      InlineClosed(d, sh, d[k]);
      InlinePreservesExpand(d, sh, d[k]);
      InlineFree(d, sh, d[k]);
    }
    InlineClosed(d, sh, b);
    InlineFree(d, sh, b);
    InlinePreservesExpand(d, sh, b);
    ExpandEquivalent(d, d2, t);
    ExpandSub(d', d2, t);
  }

  /**
    `qz_trim_dictionary` (src/qzip.cc:354-366): the rules whose key the
    count of the block and the bodies saw.
  */
  function Trimmed(d: Dictionary, sh: multiset<Symbol>): (e: Dictionary)
    ensures forall k :: k in e <==> k in d && k in sh
    ensures forall k :: k in e ==> e[k] == d[k]
  {
    map k | k in d && k in sh :: d[k]
  }

  /**
    Trimming keeps every rule still referred to, so it leaves the rules
    ranked and closed and the expansion of the block unchanged.
  */
  lemma TrimPreservesExpand(b: Block, d: Dictionary)
    requires Ranked(d) && Closed(d) && ClosedSeq(d, b)
    ensures Ranked(Trimmed(d, SymbolHistogram(b, d)))
    ensures Closed(Trimmed(d, SymbolHistogram(b, d)))
    ensures ClosedSeq(Trimmed(d, SymbolHistogram(b, d)), b)
    ensures Expand(Trimmed(d, SymbolHistogram(b, d)), b) == Expand(d, b)
  {
    var sh := SymbolHistogram(b, d);
    var e := Trimmed(d, sh);
    forall y | y in b && y in d ensures y in e {
      SymbolHistogramMembers(b, d, y);
    }
    forall k, y | k in e && y in e[k] && y in d ensures y in e {
      SymbolHistogramMembers(b, d, y);
    }
    forall k, y | k in e && y in e[k] && y >= First ensures y in e {
      SymbolHistogramMembers(b, d, y);
    }
    ExpandSub(d, e, b);
  }
}

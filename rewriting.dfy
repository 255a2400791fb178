/**
  The rewriting pass of `qz_process_fd` (src/qzip.cc:505-541): one scan of
  the block that replaces every selected pair by its rule symbol, creating
  the rule through the reverse dictionary `r` the first time a pair is met.
*/
module Rewriting {
  import opened Symbols
  import opened Expansion
  import opened Errors
  import Splicing
  import Engine
  import Mining

  /** `rdictionary`: a rule body mapped back to its key. */
  type RDictionary = map<Block, Symbol>

  /** `d` and `r` are inverse: every rule is recorded in `r` and every entry of `r` names its rule. */
  ghost predicate Inverse(d: Dictionary, r: RDictionary) {
    (forall x :: x in r ==> r[x] in d && d[r[x]] == x) &&
    (forall k :: k in d ==> d[k] in r && r[d[k]] == k)
  }

  /**
    The state the pass keeps: every key is a non-terminal allocated below
    `current_symbol`, every rule body is a pair of earlier symbols, the
    block and the bodies mention only literals and keys, and no wildcard
    ever enters the block.
  */
  ghost predicate Grammar(b: Block, d: Dictionary, r: RDictionary, cur: Symbol) {
    First <= cur &&
    (forall k :: k in d ==> k < cur && |d[k]| == 2 && forall y :: y in d[k] ==> AsciiMin <= y) &&
    Ranked(d) && Closed(d) && ClosedSeq(d, b) &&
    (forall y :: y in b ==> AsciiMin <= y < cur) &&
    Inverse(d, r)
  }

  /** The rules of `d` are still in `d'`, unchanged. */
  ghost predicate Extends(d: Dictionary, d': Dictionary) {
    forall k :: k in d ==> k in d' && d'[k] == d[k]
  }

  /**
    Recording a new pair of block symbols under `current_symbol` keeps the
    state, and the new rule is unused so far, so the expansion is unchanged.
  */
  lemma AddRule(b: Block, d: Dictionary, r: RDictionary, cur: Symbol, x: Block)
    requires Grammar(b, d, r, cur) && x !in r
    requires |x| == 2 && forall y :: y in x ==> y in b
    ensures Grammar(b, d[cur := x], r[x := cur], cur + 1)
    ensures Extends(d, d[cur := x])
    ensures Expand(d[cur := x], b) == Expand(d, b)
  {
    var d' := d[cur := x];
    assert Below(d', cur) == d;
    ExpandBelow(d', cur, b);
    forall k | k in d' ensures ClosedSeq(d', d'[k]) {
      if k in d {
        assert ClosedSeq(d, d[k]);
      }
    }
  }

  /** Putting the key of a pair in place of that pair keeps the expansion. */
  lemma ReplacePair(d: Dictionary, b: Block, p: nat, s: Symbol)
    requires Ranked(d) && p + 1 < |b| && s in d && d[s] == b[p..p + 2]
    ensures Expand(d, b[..p] + [s] + b[p + 2..]) == Expand(d, b)
  {
    ExpandKey(d, s);
    ExpandSingle(d, s);
    assert b == b[..p] + b[p..p + 2] + b[p + 2..];
    ExpandAppend(d, b[..p] + b[p..p + 2], b[p + 2..]);
    ExpandAppend(d, b[..p], b[p..p + 2]);
    ExpandAppend(d, b[..p] + [s], b[p + 2..]);
    ExpandAppend(d, b[..p], [s]);
  }

  /** `qz_erase_block` on a pair of concrete symbols taken from the block removes exactly that pair. */
  lemma ErasePair(b: Block, p: nat)
    requires p + 1 < |b| && b[p] != Wildcard && b[p + 1] != Wildcard
    ensures Splicing.EraseOk(b, p, b[p..p + 2])
    ensures Splicing.Erased(b, p, b[p..p + 2]) == b[..p] + b[p + 2..]
  {
    var x := b[p..p + 2];
    var b1 := b[..p] + b[p + 1..];
    var b2 := b1[..p] + b1[p + 1..];
    assert x[0] == b[p] && x[1..] == [b[p + 1]] && x[1..][1..] == [];
    assert p < |b1| && b1[p] == b[p + 1];
    assert b2 == b[..p] + b[p + 2..];
    assert Splicing.Erased(b1, p, x[1..]) == Splicing.Erased(b2, p, []) == b2;
    assert Splicing.EraseOk(b1, p, x[1..]) == Splicing.EraseOk(b2, p, []);
  }

  /**
    One scan of the block (src/qzip.cc:507-538). At each position the pair
    starting there is looked up among the selected `ngrams`: if it is not
    one, the scan moves on; if it is, its symbol is taken from `r`, or a
    new rule is made from `current_symbol`, and the pair is erased and the
    symbol inserted at the same position, which is examined again.

    The state is kept, the rules made before stay as they were, the
    expansion of the block is unchanged, `current_symbol` only grows by
    as much as the block shrinks, and a scan over the pairs selected from
    the block itself shortens it. Every selected pair the scan meets is
    replaced (`Exhausted`), and every rule the pass adds is a selected pair.
  */
  method RewritePass(b: Block, d: Dictionary, r: RDictionary, cur: Symbol, ngrams: set<Block>)
    returns (b': Block, d': Dictionary, r': RDictionary, cur': Symbol)
    requires Grammar(b, d, r, cur) && InIntRange(cur + |b| - 1)
    requires 2 <= |b|
    ensures Grammar(b', d', r', cur') && Extends(d, d')
    ensures Expand(d', b') == Expand(d, b)
    ensures cur <= cur' && cur' + |b'| <= cur + |b| && 1 <= |b'| <= |b|
    ensures ngrams == Mining.NGrams(b) && ngrams != {} ==> |b'| < |b|
    ensures Exhausted(b', d', ngrams, |b'|)
    ensures forall k :: k in d' && k !in d ==> d'[k] in ngrams
  {
    b', d', r', cur' := b, d, r, cur;
    var pos := 0;
    while pos + 1 < |b'|
      invariant pos < |b'|
      invariant Grammar(b', d', r', cur') && Extends(d, d')
      invariant Expand(d', b') == Expand(d, b)
      invariant cur <= cur' && cur' + |b'| <= cur + |b| && |b'| <= |b|
      invariant |b'| < |b| || (b' == b && forall q :: 0 <= q < pos ==> Mining.Pair(b, q) !in ngrams)
      invariant Exhausted(b', d', ngrams, pos)
      invariant forall k :: k in d' && k !in d ==> d'[k] in ngrams
      decreases 2 * |b'| - pos
    {
      var x := [b'[pos], b'[pos + 1]];
      if x !in ngrams {
        pos := pos + 1;
      } else {
        ghost var b0, d0 := b', d';
        b', d', r', cur' := RewriteAt(b', d', r', cur', pos);
        ExhaustedStep(b0, d0, b', d', ngrams, pos, x);
      }
    }
    if ngrams == Mining.NGrams(b) && ngrams != {} && b' == b {
      var x :| x in ngrams;
      Mining.NGramOccurs(b, x);
    }
  }

  /**
    No selected pair is left before `upto` except one whose second symbol
    was put there by the pass: the scan moves on only past a pair that is
    not selected, and never steps back, so a selected pair can only form
    where an inserted rule symbol follows an earlier symbol.
  */
  ghost predicate Exhausted(b: Block, d: Dictionary, ngrams: set<Block>, upto: int) {
    forall q :: 0 <= q < upto && q + 1 < |b| && Mining.Pair(b, q) in ngrams ==>
      b[q + 1] in d && d[b[q + 1]] in ngrams
  }

  /** Replacing a selected pair at `pos` by its rule symbol keeps the pairs before it as they were. */
  lemma ExhaustedStep(b: Block, d: Dictionary, b': Block, d': Dictionary, ngrams: set<Block>, pos: nat, x: Block)
    requires Exhausted(b, d, ngrams, pos) && Extends(d, d') && x in ngrams
    requires pos + 1 < |b| && |b'| == |b| - 1
    requires b'[..pos] == b[..pos] && b'[pos] in d' && d'[b'[pos]] == x
    ensures Exhausted(b', d', ngrams, pos)
  {
    forall q | 0 <= q < pos && q + 1 < |b'| && Mining.Pair(b', q) in ngrams
      ensures b'[q + 1] in d' && d'[b'[q + 1]] in ngrams
    {
      if q + 1 < pos {
        assert b'[q] == b[q] && b'[q + 1] == b[q + 1];
        assert Mining.Pair(b', q) == Mining.Pair(b, q);
      }
    }
  }

  /**
    The replacement at `pos` (src/qzip.cc:519-536): the pair's symbol comes
    from `r`, or `current_symbol++` names a new rule `d[s] = pair` recorded
    as `r[pair] = s`; then the pair is erased and the symbol inserted.
  */
  method RewriteAt(b: Block, d: Dictionary, r: RDictionary, cur: Symbol, pos: nat)
    returns (b': Block, d': Dictionary, r': RDictionary, cur': Symbol)
    requires Grammar(b, d, r, cur) && InIntRange(cur + |b| - 1) && pos + 1 < |b|
    ensures Grammar(b', d', r', cur') && Extends(d, d')
    ensures Expand(d', b') == Expand(d, b)
    ensures |b'| == |b| - 1
    ensures var x := b[pos..pos + 2];
      x in r' && b' == b[..pos] + [r'[x]] + b[pos + 2..] &&
      (x in r ==> cur' == cur && r'[x] == r[x] && d' == d) &&
      (x !in r ==> cur' == cur + 1 && r'[x] == cur && d' == d[cur := x])
  {
    var x := [b[pos], b[pos + 1]];
    assert x == b[pos..pos + 2];
    d', r', cur' := d, r, cur;
    var s;
    if x in r {
      s := r[x];
    } else {
      AddRule(b, d, r, cur, x);
      d' := d[cur := x];
      r' := r[x := cur];
      cur', s := PostIncrement(cur);
    }
    assert b[pos] in b && b[pos + 1] in b;
    ErasePair(b, pos);
    ReplacePair(d', b, pos, s);
    var e, res := Engine.EraseBlock(b, pos, x);
    b' := Splicing.Insert(e, pos, s);
    assert b' == b[..pos] + [s] + b[pos + 2..];
    assert forall y :: y in b' ==> y == s || y in b;
  }
}

/**
  The rewriting helpers of src/qzip.cc. In the source they are free
  functions that update the block and the dictionary passed to them by
  reference; here each one takes the values before the call and returns
  the values after it. What each computes is stated through the
  specification functions of `Splicing`, `Cleanup`, `Renaming` and
  `Expansion`.
*/
module Engine {
  import opened Symbols
  import opened Expansion
  import opened Errors
  import Matching
  import Splicing
  import Cleanup
  import Renaming
  import Ordering

  /**
    `qz_erase_block` (src/qzip.cc:201-222) at index `pos`: walks the
    pattern, stepping over the block symbol under a wildcard and erasing
    the one under an equal concrete symbol, and throws when the block ends
    or a concrete symbol differs. It returns the index where the match
    began.
  */
  method EraseBlock(b: Block, pos: nat, s: Block) returns (b': Block, r: Result<nat>)
    requires pos <= |b|
    ensures b' == Splicing.Erased(b, pos, s)
    ensures r == if Splicing.EraseOk(b, pos, s) then Success(pos) else Failure(ErasePastEnd)
  {
    b' := b;
    var c: nat := pos;
    var i := 0;
    while i < |s|
      invariant 0 <= i <= |s| && c <= |b'|
      invariant Splicing.Erased(b, pos, s) == Splicing.Erased(b', c, s[i..])
      invariant Splicing.EraseOk(b, pos, s) == Splicing.EraseOk(b', c, s[i..])
    {
      assert s[i..][1..] == s[i + 1..];
      if c == |b'| {
        return b', Failure(ErasePastEnd);
      }
      if s[i] == Wildcard {
        c := c + 1;
      } else if b'[c] == s[i] {
        b' := b'[..c] + b'[c + 1..];
      } else {
        return b', Failure(ErasePastEnd);
      }
      i := i + 1;
    }
    assert s[i..] == [];
    return b', Success(pos);
  }

  /**
    `qz_replace_next_block` (src/qzip.cc:224-234): finds the first match at
    or after `pos`; if there is one, erases it and inserts `x` where it
    began, returning that index; otherwise returns the end.
  */
  method ReplaceNextBlock(b: Block, pos: nat, s: Block, x: Symbol) returns (b': Block, r: Result<nat>)
    requires pos <= |b|
    ensures (b', r) == Splicing.ReplaceNext(b, pos, s, x)
  {
    var p := Matching.FindBlock(b, pos, s);
    if p == |b| {
      return b, Success(p);
    }
    b', r := EraseBlock(b, p, s);
    if r.Success? {
      b' := b'[..p] + [x] + b'[p..];
    }
  }

  /**
    `qz_replace_block` (src/qzip.cc:236-246): replaces match after match,
    each search starting at the `x` just inserted, and counts the
    replacements.
  */
  method ReplaceBlock(b: Block, s: Block, x: Symbol) returns (b': Block, r: Result<nat>)
    requires Splicing.Ends(b, 0, s, x)
    ensures (b', r) == Splicing.ReplaceFrom(b, 0, s, x)
  {
    b' := b;
    var n: nat := 0;
    var pos: nat := 0;
    ghost var o := Splicing.ReplaceFrom(b, 0, s, x);
    assert o == Splicing.Shift(o, 0);
    while true
      invariant pos <= |b'| && Splicing.Ends(b', pos, s, x)
      invariant o == Splicing.Shift(Splicing.ReplaceFrom(b', pos, s, x), n)
      decreases |b'|, Splicing.Remaining(b', s)
    {
      var c, q := ReplaceNextBlock(b', pos, s, x);
      Splicing.ReplaceStep(o, b', pos, n, s, x, c, q);
      if q.Failure? {
        return c, q;
      }
      if q.value == |c| {
        return c, Success(n);
      }
      b' := c;
      n := n + 1;
      pos := q.value;
    }
  }

  /**
    The first overload of `qz_expand_singletons` (src/qzip.cc:308-334):
    every symbol of `b` counted once is replaced by its rule body, which is
    scanned in turn; a singleton without a rule gets the empty rule that
    the map's `operator[]` creates. It returns the number of replacements;
    its one caller adds the counts and discards the sum, so the contract
    states only whether any replacement was made. The scan terminates
    because the rules are ranked.
  */
  method InlineBlock(b: Block, d: Dictionary, sh: multiset<Symbol>) returns (b': Block, d': Dictionary, n: nat)
    requires Ranked(d)
    ensures b' == Cleanup.Inline(d, sh, b)
    ensures n == 0 <==> forall y :: y in b ==> !Cleanup.Singleton(sh, y)
    ensures Cleanup.GrownBy(d, sh, d') && Ranked(d')
  {
    ghost var w: Symbol := 0;
    d' := d;
    b' := b;
    n := 0;
    var pos := 0;
    while pos < |b'|
      invariant pos <= |b'|
      invariant b'[..pos] + Cleanup.Inline(d, sh, b'[pos..]) == Cleanup.Inline(d, sh, b)
      invariant forall y :: y in b'[..pos] ==> !Cleanup.Singleton(sh, y)
      invariant n == 0 ==> b' == b
      invariant n > 0 ==> w in b && Cleanup.Singleton(sh, w)
      invariant Cleanup.GrownBy(d, sh, d') && Ranked(d')
      decreases Weight(d, b'[pos..])
    {
      var sym := b'[pos];
      if sym >= First && sh[sym] == 1 {
        if sym !in d' {
          Cleanup.GrowEmpty(d, sh, d', sym);
          d' := d'[sym := []];
        }
        var body := d'[sym];
        Cleanup.InlineScanReplace(d, sh, b', pos, body);
        if n == 0 {
          w := sym;
        }
        b' := b'[..pos] + body + b'[pos + 1..];
        n := n + 1;
      } else {
        Cleanup.InlineScanSkip(d, sh, b', pos);
        pos := pos + 1;
      }
    }
    assert b'[pos..] == [] && b'[..pos] == b';
  }

  /**
    The second overload of `qz_expand_singletons` (src/qzip.cc:336-347):
    inlines the singletons of every rule body in ascending key order,
    looking bodies up in the rules as they stand, partly inlined already.
    The rules the lookups add are empty and have nothing to inline, so
    visiting them, as the map iteration may, changes nothing. The count,
    which the caller discards, is stated only as zero or not.
  */
  method InlineRules(d: Dictionary, sh: multiset<Symbol>) returns (d': Dictionary, n: nat)
    requires Ranked(d)
    ensures Cleanup.InlinedRules(d, sh, d') && Ranked(d')
    ensures n == 0 <==> forall k, y :: k in d && y in d[k] ==> !Cleanup.Singleton(sh, y)
  {
    var ks := Ordering.SortedKeys(d.Keys);
    d', n := InlineRulesLoop(d, sh, ks);
    InlineRulesDone(d, sh, ks, d');
  }

  /** `ks` lists the keys of `d`, each once, in ascending order. */
  ghost predicate Enumerates(d: Dictionary, ks: seq<Symbol>) {
    Ordering.StrictlyIncreasing(ks) && (forall j :: 0 <= j < |ks| ==> ks[j] in d) && forall k :: k in d ==> k in ks
  }

  /** The loop of `InlineRules` over the keys `ks` in ascending order. */
  method InlineRulesLoop(d: Dictionary, sh: multiset<Symbol>, ks: seq<Symbol>) returns (d': Dictionary, n: nat)
    requires Ranked(d) && Enumerates(d, ks)
    ensures InlinedUpTo(d, sh, ks, |ks|, d')
    ensures n == 0 <==> NoSingletonsUpTo(d, sh, ks, |ks|)
  {
    d' := d;
    n := 0;
    var i := 0;
    while i < |ks|
      invariant i <= |ks|
      invariant InlinedUpTo(d, sh, ks, i, d')
      invariant n == 0 <==> NoSingletonsUpTo(d, sh, ks, i)
    {
      d', n := InlineRule(d, sh, ks, i, d', n);
      i := i + 1;
    }
  }

  /** One turn of that loop: inlines the body of rule `ks[i]` against the rules as they stand and stores it back. */
  method InlineRule(ghost d: Dictionary, sh: multiset<Symbol>, ks: seq<Symbol>, i: nat, d1: Dictionary, n: nat)
    returns (d': Dictionary, n': nat)
    requires Ranked(d) && Enumerates(d, ks) && i < |ks|
    requires InlinedUpTo(d, sh, ks, i, d1)
    requires n == 0 <==> NoSingletonsUpTo(d, sh, ks, i)
    ensures InlinedUpTo(d, sh, ks, i + 1, d')
    ensures n' == 0 <==> NoSingletonsUpTo(d, sh, ks, i + 1)
  {
    var k := ks[i];
    InlinedUpToPartly(d, sh, ks, i, d1);
    Cleanup.InlineStable(d, d1, sh, d[k]);
    var body, d2, m;
    body, d2, m := InlineBlock(d1[k], d1, sh);
    d' := d2[k := body];
    StepInlinedUpTo(d, sh, ks, i, d1, d2, body, d');
    StepNoSingletons(d, sh, ks, i);
    n' := n + m;
  }

  /**
    The rules part-way through `InlineRules`: the bodies of the keys before
    `ks[i]` inlined, the others as they were, and the only other rules the
    empty ones added for singletons.
  */
  ghost predicate InlinedUpTo(d: Dictionary, sh: multiset<Symbol>, ks: seq<Symbol>, i: nat, d': Dictionary)
    requires i <= |ks| && forall j :: 0 <= j < |ks| ==> ks[j] in d
  {
    (forall j :: 0 <= j < |ks| ==> ks[j] in d' && d'[ks[j]] == if j < i then Cleanup.Inline(d, sh, d[ks[j]]) else d[ks[j]]) &&
    (forall k :: k in d' && k !in d ==> d'[k] == [] && Cleanup.Singleton(sh, k)) &&
    Ranked(d')
  }

  ghost predicate NoSingletonsUpTo(d: Dictionary, sh: multiset<Symbol>, ks: seq<Symbol>, i: nat)
    requires i <= |ks| && forall j :: 0 <= j < |ks| ==> ks[j] in d
  {
    forall j, y :: 0 <= j < i && y in d[ks[j]] ==> !Cleanup.Singleton(sh, y)
  }

  lemma InlinedUpToPartly(d: Dictionary, sh: multiset<Symbol>, ks: seq<Symbol>, i: nat, d1: Dictionary)
    requires Enumerates(d, ks) && i <= |ks| && InlinedUpTo(d, sh, ks, i, d1)
    ensures Cleanup.PartlyInlined(d, sh, d1)
  {
    forall k | k in d ensures k in d1 && (d1[k] == d[k] || d1[k] == Cleanup.Inline(d, sh, d[k])) {
      assert k in ks;
    }
  }

  lemma StepInlinedUpTo(d: Dictionary, sh: multiset<Symbol>, ks: seq<Symbol>, i: nat, d1: Dictionary, d2: Dictionary, body: Block, d': Dictionary)
    requires Ranked(d) && Ordering.StrictlyIncreasing(ks) && i < |ks| && forall j :: 0 <= j < |ks| ==> ks[j] in d
    requires InlinedUpTo(d, sh, ks, i, d1)
    requires Cleanup.GrownBy(d1, sh, d2) && Ranked(d2)
    requires body == Cleanup.Inline(d, sh, d[ks[i]]) && d' == d2[ks[i] := body]
    ensures InlinedUpTo(d, sh, ks, i + 1, d')
  {
    StepRanked(d, sh, ks[i], d2, body);
    StepTable(d, sh, ks, i, d1, d2, body);
    StepNewKeys(d, sh, ks[i], d1, d2, body);
  }

  lemma StepNewKeys(d: Dictionary, sh: multiset<Symbol>, k: Symbol, d1: Dictionary, d2: Dictionary, body: Block)
    requires k in d && Cleanup.GrownBy(d1, sh, d2)
    requires forall k0 :: k0 in d1 && k0 !in d ==> d1[k0] == [] && Cleanup.Singleton(sh, k0)
    ensures forall k0 :: k0 in d2[k := body] && k0 !in d ==> d2[k := body][k0] == [] && Cleanup.Singleton(sh, k0)
  {
    forall k0 | k0 in d2[k := body] && k0 !in d ensures d2[k := body][k0] == [] && Cleanup.Singleton(sh, k0) {
      if k0 in d1 {
        assert d2[k0] == d1[k0];
      }
    }
  }

  lemma StepRanked(d: Dictionary, sh: multiset<Symbol>, k: Symbol, d2: Dictionary, body: Block)
    requires Ranked(d) && k in d && Ranked(d2) && body == Cleanup.Inline(d, sh, d[k])
    ensures Ranked(d2[k := body])
  {
    Cleanup.InlineBound(d, sh, d[k], k);
  }

  lemma StepTable(d: Dictionary, sh: multiset<Symbol>, ks: seq<Symbol>, i: nat, d1: Dictionary, d2: Dictionary, body: Block)
    requires i < |ks| && Ordering.StrictlyIncreasing(ks)
    requires forall j :: 0 <= j < |ks| ==> ks[j] in d && ks[j] in d1
    requires forall j :: 0 <= j < |ks| ==> d1[ks[j]] == if j < i then Cleanup.Inline(d, sh, d[ks[j]]) else d[ks[j]]
    requires forall k :: k in d1 ==> k in d2 && d2[k] == d1[k]
    requires body == Cleanup.Inline(d, sh, d[ks[i]])
    ensures forall j :: 0 <= j < |ks| ==>
      (ks[j] in d2[ks[i] := body] && d2[ks[i] := body][ks[j]] == if j < i + 1 then Cleanup.Inline(d, sh, d[ks[j]]) else d[ks[j]])
  {
    var d' := d2[ks[i] := body];
    forall j | 0 <= j < |ks| ensures ks[j] in d' && d'[ks[j]] == if j < i + 1 then Cleanup.Inline(d, sh, d[ks[j]]) else d[ks[j]] {
      if j != i {
        assert ks[j] != ks[i];
        assert d'[ks[j]] == d1[ks[j]];
      }
    }
  }

  lemma StepNoSingletons(d: Dictionary, sh: multiset<Symbol>, ks: seq<Symbol>, i: nat)
    requires i < |ks| && forall j :: 0 <= j < |ks| ==> ks[j] in d
    ensures (NoSingletonsUpTo(d, sh, ks, i) && forall y :: y in d[ks[i]] ==> !Cleanup.Singleton(sh, y))
      <==> NoSingletonsUpTo(d, sh, ks, i + 1)
  {
    if !NoSingletonsUpTo(d, sh, ks, i + 1) {
      var j, y :| 0 <= j < i + 1 && y in d[ks[j]] && Cleanup.Singleton(sh, y);
    }
  }

  lemma InlineRulesDone(d: Dictionary, sh: multiset<Symbol>, ks: seq<Symbol>, d': Dictionary)
    requires Enumerates(d, ks) && InlinedUpTo(d, sh, ks, |ks|, d')
    ensures Cleanup.InlinedRules(d, sh, d') && Ranked(d')
    ensures NoSingletonsUpTo(d, sh, ks, |ks|) <==> forall k, y :: k in d && y in d[k] ==> !Cleanup.Singleton(sh, y)
  {
    forall k | k in d ensures d'[k] == Cleanup.Inline(d, sh, d[k]) {
      assert k in ks;
    }
    if !NoSingletonsUpTo(d, sh, ks, |ks|) {
      var j, y :| 0 <= j < |ks| && y in d[ks[j]] && Cleanup.Singleton(sh, y);
      assert ks[j] in d;
    }
  }

  /**
    The third overload of `qz_expand_singletons` (src/qzip.cc:349-352):
    counts the non-terminals, then inlines the singletons of the block and
    of every rule body. The two calls are operands of one `+`, whose order
    C++ leaves open; `Cleanup.InlineStable` shows that either order leaves
    the same block and rules.
  */
  method InlineSingletons(b: Block, d: Dictionary) returns (b': Block, d': Dictionary, n: nat)
    requires Ranked(d)
    ensures var sh := Cleanup.SymbolHistogram(b, d);
      b' == Cleanup.Inline(d, sh, b) && Cleanup.InlinedRules(d, sh, d') && Ranked(d')
  {
    var sh := Cleanup.CountSymbols(b, d);
    var d1, m1, m2;
    b', d1, m1 := InlineBlock(b, d, sh);
    d', m2 := InlineRules(d1, sh);
    n := m1 + m2;
    InlinedAfterGrowth(d, sh, d1, d');
  }

  /**
    Inlining the rules after the block scan has added empty rules gives the
    rules that inlining the original ones gives, plus those empty rules.
  */
  lemma InlinedAfterGrowth(d: Dictionary, sh: multiset<Symbol>, d1: Dictionary, d': Dictionary)
    requires Ranked(d) && Ranked(d1) && Cleanup.GrownBy(d, sh, d1) && Cleanup.InlinedRules(d1, sh, d')
    ensures Cleanup.InlinedRules(d, sh, d')
  {
    assert Cleanup.PartlyInlined(d, sh, d1);
    forall k | k in d ensures d'[k] == Cleanup.Inline(d, sh, d[k]) {
      Cleanup.InlineStable(d, d1, sh, d[k]);
    }
    forall k | k in d' && k !in d ensures d'[k] == [] && Cleanup.Singleton(sh, k) {
      if k in d1 {
        assert d'[k] == Cleanup.Inline(d1, sh, []);
      }
    }
  }

  /**
    `qz_trim_dictionary` (src/qzip.cc:354-366): counts the non-terminals of
    the block and the bodies, then walks the rules in key order and erases
    each one whose key was not counted.
  */
  method TrimDictionary(b: Block, d: Dictionary) returns (d': Dictionary)
    ensures d' == Cleanup.Trimmed(d, Cleanup.SymbolHistogram(b, d))
  {
    var sh := Cleanup.CountSymbols(b, d);
    d' := EraseUncounted(d, sh);
  }

  /** The loop of `qz_trim_dictionary`: erases, in key order, every rule whose key `sh` lacks. */
  method EraseUncounted(d: Dictionary, sh: multiset<Symbol>) returns (d': Dictionary)
    ensures d' == Cleanup.Trimmed(d, sh)
  {
    var ks := Ordering.SortedKeys(d.Keys);
    d' := EraseKeys(d, sh, ks);
    ErasedAll(d, sh, ks, d');
  }

  /** Erasing, among all the keys, those not in `sh` leaves the trimmed rules. */
  lemma ErasedAll(d: Dictionary, sh: multiset<Symbol>, ks: seq<Symbol>, d': Dictionary)
    requires forall k :: k in ks <==> k in d.Keys
    requires forall k :: k in d' <==> k in d && (k in sh || k !in ks)
    requires forall k :: k in d' ==> d'[k] == d[k]
    ensures d' == Cleanup.Trimmed(d, sh)
  {
    var e := Cleanup.Trimmed(d, sh);
    forall k ensures k in d' <==> k in e {
      if k in d {
        assert k in d.Keys;
      }
    }
    assert d'.Keys == e.Keys;
    assert forall k :: k in d' ==> d'[k] == e[k];
  }

  /** The loop of `EraseUncounted` over the keys `ks`: each key of `ks` not in `sh` is erased. */
  method EraseKeys(d: Dictionary, sh: multiset<Symbol>, ks: seq<Symbol>) returns (d': Dictionary)
    ensures forall k :: k in d' <==> k in d && (k in sh || k !in ks)
    ensures forall k :: k in d' ==> d'[k] == d[k]
  {
    d' := d;
    var i := 0;
    while i < |ks|
      invariant i <= |ks|
      invariant forall k :: k in d' <==> k in d && (k in sh || k !in ks[..i])
      invariant forall k :: k in d' ==> d'[k] == d[k]
    {
      assert ks[..i + 1] == ks[..i] + [ks[i]];
      if ks[i] !in sh {
        d' := d' - {ks[i]};
      }
      i := i + 1;
    }
    assert ks[..i] == ks;
  }

  /**
    `qz_remap` (src/qzip.cc:418-447): numbers the non-terminal keys in
    ascending order from `first`, renames the block through that table,
    then renames every body and stores it under the new number of its key.
    A non-terminal without an entry makes `remap.at` throw: the block is
    then left renamed up to that symbol and the rules are not replaced.
  */
  method Remap(b: Block, d: Dictionary) returns (b': Block, d': Dictionary, r: Result<()>)
    ensures var f := Renaming.NumberingOf(d);
      var j := Renaming.FirstUncovered(f, b);
      b' == Renaming.Rename(f, b[..j]) + b[j..]
    ensures r.Success? <==> Renaming.RemapDefined(d, b)
    ensures r.Success? ==> Renaming.RemapDefined(d, b) && d' == Renaming.Renumbered(d)
    ensures r.Failure? ==> r.error == MissingKey && d' == d
  {
    var ks := Ordering.SortedKeys(d.Keys);
    var remap := NumberKeys(ks);
    var okb, ok;
    b', okb := Renaming.RenameInPlace(remap, b);
    RenameFailed(remap, b);
    RemapOutcome(d, b, ks, remap);
    if !okb {
      return b', d, Failure(MissingKey);
    }
    var e;
    e, ok := RenumberRules(remap, d, ks);
    if !ok {
      return b', d, Failure(MissingKey);
    }
    RemapStores(d, b, ks, remap);
    return b', e, Success(());
  }

  /** Both loops get through exactly when the remap is defined. */
  lemma RemapOutcome(d: Dictionary, b: Block, ks: seq<Symbol>, remap: Renaming.Table)
    requires ks == Ordering.SortedKeys(d.Keys) && forall k :: k in remap <==> k in d && k >= First
    ensures (Renaming.Covers(remap, b) &&
      forall j :: 0 <= j < |ks| ==> ks[j] in remap && Renaming.Covers(remap, d[ks[j]])) <==> Renaming.RemapDefined(d, b)
  {
    RenumberRulesOutcome(remap, d, ks);
    CoversIffClosed(d, remap, b);
  }

  /** When they do, the rules loop has stored the renumbered rules. */
  lemma RemapStores(d: Dictionary, b: Block, ks: seq<Symbol>, remap: Renaming.Table)
    requires ks == Ordering.SortedKeys(d.Keys) && remap == Renaming.NumberingOf(d)
    requires Renaming.RemapDefined(d, b)
    requires forall j :: 0 <= j < |ks| ==> ks[j] in remap && Renaming.Covers(remap, d[ks[j]])
    ensures Renaming.Renumbered(d) == Renaming.RenameRules(remap, d, ks)
  {
  }

  /** With a table over exactly the non-terminal keys, covering a block and being closed over it agree. */
  lemma CoversIffClosed(d: Dictionary, remap: Renaming.Table, s: Block)
    requires forall k :: k in remap <==> k in d && k >= First
    ensures Renaming.Covers(remap, s) <==> ClosedSeq(d, s)
  {
  }

  /** The first loop of `qz_remap` (src/qzip.cc:422-426), over the keys `ks`. */
  method NumberKeys(ks: seq<Symbol>) returns (remap: Renaming.Table)
    requires Ordering.StrictlyIncreasing(ks)
    ensures remap == Renaming.Numbering(ks)
    ensures forall k :: k in remap <==> k in ks && k >= First
    ensures Renaming.Monotone(remap)
  {
    remap := map[];
    var next := First;
    var i := 0;
    while i < |ks|
      invariant i <= |ks|
      invariant remap == Renaming.Numbering(ks[..i])
      invariant next == First + Renaming.CountNonTerminals(ks[..i])
    {
      assert ks[..i + 1][..i] == ks[..i];
      if ks[i] >= First {
        remap := remap[ks[i] := next];
        next := next + 1;
      }
      i := i + 1;
    }
    assert ks[..i] == ks;
    Renaming.NumberingFacts(ks);
  }

  /**
    The second loop of `qz_remap` (src/qzip.cc:434-444): renames each body
    and stores it under the new number of its key; stops at the first key
    or body symbol the table has no entry for.
  */
  method RenumberRules(remap: Renaming.Table, d: Dictionary, ks: seq<Symbol>) returns (e: Dictionary, ok: bool)
    requires forall j :: 0 <= j < |ks| ==> ks[j] in d
    ensures ok <==> forall j :: 0 <= j < |ks| ==> ks[j] in remap && Renaming.Covers(remap, d[ks[j]])
    ensures ok ==> e == Renaming.RenameRules(remap, d, ks)
  {
    e := map[];
    var i := 0;
    while i < |ks|
      invariant i <= |ks|
      invariant forall j :: 0 <= j < i ==> ks[j] in remap && Renaming.Covers(remap, d[ks[j]])
      invariant e == Renaming.RenameRules(remap, d, ks[..i])
    {
      var s, okb := Renaming.RenameInPlace(remap, d[ks[i]]);
      if !okb || ks[i] !in remap {
        RenameFailed(remap, d[ks[i]]);
        return e, false;
      }
      ghost var body := d[ks[i]];
      assert body[..|body|] == body && body[|body|..] == [];
      assert s == Renaming.Rename(remap, body);
      assert ks[..i + 1][..i] == ks[..i] && ks[..i + 1][i] == ks[i];
      e := e[remap[ks[i]] := s];
      i := i + 1;
    }
    assert ks[..i] == ks;
    ok := true;
  }

  /** A rename that stops early has met a non-terminal the table does not cover. */
  lemma RenameFailed(f: Renaming.Table, s: Block)
    ensures Renaming.FirstUncovered(f, s) < |s| <==> !Renaming.Covers(f, s)
  {
    var j := Renaming.FirstUncovered(f, s);
    if j < |s| {
      assert s[j] in s;
    } else {
      assert s[..j] == s;
    }
  }

  /** The outcome of the rules loop, stated over the rules rather than over the keys in order. */
  lemma RenumberRulesOutcome(remap: Renaming.Table, d: Dictionary, ks: seq<Symbol>)
    requires ks == Ordering.SortedKeys(d.Keys)
    requires forall k :: k in remap <==> k in d && k >= First
    ensures (forall j :: 0 <= j < |ks| ==> ks[j] in remap && Renaming.Covers(remap, d[ks[j]]))
      <==> (forall k :: k in d ==> k >= First) && Closed(d)
  {
    if forall j :: 0 <= j < |ks| ==> ks[j] in remap && Renaming.Covers(remap, d[ks[j]]) {
      forall k | k in d ensures k >= First && ClosedSeq(d, d[k]) {
        var j :| 0 <= j < |ks| && ks[j] == k;
      }
    } else {
      var j :| 0 <= j < |ks| && !(ks[j] in remap && Renaming.Covers(remap, d[ks[j]]));
      assert ks[j] in d;
    }
  }

  /**
    `qz_expand` (src/qzip.cc:402-416): replaces every key of the block by
    its rule body and scans the body in turn, until no key is left. The scan
    terminates because the rules are ranked.
  */
  method ExpandBlock(b: Block, d: Dictionary) returns (b': Block)
    requires Ranked(d)
    ensures b' == Expand(d, b)
    ensures forall y :: y in b' ==> y !in d
  {
    b' := b;
    var pos := 0;
    while pos < |b'|
      invariant pos <= |b'|
      invariant b'[..pos] + Expand(d, b'[pos..]) == Expand(d, b)
      invariant forall y :: y in b'[..pos] ==> y !in d
      decreases Weight(d, b'[pos..])
    {
      var x := b'[pos];
      if x in d {
        ExpandKeyAt(d, b', pos);
        b' := b'[..pos] + d[x] + b'[pos + 1..];
      } else {
        ExpandLiteralAt(d, b', pos);
        WeightLiteralAt(d, b', pos);
        pos := pos + 1;
      }
    }
    assert b'[pos..] == [] && b'[..pos] == b';
  }

  /** Putting the body of the key at `pos` in its place keeps the expansion and lowers the weight still to scan. */
  lemma ExpandKeyAt(d: Dictionary, b: Block, pos: nat)
    requires Ranked(d) && pos < |b| && b[pos] in d
    ensures var c := b[..pos] + d[b[pos]] + b[pos + 1..];
      c[..pos] == b[..pos] &&
      c[..pos] + Expand(d, c[pos..]) == b[..pos] + Expand(d, b[pos..]) &&
      Weight(d, c[pos..]) < Weight(d, b[pos..])
  {
    var x, todo := b[pos], b[pos..];
    var c := b[..pos] + d[x] + b[pos + 1..];
    assert todo[1..] == b[pos + 1..];
    Expansion.WeightStep(d, todo);
    Expansion.ExpandKey(d, x);
    Expansion.ExpandAppend(d, d[x], todo[1..]);
    assert c[..pos] == b[..pos] && c[pos..] == d[x] + todo[1..];
  }

  /** Stepping over a literal at `pos` keeps the expansion. */
  lemma ExpandLiteralAt(d: Dictionary, b: Block, pos: nat)
    requires pos < |b| && b[pos] !in d
    ensures b[..pos + 1] + Expand(d, b[pos + 1..]) == b[..pos] + Expand(d, b[pos..])
  {
    var x, todo, rest := b[pos], b[pos..], b[pos + 1..];
    var e := Expand(d, rest);
    assert Expand(d, todo) == [x] + e by {
      assert todo != [] && todo[0] == x && todo[1..] == rest;
      assert ExpandSymbol(d, x) == [x];
    }
    assert b[..pos + 1] == b[..pos] + [x];
    assert b[..pos] + ([x] + e) == (b[..pos] + [x]) + e;
  }

  /** Stepping over a literal at `pos` lowers the weight still to scan. */
  lemma WeightLiteralAt(d: Dictionary, b: Block, pos: nat)
    requires Ranked(d) && pos < |b| && b[pos] !in d
    ensures Weight(d, b[pos + 1..]) < Weight(d, b[pos..])
  {
    assert b[pos..][1..] == b[pos + 1..];
    Expansion.WeightStep(d, b[pos..]);
  }
}

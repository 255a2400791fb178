/**
  The renumbering of `qz_remap` (src/qzip.cc:418-447): the keys that are
  non-terminals, taken in ascending order, are given the numbers `first`,
  `first + 1`, ... in turn; every non-terminal in the block and in the rule
  bodies is then replaced through that table, and every rule is stored
  under the new number of its key.
*/
module Renaming {
  import opened Symbols
  import opened Expansion
  import Ordering

  type Table = map<Symbol, Symbol>

  /** How many of the symbols `ks` are non-terminals. */
  function CountNonTerminals(ks: seq<Symbol>): (n: nat)
    ensures n <= |ks|
  {
    if ks == [] then 0
    else CountNonTerminals(ks[..|ks| - 1]) + (if ks[|ks| - 1] >= First then 1 else 0)
  }

  /**
    The table built by the first loop of `qz_remap` (src/qzip.cc:422-426)
    after visiting the keys `ks`: each non-terminal key gets the next
    number, starting from `first`.
  */
  function Numbering(ks: seq<Symbol>): Table {
    if ks == [] then map[]
    else
      var init, k := ks[..|ks| - 1], ks[|ks| - 1];
      if k >= First then Numbering(init)[k := First + CountNonTerminals(init)] else Numbering(init)
  }

  /** Larger keys get larger numbers. */
  ghost predicate Monotone(f: Table) {
    forall k1, k2 :: k1 in f && k2 in f && k1 < k2 ==> f[k1] < f[k2]
  }

  /**
    On keys in ascending order the table renames exactly the non-terminal
    keys, preserves their order, and hands out as many distinct numbers,
    all from `first` up, as there are non-terminal keys.
  */
  lemma {:induction false} NumberingFacts(ks: seq<Symbol>)
    requires Ordering.StrictlyIncreasing(ks)
    ensures forall k :: k in Numbering(ks) <==> k in ks && k >= First
    ensures Monotone(Numbering(ks))
    ensures forall k :: k in Numbering(ks) ==> First <= Numbering(ks)[k] < First + CountNonTerminals(ks)
    ensures |Numbering(ks)| == CountNonTerminals(ks)
  {
    if ks != [] {
      var init, k := ks[..|ks| - 1], ks[|ks| - 1];
      assert ks == init + [k];
      NumberingFacts(init);
      if k >= First {
        assert k !in Numbering(init);
      }
    }
  }

  /** Every non-terminal of `s` has an entry in the table. */
  ghost predicate Covers(f: Table, s: Block) {
    forall y :: y in s && y >= First ==> y in f
  }

  function RenameSymbol(f: Table, x: Symbol): Symbol
    requires x >= First ==> x in f
  {
    if x >= First then f[x] else x
  }

  /**
    A block with every non-terminal replaced through the table
    (src/qzip.cc:428-430 for the block, 439-441 for a body).
  */
  function Rename(f: Table, s: Block): (r: Block)
    requires Covers(f, s)
    ensures |r| == |s|
    ensures forall i :: 0 <= i < |s| ==> r[i] == RenameSymbol(f, s[i])
  {
    if s == [] then []
    else
      assert s[0] in s && forall y :: y in s[1..] ==> y in s;
      [RenameSymbol(f, s[0])] + Rename(f, s[1..])
  }

  /**
    The dictionary `e` built by the second loop of `qz_remap`
    (src/qzip.cc:432-444) after visiting the rules `ks`.
  */
  function RenameRules(f: Table, d: Dictionary, ks: seq<Symbol>): Dictionary
    requires forall i :: 0 <= i < |ks| ==> ks[i] in d && ks[i] in f && Covers(f, d[ks[i]])
  {
    if ks == [] then map[]
    else
      var init, k := ks[..|ks| - 1], ks[|ks| - 1];
      RenameRules(f, d, init)[f[k] := Rename(f, d[k])]
  }

  /**
    `d2` holds the rules of `d`, each under the new number of its key and
    with its body renamed, and nothing else.
  */
  ghost predicate RenamedRules(d: Dictionary, f: Table, d2: Dictionary) {
    (forall k :: k in d ==> k in f && Covers(f, d[k]) && f[k] in d2 && d2[f[k]] == Rename(f, d[k])) &&
    (forall k2 :: k2 in d2 ==> exists k :: k in d && f[k] == k2)
  }

  /**
    Visiting rules in ascending order of key with a monotone table stores
    each renamed body under the new number of its key, and nothing else.
  */
  lemma {:induction false} RenameRulesFacts(f: Table, d: Dictionary, ks: seq<Symbol>)
    requires Ordering.StrictlyIncreasing(ks) && Monotone(f)
    requires forall i :: 0 <= i < |ks| ==> ks[i] in d && ks[i] in f && Covers(f, d[ks[i]])
    ensures forall k :: k in ks ==> f[k] in RenameRules(f, d, ks) && RenameRules(f, d, ks)[f[k]] == Rename(f, d[k])
    ensures forall k2 :: k2 in RenameRules(f, d, ks) ==> exists k :: k in ks && f[k] == k2
    ensures |RenameRules(f, d, ks)| == |ks|
  {
    if ks != [] {
      var init, k := ks[..|ks| - 1], ks[|ks| - 1];
      assert ks == init + [k];
      RenameRulesFacts(f, d, init);
      var r := RenameRules(f, d, init);
      var r' := r[f[k] := Rename(f, d[k])];
      assert r' == RenameRules(f, d, ks);
      forall j | j in init ensures f[j] != f[k] {
        assert j < k;
      }
      assert f[k] !in r;
      forall k2 | k2 in r' ensures exists j :: j in ks && f[j] == k2 {
        if k2 != f[k] {
          var j :| j in init && f[j] == k2;
          assert j in ks;
        } else {
          assert k in ks;
        }
      }
    }
  }

  /**
    A monotone renaming that keeps keys among the non-terminals keeps the
    rules ranked.
  */
  lemma RenamedRanked(d: Dictionary, f: Table, d2: Dictionary)
    requires Ranked(d) && Monotone(f) && RenamedRules(d, f, d2)
    requires forall k :: k in d ==> f[k] >= First
    ensures Ranked(d2)
  {
    forall k2 | k2 in d2 ensures k2 >= First && forall y :: y in d2[k2] ==> y < k2 {
      var k :| k in d && f[k] == k2;
      forall i | 0 <= i < |d[k]| ensures Rename(f, d[k])[i] < k2 {
        assert d[k][i] in d[k];
      }
    }
  }

  /** The renamed block and rules refer only to renamed keys. */
  lemma RenamedClosed(d: Dictionary, f: Table, d2: Dictionary, b: Block)
    requires Closed(d) && ClosedSeq(d, b) && RenamedRules(d, f, d2) && Covers(f, b)
    ensures Closed(d2) && ClosedSeq(d2, Rename(f, b))
  {
    forall i | 0 <= i < |b| && b[i] >= First ensures Rename(f, b)[i] in d2 {
      assert b[i] in b;
    }
    forall k2 | k2 in d2 ensures ClosedSeq(d2, d2[k2]) {
      var k :| k in d && f[k] == k2;
      forall i | 0 <= i < |d[k]| && d[k][i] >= First ensures Rename(f, d[k])[i] in d2 {
        assert d[k][i] in d[k];
      }
    }
  }

  /** A monotone table reflects order: smaller numbers come from smaller keys. */
  lemma MonotoneReflects(f: Table, a: Symbol, c: Symbol)
    requires Monotone(f) && a in f && c in f && f[a] < f[c]
    ensures a < c
  {
  }

  /**
    The rules below a key are renamed into the rules below its new number,
    and they stay ranked and closed.
  */
  lemma BelowRenamed(d: Dictionary, f: Table, d2: Dictionary, x: Symbol)
    requires Ranked(d) && Closed(d) && Monotone(f) && RenamedRules(d, f, d2) && x in d
    ensures Ranked(Below(d, x)) && Closed(Below(d, x))
    ensures RenamedRules(Below(d, x), f, Below(d2, f[x]))
  {
    var b, b2 := Below(d, x), Below(d2, f[x]);
    forall k | k in b ensures ClosedSeq(b, b[k]) {
      assert forall y :: y in b[k] ==> y < k;
    }
    forall k | k in b ensures k in f && Covers(f, b[k]) && f[k] in b2 && b2[f[k]] == Rename(f, b[k]) {
      assert f[k] < f[x];
    }
    forall k2 | k2 in b2 ensures exists k :: k in b && f[k] == k2 {
      var k :| k in d && f[k] == k2;
      MonotoneReflects(f, k, x);
      assert k in b;
    }
  }

  lemma {:induction false} ExpandSymbolRenamed(d: Dictionary, f: Table, d2: Dictionary, x: Symbol)
    requires Ranked(d) && Closed(d) && (x >= First ==> x in d)
    requires Monotone(f) && RenamedRules(d, f, d2)
    requires forall k :: k in d ==> f[k] >= First
    ensures ExpandSymbol(d2, RenameSymbol(f, x)) == ExpandSymbol(d, x)
    decreases d.Keys, 0
  {
    if x >= First {
      BelowRenamed(d, f, d2, x);
      ExpandRenamed(Below(d, x), f, Below(d2, f[x]), d[x]);
    } else {
      assert x !in d2;
    }
  }

  /**
    Renaming with a monotone table into non-terminals does not change what
    the block expands to.
  */
  lemma {:induction false} ExpandRenamed(d: Dictionary, f: Table, d2: Dictionary, s: Block)
    requires Ranked(d) && Closed(d) && ClosedSeq(d, s)
    requires Monotone(f) && RenamedRules(d, f, d2) && Covers(f, s)
    requires forall k :: k in d ==> f[k] >= First
    ensures Expand(d2, Rename(f, s)) == Expand(d, s)
    decreases d.Keys, |s|
  {
    if s != [] {
      var x := s[0];
      assert x in s && forall y :: y in s[1..] ==> y in s;
      assert Rename(f, s)[1..] == Rename(f, s[1..]);
      ExpandSymbolRenamed(d, f, d2, x);
      ExpandRenamed(d, f, d2, s[1..]);
    }
  }

  /**
    The table `qz_remap` builds for a dictionary: its keys visited in
    ascending order, as a `std::map` is iterated.
  */
  function NumberingOf(d: Dictionary): (f: Table)
    ensures forall k :: k in f <==> k in d && k >= First
    ensures Monotone(f)
    ensures forall k :: k in f ==> First <= f[k] < First + |f|
  {
    var ks := Ordering.SortedKeys(d.Keys);
    NumberingFacts(ks);
    Numbering(ks)
  }

  /**
    The position of the first non-terminal of `s` the table has no entry
    for, where `remap.at` throws; `|s|` when there is none.
  */
  function FirstUncovered(f: Table, s: Block): (j: nat)
    ensures j <= |s| && Covers(f, s[..j])
    ensures j < |s| ==> s[j] >= First && s[j] !in f
  {
    if s == [] then 0
    else if s[0] >= First && s[0] !in f then 0
    else
      var j := FirstUncovered(f, s[1..]);
      assert s[..j + 1] == [s[0]] + s[1..][..j];
      j + 1
  }

  /**
    The loop that renames a block in place (src/qzip.cc:428-430, and the same
    loop over a copied body at 439-441): it stops with an exception at the
    first non-terminal without an entry, leaving the symbols before it
    renamed and the rest as they were.
  */
  method RenameInPlace(f: Table, s: Block) returns (t: Block, ok: bool)
    ensures ok <==> FirstUncovered(f, s) == |s|
    ensures t == Rename(f, s[..FirstUncovered(f, s)]) + s[FirstUncovered(f, s)..]
  {
    t := s;
    var i := 0;
    while i < |t|
      invariant 0 <= i <= |s| && |t| == |s|
      invariant Covers(f, s[..i])
      invariant t == Rename(f, s[..i]) + s[i..]
    {
      assert t[i] == s[i];
      if t[i] >= First && t[i] !in f {
        FirstUncoveredAt(f, s, i);
        return t, false;
      }
      RenameStep(f, s, i, t);
      if t[i] >= First {
        t := t[i := f[t[i]]];
      }
      i := i + 1;
    }
    assert s[..i] == s;
    FirstUncoveredAt(f, s, i);
    ok := true;
  }

  /** Renaming the symbol at `i` in place extends the renamed prefix by one. */
  lemma RenameStep(f: Table, s: Block, i: nat, t: Block)
    requires i < |s| && Covers(f, s[..i]) && (s[i] >= First ==> s[i] in f)
    requires t == Rename(f, s[..i]) + s[i..]
    ensures Covers(f, s[..i + 1])
    ensures s[i] >= First ==> t[i := f[s[i]]] == Rename(f, s[..i + 1]) + s[i + 1..]
    ensures s[i] < First ==> t == Rename(f, s[..i + 1]) + s[i + 1..]
  {
    RenamePrefix(f, s, i);
    var r := Rename(f, s[..i + 1]) + s[i + 1..];
    assert |r| == |t|;
    if s[i] >= First {
      assert forall j :: 0 <= j < |t| ==> t[i := f[s[i]]][j] == r[j];
    } else {
      assert forall j :: 0 <= j < |t| ==> t[j] == r[j];
    }
  }

  lemma RenamePrefix(f: Table, s: Block, i: nat)
    requires i < |s| && Covers(f, s[..i]) && (s[i] >= First ==> s[i] in f)
    ensures Covers(f, s[..i + 1])
    ensures Rename(f, s[..i + 1]) == Rename(f, s[..i]) + [RenameSymbol(f, s[i])]
  {
    assert s[..i + 1] == s[..i] + [s[i]];
  }

  /** The first uncovered position is the one a left-to-right scan stops at. */
  lemma {:induction false} FirstUncoveredAt(f: Table, s: Block, i: nat)
    requires i <= |s| && Covers(f, s[..i])
    requires i < |s| ==> s[i] >= First && s[i] !in f
    ensures FirstUncovered(f, s) == i
    decreases i
  {
    if i > 0 {
      assert s[0] in s[..i];
      assert s[1..][..i - 1] == s[1..i];
      assert forall y :: y in s[1..i] ==> y in s[..i];
      FirstUncoveredAt(f, s[1..], i - 1);
    }
  }

  /**
    What `qz_remap` needs to get through: every key is a non-terminal and
    every non-terminal of the block and of the bodies is a key.
  */
  ghost predicate RemapDefined(d: Dictionary, b: Block) {
    (forall k :: k in d ==> k >= First) && Closed(d) && ClosedSeq(d, b)
  }

  /** The rules `qz_remap` stores in `e` once it gets through them all. */
  function Renumbered(d: Dictionary): Dictionary
    requires forall k :: k in d ==> k >= First
    requires Closed(d)
  {
    var f, ks := NumberingOf(d), Ordering.SortedKeys(d.Keys);
    CoversRules(d, f, ks);
    RenameRules(f, d, ks)
  }

  /** A table numbering every key covers every body of closed rules. */
  lemma CoversRules(d: Dictionary, f: Table, ks: seq<Symbol>)
    requires Closed(d)
    requires forall k :: k in f <==> k in d && k >= First
    requires forall k :: k in d ==> k >= First
    requires forall k :: k in ks ==> k in d
    ensures forall i :: 0 <= i < |ks| ==> ks[i] in d && ks[i] in f && Covers(f, d[ks[i]])
  {
    forall i | 0 <= i < |ks| ensures ks[i] in d && ks[i] in f && Covers(f, d[ks[i]]) {
      var k := ks[i];
      assert k in ks;
      assert ClosedSeq(d, d[k]);
    }
  }

  /**
    A successful renumbering keeps the expansion of the block and keeps the
    rules closed.
  */
  lemma RenumberingExpands(d: Dictionary, b: Block)
    requires Ranked(d) && RemapDefined(d, b)
    ensures Covers(NumberingOf(d), b)
    ensures Expand(Renumbered(d), Rename(NumberingOf(d), b)) == Expand(d, b)
    ensures Closed(Renumbered(d)) && ClosedSeq(Renumbered(d), Rename(NumberingOf(d), b))
  {
    var f, e := NumberingOf(d), Renumbered(d);
    RenumberedRenames(d);
    RenamedClosed(d, f, e, b);
    ExpandRenamed(d, f, e, b);
  }

  /**
    A successful renumbering keeps the rules ranked and numbers them
    `first`, `first + 1`, ... with no gaps: as many keys as rules, all below
    `first + |d|`.
  */
  lemma RenumberingDense(d: Dictionary)
    requires Ranked(d) && Closed(d)
    ensures Ranked(Renumbered(d))
    ensures |Renumbered(d)| == |d|
    ensures forall k :: k in Renumbered(d) ==> First <= k < First + |d|
  {
    var f, e := NumberingOf(d), Renumbered(d);
    RenumberedRenames(d);
    assert Ranked(e) by {
      RenamedRanked(d, f, e);
    }
    RenamedBounded(d, f, e);
  }

  /** Rules renamed through a table onto `first .. first + |f| - 1` that numbers every key get keys in that range. */
  lemma RenamedBounded(d: Dictionary, f: Table, e: Dictionary)
    requires RenamedRules(d, f, e)
    requires forall k :: k in f <==> k in d && k >= First
    requires forall k :: k in f ==> First <= f[k] < First + |f|
    requires forall k :: k in d ==> k >= First
    ensures forall k2 :: k2 in e ==> First <= k2 < First + |d|
  {
    forall k ensures k in f.Keys <==> k in d.Keys {
      if k in d {
        assert k >= First;
      }
    }
    assert f.Keys == d.Keys;
    assert |f| == |f.Keys| == |d.Keys| == |d|;
    forall k2 | k2 in e ensures First <= k2 < First + |d| {
      var k :| k in d && f[k] == k2;
    }
  }

  lemma RenumberedRenames(d: Dictionary)
    requires forall k :: k in d ==> k >= First
    requires Closed(d)
    ensures RenamedRules(d, NumberingOf(d), Renumbered(d))
    ensures |Renumbered(d)| == |d|
  {
    var f, ks := NumberingOf(d), Ordering.SortedKeys(d.Keys);
    CoversRules(d, f, ks);
    var e := RenameRules(f, d, ks);
    assert Renumbered(d) == e;
    RenameRulesFacts(f, d, ks);
    RenamedFromFacts(d, f, ks, e);
  }

  /** The facts about the rules renamed along a sequence of all the keys, read as `RenamedRules`. */
  lemma RenamedFromFacts(d: Dictionary, f: Table, ks: seq<Symbol>, e: Dictionary)
    requires forall k :: k in ks <==> k in d.Keys
    requires |ks| == |d.Keys|
    requires forall i :: 0 <= i < |ks| ==> ks[i] in d && ks[i] in f && Covers(f, d[ks[i]])
    requires forall k :: k in ks ==> f[k] in e && e[f[k]] == Rename(f, d[k])
    requires forall k2 :: k2 in e ==> exists k :: k in ks && f[k] == k2
    requires |e| == |ks|
    ensures RenamedRules(d, f, e) && |e| == |d|
  {
    forall k | k in d ensures k in ks && k in f && Covers(f, d[k]) {
      assert k in d.Keys;
      var i :| 0 <= i < |ks| && ks[i] == k;
    }
    forall k2 | k2 in e ensures exists k :: k in d && f[k] == k2 {
      var k :| k in ks && f[k] == k2;
      assert k in d.Keys;
    }
  }
}

/**
  Wildcard-aware pattern matching over a block of symbols
  (src/qzip.cc:176-199). A block is read through index cursors: a position
  `p` with `p == |b|` is the block's end.
*/
module Matching {
  import opened Symbols

  /**
    `qz_compare_symbols` (src/qzip.cc:176-178): two symbols compare equal
    when they are the same or either one is the wildcard.
  */
  function CompareSymbols(a: Symbol, b: Symbol): (r: bool)
    ensures a == b ==> r
    ensures a == Wildcard || b == Wildcard ==> r
    ensures r && a != Wildcard && b != Wildcard ==> a == b
  {
    a == b || a == Wildcard || b == Wildcard
  }

  lemma CompareSymmetric(a: Symbol, b: Symbol)
    ensures CompareSymbols(a, b) == CompareSymbols(b, a)
  {
  }

  /**
    The pattern `s` matches the block `b` at position `p`: the whole window
    lies inside the block and every pattern symbol compares equal to the
    block symbol under it.
  */
  ghost predicate MatchesAt(b: seq<Symbol>, p: nat, s: seq<Symbol>) {
    p + |s| <= |b| && forall i :: 0 <= i < |s| ==> CompareSymbols(s[i], b[p + i])
  }

  /**
    The first position at or after `from` where `s` matches, or `|b|` (the
    end) when there is none.
  */
  ghost function FirstMatch(b: seq<Symbol>, from: nat, s: seq<Symbol>): (p: nat)
    requires from <= |b|
    ensures from <= p <= |b|
    ensures p < |b| ==> MatchesAt(b, p, s)
    ensures forall q :: from <= q < p ==> !MatchesAt(b, q, s)
    decreases |b| - from
  {
    if from == |b| then |b|
    else if MatchesAt(b, from, s) then from
    else FirstMatch(b, from + 1, s)
  }

  /**
    Only positions before the end are tried, so the empty pattern is found
    at the cursor unless the cursor is already at the end.
  */
  lemma FindEmptyPattern(b: seq<Symbol>, from: nat)
    requires from <= |b|
    ensures FirstMatch(b, from, []) == from
  {
  }

  /**
    A position that is not a match can be skipped: the search from it finds
    what the search from the next position finds.
  */
  lemma FirstMatchSkip(b: seq<Symbol>, from: nat, s: seq<Symbol>)
    requires from < |b| && !MatchesAt(b, from, s)
    ensures FirstMatch(b, from, s) == FirstMatch(b, from + 1, s)
  {
  }

  /**
    `qz_match_block` (src/qzip.cc:180-190): walks the pattern and the block
    together and fails as soon as the block ends or a pair of symbols does
    not compare equal.
  */
  method MatchBlock(b: seq<Symbol>, p: nat, s: seq<Symbol>) returns (r: bool)
    requires p <= |b|
    ensures r == MatchesAt(b, p, s)
  {
    var i := 0;
    while i < |s|
      invariant 0 <= i <= |s|
      invariant p + i <= |b|
      invariant forall j :: 0 <= j < i ==> CompareSymbols(s[j], b[p + j])
    {
      if p + i == |b| || !CompareSymbols(s[i], b[p + i]) {
        return false;
      }
      i := i + 1;
    }
    return true;
  }

  /**
    `qz_find_block` (src/qzip.cc:192-199): tries each position from the
    cursor up to the end and returns the first that matches, or the end.
  */
  method FindBlock(b: seq<Symbol>, from: nat, s: seq<Symbol>) returns (p: nat)
    requires from <= |b|
    ensures p == FirstMatch(b, from, s)
  {
    p := from;
    while p < |b|
      invariant from <= p <= |b|
      invariant FirstMatch(b, from, s) == FirstMatch(b, p, s)
    {
      var m := MatchBlock(b, p, s);
      if m {
        return;
      }
      p := p + 1;
    }
  }
}

/**
  What the in-place splicing of src/qzip.cc (`qz_erase_block`,
  `qz_replace_next_block`, `qz_replace_block`, lines 201-246) does to a
  block, stated as functions of the block before the call. The methods that
  perform the splicing live in the `Engine` module.
*/
module Splicing {
  import opened Symbols
  import opened Matching
  import opened Errors

  type Block = seq<Symbol>

  /**
    The pattern lies inside the block at `p` and each of its concrete
    symbols equals the block symbol under it; wildcard positions accept
    anything.
  */
  ghost predicate ConcreteAt(b: Block, p: nat, s: Block) {
    p + |s| <= |b| && forall i :: 0 <= i < |s| ==> s[i] == Wildcard || s[i] == b[p + i]
  }

  /** The number of concrete (non-wildcard) symbols of a pattern. */
  function Concrete(s: Block): (n: nat)
    ensures n <= |s|
  {
    if s == [] then 0 else (if s[0] == Wildcard then 0 else 1) + Concrete(s[1..])
  }

  /** The symbols of `w` that lie under the wildcards of `s`, in order. */
  function Kept(w: Block, s: Block): (r: Block)
    requires |s| <= |w|
    ensures |r| == |s| - Concrete(s)
  {
    if s == [] then [] else (if s[0] == Wildcard then [w[0]] else []) + Kept(w[1..], s[1..])
  }

  /**
    Whether the walk of `qz_erase_block` from cursor `c` gets through the
    whole pattern: a wildcard steps over the block symbol, an equal symbol
    is erased, and the walk fails when the block ends or a concrete symbol
    differs.
  */
  predicate EraseOk(b: Block, c: nat, s: Block)
    decreases |s|
  {
    if s == [] then true
    else if c >= |b| then false
    else if s[0] == Wildcard then EraseOk(b, c + 1, s[1..])
    else if b[c] == s[0] then EraseOk(b[..c] + b[c + 1..], c, s[1..])
    else false
  }

  /**
    The block when that walk ends, after completing or at the point where it
    throws: the erasures already made are not undone.
  */
  function Erased(b: Block, c: nat, s: Block): (r: Block)
    ensures c <= |b| ==> c <= |r| && r[..c] == b[..c]
    decreases |s|
  {
    if s == [] then b
    else if c >= |b| then b
    else if s[0] == Wildcard then Erased(b, c + 1, s[1..])
    else if b[c] == s[0] then Erased(b[..c] + b[c + 1..], c, s[1..])
    else b
  }

  /** The walk completes exactly when the pattern sits concretely at the cursor. */
  lemma {:induction false} EraseOkIff(b: Block, c: nat, s: Block)
    requires c <= |b|
    ensures EraseOk(b, c, s) <==> ConcreteAt(b, c, s)
    decreases |s|
  {
    if s != [] && c < |b| {
      if s[0] == Wildcard {
        EraseOkIff(b, c + 1, s[1..]);
        if ConcreteAt(b, c + 1, s[1..]) {
          assert forall i :: 1 <= i < |s| ==> s[i] == s[1..][i - 1];
        }
      } else if b[c] == s[0] {
        var b' := b[..c] + b[c + 1..];
        EraseOkIff(b', c, s[1..]);
        assert forall i :: c <= i < |b'| ==> b'[i] == b[i + 1];
        if ConcreteAt(b', c, s[1..]) {
          assert forall i :: 1 <= i < |s| ==> s[i] == s[1..][i - 1];
        }
      }
    }
  }

  /**
    A completed walk removes exactly the block symbols under concrete
    pattern positions, keeps those under wildcards in order, and leaves the
    rest of the block as it was.
  */
  lemma {:induction false} ErasedShape(b: Block, c: nat, s: Block)
    requires ConcreteAt(b, c, s)
    ensures Erased(b, c, s) == b[..c] + Kept(b[c..c + |s|], s) + b[c + |s|..]
    decreases |s|
  {
    if s == [] {
      assert b == b[..c] + b[c..];
    } else if s[0] == Wildcard {
      ConcreteNext(b, c, s);
      ErasedShape(b, c + 1, s[1..]);
      ShapeWildcardStep(b, c, s);
    } else {
      ConcreteNext(b, c, s);
      ErasedShape(b[..c] + b[c + 1..], c, s[1..]);
      ShapeEraseStep(b, c, s);
    }
  }

  /** Where the pattern sits concretely, its tail sits concretely after one step of the walk. */
  lemma ConcreteNext(b: Block, c: nat, s: Block)
    requires ConcreteAt(b, c, s) && s != []
    ensures s[0] == Wildcard ==> ConcreteAt(b, c + 1, s[1..])
    ensures s[0] != Wildcard ==> b[c] == s[0] && ConcreteAt(b[..c] + b[c + 1..], c, s[1..])
  {
    var b' := b[..c] + b[c + 1..];
    assert forall i :: c <= i < |b'| ==> b'[i] == b[i + 1];
    assert forall i :: 0 <= i < |s| - 1 ==> s[1..][i] == s[i + 1];
  }

  lemma ShapeWildcardStep(b: Block, c: nat, s: Block)
    requires c + |s| <= |b| && s != [] && s[0] == Wildcard
    requires Erased(b, c + 1, s[1..]) == b[..c + 1] + Kept(b[c + 1..c + |s|], s[1..]) + b[c + |s|..]
    ensures Erased(b, c, s) == b[..c] + Kept(b[c..c + |s|], s) + b[c + |s|..]
  {
    assert b[c..c + |s|][1..] == b[c + 1..c + |s|];
    assert Kept(b[c..c + |s|], s) == [b[c]] + Kept(b[c + 1..c + |s|], s[1..]);
    assert b[..c + 1] == b[..c] + [b[c]];
  }

  lemma ShapeEraseStep(b: Block, c: nat, s: Block)
    requires c + |s| <= |b| && s != [] && s[0] != Wildcard && b[c] == s[0]
    requires var b' := b[..c] + b[c + 1..];
      Erased(b', c, s[1..]) == b'[..c] + Kept(b'[c..c + |s| - 1], s[1..]) + b'[c + |s| - 1..]
    ensures Erased(b, c, s) == b[..c] + Kept(b[c..c + |s|], s) + b[c + |s|..]
  {
    var b' := b[..c] + b[c + 1..];
    assert Erased(b, c, s) == Erased(b', c, s[1..]);
    assert Kept(b[c..c + |s|], s) == Kept(b[c..c + |s|][1..], s[1..]);
    assert b'[..c] == b[..c];
    assert b'[c..c + |s| - 1] == b[c + 1..c + |s|] == b[c..c + |s|][1..];
    assert b'[c + |s| - 1..] == b[c + |s|..];
  }

  /** A completed walk shortens the block by the number of concrete pattern symbols. */
  lemma ErasedLength(b: Block, c: nat, s: Block)
    requires ConcreteAt(b, c, s)
    ensures |Erased(b, c, s)| == |b| - Concrete(s)
    ensures Erased(b, c, s)[..c] == b[..c]
  {
    ErasedShape(b, c, s);
  }

  /**
    Where the block holds no wildcard, the match `qz_find_block` reports is
    one the erasure walk completes; a wildcard in the block can satisfy the
    search but not the erasure.
  */
  lemma MatchIsConcrete(b: Block, p: nat, s: Block)
    requires MatchesAt(b, p, s)
    requires forall i :: p <= i < p + |s| ==> b[i] != Wildcard
    ensures ConcreteAt(b, p, s)
  {
  }

  lemma ConcreteIsMatch(b: Block, p: nat, s: Block)
    requires ConcreteAt(b, p, s)
    ensures MatchesAt(b, p, s)
  {
  }

  /** `x` inserted at position `p`. */
  function Insert(b: Block, p: nat, x: Symbol): (r: Block)
    requires p <= |b|
    ensures |r| == |b| + 1 && r[p] == x
  {
    b[..p] + [x] + b[p..]
  }

  /** The first concrete symbol of a pattern, or the wildcard when it has none. */
  function Sole(s: Block): (c: Symbol)
    ensures Concrete(s) == 0 <==> c == Wildcard
    ensures Concrete(s) <= 1 ==> forall i :: 0 <= i < |s| ==> s[i] == Wildcard || s[i] == c
  {
    if s == [] then Wildcard
    else
      var rest := Sole(s[1..]);
      assert forall i :: 1 <= i < |s| ==> s[i] == s[1..][i - 1];
      if s[0] != Wildcard then s[0] else rest
  }

  /**
    Patterns on which `qz_replace_block` terminates on every block. The
    search restarts at the inserted `x`. With two or more concrete symbols
    each replacement shortens the block. With exactly one, `c`, each
    replacement trades a `c` for `x`, so the `c`s of the block run out when
    `x` differs from `c`. The other patterns loop on some block
    (`NotTerminatingLoops`).
  */
  predicate Terminating(s: Block, x: Symbol) {
    Concrete(s) >= 2 || (Concrete(s) == 1 && Sole(s) != x)
  }

  /** The loop of `qz_replace_block` ends from `pos`: the pattern is terminating, or nothing matches. */
  ghost predicate Ends(b: Block, pos: nat, s: Block, x: Symbol)
    requires pos <= |b|
  {
    Terminating(s, x) || FirstMatch(b, pos, s) == |b|
  }

  /**
    The second component of the loop measure of `qz_replace_block`: for a
    pattern with one concrete symbol, how often the block still holds it.
  */
  function Remaining(b: Block, s: Block): nat {
    if Concrete(s) == 1 then multiset(b)[Sole(s)] else 0
  }

  function Shift(o: (Block, Result<nat>), n: nat): (Block, Result<nat>) {
    (o.0, if o.1.Success? then Success(o.1.value + n) else o.1)
  }

  lemma ShiftShift(o: (Block, Result<nat>), m: nat, n: nat)
    ensures Shift(Shift(o, m), n) == Shift(o, m + n)
  {
  }

  /**
    What `qz_replace_next_block` leaves and returns: with no match at or
    after `pos`, the block unchanged and its end; with a match the erasure
    walk gets through, the block with `x` inserted where the match began,
    and that index; otherwise the block as the throwing walk left it.
  */
  ghost function ReplaceNext(b: Block, pos: nat, s: Block, x: Symbol): (Block, Result<nat>)
    requires pos <= |b|
  {
    var p: nat := FirstMatch(b, pos, s);
    if p == |b| then (b, Success(p))
    else if EraseOk(b, p, s) then (Insert(Erased(b, p, s), p, x), Success(p))
    else (Erased(b, p, s), Failure(ErasePastEnd))
  }

  /**
    A replacement leaves the returned index inside the new block, on the
    inserted `x`; the end is returned only when nothing matched. Under
    `Terminating` the block shrinks, or keeps its length while it holds one
    fewer copy of the pattern's concrete symbol.
  */
  lemma ReplaceNextFacts(b: Block, pos: nat, s: Block, x: Symbol)
    requires pos <= |b|
    ensures var (b', r) := ReplaceNext(b, pos, s, x);
      r.Success? ==> r.value <= |b'| && (r.value == |b'| <==> FirstMatch(b, pos, s) == |b|)
    ensures var (b', r) := ReplaceNext(b, pos, s, x);
      r.Success? && r.value < |b'| && Terminating(s, x) ==>
        b'[r.value] == x && Smaller(b', b, s)
  {
    var p: nat := FirstMatch(b, pos, s);
    if p < |b| && EraseOk(b, p, s) {
      EraseOkIff(b, p, s);
      ErasedLength(b, p, s);
      if Concrete(s) == 1 {
        ErasedCount(b, p, s);
        var e := Erased(b, p, s);
        assert Insert(e, p, x) == e[..p] + [x] + e[p..];
        assert e == e[..p] + e[p..];
      }
    }
  }

  /**
    A completed walk of a pattern with one concrete symbol removes exactly
    one copy of that symbol from the block.
  */
  lemma ErasedCount(b: Block, c: nat, s: Block)
    requires ConcreteAt(b, c, s) && Concrete(s) == 1
    ensures multiset(Erased(b, c, s)) + multiset{Sole(s)} == multiset(b)
  {
    ErasedShape(b, c, s);
    var w := b[c..c + |s|];
    assert forall i :: 0 <= i < |s| ==> w[i] == b[c + i];
    KeptCount(w, s);
    var pre, post := b[..c], b[c + |s|..];
    assert b == pre + w + post;
    var e, k := Erased(b, c, s), Kept(w, s);
    assert e == pre + k + post;
    assert multiset(e) == multiset(pre) + multiset(k) + multiset(post);
    assert multiset(b) == multiset(pre) + multiset(w) + multiset(post);
  }

  /**
    The symbols under the wildcards of a pattern, together with the
    pattern's concrete symbols where they sit, make up the whole window.
  */
  lemma {:induction false} KeptCount(w: Block, s: Block)
    requires |s| == |w| && forall i :: 0 <= i < |s| ==> s[i] == Wildcard || s[i] == w[i]
    ensures Concrete(s) == 0 ==> multiset(Kept(w, s)) == multiset(w)
    ensures Concrete(s) == 1 ==> multiset(Kept(w, s)) + multiset{Sole(s)} == multiset(w)
  {
    if s != [] {
      var s', w' := s[1..], w[1..];
      assert forall i :: 0 <= i < |s'| ==> s'[i] == s[i + 1] && w'[i] == w[i + 1];
      KeptCount(w', s');
      assert w == [w[0]] + w';
      if s[0] == Wildcard {
        assert Kept(w, s) == [w[0]] + Kept(w', s');
      } else {
        assert Kept(w, s) == Kept(w', s');
        assert Sole(s) == w[0];
      }
    }
  }

  /**
    `Terminating` is exact: on any other pattern one replacement turns a
    block of at least `|s|` copies of `x` into a block of `x`s no shorter
    and returns index 0, where the next search matches again, so the loop
    of `qz_replace_block` never ends.
  */
  lemma NotTerminatingLoops(s: Block, x: Symbol, b: Block)
    requires !Terminating(s, x) && 0 < |b| && |s| <= |b|
    requires forall i :: 0 <= i < |b| ==> b[i] == x
    ensures Concrete(s) <= 1
    ensures var (b', r) := ReplaceNext(b, 0, s, x);
      r == Success(0) && |b'| == |b| + 1 - Concrete(s) && forall i :: 0 <= i < |b'| ==> b'[i] == x
  {
    assert Sole(s) == Wildcard || Sole(s) == x;
    assert ConcreteAt(b, 0, s);
    ConcreteIsMatch(b, 0, s);
    assert FirstMatch(b, 0, s) == 0;
    EraseOkIff(b, 0, s);
    ErasedCopies(s, x, b);
  }

  /** Erasing a pattern that fits a block of `x`s leaves a shorter block of `x`s. */
  lemma ErasedCopies(s: Block, x: Symbol, b: Block)
    requires Concrete(s) <= 1 && ConcreteAt(b, 0, s)
    requires forall i :: 0 <= i < |b| ==> b[i] == x
    ensures var e := Erased(b, 0, s);
      |e| == |b| - Concrete(s) && forall i :: 0 <= i < |e| ==> e[i] == x
  {
    var w, rest := b[..|s|], b[|s|..];
    var kept := Kept(w, s);
    assert Erased(b, 0, s) == kept + rest by {
      ErasedShape(b, 0, s);
      assert b[..0] == [] && b[0..0 + |s|] == w;
    }
    assert multiset(kept) <= multiset(w) by {
      KeptCount(w, s);
    }
    CopiesOf(kept, rest, w, x);
  }

  /** Symbols drawn from a block of `x`s, followed by more `x`s, are all `x`. */
  lemma CopiesOf(k: Block, r: Block, w: Block, x: Symbol)
    requires multiset(k) <= multiset(w)
    requires forall i :: 0 <= i < |w| ==> w[i] == x
    requires forall i :: 0 <= i < |r| ==> r[i] == x
    ensures forall i :: 0 <= i < |k + r| ==> (k + r)[i] == x
  {
    forall i | 0 <= i < |k|
      ensures k[i] == x
    {
      assert k[i] in multiset(w);
    }
  }

  /**
    The loop measure of `qz_replace_block`, lexicographic in the block
    length and `Remaining`.
  */
  predicate Smaller(c: Block, b: Block, s: Block) {
    |c| < |b| || (|c| == |b| && Remaining(c, s) < Remaining(b, s))
  }

  /**
    The block `qz_replace_block` leaves and the count it returns when the
    search starts at `pos`: replacement after replacement, each search
    starting at the `x` just inserted, until nothing matches or an erasure
    throws.
  */
  ghost function ReplaceFrom(b: Block, pos: nat, s: Block, x: Symbol): (Block, Result<nat>)
    requires pos <= |b| && Ends(b, pos, s, x)
    decreases |b|, Remaining(b, s)
  {
    ReplaceNextFacts(b, pos, s, x);
    var (b', r) := ReplaceNext(b, pos, s, x);
    if r.Failure? then (b', r)
    else if r.value == |b'| then (b', Success(0))
    else Shift(ReplaceFrom(b', r.value, s, x), 1)
  }

  /**
    How the outcome of one replacement step, taken part-way through the
    loop with `n` replacements made, decides the outcome of the whole loop.
  */
  lemma ReplaceStep(o: (Block, Result<nat>), b: Block, pos: nat, n: nat, s: Block, x: Symbol, c: Block, q: Result<nat>)
    requires pos <= |b| && Ends(b, pos, s, x)
    requires o == Shift(ReplaceFrom(b, pos, s, x), n)
    requires (c, q) == ReplaceNext(b, pos, s, x)
    ensures q.Failure? ==> o == (c, q)
    ensures q.Success? && q.value == |c| ==> o == (c, Success(n))
    ensures q.Success? && q.value != |c| ==>
      q.value < |c| && Ends(c, q.value, s, x) && Smaller(c, b, s) &&
      o == Shift(ReplaceFrom(c, q.value, s, x), n + 1)
  {
    ReplaceNextFacts(b, pos, s, x);
    if q.Success? && q.value != |c| {
      ShiftShift(ReplaceFrom(c, q.value, s, x), 1, n);
    }
  }

  /**
    Every replacement puts one `x` in place of the concrete symbols of a
    match, so the block shrinks by `Concrete(s) - 1` per replacement counted.
  */
  lemma {:induction false} ReplaceFromLength(b: Block, pos: nat, s: Block, x: Symbol)
    requires pos <= |b| && Ends(b, pos, s, x)
    requires ReplaceFrom(b, pos, s, x).1.Success?
    ensures |ReplaceFrom(b, pos, s, x).0| == |b| - ReplaceFrom(b, pos, s, x).1.value * (Concrete(s) - 1)
    decreases |b|, Remaining(b, s)
  {
    ReplaceNextFacts(b, pos, s, x);
    var (b', r) := ReplaceNext(b, pos, s, x);
    if r.value < |b'| {
      ReplaceNextLength(b, pos, s, x);
      ReplaceFromLength(b', r.value, s, x);
      var n := ReplaceFrom(b', r.value, s, x).1.value;
      assert ReplaceFrom(b, pos, s, x) == Shift(ReplaceFrom(b', r.value, s, x), 1);
      MulSucc(n, Concrete(s) - 1);
    }
  }

  lemma MulSucc(n: nat, c: int)
    ensures (n + 1) * c == n * c + c
  {
  }

  /** A replacement shortens the block by the concrete symbols of the match, less the one inserted. */
  lemma ReplaceNextLength(b: Block, pos: nat, s: Block, x: Symbol)
    requires pos <= |b|
    requires FirstMatch(b, pos, s) < |b| && ReplaceNext(b, pos, s, x).1.Success?
    ensures |ReplaceNext(b, pos, s, x).0| == |b| - (Concrete(s) - 1)
  {
    var p := FirstMatch(b, pos, s);
    EraseOkIff(b, p, s);
    ErasedLength(b, p, s);
  }

  /** A search that finds nothing leaves the block alone and counts nothing. */
  lemma ReplaceFromNoMatch(b: Block, pos: nat, s: Block, x: Symbol)
    requires pos <= |b|
    requires forall q :: pos <= q < |b| ==> !MatchesAt(b, q, s)
    ensures Ends(b, pos, s, x)
    ensures ReplaceFrom(b, pos, s, x) == (b, Success(0))
  {
    assert FirstMatch(b, pos, s) == |b|;
  }
}

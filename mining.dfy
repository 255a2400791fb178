/**
  Candidate mining: `qz_get_histogram` (src/qzip.cc:248-284) counts, at every
  position of the block, the contiguous windows of length 3 up to `maxlen`
  and the gapped keys made of the symbol there, wildcards, and one later
  symbol; `qz_get_ngrams` (src/qzip.cc:449-472) keeps the keys of the
  `maxlen = 2` histogram seen at least four times. A histogram is a
  multiset of keys: `h[key]++` adds one occurrence.
*/
module Mining {
  import opened Symbols
  import Matching

  type Block = seq<Symbol>
  type Counts = multiset<Block>

  /** `multiplicity` in `qz_get_ngrams`. */
  const Multiplicity: nat := 4

  /** `block_maxlen` in `qz_get_ngrams`. */
  const PairLength: nat := 2

  function Min(a: nat, b: nat): nat {
    if a <= b then a else b
  }

  /** `n` wildcards. */
  function Wildcards(n: nat): (r: Block)
    ensures |r| == n && forall i :: 0 <= i < n ==> r[i] == Wildcard
  {
    if n == 0 then [] else Wildcards(n - 1) + [Wildcard]
  }

  /** The gapped key for distance `j`: the first symbol, `j - 1` wildcards, the symbol `j` further on. */
  function Gap(t: Block, j: nat): (k: Block)
    requires 1 <= j < |t|
    ensures |k| == j + 1 && k[0] == t[0] && k[j] == t[j]
    ensures forall i :: 0 < i < j ==> k[i] == Wildcard
  {
    [t[0]] + Wildcards(j - 1) + [t[j]]
  }

  /** The contiguous keys `t[..len]` for `3 <= len <= n`. */
  function Windows(t: Block, n: nat): Counts
    requires n <= |t|
  {
    if n < 3 then multiset{} else Windows(t, n - 1) + multiset{t[..n]}
  }

  /** The gapped keys for distances `1 <= j < n`. */
  function Gapped(t: Block, n: nat): Counts
    requires n <= |t|
  {
    if n <= 1 then multiset{} else Gapped(t, n - 1) + multiset{Gap(t, n - 1)}
  }

  /** The keys counted at the first position of `t`. */
  function KeysAt(t: Block, maxlen: nat): Counts {
    Windows(t, Min(maxlen, |t|)) + Gapped(t, Min(maxlen, |t|))
  }

  /** The histogram of `qz_get_histogram`: the keys counted at every position. */
  function Histogram(b: Block, maxlen: nat): Counts {
    if b == [] then multiset{} else KeysAt(b, maxlen) + Histogram(b[1..], maxlen)
  }

  /**
    `qz_get_histogram` (src/qzip.cc:248-284): counts the keys of every
    position in turn.
  */
  method GetHistogram(b: Block, maxlen: nat) returns (h: Counts)
    ensures h == Histogram(b, maxlen)
  {
    h := multiset{};
    var i := 0;
    while i < |b|
      invariant 0 <= i <= |b|
      invariant h + Histogram(b[i..], maxlen) == Histogram(b, maxlen)
    {
      var w := CountWindows(b, i, maxlen);
      var g := CountGapped(b, i, maxlen);
      HistogramStep(b, i, maxlen);
      h := h + w + g;
      i := i + 1;
    }
    assert b[i..] == [];
  }

  lemma HistogramStep(b: Block, i: nat, maxlen: nat)
    requires i < |b|
    ensures Histogram(b[i..], maxlen) ==
      Windows(b[i..], Min(maxlen, |b| - i)) + Gapped(b[i..], Min(maxlen, |b| - i)) + Histogram(b[i + 1..], maxlen)
  {
    assert b[i..][1..] == b[i + 1..];
  }

  /**
    The first inner loop of `qz_get_histogram` (src/qzip.cc:255-264): grows
    a contiguous key from position `i` and counts it once it has three
    symbols.
  */
  method CountWindows(b: Block, i: nat, maxlen: nat) returns (h: Counts)
    requires i < |b|
    ensures h == Windows(b[i..], Min(maxlen, |b| - i))
  {
    ghost var t := b[i..];
    h := multiset{};
    var key1: Block := [];
    var j := i;
    while j < |b| && |key1| < maxlen
      invariant i <= j <= |b| && |key1| == j - i <= maxlen
      invariant key1 == t[..j - i]
      invariant h == Windows(t, j - i)
    {
      WindowStep(t, j - i, key1);
      key1 := key1 + [b[j]];
      if |key1| >= 3 {
        h := h + multiset{key1};
      }
      j := j + 1;
    }
  }

  /** Growing the contiguous key by the next symbol gives the next window. */
  lemma WindowStep(t: Block, m: nat, key: Block)
    requires m < |t| && key == t[..m]
    ensures key + [t[m]] == t[..m + 1]
    ensures Windows(t, m + 1) == Windows(t, m) + (if m + 1 >= 3 then multiset{t[..m + 1]} else multiset{})
  {
  }

  /**
    The second inner loop of `qz_get_histogram` (src/qzip.cc:266-281): grows
    a key by the next symbol, counts it, and turns that symbol into a
    wildcard before the following step.
  */
  method CountGapped(b: Block, i: nat, maxlen: nat) returns (h: Counts)
    requires i < |b|
    ensures h == Gapped(b[i..], Min(maxlen, |b| - i))
  {
    ghost var t := b[i..];
    h := multiset{};
    var key2: Block := [b[i]];
    var j := i + 1;
    while j < |b| && |key2| < maxlen
      invariant i + 1 <= j <= |b| && |key2| == j - i
      invariant j == i + 1 || j - i <= maxlen
      invariant key2 == [t[0]] + Wildcards(j - i - 1)
      invariant h == Gapped(t, j - i)
    {
      assert t[j - i] == b[j];
      key2, h := GapTurn(t, j - i, b[j], key2, h);
      j := j + 1;
    }
    GappedExit(t, maxlen, j - i);
  }

  /** Where the gapped loop stops: at the end of the block or at `maxlen` symbols, one symbol when `maxlen` is zero. */
  lemma GappedExit(t: Block, maxlen: nat, m: nat)
    requires 1 <= m <= |t| && (m == 1 || m <= maxlen) && (m == |t| || m >= maxlen)
    ensures Gapped(t, Min(maxlen, |t|)) == Gapped(t, m)
  {
    if maxlen == 0 {
      assert Gapped(t, 1) == Gapped(t, 0);
    }
  }

  /** One turn of that loop, with the symbol `y` at distance `m`: count the grown key, then blank its last symbol. */
  method GapTurn(ghost t: Block, m: nat, y: Symbol, key2: Block, h: Counts) returns (key2': Block, h': Counts)
    requires 1 <= m < |t| && t[m] == y
    requires key2 == [t[0]] + Wildcards(m - 1) && h == Gapped(t, m)
    ensures key2' == [t[0]] + Wildcards(m) && h' == Gapped(t, m + 1)
  {
    GapStep(t, m, key2);
    key2' := key2 + [y];
    h' := h;
    if |key2'| >= 2 {
      h' := h' + multiset{key2'};
    }
    key2' := key2'[..|key2'| - 1] + [Wildcard];
  }

  /**
    Growing the gapped key by the next symbol gives the next gapped key,
    and turning that symbol into a wildcard gives the prefix of the one after.
  */
  lemma GapStep(t: Block, m: nat, key: Block)
    requires 1 <= m < |t| && key == [t[0]] + Wildcards(m - 1)
    ensures key + [t[m]] == Gap(t, m)
    ensures (key + [t[m]])[..m] + [Wildcard] == [t[0]] + Wildcards(m)
    ensures Gapped(t, m + 1) == Gapped(t, m) + multiset{Gap(t, m)}
  {
    assert (key + [t[m]])[..m] == key;
  }

  /** Every counted key is between two and `maxlen` symbols long. */
  lemma {:induction false} HistogramKeyLength(b: Block, maxlen: nat, k: Block)
    requires k in Histogram(b, maxlen)
    ensures 2 <= |k| <= maxlen
    decreases |b|
  {
    if k !in KeysAt(b, maxlen) {
      HistogramKeyLength(b[1..], maxlen, k);
    } else {
      KeysAtLength(b, Min(maxlen, |b|), k);
    }
  }

  lemma {:induction false} KeysAtLength(t: Block, n: nat, k: Block)
    requires n <= |t| && k in Windows(t, n) + Gapped(t, n)
    ensures 2 <= |k| <= n
    decreases n
  {
    if k != t[..n] && (n < 2 || k != Gap(t, n - 1)) {
      KeysAtLength(t, n - 1, k);
    }
  }

  /**
    Every counted key occurs in the block: it matches, wildcards included,
    at some position.
  */
  lemma {:induction false} HistogramKeysOccur(b: Block, maxlen: nat, k: Block)
    requires k in Histogram(b, maxlen)
    ensures exists p: nat :: Matching.MatchesAt(b, p, k)
    decreases |b|
  {
    if k !in KeysAt(b, maxlen) {
      HistogramKeysOccur(b[1..], maxlen, k);
      var p: nat :| Matching.MatchesAt(b[1..], p, k);
      assert Matching.MatchesAt(b, p + 1, k);
    } else {
      KeysAtOccur(b, Min(maxlen, |b|), k);
    }
  }

  lemma {:induction false} KeysAtOccur(t: Block, n: nat, k: Block)
    requires n <= |t| && k in Windows(t, n) + Gapped(t, n)
    ensures Matching.MatchesAt(t, 0, k)
    decreases n
  {
    if k == t[..n] && n >= 3 {
      WindowMatches(t, n);
    } else if n >= 2 && k == Gap(t, n - 1) {
      GapMatches(t, n - 1);
    } else {
      assert n >= 1;
      KeysAtOccur(t, n - 1, k);
    }
  }

  lemma WindowMatches(t: Block, n: nat)
    requires n <= |t|
    ensures Matching.MatchesAt(t, 0, t[..n])
  {
    forall i | 0 <= i < n ensures Matching.CompareSymbols(t[..n][i], t[i]) {
      assert t[..n][i] == t[i];
    }
  }

  lemma GapMatches(t: Block, j: nat)
    requires 1 <= j < |t|
    ensures Matching.MatchesAt(t, 0, Gap(t, j))
  {
    var k := Gap(t, j);
    forall i | 0 <= i < |k| ensures Matching.CompareSymbols(k[i], t[i]) {
      if 0 < i < j {
        assert k[i] == Wildcard;
      }
    }
  }

  /** How many times the pair `x` occurs at consecutive positions of `b`. */
  function PairCount(b: Block, x: Block): nat {
    if |b| < 2 then 0 else (if b[..2] == x then 1 else 0) + PairCount(b[1..], x)
  }

  /** The histogram of `qz_get_ngrams` counts exactly the adjacent pairs, overlaps included. */
  lemma {:induction false} PairHistogram(b: Block, x: Block)
    ensures Histogram(b, PairLength)[x] == PairCount(b, x)
    decreases |b|
  {
    if b != [] {
      PairHistogram(b[1..], x);
      if |b| >= 2 {
        assert Gap(b, 1) == b[..2];
        assert Windows(b, 2) == multiset{};
        assert Gapped(b, 2) == multiset{Gap(b, 1)};
        assert KeysAt(b, PairLength) == multiset{b[..2]};
      } else {
        assert KeysAt(b, PairLength) == multiset{};
      }
    }
  }

  /** The pair that starts at position `p`, as the rewriting pass reads it. */
  function Pair(b: Block, p: nat): (x: Block)
    requires p + 1 < |b|
    ensures x == b[p..p + 2]
  {
    [b[p], b[p + 1]]
  }

  /** A pair counted at least once occurs at some position. */
  lemma {:induction false} PairCountOccurs(b: Block, x: Block)
    requires PairCount(b, x) > 0
    ensures exists p: nat :: p + 1 < |b| && Pair(b, p) == x
    decreases |b|
  {
    if b[..2] != x {
      PairCountOccurs(b[1..], x);
      var p: nat :| p + 1 < |b[1..]| && Pair(b[1..], p) == x;
      assert Pair(b, p + 1) == x;
    } else {
      assert Pair(b, 0) == x;
    }
  }

  /**
    `qz_get_ngrams` (src/qzip.cc:449-472): nothing when no key reaches the
    multiplicity, otherwise every key that does.
  */
  function NGrams(b: Block): (r: set<Block>)
    ensures forall x :: x in r <==> PairCount(b, x) >= Multiplicity
  {
    var h := Histogram(b, PairLength);
    forall x ensures h[x] == PairCount(b, x) {
      PairHistogram(b, x);
    }
    if forall k :: k in h ==> h[k] < Multiplicity then {}
    else set k | k in h && h[k] >= Multiplicity
  }

  /**
    `qz_get_ngrams` as it runs: the histogram of pairs, the test on its
    largest count, and the selection of every pair counted often enough.
  */
  method GetNGrams(b: Block) returns (r: set<Block>)
    ensures r == NGrams(b)
  {
    var h := GetHistogram(b, PairLength);
    if forall k :: k in h ==> h[k] < Multiplicity {
      return {};
    }
    r := set k | k in h && h[k] >= Multiplicity;
  }

  /** Every n-gram is a pair that occurs in the block. */
  lemma NGramOccurs(b: Block, x: Block)
    requires x in NGrams(b)
    ensures exists p: nat :: p + 1 < |b| && Pair(b, p) == x
  {
    PairCountOccurs(b, x);
  }
}

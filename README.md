# qzip grammar compressor — a Dafny model

pzip is a small family of experimental compressors. The one with real
content is **qzip** (`src/qzip.cc`). It is a grammar-substitution
compressor:

- It reads the input as a block of byte literals (symbols 0..255).
- While some adjacent pair of symbols occurs at least four times, it makes
  one pass over the block. The pass replaces every such pair by a
  non-terminal symbol (256, 257, ...). The first time a pair is met, the
  pass records a rule `symbol -> pair` in a dictionary and the reverse
  entry in a reverse dictionary.
- It then cleans the dictionary up:
  - it inlines every non-terminal used exactly once;
  - it drops the rules that nothing refers to;
  - it renumbers the keys densely from 256.
- It writes each rule as 16-bit words (key, body, a 0xFFFF terminator),
  then the block.
- Last, it checks that expanding the block through the rules gives back
  the input.

The smaller pieces are modelled as well:

- the symbol code space of `src/symbol.hh`;
- the wrapping 16-bit enumeration arithmetic of `src/arithmetic.hh`;
- the wildcard search and the pattern printer of `src/esl.cc`;
- the output-file-name rule of `src/rzip.cc` and its `.qz` twin;
- the `write_utf8` encoder.

In the repository as it stands, the engine (src/qzip.cc:133-689) sits
inside a block comment. It names `symbol::wildcard`, `symbol::first` and
`symbol::max_16bit`, but only the `int`-based enumeration of
`src/symbol.hh` has the first two. The model therefore takes the symbol
constants from `src/symbol.hh` (wildcard -1, literals 0..255,
non-terminals from 256). `max_16bit` is defined in no file, so it is a
parameter. `block` is not defined either. The code erases from it while
iterating and steps a cursor back, so it is a `std::list`. The model uses
a sequence of integers with index cursors.

## Layout of the model

| module | file | what it holds |
|---|---|---|
| `Symbols` | symbols.dfy | the code space and the `int` operator overloads of `symbol` |
| `Arithmetic` | arithmetic.dfy | `arithmetic(symbol, uint16_t)`: 16-bit wrapping operators, `ordinality` |
| `Errors` | errors.dfy | the exceptions of the engine, as error values |
| `Ordering` | ordering.dfy | the ascending key order of `std::map` |
| `Matching` | matching.dfy | `qz_compare_symbols`, `qz_match_block`, `qz_find_block` |
| `Splicing` | splicing.dfy | what erasing and replacing a match does to a block, as functions |
| `Expansion` | expansion.dfy | what a block expands to through the rules, and the ranking that makes this terminate |
| `Mining` | mining.dfy | `qz_get_histogram` and `qz_get_ngrams` |
| `Cleanup` | cleanup.dfy | `qz_symbol_histogram`, singleton inlining and trimming, as functions |
| `Renaming` | renaming.dfy | the renumbering of `qz_remap`, as functions |
| `Engine` | engine.dfy | the splicing, inlining, trimming, renumbering and expansion loops, as methods |
| `Rewriting` | rewriting.dfy | the rewriting pass of `qz_process_fd` |
| `Compressor` | compressor.dfy | `qz_process_fd`: rewrite, tidy, write, check |
| `Esl` | esl.dfy | `src/esl.cc` |
| `Naming` | naming.dfy | the suffix rule of `rz_process_file` and the dispatch of `rz_process_fd` |
| `Utf8` | utf8.dfy | `write_utf8` and a decoder to check it against |

### The central theorem

`Compressor.ProcessFd` states the main result. The block and the rules that
get written always expand back to the input. The rules are acyclic
(`Expansion.Ranked`: every body symbol is smaller than its key). The keys
are exactly `first .. first + |d| - 1`. The only failures are the two
refusals before writing: an empty dictionary and a largest key at or
above `max_16bit`. The final expansion test never fails, and `qz_remap`
never throws. When `max_16bit <= 0xFFFF`, the words written determine the
rules and the block (`Compressor.LayoutDetermines`).

The proof follows the pipeline:

- `Rewriting.RewritePass` keeps the rules and the reverse dictionary
  inverse. It keeps the expansion and strictly shortens the block whenever
  a pair is frequent, so `Compressor.Rewrite` ends.
- `Cleanup.InliningPreservesExpand` and `Cleanup.TrimPreservesExpand`
  show that the clean-up keeps the expansion.
- `Renaming.RenumberingExpands` and `Renaming.RenumberingDense` show that
  renumbering keeps the expansion and makes the keys dense.

## Model

| member | source | states |
|---|---|---|
| `Symbols.Partition` | src/symbol.hh:3-8 | the wildcard, the byte literals 0..255 and the non-terminals from 256 are pairwise disjoint |
| `Symbols.TruncRem` | src/symbol.hh:10 | C's `%` on `int`: quotient and remainder recombine to the dividend, the remainder is smaller than the divisor in magnitude and has the dividend's sign |
| `Symbols.Infix` | src/symbol.hh:10 | `x R y` is plain `int` arithmetic, defined only when the result fits an `int` (and for `%`, when `y != 0`); `+` and `-` invert each other, `%` truncates toward zero |
| `Symbols.Compound` | src/symbol.hh:11 | `x R= y` sets `x` to `x R y` and returns the new `x` |
| `Symbols.PreIncrement` | src/symbol.hh:19 | `++x` adds one to `x` and returns the new value |
| `Symbols.PreDecrement` | src/symbol.hh:20 | `--x` subtracts one from `x` and returns the new value |
| `Symbols.PostIncrement` | src/symbol.hh:22 | `x++` returns the old value and steps `x`; from a non-terminal it yields a strictly larger non-terminal, so successive allocations are distinct |
| `Symbols.PostDecrement` | src/symbol.hh:23 | `x--` returns the old value and steps `x` down by one |
| `Arithmetic.Narrow` | src/arithmetic.hh:5 | the conversion back to `uint16_t` reduces modulo 2^16: values in range stay, one wrap either way adds or subtracts 2^16 |
| `Arithmetic.Infix` | src/arithmetic.hh:5 | `+` and `-` wrap modulo 2^16, `*` is the product less a multiple of 2^16 (defined only while the product fits an `int`), `%` is the remainder of `y` dividing `x` |
| `Arithmetic.Compound` | src/arithmetic.hh:6 | `x R= y` assigns the wrapped `x R y` and returns it |
| `Arithmetic.PreIncrement` | src/arithmetic.hh:21 | `++x` steps `max` round to `min`, otherwise adds one |
| `Arithmetic.PreDecrement` | src/arithmetic.hh:22 | `--x` steps `min` round to `max`, otherwise subtracts one |
| `Arithmetic.PostIncrement` | src/arithmetic.hh:24 | `x++` returns the old value and wraps `x` forward |
| `Arithmetic.PostDecrement` | src/arithmetic.hh:25 | `x--` returns the old value and wraps `x` backward |
| `Arithmetic.Pow2Add` | src/arithmetic.hh:32 | shifting by `a + b` bits multiplies the shifts by `a` and by `b` |
| `Arithmetic.Ordinality` | src/arithmetic.hh:28-33 | each further byte of size multiplies the number of values by 256 |
| `Arithmetic.BlocksizeIs2To32` | src/qzip.cc:49 | the ordinality of `uint16_t` is the number of its values, and `blocksize` is 2^32 |
| `Matching.CompareSymbols` | src/qzip.cc:176-178 | two symbols compare equal iff they are equal or either is the wildcard |
| `Matching.CompareSymmetric` | src/qzip.cc:176-178 | the comparison is symmetric |
| `Matching.MatchBlock` | src/qzip.cc:180-190 | true iff the whole pattern fits in the block at `p` and every position compares equal |
| `Matching.FirstMatch` | src/qzip.cc:192-199 | the first position from the cursor where the pattern matches, or the end when none does; no earlier position matches |
| `Matching.FindBlock` | src/qzip.cc:192-199 | the scan loop returns exactly `FirstMatch` |
| `Matching.FindEmptyPattern` | src/qzip.cc:192-199 | an empty pattern matches at the cursor itself |
| `Matching.FirstMatchSkip` | src/qzip.cc:194-196 | a position that does not match passes the search on to the next one |
| `Splicing.EraseOkIff` | src/qzip.cc:201-222 | the erasure completes without throwing iff the pattern lies inside the block and each of its concrete symbols equals the symbol under it |
| `Splicing.ErasedShape` | src/qzip.cc:201-222 | on success the block keeps everything before the match, then only the symbols under wildcard positions, in order, then the rest |
| `Splicing.ErasedLength` | src/qzip.cc:201-222 | a successful erasure removes exactly the concrete symbols of the pattern and leaves the prefix alone |
| `Splicing.ErasedCount` | src/qzip.cc:201-222 | with one concrete symbol in the pattern, a successful erasure removes exactly one copy of it from the block |
| `Splicing.MatchIsConcrete` | src/qzip.cc:180-222 | a match over a block without wildcards is one the erasure accepts |
| `Splicing.ConcreteIsMatch` | src/qzip.cc:180-222 | a position the erasure accepts is a match |
| `Splicing.ReplaceNextFacts` | src/qzip.cc:224-234 | the end is returned iff no match lies at or after the cursor; otherwise the returned index holds `x`, and for a terminating pattern either the block got shorter or it holds one fewer copy of the pattern's one concrete symbol |
| `Splicing.ReplaceStep` | src/qzip.cc:236-246 | one replacement decides the whole loop: a throw ends it, the end returns the count so far, otherwise the loop goes on from the inserted `x` with one more replacement |
| `Splicing.ReplaceFromLength` | src/qzip.cc:236-246 | after `n` replacements the block is shorter by `n` times (concrete pattern symbols − 1) |
| `Splicing.ReplaceFromNoMatch` | src/qzip.cc:236-246 | with no match after the cursor the block is unchanged and the count is 0 |
| `Splicing.NotTerminatingLoops` | src/qzip.cc:224-246 | for a pattern that is not terminating, a replacement on a block of `x`s at least as long as the pattern returns index 0 and leaves a block of `x`s no shorter, so the loop never ends |
| `Engine.EraseBlock` | src/qzip.cc:201-222 | the new block is `Erased(b, pos, s)`; the result is `pos` iff the erasure completes, otherwise the `ErasePastEnd` error |
| `Engine.ReplaceNextBlock` | src/qzip.cc:224-234 | finds, erases and inserts exactly as `ReplaceNext` states |
| `Engine.ReplaceBlock` | src/qzip.cc:236-246 | the loop leaves the block and count of `ReplaceFrom` from the start of the block |
| `Expansion.Below` | src/qzip.cc:402-416 | the rules whose key is below `k`, unchanged |
| `Expansion.ExpandAppend` | src/qzip.cc:402-416 | expansion distributes over concatenation |
| `Expansion.ExpandKey` | src/qzip.cc:411-414 | under the ranking a key expands to the expansion of its body |
| `Expansion.ExpandNoKeys` | src/qzip.cc:409-410 | a block with no keys expands to itself |
| `Expansion.Splice` | src/qzip.cc:411-414 | replacing one symbol by anything with the same expansion keeps the block's expansion |
| `Expansion.ExpandSub` | src/qzip.cc:402-416 | a sub-dictionary closed over the block and over its own bodies expands the block the same way |
| `Expansion.ExpandEquivalent` | src/qzip.cc:402-416 | rules whose new bodies expand like the old ones expand every block alike |
| `Expansion.WeightStep` | src/qzip.cc:406-415 | each step of the expansion loop lowers a well-founded weight by one, so the loop ends |
| `Engine.ExpandBlock` | src/qzip.cc:402-416 | the loop leaves `Expand(d, b)`, and no key remains in the result |
| `Mining.Gap` | src/qzip.cc:266-281 | a gapped key: the first and last symbols of the window, wildcards between |
| `Mining.GetHistogram` | src/qzip.cc:248-284 | the loop builds exactly `Histogram(b, maxlen)` |
| `Mining.HistogramStep` | src/qzip.cc:253-281 | the histogram is the keys formed at the first position plus those of the rest |
| `Mining.CountWindows` | src/qzip.cc:256-264 | one occurrence of each contiguous window of length 3 up to `maxlen` starting here |
| `Mining.CountGapped` | src/qzip.cc:267-280 | one occurrence of each gapped key of length 2 up to `maxlen` starting here |
| `Mining.HistogramKeyLength` | src/qzip.cc:248-284 | every counted key has length between 2 and `maxlen` |
| `Mining.HistogramKeysOccur` | src/qzip.cc:248-284 | every counted key matches the block somewhere |
| `Mining.PairHistogram` | src/qzip.cc:248-284 | with `maxlen` 2 the count of a key is the number of positions holding that adjacent pair |
| `Mining.PairCountOccurs` | src/qzip.cc:248-284 | a pair counted at least once is an adjacent pair of the block |
| `Mining.NGrams` | src/qzip.cc:449-472 | exactly the pairs counted at least four times (none when no pair reaches four) |
| `Mining.GetNGrams` | src/qzip.cc:449-472 | the loop over the histogram yields exactly `NGrams(b)` |
| `Mining.NGramOccurs` | src/qzip.cc:449-472 | every selected pair is an adjacent pair of the block |
| `Rewriting.AddRule` | src/qzip.cc:524-528 | a new rule `cur -> pair` with its reverse entry keeps the two maps inverse and the ranking, and changes no expansion |
| `Rewriting.ReplacePair` | src/qzip.cc:535-536 | putting a pair's key in place of the pair keeps the expansion |
| `Rewriting.ErasePair` | src/qzip.cc:535 | erasing a pair of concrete symbols at a position succeeds and removes exactly those two |
| `Rewriting.RewriteAt` | src/qzip.cc:519-536 | the pair at `pos` becomes its rule symbol, reusing the reverse entry or allocating `cur` once; the block shrinks by one and its expansion is unchanged |
| `Rewriting.RewritePass` | src/qzip.cc:509-538 | one scan keeps the grammar invariant and the expansion, never grows the block, and shrinks it when a frequent pair exists; every selected pair left in the block ends in a rule symbol whose body is selected, so the scan replaced each selected pair it met, and every new rule's body is a selected pair |
| `Compressor.Rewrite` | src/qzip.cc:505-541 | the outer loop ends with no frequent pair left; the ranked, closed rules expand the block back to the input |
| `Cleanup.NonTerminals` | src/qzip.cc:390-392 | the counted symbols of a block are exactly its non-terminals |
| `Cleanup.BodiesNonTerminals` | src/qzip.cc:394-397 | the counted symbols of the bodies are exactly the non-terminals occurring in them; keys are not counted |
| `Cleanup.SymbolHistogramMembers` | src/qzip.cc:386-400 | a symbol is counted iff it is a non-terminal occurring in the block or in some body |
| `Cleanup.CountSymbols` | src/qzip.cc:386-400 | the two loops build exactly `SymbolHistogram(b, d)` |
| `Cleanup.CountNonTerminals` | src/qzip.cc:390-392 | the block loop adds exactly the block's non-terminals |
| `Cleanup.CountBodies` | src/qzip.cc:394-397 | the rules loop adds exactly the bodies' non-terminals |
| `Cleanup.InlineAppend` | src/qzip.cc:308-334 | inlining distributes over concatenation |
| `Cleanup.InlineKey` | src/qzip.cc:318-323 | a singleton key is replaced by its body, scanned again |
| `Cleanup.InlineFree` | src/qzip.cc:308-334 | no singleton is left after inlining |
| `Cleanup.InlineNoSingletons` | src/qzip.cc:308-334 | a block with no singleton is unchanged |
| `Cleanup.InlineBound` | src/qzip.cc:308-334 | inlining introduces no symbol above the block's bound |
| `Cleanup.InlineClosed` | src/qzip.cc:308-334 | inlining a closed block over closed rules gives a closed block |
| `Cleanup.InlinePreservesExpand` | src/qzip.cc:308-334 | inlining keeps the expansion |
| `Cleanup.InlineStable` | src/qzip.cc:336-347 | the rules updated so far inline any block as the original rules do, so the order of the rule loop does not matter |
| `Cleanup.InliningPreservesExpand` | src/qzip.cc:349-352 | after inlining the block and every rule, the rules stay ranked and closed and expand the new block as the old rules expanded the old one |
| `Cleanup.Trimmed` | src/qzip.cc:354-366 | exactly the rules whose key is counted remain, with unchanged bodies |
| `Cleanup.TrimPreservesExpand` | src/qzip.cc:354-366 | trimming the uncounted rules keeps the ranking, closure and the block's expansion |
| `Engine.InlineBlock` | src/qzip.cc:308-334 | the block becomes `Inline(d, sh, b)`; the count is zero iff the block held no singleton; the rules only gain empty entries for singletons that were not keys |
| `Engine.InlineRules` | src/qzip.cc:336-347 | every rule body is inlined; the count is zero iff no body held a singleton |
| `Engine.InlineSingletons` | src/qzip.cc:349-352 | counts, then inlines the block and every rule with that one histogram |
| `Engine.TrimDictionary` | src/qzip.cc:354-366 | leaves `Trimmed(d, SymbolHistogram(b, d))` |
| `Engine.EraseKeys` | src/qzip.cc:358-365 | the erase loop removes exactly the visited keys that are not counted and leaves the other rules unchanged |
| `Renaming.NumberingFacts` | src/qzip.cc:422-426 | the table numbers exactly the non-terminal keys, in ascending order, with values `first .. first + count - 1` |
| `Renaming.NumberingOf` | src/qzip.cc:422-426 | the numbering of a dictionary's keys is monotone and dense from `first` |
| `Renaming.Rename` | src/qzip.cc:428-430 | each non-terminal goes through the table, the other symbols and the length stay |
| `Renaming.FirstUncovered` | src/qzip.cc:428-430 | where `remap.at` first throws: every earlier non-terminal has an entry, this one does not |
| `Renaming.RenameInPlace` | src/qzip.cc:428-430 | succeeds iff every non-terminal has an entry; the block is renamed up to the first one without |
| `Renaming.RenameRulesFacts` | src/qzip.cc:434-444 | every rule is stored under its key's new number with its body renamed, and nothing else is stored |
| `Renaming.ExpandRenamed` | src/qzip.cc:418-447 | a renamed block expands through the renamed rules as the original does through the original rules |
| `Renaming.RenumberingExpands` | src/qzip.cc:418-447 | when every non-terminal has an entry, renumbering keeps the expansion and closure |
| `Renaming.RenumberingDense` | src/qzip.cc:418-447 | the renumbered rules are ranked and their keys are exactly `first .. first + |d| - 1` |
| `Engine.NumberKeys` | src/qzip.cc:422-426 | the first loop builds `Numbering(ks)`: the non-terminal keys, numbered monotonically |
| `Engine.RenumberRules` | src/qzip.cc:434-444 | the rules loop succeeds iff every key and body symbol has an entry, and then stores `RenameRules` |
| `Engine.Remap` | src/qzip.cc:418-447 | the block is renamed up to the first symbol without an entry; success iff nothing is missing, then the rules are renumbered; otherwise `MissingKey` and the rules unchanged |
| `Compressor.Tidy` | src/qzip.cc:543-546 | the clean-up keeps the expansion, ranking and closure and leaves dense keys; `qz_remap` cannot throw here |
| `Compressor.Word16` | src/qzip.cc:563-564 | symbols in range are written as themselves and the wildcard as 0xFFFF |
| `Compressor.Words` | src/qzip.cc:569-582 | one word per symbol, in order |
| `Compressor.RulesWordsSnoc` | src/qzip.cc:561-577 | the output of one more rule follows the output of the ones before |
| `Compressor.Emit` | src/qzip.cc:561-583 | the loops write exactly `Layout(d, b)`: each rule in ascending key order, then the block |
| `Compressor.EmitRules` | src/qzip.cc:561-577 | the rules loop writes `RulesWords(d, ks)` |
| `Compressor.EmitRule` | src/qzip.cc:563-576 | one rule: key, body, terminator |
| `Compressor.EmitWords` | src/qzip.cc:579-583 | the symbol loop appends `Words(s)` |
| `Compressor.MaxKey` | src/qzip.cc:552-556 | the largest key of a non-empty dictionary |
| `Compressor.LayoutDetermines` | src/qzip.cc:561-583 | when every key and symbol fits below 0xFFFF, the words written determine the rules and the block |
| `Compressor.LayoutInjective` | src/qzip.cc:561-583 | two grammars that fit and write the same words are equal |
| `Compressor.ProcessFd` | src/qzip.cc:474-595 | the result fails only for an empty dictionary or a largest key at or above `max_16bit`; otherwise it is the layout of ranked, dense rules and a block that expand to the input, and the layout determines them |
| `Esl.AtomEq` | src/esl.cc:33 | equal, or either side is the wildcard |
| `Esl.AtomEqSymmetric` | src/esl.cc:33 | the comparison is symmetric |
| `Esl.PrefixMatches` | src/esl.cc:36-44 | true iff the needle fits the haystack and every position compares equal |
| `Esl.FindSubseq` | src/esl.cc:46-55 | the first position where the needle prefix-matches, or the end; no earlier position matches |
| `Esl.EmptyRanges` | src/esl.cc:46-55 | an empty haystack yields the end, an empty needle on a non-empty haystack yields the start |
| `Esl.AgreesWithFindBlock` | src/esl.cc:46-55 | `find_subseq` finds what `qz_find_block` finds from the start |
| `Esl.Escape` | src/esl.cc:82-89 | '.' exactly for the wildcard, '/' and '.' behind a backslash, other printable characters as themselves, other bytes as four characters `\xhh` |
| `Esl.ToString` | src/esl.cc:78-93 | the text starts and ends with '/' and has at least one character per atom |
| `Esl.BodyLength` | src/esl.cc:81-90 | every atom prints at least one character |
| `Esl.ShowNotInjective` | src/esl.cc:84-89 | the atom 0x01 and the atoms `\`, `x`, `0`, `1` print the same text |
| `Esl.EscapeHexForm` | src/esl.cc:89 | a non-printable byte prints as a backslash, `x` and two lowercase zero-padded hex digits |
| `Esl.EscapeFixed` | src/esl.cc:84-85 | the corrected printer differs from the original only on the backslash |
| `Esl.ToStringFixed` | src/esl.cc:78-93 | the corrected text starts and ends with '/' |
| `Esl.ParseEscape` | src/esl.cc:82-89 | reading back the corrected escape of any byte or wildcard yields that atom first |
| `Esl.ParseBodyFixed` | src/esl.cc:78-93 | reading back the corrected body yields the atoms printed |
| `Esl.ToStringFixedInjective` | src/esl.cc:78-93 | the corrected printer never prints two different atom sequences alike |
| `Naming.Tail` | src/rzip.cc:119-129 | the compared tail is the last `|ext|` characters only when the extension is strictly shorter than the name |
| `Naming.OutputName` | src/rzip.cc:119-142 | a name is processed iff the mode and the suffix disagree; compressing appends the extension, decompressing strips it; compressing a suffixed name is refused |
| `Naming.SuffixNeedsLongerName` | src/rzip.cc:126-129 | a name counts as suffixed iff it is longer than the extension and ends with it |
| `Naming.CompressThenDecompress` | src/rzip.cc:129-142 | compressing a name and then decompressing the result gives the name back, unless the name was empty |
| `Naming.RzipNames` | src/rzip.cc:119-142 | the rule with ".rz"; ".rz" alone is not treated as suffixed |
| `Naming.QzipNames` | src/qzip.cc:637-660 | the same rule with ".qz" |
| `Naming.RunStage` | src/rzip.cc:67-73 | both `rz_compress` and `rz_decompress` report failure |
| `Naming.ProcessFd` | src/rzip.cc:75-77 | compresses iff asked to, and fails either way |
| `Utf8.Encode` | src/qzip.cc:368-384 | one byte below 0x80, two up to 0x7FF, three up to 0xFFFF, four up to 0x10FFFF, nothing above; the lead bytes lie in their ranges and the others are continuation bytes |
| `Utf8.DecodeEncode` | src/qzip.cc:368-384 | decoding what is written for any code point up to 0x10FFFF gives it back |
| `Utf8.EncodeDecode` | src/qzip.cc:368-384 | every byte sequence the decoder accepts is exactly what the encoder writes for its value |
| `Utf8.SurrogatesAreEncoded` | src/qzip.cc:374-377 | a surrogate code point is written as a three-byte sequence starting 0xED, not rejected |

## Left out

- Reading the input (`qz_get_block`, src/qzip.cc:286-306) is left out. It is a `read()` loop with an EAGAIN retry. The input reaches `Compressor.ProcessFd` as a sequence of bytes.
- The `write()` calls, their failures and host byte order are left out. The output is a sequence of 16-bit words.
- `print_info` and every other diagnostic on stderr are left out.
- `qz_process_file`, `get_file_type` and the file-type tables are left out. So are the `lstat`/`open`/`close` parts of `rz_process_file` and the `main` functions. These are operating-system plumbing. Only the suffix decision is modelled.
- The `run` pair, `run::iterator` and the `rlestring` class (src/qzip.cc:51-125) are left out. The `histogram`, `dictionary` and `rdictionary` types (src/qzip.cc:127-131) are declared over `rlestring`; the model reads their strings as plain symbol sequences, that is, run-length strings whose runs all have length 1. The engine fills them only from `block` values (src/qzip.cc:512 and 527), so no longer run arises.
- `qz_decompress` is only declared, so no decoder is modelled. `Compressor.ReadLayout` is a ghost reading of the word layout. It serves only to state that the output determines the grammar.
- The command-line code (src/config.cc, src/config.hh, src/pzip.cc), src/wt.cc and the `main` of src/esl.cc are not part of this model.
- The engine's helpers take the block and dictionary as values and return the updated ones. They are not a class whose fields are updated in place, so the model does not capture aliasing between the block, the dictionary and the rule being rewritten. It does not capture list iterators staying valid across `erase` and `insert` either. Cursors are indices into the current block.
- `std::map` iteration order is modelled by visiting `Ordering.SortedKeys` of the keys.
  - The second overload of `qz_expand_singletons` adds keys to the map while it visits it. Those keys are smaller than the key being visited, so the range-for never reaches them.
  - Visiting the original keys in order is therefore the same walk.
- Histograms (`metric<...>`) are multisets. The `sh[sym] == 1` lookup of `qz_expand_singletons` inserts a zero count for an absent symbol, and that zero count is unobservable.
- `Engine.ReplaceBlock` requires `Splicing.Ends`: either the pattern is terminating (two or more concrete symbols, or exactly one concrete symbol and it differs from `x`), or nothing matches from the start. On every other pattern `Splicing.NotTerminatingLoops` shows a block on which the loop of `qz_replace_block` never ends: a block of at least `|s|` copies of `x`. Blocks on which such a pattern still happens to stop are not modelled. The source has no such check, and nothing in the engine calls this function.
- `Engine.EraseBlock`: `auto bter = pos--` (src/qzip.cc:203) decrements the start iterator when the match begins the block, as it does from src/qzip.cc:535; for a `std::list` that is undefined behaviour. The model returns index `pos` in that case, which is where the circular list of libstdc++ leads back to.
- `Engine.InlineBlock`, `Engine.InlineRules` and `Engine.InlineSingletons` require `Expansion.Ranked`, which the rewriting pass establishes. On rules with a cycle the source's inlining loop need not end.
- `Engine.ExpandBlock` requires `Expansion.Ranked` for the same reason: `qz_expand` on cyclic rules never ends.
- `Engine.InlineSingletons`: C++ leaves open the order of the two operands of `+` at src/qzip.cc:351. The model inlines the block first. `Cleanup.InlineStable` shows that the other order gives the same block and rules.
- `Compressor.ProcessFd` treats an empty dictionary as the `EmptyDictionary` error. The source dereferences `max_element` of an empty map there, which is undefined behaviour.
- `Compressor.ProcessFd` takes `max_16bit` as the parameter `max16`, because no file defines it.
- `Compressor.ProcessFd` requires `First + |input| - 1` to fit an `int`. That keeps `current_symbol++` from overflowing; the source does not check it.
- The 16-bit arithmetic of `src/arithmetic.hh` is modelled for the `uint16_t` instance at src/qzip.cc:40 only. Other instances of the macro are not modelled.

## Findings

| source | as written | input that shows it | evidently intended | confidence | as-written member | corrected member |
|---|---|---|---|---|---|---|
| src/esl.cc:84-89 | `to_string` escapes '/' and '.' with a backslash and writes the backslash itself unescaped | the atom sequences `[1]` and `[92, 120, 48, 49]` (`\`, `x`, `0`, `1`) both print as `/\x01/` | escape the backslash as well, so that the printed text determines the atoms | not executed | `Esl.ShowNotInjective` | `Esl.ToStringFixedInjective` |

`Esl.EscapeFixed` also escapes the backslash, and `Esl.Parse` reads the
corrected text back. `Esl.ParseBodyFixed` proves the round trip, and
`Esl.ToStringFixedInjective` follows from it.

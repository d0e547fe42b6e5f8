# periodic-cracker: a verified model of the segmentation core

periodic-cracker looks for words that can be spelled with chemical-element symbols
(for example "cr" + "o" + "n" + ...). For every candidate word, a backtracking
matcher (`look_for_dict`) builds a pruned search tree. Each root-to-terminal path
of the tree is one way to cut the word into dictionary tokens. `flatten` turns
the tree into token-index sequences, and `Solution::new` labels each sequence
with its "code length", the number of decimal digits of its indices. `filter_solution`
then keeps the solutions of code length 7 whose first index is 23 (chromium, "cr").
Candidate words go through `remove_duplicates` before any of this happens.

The Dafny project models that core as pure functions over immutable data:

- `seqs.dfy` (module `Seqs`): duplicate-freedom, subsequences and first
  occurrences. These are the vocabulary the other contracts are written in.
- `tree.dfy` (module `Trees`): the `Tree` record and its constructors,
  `append_children` and `flatten`. `IsPath` is an independent reference
  definition of "a sequence labels a root-to-terminal path".
- `segmenter.dfy` (module `Segmenter`): `look_for_dict`, written as
  `LookForDict`. Its dictionary loop is `Branches`, one step of which is `Keep`.
  It comes with soundness (every flattened sequence spells the rest of the word),
  completeness (every spelling is found), pruning, level bookkeeping, ordering and
  duplicate-freedom. `IsSegmentation` is the reference definition of "`s` spells
  `word[i0..]` with dictionary tokens".
- `solutions.dfy` (module `Solutions`): the decimal printing that the code length
  counts, `Solution::new`, `filter_solution` against a reference selection
  `Select`, and `remove_duplicates`.
- `driver.dfy` (module `Driver`): the part of `main` that strings these together
  once the words are loaded. It states end to end which solutions are reported.

Strings are sequences of characters and indices are unbounded naturals. The
dictionary is a parameter: the hard-coded periodic table is data, not logic.
The one precondition the search needs is `NoEmptyEntry`: no dictionary entry is
empty. An empty entry would make the source recurse forever at the same offset.

## Model

| member | source | states |
|---|---|---|
| Trees.NewNode | src/main.rs:59-61 | a fresh token node records the offset and entry index it was made for, is not terminal and has no children |
| Trees.NewTermination | src/main.rs:63-65 | the termination node is terminal, sits at the given offset and has no children |
| Trees.AppendChildren | src/main.rs:68-70 | appending keeps the node's offset, token and kind, and places the new children after the existing ones |
| Trees.Flatten | src/main.rs:73-91 | a terminal node flattens to exactly `[[]]`; every sequence from a token node starts with that node's token |
| Trees.PrependMember | src/main.rs:83-85 | a sequence is in the prepended list exactly when it starts with the token and its tail is in the original list |
| Trees.FlattenAllAppend | src/main.rs:80-88 | the children's flattenings are concatenated in child order, so flattening distributes over splitting the child list |
| Trees.FlattenIsPrependedForest | src/main.rs:78-90 | flattening a token node equals flattening its children in order and putting the token in front of every result |
| Trees.FlattenCount | src/main.rs:73-91 | the number of sequences equals the number of terminal nodes, which is the sum of the children's counts |
| Trees.FlattenPaths | src/main.rs:73-91 | a sequence is produced exactly when it labels a root-to-terminal path of the tree (both directions) |
| Trees.FlattenForestPaths | src/main.rs:228-233 | the concatenated flattenings of several roots hold exactly the paths of those roots |
| Trees.FlattenNewNode | src/main.rs:59-61 | a fresh token node stands for no solution at all, which is why only nodes with appended continuations are kept |
| Trees.FlattenNewTermination | src/main.rs:63-65 | the termination node stands for exactly one solution, the empty one |
| Trees.FlattenAppendChildren | src/main.rs:68-70 | appending children appends their prepended flattenings, in order, after the node's existing solutions |
| Segmenter.LookForDict | src/main.rs:95-139 | at the end of the word the result is exactly one termination node at that offset; past the end it is `None`; a `Some` is never empty and all its roots sit at `i0` |
| Segmenter.Keep | src/main.rs:115-129 | a failed deeper search keeps nothing; a successful one keeps one token node for entry `i` at `i0` whose children are exactly the trees found |
| Segmenter.Branches | src/main.rs:106-131 | the loop over entries `i..` keeps only token nodes at `i0` for entries at or after `i` |
| Segmenter.BranchKept | src/main.rs:106-131 | each node the loop kept is for an entry that is a prefix of the rest of the word, and carries exactly the successful deeper search as children |
| Segmenter.BranchFor | src/main.rs:106-131 | every entry that is a prefix of the rest of the word and after which the deeper search succeeds gets a kept node |
| Segmenter.BranchesOrdered | src/main.rs:106-131 | the kept nodes come in strictly increasing entry order, at most one per entry |
| Segmenter.LookForDictOrdered | src/main.rs:106-138 | the returned roots are in dictionary order, one per token |
| Segmenter.LookForDictRoot | src/main.rs:108-117 | a returned root is a token node at `i0` whose token is a prefix of `word[i0..]`; its children are the search result at `i0` plus the token length, and each child's level is the parent's level plus that length; that offset never passes the end of the word |
| Segmenter.LookForDictRootFor | src/main.rs:106-131 | conversely, every token that matches at `i0` and after which the search succeeds is the token of a returned root |
| Segmenter.LookForDictValid | src/main.rs:115-138 | every returned tree is pruned and consistent: each token node has at least one child, matches the word at its level, and has its children at level plus token length; terminal nodes sit at the end of the word |
| Segmenter.ValidHasPath | src/main.rs:126-138 | a pruned tree has at least one complete path, so it flattens to at least one sequence |
| Segmenter.ValidPathIsSegmentation | src/main.rs:73-91 | every path of a pruned, consistent tree spells the word from the tree's level with dictionary tokens |
| Segmenter.LookForDictSound | src/main.rs:95-139 | round trip: every sequence flattened from a returned root uses valid indices, and concatenating its entries gives exactly `word[i0..]` |
| Segmenter.LookForDictComplete | src/main.rs:106-138 | every index sequence whose entries concatenate to `word[i0..]` labels a path of some returned root, so the search succeeds whenever a segmentation exists |
| Segmenter.LookForDictNone | src/main.rs:133-138 | the search returns `None` if and only if the rest of the word has no segmentation |
| Segmenter.LookForDictNoDuplicates | src/main.rs:95-139 | the flattened result lists no segmentation twice |
| Segmenter.WordSolutions | src/main.rs:222-236 | the list collected for one word holds exactly its segmentations from offset 0, each once |
| Segmenter.SegmentationCons | src/main.rs:108-115 | a segmentation's first token is a prefix of the word at `i0`, and the rest segments the word after that token |
| Solutions.Decimal | src/main.rs:151 | an index prints as a non-empty run of digits without a leading zero, with exactly as many digits as its magnitude needs |
| Solutions.DecimalRoundTrip | src/main.rs:151 | reading the printed digits back gives the index |
| Solutions.CodeLengthMeaning | src/main.rs:151 | the code length is the length of all indices printed one after another; it is at least the number of indices and zero only for the empty code |
| Solutions.NewSolution | src/main.rs:150-156 | the solution keeps its word and code, and its code length is the total digit count of the code |
| Solutions.Keeps | src/main.rs:179 | the filter's short-circuit test holds exactly for code length 7 with first index 23, and never reads into an empty code |
| Solutions.SelectMeaning | src/main.rs:173-185 | the reference selection is an order-preserving subsequence holding every accepted element as often as the input does, and nothing else |
| Solutions.FilterSolution | src/main.rs:173-185 | the output equals the reference selection `Select` of the input: an in-order subsequence of it made only of solutions with code length 7 and first index 23 (with `SelectMeaning`: every such input kept, every copy) |
| Solutions.RemoveDuplicates | src/main.rs:34-44 | the output has no repeats, holds exactly the input's elements, is a subsequence of the input and lists them in first-occurrence order |
| Driver.SolutionsFor | src/main.rs:240-255 | each recorded solution of a word is well formed and segments that word, every segmentation of the word is recorded, and none twice |
| Driver.Collect | src/main.rs:218-256 | every collected solution belongs to one of the words, is well formed and segments its word |
| Driver.CollectComplete | src/main.rs:218-256 | every segmentation of every word appears in the collected set |
| Driver.CollectNoDuplicates | src/main.rs:212-256 | the solutions collected from a duplicate-free word list have no repeats, because distinct words give distinct solutions and each word's codes are distinct |
| Driver.Crack | src/main.rs:207-259 | every reported solution is an accepted segmentation of a candidate word, built as `Solution::new` builds it (its stored code length is its code's real digit count); every accepted segmentation of every candidate word is reported; nothing is reported twice |

## Left out

- `read_lines` and `return_potential` (src/main.rs:9-30) read files and unwrap I/O results. `Driver.Crack` takes the loaded candidate list as a parameter, so their length-5, "cr"-prefix test is not modelled either.
- The periodic table constant (src/main.rs:191-203) is data. The dictionary is a parameter of every member, with `NoEmptyEntry` as the one requirement; the constant's own lower-casing is not modelled.
- `to_lowercase` (src/main.rs:24, 163, 203) is a Unicode library call and is not modelled. The dictionary parameter stands for the already lower-cased table (src/main.rs:203). Candidate words are not lower-cased: src/main.rs:24 lower-cases only a temporary copy for the prefix test, and src/main.rs:225 searches the word as read. The model compares characters exactly in the same way, so in both a candidate with upper-case letters, such as "Crane", has no segmentation and yields no solution.
- The first-index test of `filter_solution` (src/main.rs:179) is not implied by the "cr" prefix that `return_potential` demands: "crane" also spells c + ra + ne, whose first index is 5. `Solutions.Keeps` and `Driver.Crack` keep the test.
- The `Display` implementation (src/main.rs:159-170) and all console printing in `main` are output formatting only. This includes the one-based rendering of indices.
- Tree values and codes are `i32` in the source, from a `usize` cast (src/main.rs:60). The model uses `nat` below the dictionary length. The cast cannot wrap for the 118-entry table.
- Solutions.CodeLengthMeaning: the source accumulates the length in an `i32` and casts it to `usize` (src/main.rs:151, 155). The model uses unbounded naturals, so an overflow past 2^31 digits is not modelled.
- `word[i0..]` on a Rust `String` slices bytes, while the model indexes characters. The slice never panics in the source: `i0` starts at 0 (src/main.rs:225), grows only by the byte length of an entry that `starts_with` has just matched in full at `i0` (src/main.rs:108, 115), and is checked against `len()` before slicing (src/main.rs:99-103), so it always lies on a character boundary. For words with multi-byte characters the source's `level` numbers count bytes where the model's count characters; the flattened codes and the `Solution`s do not depend on levels and are the same.
- Segmenter.LookForDict requires `NoEmptyEntry`. With an empty entry the source never terminates, and a total function cannot model that.
- Solutions.FilterSolution and Solutions.Keeps require well-formed solutions, meaning the stored code length is the computed one. Every `Solution` in the source is built by `Solution::new`, so this always holds there. It is what makes the short-circuit `&&` safe.
- Move semantics, `&mut` aliasing in `append_children` and vector capacity are not modelled. Trees are immutable values here, and appending builds a new node.
- Performance (the search is exponential and has no memoisation) is not modelled.

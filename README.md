# Huffman coding with multi-character symbols, and the Burrows-Wheeler Transform

A Dafny model of `huffman.py`. That file compresses a text with a Huffman code whose
symbols are single characters or caller-supplied multi-character words. It can
first permute the text with the Burrows-Wheeler Transform (BWT). The model covers:

- the BWT (`bwt_transform`, `bwt_inverse`);
- the symbol counter (`preprocess_message_for_tree`);
- the tree builder (`build_huffman_tree`);
- the code-table walk (`generate_huffman_codes`);
- the encoder (`huffman_encode`);
- the decoder (`huffman_decode`).

Each step keeps the form it has in the source. `bwt_transform` is a function. The
loops (`bwt_inverse`, the counter, the builder's merge loop, the encoder's nested
scans, the decoder's bit loop) are methods with loop invariants. Each method is
proved against a function that states the result it must compute. The properties the source relies on are
then proved about those functions.

Python values become Dafny values:

- A `dict` is an ordered table `seq<(string, V)>`. Assigning to an existing key
  keeps its position, and a new key is appended, as in Python's insertion-ordered
  dicts. This order matters: the encoder visits symbols in the dict's key order,
  stably sorted by length.
- A `HuffmanNode` is the datatype `Tree`: a `Leaf(sym, freq)` or a
  `Node(freq, left, right)`. The source never changes a node after making it, so
  the datatype carries everything the class does.
- The heap is a sequence of trees. `heappop` takes the lightest tree.
- `sorted` is a stable insertion sort under the same order Python uses: string
  order for the BWT, length-descending for symbols, offset for the encoder's records.

Modules, in dependency order:

- `Wrappers`: Option, Result and the Python errors.
- `Seqs`: generic sequence facts.
- `Text`: `startswith`, `''.join`, the length sort.
- `LexOrder`: string order and its sort.
- `Bwt`.
- `OrderedTable`: dict operations.
- `Tokenizer`.
- `HuffmanTree`.
- `Codes`.
- `Codec`: the encoder and decoder as written.
- `Decoding`: decode properties.
- `Encoding`: encode properties and the round trip.
- `Pipeline`: the steps composed.
- `Findings`: the two ways the code loses the message.

The main results:

- `bwt_inverse(*bwt_transform(t)) == t` for every non-empty text.
- The builder's tree is well formed. Its leaves are the frequency table's entries,
  and its root weighs the total count.
- The code table is the list of root-to-leaf paths. It is a prefix code, and walking
  a codeword from the root reaches the leaf of its symbol.
- For non-empty symbols without `'\0'`, encoder records are real occurrences of their symbols, and they never overlap.
  When they cover the whole message, decoding the encoder's output gives the message
  back. This holds for any prefix code with non-empty codewords.
- With no words, a message without `'\0'` and the lone-leaf correction, every position is covered and the
  round trip holds.
- With words, it can fail (finding 1 below). A lone symbol always fails (finding 2).
  `Pipeline.Compress` composes the corrected steps and is proved to return every
  non-empty message.

## Model

| member | source | states |
|---|---|---|
| `Bwt.SortedRotationsFacts` | huffman.py:24 | the matrix is a sorted permutation of the rotations, each as long as the text |
| `Bwt.IndexOf` | huffman.py:26 | `list.index`: the first position holding the row, and None exactly when no row equals it |
| `Bwt.BwtTransform` | huffman.py:22-26 | the empty text fails with the `index` error; otherwise the last column is a permutation of the text, and the index is the first row equal to the text |
| `Bwt.LastColumnPermutes` | huffman.py:25 | the last characters of the sorted rotations are the text's characters, with multiplicity |
| `Bwt.PyIndex` | huffman.py:34 | a subscript succeeds exactly for -n <= index < n, and negative indices count from the end |
| `Bwt.BwtInverse` | huffman.py:29-34 | the loop builds the table of n prepend-and-sort rounds; it succeeds exactly for an index in range, and on a pair `bwt_transform` returned it returns the original text |
| `Bwt.InverseTableRows` | huffman.py:31-33 | after k rounds the table holds the sorted rotations cut to k characters |
| `Bwt.RoundSorts` | huffman.py:33 | sorting the rows of one round gives the sorted rotations cut to one more character, because the rows are a permutation of those and they are sorted |
| `Bwt.StepOnRotation` | huffman.py:33 | one round turns rotation j cut to k characters into rotation j-1 cut to k+1 |
| `Bwt.RoundTrip` | huffman.py:22-34 | the inverse of the forward transform is the identity on non-empty text |
| `LexOrder.Sort` | huffman.py:24 | `sorted` on strings gives a sorted permutation of its input |
| `LexOrder.SortedUnique` | huffman.py:33 | two sorted permutations of the same rows are equal, so the sorted table is determined |
| `LexOrder.LeTotal` | huffman.py:24 | Python's string order is total |
| `Text.ByLengthDescPermutes` | huffman.py:132 | `sorted(..., key=len, reverse=True)` keeps every word, with multiplicity |
| `Text.ByLengthDescSorted` | huffman.py:132 | `sorted(..., key=len, reverse=True)` gives non-increasing lengths |
| `Text.InsertByLengthPermutes` | huffman.py:61 | inserting one symbol adds it and loses nothing |
| `Text.InsertByLengthSorted` | huffman.py:61 | inserting one symbol keeps the list longest first |
| `OrderedTable.GetPut` | huffman.py:53 | after `d[k] = v`, k maps to v and every other key keeps its value |
| `OrderedTable.PutKeys` | huffman.py:134 | `d[k] = v` keeps the key order and appends a new key at the end |
| `OrderedTable.GetFacts` | huffman.py:104 | a lookup succeeds exactly for keys the dict has, and returns one of its entries |
| `Tokenizer.FirstMatchFacts` | huffman.py:132-137 | the `for` loop stops at the first word, in longest-first order, the text starts with at the cursor; it runs out exactly when no word does |
| `Tokenizer.Take` | huffman.py:131-140 | the symbol taken at the cursor is non-empty and fits in what is left of the message, so the cursor advances and stays in range |
| `Tokenizer.TakeAt` | huffman.py:133-139 | the text starts with the symbol taken at the cursor |
| `Tokenizer.TakeIsLongestMatch` | huffman.py:132-140 | the symbol taken is the longest matching word, or the character at the cursor when no word matches |
| `Tokenizer.Tokenize` | huffman.py:127-142 | the table is the count of the symbols the scan takes, and each symbol's count is its number of occurrences in that parse; length times count sums to the message length; keys are distinct; counts are >= 1; each key is a word or one character |
| `Tokenizer.TokensCover` | huffman.py:130-140 | the symbols taken, joined, are the message: no gap, no overlap |
| `Tokenizer.TokensAreSymbols` | huffman.py:132-140 | every symbol taken is one of the words or a single character |
| `Tokenizer.CountsMultiplicity` | huffman.py:130-139 | the count of every symbol is the number of times it occurs among the tokens counted (zero for a symbol never taken) |
| `Tokenizer.CountsSumLen` | huffman.py:134-139 | summing length times count gives the length of what was counted |
| `Tokenizer.CountsEntries` | huffman.py:134-139 | every counted key was taken at least once |
| `Tokenizer.CountsDistinct` | huffman.py:128 | the frequency dict has one entry per symbol |
| `HuffmanTree.MinIndex` | huffman.py:42-43 | `heappop` takes a tree of minimal weight under `__lt__`, the earliest of those |
| `HuffmanTree.SingletonsLeaves` | huffman.py:38 | the starting heap's leaves are the dict's entries and its weight is the total count |
| `HuffmanTree.Step` | huffman.py:42-45 | one round shrinks the heap by one |
| `HuffmanTree.Rounds` | huffman.py:41-45 | the rounds end with one tree, or none for an empty heap |
| `HuffmanTree.MergeLightest` | huffman.py:42-45 | the first tree popped is in the heap and no heavier than any tree in it; the second is in what is left and no heavier than anything left; the new heap holds the old one less those two, plus one node over them whose weight is the sum of theirs (and is one round of `Step`) |
| `HuffmanTree.StepKeeps` | huffman.py:41-45 | a round keeps every tree well formed, the leaves and the total weight |
| `HuffmanTree.MergeKeeps` | huffman.py:42-45 | merging the two trees popped keeps every tree well formed, the leaves, and the total weight |
| `HuffmanTree.WeightOfLeaves` | huffman.py:44 | an internal node's weight, being the sum of its children's, equals the total count at its leaves |
| `HuffmanTree.BuildHuffmanTree` | huffman.py:37-47 | the empty dict fails at `heap[0]`; otherwise the root is the tree the rounds leave, it is well formed, its leaves are the dict's entries, its weight is the total, and it is a leaf exactly when there is one symbol |
| `HuffmanTree.OneTree` | huffman.py:47 | the last tree left holds every entry and the total weight |
| `Codes.GenerateHuffmanCodes` | huffman.py:50-56 | the dict returned is the one passed in, with each leaf's path recorded in depth-first order |
| `Codes.PutAllConcat` | huffman.py:54-55 | recording the left subtree then the right subtree records their concatenation |
| `Codes.CodesArePaths` | huffman.py:50-56 | from a fresh dict, with one leaf per symbol, the table is exactly the leaves' paths |
| `Codes.PathsKeys` | huffman.py:52-53 | the table's keys are the leaves' symbols, in leaf order |
| `Codes.PathsExtend` | huffman.py:54-55 | every path below a prefix extends it, strictly below a node, so codewords are non-empty when there are two or more symbols |
| `Codes.PathsPrefixFree` | huffman.py:50-56 | no codeword is a prefix of another |
| `Codes.PathsAreWalks` | huffman.py:50-56 | a table entry (s, bits) exists exactly when walking bits from the root ends at a leaf holding s |
| `Codes.LeafPath` | huffman.py:52-53 | a tree that is a lone leaf gives its symbol the empty path |
| `Codec.FindAt` | huffman.py:72 | `str.find` returns a position where the symbol occurs |
| `Codec.FindFirst` | huffman.py:72 | no occurrence lies between the cursor and the position `str.find` returns |
| `Codec.FindNone` | huffman.py:72-74 | `str.find` returns -1 only when the symbol occurs nowhere from the cursor on |
| `Codec.MaskAt` | huffman.py:79 | masking blanks exactly the matched span with `'\0'` and keeps every other character |
| `Codec.Order` | huffman.py:61 | the symbols to visit are exactly the dict's keys, each as often as in the dict (the same multiset), longest first |
| `Codec.SortByOffset` | huffman.py:87 | the sort keeps every record |
| `Codec.EncodeSymbol` | huffman.py:69-84 | the inner loop for one symbol leaves the message its scan from position 0 leaves, and appends the scan's records, in the order found, to those already made |
| `Codec.Advance` | huffman.py:72-84 | one round finds the next occurrence; when there is one it records it, blanks it and moves past it, otherwise it breaks with nothing changed |
| `Codec.HuffmanEncode` | huffman.py:59-92 | the nested loops make the records of the longest-first scans; the output is their codewords joined in offset order |
| `Codec.HuffmanDecode` | huffman.py:95-109 | the bit loop emits what the decoding run over the reversed table emits, joined |
| `Codec.InverseSound` | huffman.py:97 | a symbol found in the reversed dict was given that codeword |
| `Codec.InverseComplete` | huffman.py:97 | with distinct codewords the reversed dict maps each codeword to its symbol |
| `Decoding.PrefixFreeDistinct` | huffman.py:97 | in a prefix code the codewords are distinct, so reversing the dict loses nothing |
| `Decoding.ShorterNotCode` | huffman.py:104 | in a prefix code, part of a codeword is no codeword, so the decoder does not stop early |
| `Decoding.DecodeOne` | huffman.py:102-107 | reading a codeword emits its symbol and resets the accumulator |
| `Decoding.DecodeAll` | huffman.py:102-107 | reading joined codewords emits their symbols in order |
| `Decoding.DecodeCodewords` | huffman.py:95-109 | decoding the joined codewords of a list of symbols gives the symbols joined, for a prefix code with non-empty codewords |
| `Decoding.TrailingDropped` | huffman.py:102-109 | bits that never complete a codeword emit nothing and raise no error |
| `Encoding.FoundStep` | huffman.py:72-79 | recording and blanking one found occurrence keeps the invariant |
| `Encoding.ScanConsistent` | huffman.py:69-84 | one symbol's scan keeps the invariant: records are occurrences in the original message, pairwise disjoint, and the working message is blank exactly where records lie |
| `Encoding.ScanRecords` | huffman.py:76 | every record of a scan carries the symbol and its codeword |
| `Encoding.ScanGone` | huffman.py:70-84 | after a symbol's scan the working message holds no occurrence of it |
| `Encoding.ScanUpToConsistent` | huffman.py:68-84 | the outer loop keeps the invariant across symbols |
| `Encoding.SegmentsFacts` | huffman.py:59-85 | for non-empty symbols without `'\0'`, the records are disjoint occurrences, each carrying its symbol's codeword |
| `Encoding.CharsCovered` | huffman.py:59-85 | when every character of the message is a symbol, the records cover every position |
| `Encoding.SortByOffsetSorted` | huffman.py:87 | after the sort the records are in offset order |
| `Encoding.TilesJoin` | huffman.py:87-90 | sorted, disjoint records covering the message spell it out |
| `Encoding.EncodeDecode` | huffman.py:59-109 | when the records cover the message, decoding the encoder's output gives the message back, for any prefix code with non-empty codewords over symbols without `'\0'` |
| `Encoding.EncodeDecodeChars` | huffman.py:59-109 | the same round trip whenever every character of the message is a symbol |
| `Pipeline.FixedCodesPrefixCode` | huffman.py:50-56 | the table with a lone leaf given "0" is a prefix code with non-empty codewords over the leaves' symbols |
| `Pipeline.EncodeTokens` | huffman.py:127-140 | the corrected encoder emits the codewords of the symbols the counter's parse takes, in order |
| `Pipeline.TokensRoundTrip` | huffman.py:127-140 | decoding the corrected encoder's output gives the message back, for any non-empty words |
| `Pipeline.TokensCounted` | huffman.py:133-139 | every symbol the parse takes is a key of the frequency dict |
| `Pipeline.NothingCounted` | huffman.py:130 | the frequency dict is empty exactly for the empty message |
| `Pipeline.Compress` | huffman.py:186-202 | counting, building, coding, the corrected encoder and decoding return every non-empty message; the empty message fails in the builder |
| `Pipeline.CompressChars` | huffman.py:186-202 | with no words, the encoder as written and the lone-leaf correction return every non-empty message without `'\0'` |
| `Findings.OverlapCounted` | huffman.py:127-142 | with words "bc" and "ab", "bcabc" is counted as bc, ab and c, once each |
| `Findings.OverlapLosesText` | huffman.py:59-92 | for every prefix code with non-empty codewords whose keys are bc, ab and c, with bc before ab, the encoder as written turns "bcabc" into bc's codeword twice, and that decodes to "bcbc" |
| `Findings.OverlapTreeLosesText` | huffman.py:50-92 | for every tree over those three counted symbols whose leaves list bc before ab, the code table of its paths has that order too, and "bcabc" is lost the same way |
| `Findings.ThreeCodes` | huffman.py:50-56 | for three distinct non-empty symbols, the walk gives the tree x + (y + z) the table x=0, y=10, z=11 |
| `Findings.OverlapModelTree` | huffman.py:37-56 | with this model's tie rule the rounds build c + (bc + ab), whose leaves list bc before ab and whose table is c=0, bc=10, ab=11 |
| `Findings.OverlapModelOutput` | huffman.py:59-109 | with that table "bcabc" encodes to "1010", which decodes to "bcbc" |
| `Findings.OverlapHeapqTree` | huffman.py:37-56 | the tree `heapq`'s sift order builds, bc + (c + ab), is well formed, its leaves are the counts with bc before ab, and its table is bc=0, c=10, ab=11 |
| `Findings.OverlapHeapqOutput` | huffman.py:59-109 | with that table "bcabc" encodes to "00", which decodes to "bcbc" |
| `Findings.LoneSymbolLost` | huffman.py:50-56 | a lone leaf gets the empty codeword; every message then encodes to "" and decodes to "" |

## Left out

- Printing. The `print` calls at lines 77, 82, 106 and 141 are not modelled. Neither is `message_working` (line 80), which only feeds a print.
- `main` and `calculate_efficiency` are not modelled. They parse arguments, build the default message and compute floating-point statistics. `Pipeline` composes the core steps in the order `main` calls them. One difference: `main` counts symbols on the default JSON text followed by the message, and with `--bwt` on a variable that is never assigned. `Pipeline` counts them on the message it encodes.
- Tie order in `heapq`: among trees of equal weight, `heappop` here takes the earliest in the heap list. `heapq`'s sift order is not modelled. The tree's validity, leaves and weight do not depend on it. The exact shape can differ at weight ties. Finding 1 holds under both rules: `Findings.OverlapHeapqTree` is the tree `heapq` builds there.
- The shared mutable default `huffman_codes={}` (line 50): each walk here starts from a fresh empty table. In Python, entries left over from an earlier call in the same process would stay in the dict.
- Codec.HuffmanEncode: requires every key of the code table to be non-empty when the message is non-empty. For an empty key, `find` returns the cursor itself, the cursor never advances, and Python loops for ever (huffman.py:72-84).
- Tokenizer.Tokenize: requires every word to be non-empty. An empty word matches at every cursor without advancing, so Python then loops for ever. It would terminate only in the corner cases where it never gets there (an empty message, or a message fully covered by longer words).
- `HuffmanNode.__lt__` is modelled as the weight comparison `MinIndex` uses. No other comparison exists.
- Frequencies are `nat`, since counts are never negative.
- The encoder's records carry the symbol next to the offset and the codeword, for use in proofs. The output depends only on offsets and codewords.
- The round-trip lemmas require symbols free of `'\0'`. A message that contains `'\0'` clashes with the encoder's own blanking character: a blanked span can then be taken for an occurrence of the symbol `"\0"`.
- Where the code departs from what a Huffman coder is normally expected to do, the model follows the code:
  - the lone-symbol codeword is `""`, where a Huffman code must give a lone symbol a non-empty codeword such as `"0"` (see the findings);
  - the decoder ignores trailing bits without error (`Decoding.TrailingDropped`), where a decoder would normally reject bits left over at the end;
  - `bwt_inverse` accepts Python's negative indices and fails only outside [-n, n) (`Bwt.PyIndex`);
  - the builder's empty-input failure is the `IndexError` of `heap[0]`.

## Findings

| source | as written | input that shows it | evidently intended | confidence | as-written member | corrected member |
|---|---|---|---|---|---|---|
| huffman.py:68-84 | the encoder scans the whole message for each symbol, longest first, independently of how `preprocess_message_for_tree` split it, so it can take an occurrence the counter never took and leave characters uncovered | words `["bc", "ab"]`, message `"bcabc"`: counts bc, ab, c; for any code listing bc before ab, the encoder records bc at 0 and 3 and finds neither ab nor c. With this model's tie rule the codes are c=0, bc=10, ab=11 and the output is "1010"; with `heapq`'s sift order they are bc=0, c=10, ab=11 and the output is "00". Both decode to "bcbc", as does every code that lists bc before ab | encode the same longest-match parse the counts were taken from, so that every character is encoded exactly once | high (proved on the model; not executed) | `Findings.OverlapLosesText` | `Pipeline.TokensRoundTrip` |
| huffman.py:52-53 | a tree that is a single leaf gives its symbol the empty path as codeword | message `"aaa"`: code table {a: ""}; the encoder emits "" and the decoder returns "" | give the lone symbol a non-empty codeword such as "0" | high (proved on the model; not executed) | `Findings.LoneSymbolLost` | `Pipeline.FixedCodesPrefixCode` |

Both findings are about the functions called directly. `main` counts symbols on its default JSON text followed by the message (huffman.py:183). That text contains every printable ASCII character, so through `main` these two inputs do not show the problem. A message outside ASCII shows finding 1 through `main` without `--bwt`, whatever tree is built: with words `["βγδ", "αβ"]` and message `"αβγδβγδ"`, the counter takes αβ, γ, δ and βγδ, so α is never a key. βγδ is the only key of length 3, so the encoder scans it first, finds it at 1 and 4, and then finds none of the other keys. The output decodes to `"βγδβγδ"` (not executed).

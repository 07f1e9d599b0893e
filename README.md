# Huffman file compressor: a verified model of its core

This project is a Dafny model of the core of a small Huffman file
compressor written in C++ (`Huffman.cpp`). The compressor works in these steps:

- It counts how often each octet occurs in the input file.
- It builds a Huffman tree with a min-weight priority queue.
- It assigns each letter the path from the root to that letter's leaf as a
  string of `'0'` and `'1'` characters.
- It writes the output file as the tree in preorder, followed by the code
  of every input octet, one bit-character per octet.

Decompression reads the tree back from the head of the file. It then
collects the rest of the file line by line and decodes it by walking the
tree once per output letter.

The model follows the program's stages, one module each:

| module | file | what it models |
|---|---|---|
| `Common` | `common.dfy` | octets, the `'0'`/`'1'` bit-characters, and the error values that stand for a throw, an endless loop or a read past the end |
| `Tree` | `tree.dfy` | tree nodes (a leaf, or an internal node with exactly two children) and the walk `Follow` that the decoder performs |
| `Frequency` | `frequency.dfy` | the frequency table, built by a loop over the input |
| `Builder` | `builder.dfy` | the priority-queue construction of the tree, as methods with loops over a queue held in a sequence |
| `Codes` | `codes.dfy` | the recursive code assignment |
| `Serial` | `serial.dfy` | the preorder serialisation of the tree and the recursive reader that rebuilds it from the head of a file |
| `Coder` | `coder.dfy` | encoding of the data region, one decode walk (`Decode`), and the decode loop (`DecodeFrom`, with the method `DecodeAll`) |
| `Pipeline` | `pipeline.dfy` | whole-file compression and decompression, and the line-by-line reassembly of the data region |

Modelling choices:

- Files and streams are sequences of octets (`seq<byte>`).
- A stream's read position is either an index into the sequence or the part
  of the input not yet read.
- An octet that is written out is an element of the result sequence.
- The program's `unordered_map` tables are Dafny maps.
- Heap nodes and their null child pointers become the datatype `Node`:
  - a node with two null children is a `Leaf`;
  - any other node is `Internal` with both children.

## Behaviour of the code worth knowing

- **Any marker other than `'0'` starts a leaf.** The tree reader at
  `Huffman.cpp:184-199` reads every marker octet other than `'0'` as a leaf
  marker, so a file with an unexpected marker is still read as some tree.
  The only way reading fails in the model is running out of input
  (`Serial.ReadFailure`).
- **Cutting the data short.** Suppose a compressed file for two or more
  distinct octets loses its last octet, which is the last bit-character of
  its data region. There are two readings.
  - **The program** (`Pipeline.DecompressedAsWritten`) reassembles the data
    region line by line (`Huffman.cpp:51-54`). The newline appended after
    the shortened region takes the place of the dropped bit, and the
    decoder reads it as a one-bit (`Huffman.cpp:223-228`). So the program
    decodes the data region with its last bit set to `1`
    (`Pipeline.TruncatedAsWritten`).
    - A last code ending in `1` is decoded intact. The cut goes unnoticed
      and the whole input comes back.
    - A last code ending in `0` is walked with its last bit flipped. With
      A coded `0` and B coded `1`, the file for "BA" cut by one octet
      decodes to "BB" (`Pipeline.TruncatedExample` shows the "AB" case).
    - If the data region was a single bit, the program decodes nothing.
  - **The decode loop over the raw data region** (`Pipeline.Decompressed`,
    without the reassembly) is also affected.
    - If the last letter's code is a single bit, the result is the input
      without its last letter. No error is reported (`Coder.DecodeTruncated`,
      `Pipeline.CompressedTruncated`).
    - If the code is longer, the walk reaches the end of the data inside
      the tree.
      - The source reads `data[data.length()]` there: the string's
        terminating `'\0'`, which is taken as a one-bit.
      - The source then emits a wrong letter, or reads past the string.
      - The model reports `TruncatedStream` (see `Coder.Decode` under
        "## Left out").
- **One distinct octet.** An input with one distinct octet yields a
  lone-leaf tree, whose code is empty. The data region is then empty, and
  reading the file back yields the empty sequence, not the input
  (`Pipeline.Compress`, `Pipeline.CompressedRoundTrip`). With a non-empty
  data region, a lone-leaf tree makes the decode loop spin forever
  (`Coder.LeafRootNeverEnds`).
- **Empty input.** For an empty input the frequency table is empty, and
  `Huffman.cpp:99` takes `pq.top()` of an empty queue, which is undefined
  behaviour. The model returns the error `EmptyInput` (`Pipeline.Compress`).

## Model

| member | source | states |
|---|---|---|
| Frequency.BuildFrequencyTable | Huffman.cpp:108-123 | the table has an entry for exactly the octets occurring in the input, each entry is that octet's number of occurrences, and the counts add up to the input length |
| Builder.SeedQueue | Huffman.cpp:75-84 | the seeded queue holds one leaf per table entry, weighted with that entry's count, so its letters are the table's keys and its total weight is the table's total count |
| Builder.MinIndex | Huffman.cpp:75-90 | the node taken as the queue's top has the least weight in the queue, and it is the first such node, which makes ties deterministic |
| Builder.MergeLightest | Huffman.cpp:86-97 | one merge round shrinks the queue by one and keeps its letters, its total weight and consistent weights. The new node is internal. Its zero child is a lightest node of the old queue and its one child is a lightest of the nodes left. Old queue = remaining queue plus those two children |
| Builder.MergedForest | Huffman.cpp:94-96 | pushing the merge of the two popped nodes keeps the queue's letters, its total weight and the consistency of every node's weight with the table |
| Builder.MergedQueue | Huffman.cpp:87-96 | after the two pops and the push, the new node's children are exactly the popped nodes, the rest of the queue is what remained, and both children are minimal where they were popped |
| Builder.BuildHuffmanTree | Huffman.cpp:72-100 | for a non-empty table the root has exactly one leaf per table entry, every leaf weighs its count and every internal node the sum of its children, the root weighs the total count, there are n leaves and n - 1 internal nodes, and the root is a leaf exactly when the table has one entry |
| Builder.LastNode | Huffman.cpp:98-99 | the one node left in the queue has as many leaves as the table has entries and one internal node fewer, and is a leaf exactly when the table has one entry |
| Tree.LeavesAndInternals | Huffman.cpp:94 | every node has zero or two children, so a tree has one more leaf than internal nodes, and its number of letters equals its number of leaves |
| Tree.Erase | Huffman.cpp:184-199 | the weight-free copy that the reader rebuilds has a leaf at the root exactly when the original does |
| Tree.FollowPrefixFree | Huffman.cpp:217-229 | a path that ends on a leaf is never a proper prefix of another path that ends on a leaf |
| Tree.FollowLetter | Huffman.cpp:217-218 | the letter any walk ends on is a letter of the tree |
| Tree.FollowUnique | Huffman.cpp:217-229 | with distinct letters, two bit paths that reach the same letter are equal |
| Tree.FollowErase | Huffman.cpp:184-199 | weights play no part in a walk |
| Codes.HuffmanCodes | Huffman.cpp:132-145 | the walk gives a code to exactly the letters already coded and those of the subtree, and keeps the earlier codes of letters outside the subtree |
| Codes.HuffmanCodesPath | Huffman.cpp:138-144 | every letter of the subtree gets the path so far followed by bit-characters that lead from the subtree to a leaf holding that letter |
| Codes.ChildCodePath | Huffman.cpp:143-144 | the letter's code continues with ONE when the letter is in the one subtree and ZERO otherwise, followed by its path within that subtree |
| Codes.CodeTable | Huffman.cpp:132-145 | the walk started at lines 17-18, from the root with the empty path into an empty map: the table has a code for exactly the tree's letters, each code is a bit path that leads to its letter, codes are non-empty under an internal root, and a lone-leaf root gives the empty code |
| Codes.CodesPrefixFree | Huffman.cpp:138-144 | no letter's code is a prefix of another letter's code |
| Codes.CodeIsOnlyPath | Huffman.cpp:138-144 | with distinct letters, any bit path that reaches a letter is that letter's code |
| Codes.CodeTableErase | Huffman.cpp:132-145 | the rebuilt weight-free tree assigns the same codes as the original |
| Serial.ShowTree | Huffman.cpp:239-255 | the serialisation has at least two octets and begins with ONE for a leaf root and ZERO for an internal root |
| Serial.ShowTreeLength | Huffman.cpp:245-253 | a tree with n leaves is written in 3n - 1 octets |
| Serial.ReadTree | Huffman.cpp:177-200 | a successful read consumes at least one octet and leaves a strictly shorter rest |
| Serial.ReadShowTree | Huffman.cpp:177-255 | reading back a serialised tree followed by anything rebuilds the tree's shape and letters with weights 0 and leaves exactly what followed |
| Serial.ReadExtends | Huffman.cpp:177-200 | a read that succeeds on some input succeeds the same way with more input after it, leaving the extra input behind |
| Serial.ReadFailure | Huffman.cpp:180-195 | the only way reading fails is running out of input |
| Serial.ReadTreeLength | Huffman.cpp:177-200 | the tree read carries weight 0 throughout, and reading consumed exactly its serialised length |
| Serial.ReadTreeShown | Huffman.cpp:184-199 | whatever the reader accepts is the serialisation of the tree it returns, except that a leaf marker may be any octet other than ZERO |
| Serial.ReadInternalShown | Huffman.cpp:184-189 | the internal-node case of the previous row: a ZERO marker followed by the serialisations of the two subtrees |
| Coder.Encode | Huffman.cpp:154-169 | encoding succeeds exactly when every input octet has a code, and then yields the input's codes concatenated in order; otherwise it fails with the unknown-symbol error |
| Coder.ConcatSnoc | Huffman.cpp:158-161 | appending one octet to the input appends exactly its code to the encoded data |
| Coder.Decode | Huffman.cpp:210-230 | a walk never moves the cursor backwards or past the end of the data; in the model it fails, with a truncated stream, exactly when it needs a bit-character at the end of the data, where the source reads the terminating `'\0'` as a one-bit |
| Coder.DecodeFollows | Huffman.cpp:217-229 | when a walk emits a letter, the bit-characters it consumed lead from the root to a leaf holding that letter |
| Coder.DecodeFails | Huffman.cpp:223-228 | a walk fails only when no stretch of data from the cursor leads to a leaf |
| Coder.DecodePath | Huffman.cpp:210-230 | a walk over a stretch that is a letter's path emits that letter and moves the cursor just past the stretch |
| Coder.DecodeAll | Huffman.cpp:57-60 | the decode loop's result is the letters of successive walks over the data region, or the error that stopped them |
| Coder.DecodeFromCodes | Huffman.cpp:57-60 | decoding data that begins with the codes of a sequence emits that sequence first and carries on after those codes |
| Coder.FirstCode | Huffman.cpp:57-60 | the first turn of the loop over encoded data emits the first letter and leaves the cursor at the codes of the rest |
| Coder.DecodeEncode | Huffman.cpp:57-60 | for a root with two or more leaves, decoding the codes of any sequence of its letters yields exactly that sequence |
| Coder.DecodeReencodes | Huffman.cpp:57-60 | conversely, with distinct letters, whatever the loop decodes from bit-characters re-encodes to exactly those bit-characters |
| Coder.ReencodeStep | Huffman.cpp:210-230 | one walk over bit-characters consumes exactly the code of the letter it emits |
| Coder.LeafRootNeverEnds | Huffman.cpp:57-60 | with a lone-leaf root the walk emits a letter without moving the cursor, so on non-empty data the loop never ends |
| Coder.DecodeTruncated | Huffman.cpp:57-60 | with the last bit-character dropped, decoding gives the input without its last letter when that letter's code is one bit; otherwise the walk runs into the end of the data, which the model reports as a truncated stream |
| Coder.TruncatedCodeFails | Huffman.cpp:223-228 | a walk that runs into the end of the data partway through a letter's path fails as a truncated stream |
| Pipeline.Compress | Huffman.cpp:9-34 | empty input is refused. Otherwise the file is the serialised tree plus the input's codes, for a tree whose leaves carry the input's counts. Decompressed by `Decompressed`, without the line reassembly (see Findings), it yields the input, or the empty sequence when the input has one distinct octet |
| Pipeline.Decompress | Huffman.cpp:57-60 | decompression reads the tree from the head of the file (as at line 48) and runs the decode loop over exactly the octets after it, without the line reassembly |
| Pipeline.DecompressedAsWritten | Huffman.cpp:48-60 | decompression as written: the decode loop runs over the line-reassembled data region; it gives the same result as decoding the octets after the tree when the tree cannot be read, when nothing follows the tree (then the empty output), and when the data region already ends in a newline |
| Pipeline.CompressedRoundTrip | Huffman.cpp:9-34 | for any tree coding every input octet, the file that compress writes, decompressed by `Decompressed` (the tree read as at line 48 and the loop at lines 57-60, without the line reassembly; see Findings), yields the input again when the tree has two or more leaves, and the empty sequence under a lone leaf |
| Pipeline.LayoutHead | Huffman.cpp:48-54 | a file that starts with a serialised tree is decoded, with or without the line reassembly, by that tree with its weights erased |
| Pipeline.EmptyCodes | Huffman.cpp:158-161 | when every code is empty the encoded data is empty |
| Pipeline.TruncatedTree | Huffman.cpp:177-200 | a file cut off inside its tree, the empty file included, fails as a truncated stream |
| Pipeline.CompressedTruncated | Huffman.cpp:57-60 | dropping the file's last octet and decoding the octets after the tree gives the input without its last letter when that letter's code is one bit; otherwise the walk runs into the end of the data, reported as a truncated stream |
| Pipeline.TruncatedLayout | Huffman.cpp:57-60 | the same statement as the previous row, for any table of non-empty codes that lead to their letters |
| Pipeline.Reassemble | Huffman.cpp:51-54 | empty data stays empty; otherwise the reassembled data extends the data and ends in a newline |
| Pipeline.ConcatBits | Huffman.cpp:164-166 | encoded data consists of bit-characters only, so it never contains a newline |
| Pipeline.NewlineReadAsBit | Huffman.cpp:51-60 | as written, the appended newline is decoded as a one-bit: after the input comes the letter of the root's one child when that child is a leaf; otherwise the walk reaches the end of the data, which the model reports as a truncated stream (the source reads the terminating `'\0'` as a further one-bit there) |
| Pipeline.NewlineAfterCodes | Huffman.cpp:57-60 | the decode loop over encoded data followed by a newline |
| Pipeline.NewlineStep | Huffman.cpp:223-228 | the walk that starts at the final newline takes the one child |
| Pipeline.NewlineExample | Huffman.cpp:51-60 | the file "0" "1A" "1B" "01" decompresses to "ABB" as written and to "AB" from the data region alone |
| Pipeline.TruncatedAsWritten | Huffman.cpp:51-60 | as written, the file cut by its last octet is decoded with the data region's last bit set to `1` by the appended newline: the whole input comes back when that bit was `1`, and nothing when the data region was a single bit |
| Pipeline.CutReassembled | Huffman.cpp:51-54 | a data region of bit-characters cut by its last octet gains a newline, and it reads like the region with a one-bit in place of the dropped bit |
| Pipeline.TruncatedExample | Huffman.cpp:51-60 | the file "0" "1A" "1B" "0" decompresses to "AB" as written and to "A" from the data region alone |
| Coder.DecodeSameReading | Huffman.cpp:223-228 | a walk sees only whether each octet is `'0'`: two data regions that agree on where the `'0'`s are give the same walk |
| Coder.DecodeFromSameReading | Huffman.cpp:57-60 | the decode loop gives the same result on two data regions that agree on where the `'0'`s are |

## Left out

- File opening, closing and stream modes are not modelled, because the model works on octet sequences.
  - The frequency table reads the input in text mode (`Huffman.cpp:110`), while encoding reads it in binary mode (`Huffman.cpp:21`).
  - On a platform where the two modes differ, an octet could go uncounted. The model assumes both reads see the same octets, which makes `Coder.Encode`'s unknown-symbol error unreachable from `Pipeline.Compress`.
- The order of equal-weight nodes is not modelled exactly. The queue's comparator `compareWeights` is declared in `Node.h`, and `Node.h` is not part of this model.
  - "Top" is modelled as the first node of least weight (`Builder.MinIndex`).
  - Iteration over the `unordered_map` is modelled as an arbitrary order (`Builder.SeedQueue`).
  - So the model proves properties of every tree so built, not byte-equality with one particular tie order.
- Builder.BuildHuffmanTree: optimality of the code (the least weighted path length) is not stated. Only the construction's invariants are: letters, counts, weight sums, and merges of lightest nodes.
- Builder.BuildHuffmanTree: weights are mathematical integers. At `Huffman.cpp:94` the source adds two `int` weights that come from the `int` counts (`Huffman.cpp:11`, `Huffman.cpp:79`, `Huffman.cpp:112`), unless `Node.h` widens them. Once the input passes 2^31 - 1 octets, a merged weight overflows even when every single count fits. `root.weight == Total(table)`, `WeightsConsistent` and the `compareWeights` order of the queue then no longer hold as the model states them.
- Heap allocation, the shared `root` member and the never-freed nodes are not modelled. Trees are values.
- Frequency.BuildFrequencyTable: counts are mathematical integers. The source's `int` counters would overflow beyond 2^31 - 1 occurrences, which the model does not capture.
- The `nullptr` guards (`Huffman.cpp:134-136`, `Huffman.cpp:212-214`, `Huffman.cpp:241-243`) are not modelled, because every node made by the program has zero or two children.
- Endless loops and undefined behaviour are modelled as errors, because a model has to return something:
  - The decode loop spins forever when the root is a lone leaf; the model reports `NonTerminating`.
  - `get()` at end of file leaves a marker or letter undefined; the model reports `TruncatedStream`.
- Coder.Decode: the model fails with `TruncatedStream` when a walk needs a bit-character at the end of the data. At `Huffman.cpp:223` the source reads `data[data.length()]` there, which is the string's terminating `'\0'`. It is not `'0'`, so the source takes the one child.
  - A leaf there is emitted and ends the loop, since the cursor passes the length. That is a silent wrong letter where the model reports an error.
  - An internal node there makes the source read past the string, which is undefined behaviour.
  - The same applies to `Coder.DecodeTruncated`, `Pipeline.CompressedTruncated` and the else branch of `Pipeline.NewlineReadAsBit`.
- Pipeline.Decompress: does not model the line-by-line reassembly of the data region (`Huffman.cpp:51-54`), which appends a newline after a last line without one. It decodes exactly the octets after the tree. `Pipeline.DecompressedAsWritten` models the reassembly, and the Findings table has the difference.
- Coder.DecodeAll: the cursor is an unbounded integer. The source's `int index` (`Huffman.cpp:57`, `Huffman.cpp:224`) would overflow beyond 2^31 - 1 data octets, which the model does not capture.
- Error reporting for unopenable files and for stream failures (an I/O failure) is not modelled, because files are not modelled.
- `Huffman.h` holds declarations only. `Node.h` and the storage class are not part of this model.

## Findings

| source | as written | input that shows it | evidently intended | confidence | as-written member | corrected member |
|---|---|---|---|---|---|---|
| Huffman.cpp:51-54 with Huffman.cpp:223-228 | the data region is read line by line and `'\n'` is appended after the last line, and the decoder treats any non-`'0'` octet, the newline included, as a one-bit | the file for "AB" with A coded `0` and B coded `1`, namely "0" "1A" "1B" "01" (octets 48 49 65 49 66 48 49): its data region "01" is reassembled as "01\n" and decoded to "ABB". When the root's one child is internal, the walk from the newline goes on to the terminating `'\0'`, also read as a one-bit: that gives a further letter or a read past the string, which the model reports as a truncated stream | decode exactly the octets after the tree, so that decompression undoes compression | not executed | Pipeline.NewlineReadAsBit, Pipeline.NewlineExample, Pipeline.TruncatedAsWritten, Pipeline.TruncatedExample (over Pipeline.DecompressedAsWritten) | Pipeline.CompressedRoundTrip (over Pipeline.Decompressed, which Pipeline.Decompress and Pipeline.Compress use) |

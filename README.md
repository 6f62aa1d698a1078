# Huffman and run-length file compression: a verified model of the codec core

The server in `backend/app.js` compresses uploaded files with one of two codecs
and turns them back into the original files:

- **Huffman coding** (`huffmanCompress` / `huffmanDecompress`). The compressor
  counts the bytes of the input, builds a Huffman tree by repeatedly merging
  the two trees of least frequency, and gives every byte the path to its leaf
  as its code (0 = left, 1 = right). It pads the concatenated codes with zero
  bits to whole bytes and writes a container: the header `"HUF"`, the length
  of the serialized tree as a big-endian 32-bit number, the tree in preorder
  (`1, byte` for a leaf, `0` followed by both subtrees for an internal node),
  one byte holding the number of padding bits, and the packed bits. The
  decompressor reads the container back and walks the tree bit by bit,
  emitting a byte at every leaf.
- **Run-length coding** (`rle` / `rleDecompress`). The container is the header
  `"RLE"` followed by one `(count, byte)` pair per run of at most 255 equal
  bytes.
- **The two routes** `/compress` and `/decompress`. They reject empty uploads
  and unknown algorithms. `/compress` names its output after the uploaded file
  plus `.huf` or `.rle`. `/decompress` recovers the original name by dropping
  the last dot-separated part of the uploaded name, and demands at least
  three parts.

The Dafny modules follow that structure, one per file:

| module | file | what it holds |
|---|---|---|
| `Errors` | errors.dfy | the failures the server reports, and `Result` |
| `Bytes` | bytes.dfy | bytes, bits, binary numerals, the 32-bit length field, the two headers |
| `HuffmanTree` | huffman_tree.dfy | the tree, byte counting, the stable sort, the merge loop |
| `HuffmanCodes` | huffman_codes.dfy | the code table and its prefix property |
| `TreeCodec` | tree_codec.dfy | preorder serialization and the cursor-based parser |
| `BitPacking` | bit_packing.dfy | padding, packing bits into bytes, unpacking them |
| `Huffman` | huffman.dfy | the Huffman container, compressor and decompressor |
| `Rle` | rle.dfy | the run-length container, compressor and decompressor |
| `FileName` | file_name.dfy | `split(".")`/`join(".")` and the name recovery |
| `Routes` | routes.dfy | what the two handlers decide, end to end |

Every decision the source makes is a pure function of its input. Wherever the
source runs a loop, the model has a `method` with that loop:
- counting the bytes and the merge loop of `buildHuffmanTree`;
- the packing loop of `huffmanCompress`;
- the decoding walk of `huffmanDecompress`;
- the run scan of `rle`;
- the pair loop of `rleDecompress`.

Each such method is proved equal to a specification function, and the
properties are proved about those functions.

A thrown exception is a `Failure` of `Result`. Besides the messages the server
writes itself, the model has two runtime exceptions, which the decompress
route reports the same way:
- `OutOfRange`: the `RangeError` of `readUInt32BE` on a buffer shorter than
  seven bytes.
- `NullNode`: the `TypeError` of a walk that steps from a leaf to a missing
  child. This can only happen with a single-leaf tree.

The engine's own limits can raise further exceptions, which are not modelled
(see "Left out"): too deep a recursion in the tree parser, and a code string
longer than the engine allows.

The header checks decode three bytes as text and compare the result with
`"HUF"` or `"RLE"`. Because both headers are ASCII, this is the same as
comparing the bytes, and that is how it is modelled.

### Behaviour of the code worth knowing

- **An input made of one repeated byte does not survive Huffman coding.**
  - The tree is then a single leaf, whose code is empty. The container
    carries no bits, and decompression yields an empty output
    (`Huffman.HuffmanRoundTrip`, `Huffman.RepeatedByteIsLost`).
  - The round trip holds for every input with two different bytes.
- **A truncated tree is not always rejected.**
  - The parser rejects a tree only when a flag is missing.
  - When just the final byte of the tree is cut off, the last leaf reads its
    byte past the end. That value, `undefined`, later becomes 0 in
    `Buffer.from` (`TreeCodec.TruncatedTreeRejected`).
  - A container cut off right there therefore decompresses to an empty output
    instead of failing (`Huffman.TruncatedContainer`).
- **An odd run-length payload does not fail.** Its last byte is a count
  without a value, and it expands to that many zero bytes
  (`Rle.OddTrailingByte`).
- **The padding byte is not checked.** Any value 0–255 is used as written.
  `bits.slice(0, length - pad)` counts a negative end back from the length,
  and clamps one that is still negative to 0 (`BitPacking.SliceEnd`). When
  the padding byte is missing altogether, the subtraction gives `NaN` and no
  bits are kept.
- **Bits that stop partway along a code are dropped silently**
  (`Huffman.PartialCodeDropped`).

## Model

| member | source | states |
|---|---|---|
| Bytes.ByteBits | backend/app.js:114 | `b.toString(2).padStart(8, "0")`: eight bits whose binary value is the byte |
| Bytes.ByteOf | backend/app.js:92 | `parseInt` of eight bits gives the byte whose eight bits they are (inverse of `ByteBits`) |
| Bytes.ToBitsOfValue | backend/app.js:92 | reading a bit string as a number and writing it back with as many digits gives the bit string |
| Bytes.ValueOfToBits | backend/app.js:114 | writing a number below 2^n with n digits and reading it back gives the number |
| Bytes.U32BE | backend/app.js:96-97 | `writeUInt32BE` gives four bytes that `readUInt32BE` reads back as the same length |
| Bytes.ReadU32BE | backend/app.js:107 | `readUInt32BE`: four bytes read most significant first, a number below 2^32; `U32BE` is proved to be its inverse |
| HuffmanTree.Tally | backend/app.js:35 | counting one more byte gives the key order and counts of the longer input |
| HuffmanTree.CountBytes | backend/app.js:33-36 | the `freq` Map after the loop: keys are the distinct bytes in first-occurrence order, values their occurrence counts |
| HuffmanTree.CountsOf | backend/app.js:33-36 | the counts of the `freq` Map: a key exactly for each byte of the input, valued at its number of occurrences |
| HuffmanTree.Distinct | backend/app.js:37 | the key order of the Map holds each byte of the input exactly once and nothing else |
| HuffmanTree.FrequencyLeaves | backend/app.js:37 | `Array.from(freq, ...)`: one leaf per Map key, in key order, carrying its count (stated by `FrequencyLeavesAreCounts` and `FrequencyLeavesSum`) |
| HuffmanTree.FrequencyLeavesAreCounts | backend/app.js:33-37 | the starting leaves are exactly one leaf per distinct input byte, carrying its count |
| HuffmanTree.FrequencyLeavesSum | backend/app.js:33-37 | the starting counts add up to the input length |
| HuffmanTree.InsertByFreq | backend/app.js:39 | one insertion step of the stable sort: the collection grows by exactly the inserted tree |
| HuffmanTree.SortByFreq | backend/app.js:39 | the sort keeps length and is a permutation of the working collection |
| HuffmanTree.SortSorted | backend/app.js:39 | the sort's result is ordered by frequency and is a permutation of its input |
| HuffmanTree.SortKeepsLeaves | backend/app.js:39 | sorting keeps every leaf of the collection and the total frequency |
| HuffmanTree.WithFreqInsert | backend/app.js:39 | an inserted tree goes ahead of every tree of its frequency, and those keep their order |
| HuffmanTree.SortStable | backend/app.js:39 | the sort is stable: trees of equal frequency keep their relative order |
| HuffmanTree.MergeRound | backend/app.js:39-42 | one round leaves exactly one tree fewer |
| HuffmanTree.MergeRoundPicksLeast | backend/app.js:39-42 | the pushed parent has two trees of least frequency as children, the lighter on the left, and the sum of their frequencies; every other tree is kept |
| HuffmanTree.MergeKeepsLeaves | backend/app.js:40-42 | replacing the two front trees by their parent keeps every leaf and the total frequency |
| HuffmanTree.RoundKeepsForest | backend/app.js:39-42 | a sort-and-merge round keeps all trees well formed, every leaf and the total frequency |
| HuffmanTree.Merged | backend/app.js:38-44 | the rounds repeated until one tree is left (stated by `MergedKeepsForest`, computed by `MergeNodes`) |
| HuffmanTree.MergeStep | backend/app.js:39-42 | the loop body as written (sort, take the first tree, take the next, push their parent) computes exactly one round `MergeRound` |
| HuffmanTree.MergedKeepsForest | backend/app.js:38-44 | merging until one tree is left gives a well-formed tree holding every leaf and the total frequency |
| HuffmanTree.MergeNodes | backend/app.js:38-44 | the merge loop ends with the merged tree: well formed, with all leaves and the total frequency |
| HuffmanTree.BuildHuffmanTree | backend/app.js:32-45 | the built tree is well formed, its frequency is the input length, and its leaves are exactly the frequency table |
| HuffmanTree.HuffmanTreeOf | backend/app.js:32-45 | `buildHuffmanTree` as a function of the input (stated by `HuffmanTreeOfIsHuffmanTree`) |
| HuffmanTree.HuffmanTreeOfIsHuffmanTree | backend/app.js:32-45 | the same facts about the tree as a function of the input |
| HuffmanTree.TreeBytes | backend/app.js:32-45 | the tree's leaves hold exactly the input's bytes, one leaf per distinct byte |
| HuffmanTree.DistinctBound | backend/app.js:33-36 | an input has at most 256 distinct bytes |
| HuffmanTree.RootIsNode | backend/app.js:38-44 | the root is an internal node exactly when the input has two different bytes; otherwise it is the leaf of the only byte |
| HuffmanTree.LeafCount | backend/app.js:38-44 | a tree has one leaf exactly when it is a leaf |
| HuffmanTree.TwoDistinctCount | backend/app.js:33-37 | an input has two different bytes exactly when its Map has at least two keys |
| HuffmanCodes.Codes | backend/app.js:47-54 | the table's keys are exactly the tree's leaf bytes |
| HuffmanCodes.CodeIsPath | backend/app.js:47-54 | each code is the prefix followed by a root path to a leaf holding that byte |
| HuffmanCodes.PathsPrefixFree | backend/app.js:47-54 | one root path that is a prefix of another is the same path, to the same byte |
| HuffmanCodes.CodesPrefixFree | backend/app.js:47-54 | no byte's code is a prefix of another byte's code |
| HuffmanCodes.CodesNonEmpty | backend/app.js:48 | every code is non-empty exactly when the root is an internal node (a single leaf gets the empty code) |
| HuffmanCodes.PathToShape | backend/app.js:74 | paths ignore frequencies, so a deserialized tree (frequency 0) has the paths of the original |
| TreeCodec.Serialize | backend/app.js:56-65 | the preorder bytes of a tree (its length stated by `SerializeLength`, its inverse by `DeserializeSerialized`) |
| TreeCodec.Parse | backend/app.js:67-81 | a parse succeeds only from inside the buffer, makes a leaf exactly for flag 1, moves the cursor at least two bytes, and fails only with "Malformed Huffman tree." |
| TreeCodec.Deserialize | backend/app.js:67-81 | fails only with "Malformed Huffman tree.", always on an empty buffer; otherwise the tree is a leaf exactly when the first byte is 1 |
| TreeCodec.SerializeLength | backend/app.js:56-65 | a tree with n leaves serializes to 3n - 1 bytes |
| TreeCodec.ParsedNode | backend/app.js:76-78 | an internal node parses as its two subtrees one after the other |
| TreeCodec.ParseSerialized | backend/app.js:56-81 | parsing at a serialized tree, whatever surrounds it, rebuilds its shape and leaf bytes and stops right after it |
| TreeCodec.DeserializeSerialized | backend/app.js:56-81 | `deserializeTreeBuffer(serializeTreeBuffer(t))` is the shape of `t` |
| TreeCodec.ParseMissingLastByte | backend/app.js:70-74 | a serialized tree without its final byte still parses, with its last leaf read as 0 |
| TreeCodec.ParseTruncated | backend/app.js:70 | a serialized tree missing more than its final byte is rejected as malformed |
| TreeCodec.TruncatedTreeRejected | backend/app.js:67-81 | a proper prefix of a serialized tree is rejected exactly when more than the final byte is missing |
| TreeCodec.NoLeafFlagIsMalformed | backend/app.js:70-78 | without any flag 1, the parser reads internal nodes until it runs out and rejects the buffer |
| BitPacking.PadCount | backend/app.js:87 | fewer than eight padding bits, and they complete a whole number of bytes |
| BitPacking.Zeros | backend/app.js:88 | `"0".repeat(pad)`: exactly `pad` bits, all 0 |
| BitPacking.Pack | backend/app.js:90-92 | one byte per eight bits |
| BitPacking.Unpack | backend/app.js:113-115 | eight bits per byte |
| BitPacking.SliceEnd | backend/app.js:116 | the slice end is within the bits; it drops exactly `pad` bits when there are enough, and none are kept when `pad` is more than twice their number |
| BitPacking.DropPad | backend/app.js:116 | the kept bits are a prefix of the unpacked bits, exactly `pad` fewer when there are at least `pad` |
| BitPacking.UnpackPack | backend/app.js:90-115 | unpacking packed bits gives the bits back |
| BitPacking.PackUnpack | backend/app.js:90-115 | packing unpacked bytes gives the bytes back |
| BitPacking.PaddedRoundTrip | backend/app.js:87-116 | padding, packing, unpacking and dropping the padding gives the code stream back |
| BitPacking.PackAt | backend/app.js:91-92 | byte j of the packed stream is made of bits 8j to 8j + 8 |
| BitPacking.PackBytes | backend/app.js:90-92 | the packing loop yields the packed stream |
| BitPacking.PackBits | backend/app.js:87-92 | the padding count and packed payload the compressor writes, which the decompressor's unpack and slice turn back into the code stream |
| Huffman.TreeSizeBound | backend/app.js:95-97 | the serialized tree is at most 767 bytes, so its length fits the 32-bit field |
| Huffman.Encode | backend/app.js:86 | when every code is non-empty, at least one bit per input byte (the walk is proved to invert it in `WalkEncoded`) |
| Huffman.Frame | backend/app.js:94-100 | the container is eight bytes longer than the tree and the payload together |
| Huffman.FrameFields | backend/app.js:94-100 | the header, length field, tree, padding byte and payload lie at offsets 0, 3, 7, 7 + size and 8 + size |
| Huffman.Container | backend/app.js:83-101 | `huffmanCompress` as a function of the input (read back by `UnframeContainer`, decoded by `HuffmanRoundTrip`) |
| Huffman.Unframe | backend/app.js:103-116 | a buffer that does not start with "HUF" is rejected as "Invalid Huffman file" |
| Huffman.UnframeFrame | backend/app.js:103-116 | reading a container gives back its tree and its unpadded bits |
| Huffman.UnframeContainer | backend/app.js:83-116 | reading the compressor's output gives the tree's shape and the code stream |
| Huffman.Walk | backend/app.js:118-128 | the walk fails only with the null-child `TypeError`, and only when the current node or the root is a leaf |
| Huffman.Decoded | backend/app.js:103-129 | a buffer shorter than three bytes or not starting with "HUF" is rejected as "Invalid Huffman file"; one with the header but shorter than seven bytes fails in `readUInt32BE` |
| Huffman.WalkPath | backend/app.js:121-127 | following a byte's code from a node emits the byte and returns to the root |
| Huffman.WalkEncoded | backend/app.js:86-127 | walking an encoding under non-empty root-path codes gives the input back |
| Huffman.EncodeEmptyCodes | backend/app.js:86 | bytes whose codes are all empty encode to no bits |
| Huffman.CodesArePaths | backend/app.js:47-54 | with an internal root, every code is a non-empty path to its byte in the deserialized tree |
| Huffman.WalkCodeStream | backend/app.js:83-129 | decoding the code stream of an input with two different bytes gives the input |
| Huffman.CodeStreamOfRepeatedByte | backend/app.js:84-88 | an input made of one repeated byte has an empty code stream |
| Huffman.HuffmanRoundTrip | backend/app.js:83-129 | decompress(compress(B)) is B when B has two different bytes, and empty otherwise |
| Huffman.RepeatedByteIsLost | backend/app.js:83-129 | `[7, 7, 7, 7]` decompresses to an empty output |
| Huffman.RejectsForeignHeader | backend/app.js:104-105 | every buffer shorter than three bytes or not starting with "HUF" is rejected as "Invalid Huffman file" |
| Huffman.PartialCodeDropped | backend/app.js:121-127 | bits that stop partway along a code emit nothing and raise no error |
| Huffman.TruncatedFrame | backend/app.js:107-112 | a container cut inside its tree is rejected as a malformed tree, except when only the tree's final byte is missing; then it decodes to an empty output |
| Huffman.TruncatedContainer | backend/app.js:83-112 | the same for the compressor's own output |
| Huffman.Compress | backend/app.js:83-101 | `huffmanCompress` yields the container, and decompressing it gives the input back (or an empty output for one repeated byte) |
| Huffman.Decompress | backend/app.js:103-129 | the decoding loop returns exactly what the decoding function prescribes, including its failures |
| Rle.RunFrom | backend/app.js:135-141 | the extended run stays inside the input and has between `count` and 255 bytes |
| Rle.RunLength | backend/app.js:135-141 | every run has 1 to 255 bytes and stays inside the input |
| Rle.RunFromUniform | backend/app.js:136-141 | a run is made of equal bytes |
| Rle.RunFromMaximal | backend/app.js:136-141 | a run stops only at the end of the input, at a different byte, or at 255 bytes |
| Rle.RunPairs | backend/app.js:134-144 | the `(count, byte)` pairs from position `i` on (their shape stated by `RunPairsShape`, their counts by `RunPairsCount`) |
| Rle.Encoded | backend/app.js:132-145 | `rle` as a function of the input (inverted by `RleRoundTrip`) |
| Rle.Repeat | backend/app.js:156 | `Array(count).fill(value)` has `count` copies of `value` |
| Rle.ExpandFrom | backend/app.js:153-157 | the pair loop from position `i` on, with a missing value read as 0 (inverted by `RleRoundTrip`, its odd tail stated by `ExpandOddTail`) |
| Rle.Decoded | backend/app.js:148-159 | fails exactly when the buffer is shorter than three bytes or does not start with "RLE", and then as "Invalid RLE file" |
| Rle.RleRoundTrip | backend/app.js:132-159 | `rleDecompress(rle(B))` is B for every input |
| Rle.RunPairsShape | backend/app.js:132-144 | the pairs come two by two, every count is 1 to 255, and neighbouring runs of the same byte only follow a full run of 255 |
| Rle.RunPairsCount | backend/app.js:132-144 | the counts add up to the input length |
| Rle.ShortExample | backend/app.js:132-145 | `[1, 1, 1, 2, 2, 3]` is stored as `(3, 1), (2, 2), (1, 3)` |
| Rle.ThreeHundredRun | backend/app.js:132-145 | 300 equal bytes are stored as `(255, v), (45, v)` |
| Rle.LongRunSplits | backend/app.js:136-142 | a run longer than 255 bytes starts with a full pair `(255, v)` |
| Rle.ExpandOddTail | backend/app.js:153-157 | from a position an even distance before the last byte, the pairs expand as without that byte, followed by as many zero bytes as it says |
| Rle.OddTrailingByte | backend/app.js:153-157 | a payload of odd length decodes as the payload without its last byte does, followed by as many zero bytes as that last byte says |
| Rle.OddExample | backend/app.js:148-159 | `"RLE"` followed by `2, 5, 3` decodes to `[5, 5, 0, 0, 0]` |
| Rle.RejectsForeignHeader | backend/app.js:149-150 | every buffer shorter than three bytes or not starting with "RLE" is rejected as "Invalid RLE file" |
| Rle.ScanRun | backend/app.js:135-141 | the inner loop counts the run that starts at `i` |
| Rle.Compress | backend/app.js:132-146 | `rle` yields the encoding, and decompressing it gives the input back |
| Rle.Decompress | backend/app.js:148-159 | the pair loop returns exactly what the decoding function prescribes |
| FileName.Split | backend/app.js:217 | `split` gives at least one piece, and no piece holds the separator |
| FileName.Join | backend/app.js:224 | `join(".")` of the pieces (inverse of `Split`, stated by `JoinSplit` and `SplitJoin`) |
| FileName.JoinSplit | backend/app.js:217-224 | joining the pieces of a split gives the string back, and there is one piece more than separators |
| FileName.SplitJoin | backend/app.js:217-224 | splitting joined pieces without separators gives the pieces back |
| FileName.RestoredName | backend/app.js:217-225 | the name recovery fails only with "Compressed file must include original extension" (stated in full by `RestoredNameDropsLastExtension`) |
| FileName.RestoredNameDropsLastExtension | backend/app.js:217-225 | a name is accepted exactly when it holds two dots, and the recovered name is the uploaded one without its last extension |
| FileName.ContainerNameRoundTrip | backend/app.js:217-225 | a name with an extension plus a container extension is recovered exactly; a name without a dot is rejected with "Compressed file must include original extension" |
| FileName.Example | backend/app.js:217-225 | `report.txt.huf` is recovered as `report.txt` |
| Routes.CompressRoute | backend/app.js:162-194 | an empty upload answers "Uploaded file is empty", an unknown algorithm "Unsupported algorithm", and nothing else fails |
| Routes.DecompressRoute | backend/app.js:197-238 | an empty upload and an unknown algorithm are rejected before anything is decoded |
| Routes.CompressRouteOf | backend/app.js:171-184 | for each algorithm, `/compress` answers with that codec's container and the name plus `.huf` or `.rle` |
| Routes.DecompressRouteOf | backend/app.js:204-225 | an upload that its codec decodes, named after an original name plus an extension, answers with the decoded bytes and the original name |
| Routes.HuffmanRoutesRoundTrip | backend/app.js:162-238 | the `/compress` output fed to `/decompress` gives back the bytes and file name, for inputs with two different bytes |
| Routes.RleRoutesRoundTrip | backend/app.js:162-238 | the same for run-length coding, for every non-empty input |

## Left out

- The HTTP layer is not modelled. That covers Express, CORS, multer's
  temporary files, reading the upload, creating the output directories,
  writing the output files, the download route and the JSON answers. The
  routes are modelled as functions from the upload's bytes, its `algorithm`
  field and its original name to the output bytes and file name.
- The `ratio` of the compress answer (`toFixed(2)` of a floating-point
  division) is left out: it is floating point and only reported.
- The frontend is not part of this model.
- Routes.CompressRoute: `path.extname` and `path.basename` are not modelled.
  The output name is the uploaded name followed by `.huf` or `.rle`, which is
  what the two calls give back for a name without a directory part, as
  multer supplies it.
- Huffman.Compress: requires a non-empty input. On an empty input
  `huffmanCompress` throws a `TypeError`, because the tree is `undefined`. Both
  routes reject empty uploads before calling it, so that path is not
  modelled.
- TreeCodec.Parse: the engine's call-stack limit is not modelled. A buffer
  of many thousand flags other than 1 makes `build` recurse that deep and
  throw a `RangeError` ("Maximum call stack size exceeded"), which the
  decompress route reports; the model parses it without limit.
- Huffman.Encode: the engine's maximum string length is not modelled. An
  input whose code string exceeds it makes `join("")` throw a `RangeError`;
  the model's bit sequences are unbounded.
- HuffmanTree.BuildHuffmanTree: states the tree's leaves, counts and
  frequency sums, but not that its code lengths are optimal.
- `Array.prototype.sort` is a library call. It is modelled as a stable
  insertion sort by frequency, which orders equal frequencies exactly as
  the stable engine sort does (`HuffmanTree.SortStable`).
- Tree nodes are values (`Leaf` / `Node`) rather than objects with nullable
  children. Every internal node the source builds has both children, and a
  node without children is a leaf, so no behaviour is lost.
- Bits are the numbers 0 and 1 instead of the characters `"0"` and `"1"` of
  the source's strings.
- Exceptions carry the kind of error, not the message text.

# Huffman compressor — a Dafny model

This project models the core of a small Huffman file compressor in Dafny and
proves properties of the model. The repository holds two codecs and one path
helper.

- The **canonical codec** is `src/huffman.cpp` with `src/huffman.hpp`.
  - It counts byte frequencies into a 256-entry `uint64` table.
  - It pushes one leaf per present byte, in ascending byte order, into a
    min-priority queue. It then merges the two least nodes until one is left.
    A lone symbol is wrapped under an internal root.
  - It writes the file: the magic `HUB1`, the original size, the symbol
    count, one 9-byte entry per symbol, the code bits packed MSB-first, and
    finally the total bit count.
  - The decompressor rebuilds the same tree from the table and walks it.
- The **legacy codec** is `huffman.cpp` with `huffman.h`.
  - It counts `char`s into an `unordered_map<char,int>` and builds the tree
    the same way.
  - It writes the tree in preorder as `'0'`/`'1'`/`'2'` markers, then a
    `0xFF` separator, the text length, and the packed code bits.
  - The decompressor reads the tree back and walks it, bit by bit.
- **`generateOutputPath`** (`main.cpp`) strips a path's extension and
  appends another one.

## Modelling choices

- Bytes are integers below 256 (`byte`). Bits are `seq<bool>`.
  Code tables are `map<byte, seq<bool>>`. Files are `seq<byte>`.
- `uint64` frequency sums wrap modulo 2^64 explicitly (`HuffmanTree.Add64`).
  `size_t` is taken to be 8 bytes, little-endian.
- Both codecs use `std::priority_queue`, whose order among equal frequencies
  is unspecified. The model fixes one rule: the first least node in queue
  order is popped (`PriorityQueue.MinIndex`). The compressor and the
  decompressor apply the same rule to the same queue, which is what the round
  trips rely on.
- The legacy codec pushes its leaves in `unordered_map` iteration order,
  which is also unspecified. That order is a parameter (`order`) of the
  legacy functions; any duplicate-free listing of the counted characters is
  allowed.
- Both codecs build their trees with one shared merge (`HuffmanTree.Merge`).
  The legacy `HuffmanNode` (`LegacyTree.HNode`) is converted to and from the
  canonical node by `ToNode` and `FromNode`. Legacy code generation and
  decoding are proved equal to the canonical ones on the converted tree.
- A dereference of a null child, which is undefined behaviour in the source,
  is modelled as an error result (`NullChild`).

Modules, in dependency order: `Wrappers`, `Arith`, `Bits`, `LittleEndian`,
`PriorityQueue`, `HuffmanTree`, `Codes`, `Decoder`, `Container`, `RoundTrip`,
`LegacyTree`, `LegacyFormat`, `LegacyCodec`, `OutputPath`.

## Model

| member | source | states |
|---|---|---|
| `HuffmanTree.Add64` | src/huffman.hpp:15 | adding two `uint64` frequencies agrees with true addition modulo 2^64, and is exact when the sum fits |
| `PriorityQueue.MinIndexLeast` | src/huffman.cpp:84-85 | the node popped from the queue has the least frequency, and every node queued ahead of it has a strictly larger one |
| `HuffmanTree.MergeStepTop` | src/huffman.hpp:26-30 | under the min-heap comparator, no node left in the queue is ordered ahead of either of the two nodes a merge step pops |
| `HuffmanTree.MergeInvariants` | src/huffman.cpp:83-89 | merging a queue gives a tree whose internal counts are the wrapped sums of their children, whose leaves are those of the queue, whose root count is the queue total modulo 2^64, and that has no one-child node when the queue had none |
| `HuffmanTree.LeavesFromShape` | src/huffman.cpp:69-74 | the initial queue holds one leaf per present byte, in ascending byte order, carrying that byte's count |
| `HuffmanTree.LeavesFromCover` | src/huffman.cpp:69-74 | the initial queue's leaves are exactly the bytes with a non-zero count, each once |
| `HuffmanTree.LeavesFromSum` | src/huffman.cpp:69-74 | the initial queue's counts add up to the table's total |
| `HuffmanTree.SymbolCount` | src/huffman.cpp:66-74 | the symbol count is the number of bytes with a non-zero count, at most 256 |
| `HuffmanTree.OneLeaf` | src/huffman.cpp:76-81 | a single present byte is wrapped as the left child of an internal root with the same count and no right child |
| `HuffmanTree.ManyLeaves` | src/huffman.cpp:83-89 | with two or more present bytes the merged root is internal, has every internal node two children, and covers exactly the present bytes |
| `HuffmanTree.BuildTree` | src/huffman.cpp:66-89 | there is no tree exactly when no byte is present; otherwise the root is internal, counts are consistent, the leaves are the present bytes, the root count is the total modulo 2^64, and the tree is full from two symbols on |
| `Codes.BuildCodesKeys` | src/huffman.cpp:5-15 | the code table has an entry for exactly the tree's leaf bytes |
| `Codes.CodesReachLeaves` | src/huffman.cpp:5-15 | every code extends the path it was built from, and following it from that node ends at the leaf holding that byte |
| `Codes.RootCodes` | src/huffman.cpp:5-15 | from an internal root every code is non-empty and leads to its own byte's leaf |
| `Codes.CodesPrefixFree` | src/huffman.cpp:5-15 | no code is a prefix of another byte's code |
| `Codes.EncodeAppend` | src/huffman.cpp:117-123 | encoding a concatenation is the concatenation of the encodings |
| `Bits.Pack` | src/huffman.cpp:117-140 | packing n bits gives the fewest whole bytes that hold them: eight times the byte count is at least n and below n+8 |
| `Bits.UnpackPack` | src/huffman.cpp:137-140 | unpacking the packed bits gives the bits back followed by the zero padding of the last byte, fewer than eight bits |
| `Bits.PackUnpack` | src/huffman.cpp:261-263 | repacking the bits read from bytes gives the same bytes |
| `Bits.UnpackAppend` | src/huffman.cpp:252-263 | reading bytes one after another gives the concatenation of their bits |
| `Bits.PackAligned` | src/huffman.cpp:129-133 | packing a whole number of bytes and then more bits is packing each part separately |
| `Bits.PackStream` | src/huffman.cpp:117-143 | the shift-and-flush loop writes exactly the packed form of the bits, and counts every bit |
| `LittleEndian.ReadWriteLE` | src/huffman.cpp:17-31 | reading back a value written in n little-endian bytes gives the value, when it fits |
| `LittleEndian.WriteReadLE` | src/huffman.cpp:17-31 | writing back the value read from n bytes gives the same bytes |
| `LittleEndian.ByteOfWriteLE` | src/huffman.cpp:17-21 | byte i of the written value is the value shifted right by 8i bits, masked to a byte |
| `LittleEndian.ReadLEAt` | src/huffman.cpp:23-31 | a read that runs past the end yields the all-ones value and leaves the stream at its end; one that fits consumes exactly n bytes |
| `LittleEndian.ReadLEAtWrite` | src/huffman.cpp:23-31 | reading an n-byte field written inside a file gives the value and moves past the field |
| `LittleEndian.AllOnesLookLikeEndOfStream` | src/huffman.cpp:23-31 | eight stored 0xFF bytes read as the same value as a read past the end, so the later sentinel tests cannot tell them apart |
| `Container.CountFreq` | src/huffman.cpp:60-63 | the frequency table has 256 entries adding up to the input length |
| `Container.CountFreqCounts` | src/huffman.cpp:60-63 | each byte's entry is its number of occurrences in the input |
| `Container.PresentOccurring` | src/huffman.cpp:69-74 | a byte gets a leaf exactly when it occurs in the input |
| `Container.TableBytesLength` | src/huffman.cpp:109-114 | the symbol table takes 9 bytes per present byte |
| `Container.Compress` | src/huffman.cpp:51-143 | only empty input fails; otherwise the file is at least 22 bytes and starts with the magic |
| `Container.CompressSize` | src/huffman.cpp:104-143 | the file is 22 bytes of fixed fields, 9 bytes per symbol, and the packed code bits |
| `Container.ParseTable` | src/huffman.cpp:188-201 | reading the table gives 256 counts and a position inside the file, or fails as truncated or corrupt |
| `Container.TruncatedTableRejected` | src/huffman.cpp:189-199 | a table announced with more 9-byte entries than the bytes left can hold is rejected |
| `Container.AllOnesCountRejected` | src/huffman.cpp:195-199 | an entry whose eight count bytes are all 0xFF is rejected as a corrupt table |
| `Container.ParseHeader` | src/huffman.cpp:169-230 | the magic is rejected exactly when the file is shorter than 4 bytes or starts otherwise; an accepted header has an internal root, a payload start inside the file, and a stored size below the all-ones sentinel |
| `Container.DecodePayload` | src/huffman.cpp:261-286 | decoding fails only on a null child, never yields more than the stored size, and flags a mismatch exactly when it yields fewer bytes |
| `Container.PayloadAsRead` | src/huffman.cpp:252-259 | the decoder reads every payload byte except the last one before the 8-byte trailer |
| `Container.PayloadFixed` | src/huffman.cpp:233-236 | the payload is everything between the table and the 8-byte trailer |
| `Container.Decompress` | src/huffman.cpp:158-287 | the magic is rejected exactly when missing; a success yields at most the stored size and flags a mismatch exactly when it yields less, without failing |
| `Container.DecompressFixed` | src/huffman.cpp:158-287 | the same guarantees as the decompressor, reading the whole payload |
| `Decoder.DecodeBound` | src/huffman.cpp:261-271 | decoding never yields more symbols than asked for |
| `Decoder.DecodeOne` | src/huffman.cpp:261-271 | walking one symbol's code emits that symbol and restarts at the root |
| `Decoder.DecodeEncode` | src/huffman.cpp:261-271 | decoding the encoding of any data, followed by any bits, gives the data back |
| `Decoder.DecodeEncodePrefix` | src/huffman.cpp:252-271 | decoding a strict prefix of an encoding yields a strict prefix of the data |
| `RoundTrip.ParseTableBytes` | src/huffman.cpp:188-201 | reading back a written table gives the frequency table and ends right after it |
| `RoundTrip.LayoutFile` | src/huffman.cpp:104-143 | a laid-out file parses to the stored size, the rebuilt tree and the table's end, and its trailer holds the bit count |
| `RoundTrip.CompressedFile` | src/huffman.cpp:104-143 | a compressed file's header parses to the input length and the compressor's own tree |
| `RoundTrip.CodeBitsDecode` | src/huffman.cpp:261-271 | decoding the compressor's code bits with its tree gives the input back |
| `RoundTrip.CompressDecompressFixed` | src/huffman.cpp:252-259 | reading the whole payload, every non-empty input round-trips without a size mismatch |
| `RoundTrip.CompressDecompressLosesTail` | src/huffman.cpp:252-259 | as written, every non-empty input comes back as a strict prefix of itself, flagged as a size mismatch |
| `RoundTrip.MaxSizeRejected` | src/huffman.cpp:177-183 | an input of 2^64-1 bytes compresses, but both decompressors reject its size field as the end-of-stream sentinel |
| `RoundTrip.ShortHeaderRejected` | src/huffman.cpp:177-183 | a file with the magic but shorter than the 14-byte header is rejected as a corrupt header |
| `RoundTrip.EmptyTableRejected` | src/huffman.cpp:212-215 | a header announcing no symbols is rejected |
| `RoundTrip.TableCutOffRejected` | src/huffman.cpp:188-201 | a file whose symbol count announces more entries than the bytes after the header can hold is rejected by both decompressors, as a truncated or corrupt table |
| `RoundTrip.AllOnesCountFileRejected` | src/huffman.cpp:195-199 | a file whose first table entry has a count of eight 0xFF bytes is rejected as a corrupt table by both decompressors |
| `RoundTrip.LoneSymbolCode` | src/huffman.cpp:76-81 | the lone symbol's code is the single bit 0 |
| `RoundTrip.LoneSymbolStrayBit` | src/huffman.cpp:261-266 | with one symbol, a payload whose first bit is 1 reaches the missing right child |
| `LegacyTree.CountCharsCounts` | huffman.cpp:57-63 | the map has a key for exactly the characters in the text, each mapped to its number of occurrences |
| `LegacyTree.CountCharsCounted` | huffman.h:85-86 | when the text fits an `int`, every count is positive and fits an `int` |
| `LegacyTree.CountCharsTotal` | huffman.cpp:100-104 | the queued leaves' counts add up to the text length, whatever the map's iteration order |
| `LegacyTree.BuildTreeNone` | huffman.cpp:132 | there is no tree exactly when the text is empty |
| `LegacyTree.BuildTreeRoot` | huffman.cpp:110-132 | for non-empty text the root counts the whole text, every internal node counts its children exactly, every internal node has two children, and the leaves are the text's characters |
| `LegacyTree.BareLeafRoot` | huffman.cpp:100-132 | a text of one repeated character gets a bare leaf as its root |
| `LegacyTree.InternalRoot` | huffman.cpp:110-125 | a text with two different characters gets an internal root |
| `LegacyTree.MergeExact` | huffman.cpp:118-121 | when the total fits, every merged node's count is exactly the sum of its children's |
| `LegacyTree.FromNodeShape` | huffman.h:47-58 | converting a full tree to legacy nodes and back gives the same tree with every count erased: the same shape and the same leaf values |
| `LegacyTree.GenerateCodesAgree` | huffman.cpp:161-177 | the legacy code table equals the canonical code table of the same tree |
| `LegacyTree.GenerateCodesPrefixFree` | huffman.cpp:161-177 | the legacy codes are prefix-free and cover exactly the tree's leaf characters |
| `LegacyFormat.Deserialize` | huffman.cpp:239-271 | reading never moves back or past the end; an unknown or '0' marker gives null after one byte, a cut-off leaf gives null at the end, and only '1' or '2' give a node |
| `LegacyFormat.StripShape` | huffman.cpp:253-264 | dropping counts and internal characters keeps the serialized form, the shape and the leaves |
| `LegacyFormat.DeserializeSerialize` | huffman.cpp:203-271 | reading back a serialized tree anywhere in a file gives the tree without counts and ends right after it |
| `LegacyFormat.DeserializeAtStart` | huffman.cpp:466 | a tree serialized at the start of a file reads back and ends at its own length |
| `LegacyCodec.WalkAgree` | huffman.cpp:511-544 | the legacy decode loop yields the same as the canonical decoder on the converted tree |
| `LegacyCodec.Compress` | huffman.cpp:293-427 | only empty text fails; otherwise the file holds at least a tree marker, the separator and the 8-byte length |
| `LegacyCodec.DecodeBody` | huffman.cpp:505-571 | decoding fails only on a null child, yields at most the stored length, and reports a mismatch exactly when it yields less |
| `LegacyCodec.Decompress` | huffman.cpp:452-572 | there is no tree exactly when the first marker reads as null; a success had the separator and the 8-byte length, and yields at most that length, flagging a mismatch exactly when it yields less |
| `LegacyCodec.DecompressFile` | huffman.cpp:466-498 | a file laid out as tree, separator, length and payload is decoded with the tree read back and the stored length |
| `LegacyCodec.DecodeBodyPayload` | huffman.cpp:511-544 | the payload written for a text decodes back to the text with an internal root |
| `LegacyCodec.CompressDecompress` | huffman.cpp:452-572 | a text with at least two different characters round-trips exactly |
| `LegacyCodec.LoneCharCrash` | huffman.cpp:523-529 | as written, a non-empty text of one repeated character compresses, but decompressing it reaches a null child |
| `LegacyCodec.BuildTreeFixed` | huffman.cpp:132 | corrected tree building: no tree exactly when there are no characters, and the root is never a bare leaf |
| `LegacyCodec.CompressFixed` | huffman.cpp:293-427 | corrected compression still fails exactly on empty text |
| `LegacyCodec.CompressFixedDecompress` | huffman.cpp:523-529 | with the corrected tree every non-empty text round-trips through the unchanged decompressor |
| `OutputPath.LastDot` | main.cpp:44 | the result is the position of a dot with no dot after it, or none when there is no dot |
| `OutputPath.LastSeparator` | main.cpp:45 | the result is the position of a slash or backslash with none after it, or none when there is none |
| `OutputPath.GenerateOutputPath` | main.cpp:43-55 | the result ends with the new extension and is no longer than the input and the extension together |
| `OutputPath.CutWhenExtension` | main.cpp:48-52 | the path is cut exactly when its file name has a dot, and then at a dot with no separator after it |
| `OutputPath.OutputPathParts` | main.cpp:43-55 | the result is a prefix of the input and the extension; the prefix is the whole input exactly when the file name has no extension, and otherwise stops at the last dot |
| `OutputPath.CutAtLastDot` | main.cpp:44-51 | when the last dot has no separator after it, everything from that dot on is replaced by the extension |

## Left out

- File I/O, console messages, progress output and the menus are left out.
  That covers `main.cpp` apart from `generateOutputPath`, and all of
  `src/main.cpp`. Files are values of type `seq<byte>`.
- The legacy `displayCompressionStats` (declared at huffman.h:171, defined at
  huffman.cpp:595, called at huffman.cpp:424) is left out. So is the
  canonical compressor's inline ratio printing (src/huffman.cpp:147-153).
  Both only report file sizes and a floating-point ratio.
- Stream positioning (`tellg`, `seekg`) is left out. The canonical
  decompressor's reads are modelled on the file contents and its length.
- `deleteTree`, destructors and memory management are left out: the model
  has no heap.
- The legacy decompressor writes its output in text mode (huffman.cpp:551).
  This is left out, since the bytes written are those decoded on POSIX
  systems.
- `documentacion_completa.h` is left out: it is documentation and contains
  no code the codecs use.
- Legacy characters are `char`. The model treats them as bytes, and does not
  model whether `char` is signed.
- Both priority queues are modelled with one fixed tie rule: the first least
  node is popped. The legacy map's iteration order is the `order` parameter.
  Other libraries may break ties differently and build different trees. The
  round trips proved here hold for the rule modelled.
- RoundTrip.CompressDecompressFixed: requires the input to be shorter than
  2^64-1 bytes and the code-bit count to fit in 64 bits. A longer input is
  covered by RoundTrip.MaxSizeRejected. A code-bit count past 2^64 would wrap
  the stored `uint64` total; that case is not modelled.
- RoundTrip.CompressDecompressLosesTail: has the same two size preconditions
  as the fixed round trip.
- LegacyCodec.Compress: requires the text to be at most `INT_MAX`
  characters, because the counts are `int` and would overflow (undefined
  behaviour). Its length bound (at least 10 bytes) does not state the full
  layout; LegacyCodec.DecompressFile and LegacyCodec.CompressDecompress
  state it.
- LegacyCodec.CompressDecompress: requires at least two different
  characters. The other non-empty case is LegacyCodec.LoneCharCrash.
- LegacyTree.BuildTreeRoot: the same `INT_MAX` precondition as
  LegacyCodec.Compress.
- OutputPath.GenerateOutputPath: paths are modelled as sequences of decoded
  characters, not as the bytes of a `std::string`. The cut is the same for
  UTF-8 paths, because `.`, `/` and `\` never occur inside a multi-byte
  UTF-8 sequence. It can differ under a double-byte code page, where a
  trail byte may be 0x5C (`\`); that case is not modelled.
- The text length stored by the legacy codec is a native `size_t`. It is
  modelled as 8 little-endian bytes.

## Findings

| source | as written | input that shows it | evidently intended | confidence | as-written member | corrected member |
|---|---|---|---|---|---|---|
| src/huffman.cpp:252-259 | the decode loop stops one byte early, because it treats the byte just before the 8-byte trailer as part of the trailer; the last payload byte is never decoded | any non-empty input, e.g. the single byte `a`: its one code bit sits in the last payload byte, so nothing is decoded and the size check reports a mismatch | decode every byte between the table and the trailer | high, not executed | `RoundTrip.CompressDecompressLosesTail` | `RoundTrip.CompressDecompressFixed` |
| huffman.cpp:110-132 | a text with one distinct character gets a bare leaf as its root, which is given the code `0`; the decoder steps to a child before testing for a leaf, so the first bit takes it to the root's null left child | the text `aaa` | wrap the lone leaf under an internal root, as the canonical codec does, so that the character gets the code `0` | high, not executed | `LegacyCodec.LoneCharCrash` | `LegacyCodec.CompressFixedDecompress` |

# Huffman codec (HuffZipper) in Dafny

This project models the Huffman compressor of HuffZipper. The compressor
exists twice in the repository: class `HuffmanTree` (HuffmanTree.cpp) and
class `Huffman` (huffman.hpp). The model covers both copies as one pipeline,
parametrised by `Types.Variant`:

- **Counting.** Symbols are counted in a 128-entry table
  (`Frequency.Count`, and `Frequency.CountLookahead` for the look-ahead loop
  of class `Huffman`).
- **Leaf collection.** The present symbols are listed in ascending order
  (`Frequency.Present`).
- **Tree building.** The two lightest nodes are merged repeatedly
  (`Trees.Merge`, `Trees.Reduce`, `Trees.BuildTree`). This includes the two
  copies' different loop conditions.
- **Code assignment.** Codes are the root-to-leaf paths (`Codes.AssignCodes`,
  `Codes.CodeTable`).
- **Encoding.** The input is encoded by concatenating codes (`Codes.Encode`).
- **Text header.** One escaped `token count` line per symbol, then a
  sentinel line (`Header.Serialize`). The header is read back with
  `getline` and `>>` (`Header.ParseHeader`). The header is modelled in three
  dialects: the two copies' tables and a corrected one (`Header.Dialect`).
- **Padding line and packing.** A decimal padding count on its own line is
  followed by the MSB-first packed bits (`Bits.Padding`, `Bits.Pack`, and the
  loop `Bits.SaveEncoded`). Unpacking stops at the padding in the last byte
  (`Bits.Unpack`, and the loop `Bits.ReadPayload`).
- **Decoding.** The decoder walks the tree bit by bit (`Codes.Walk`).
- **Whole pipeline.** `Codec.Compress` and `Codec.Decompress` compose the
  stages.

A compressed file is one byte sequence. A bit is `true` for '1'. Undefined
behaviour in the source is a `Failure` carrying an `Error`:

- `EmptyQueue`: the top of an empty priority queue is read.
- `NullRoot`: a null root is dereferenced.
- `NullChild`: a null child is dereferenced.
- `BadLine`: an uninitialised count is read.
- `BadSymbol`: a byte of 128 or more indexes the table as a negative `char`.

`Fixed` is the same pipeline with the defects listed under "Findings"
repaired. It is proved to round-trip every input below 128.

The priority queue is modelled as "take the lightest node, the earliest in
queue order among equals; push the new node at the back". `std::priority_queue`
breaks ties differently. The round trip only needs the encoder and the
decoder to build the same tree. They do, because both push the same leaves
in ascending symbol order: HuffmanTree.cpp:32-35 pushes from the count
table, and HuffmanTree.cpp:135-159 pushes from the header. The header lists
symbols in that same order.

## Model

| member | source | states |
|---|---|---|
| Frequency.Count | HuffmanTree.cpp:21-28 | after reading the input, entry `s` of the 128-entry table is the number of occurrences of `s`, and the entries sum to the input length |
| Frequency.CountLookahead | huffman.hpp:61-71 | the get-before-eof loop counts every byte exactly once: the same occurrence counts and total as `Count` |
| Frequency.Present | HuffmanTree.cpp:31-36 | the leaf list holds exactly the symbols with a nonzero count, with that count, in strictly ascending symbol order |
| Frequency.PresentSumIsLength | HuffmanTree.cpp:31-36 | the counts on the leaf list add up to the input length |
| Trees.FirstMin | HuffmanTree.hpp:19-25 | the chosen node is no heavier than any node in the queue, and strictly lighter than every node before it |
| Trees.Without | HuffmanTree.cpp:42-43 | `pop()` removes exactly one node: the queue shrinks by one and its multiset loses exactly that node |
| Trees.WithoutContents | HuffmanTree.cpp:42-43 | popping a node removes exactly its weight and its leaf symbols from the queue |
| Trees.Merge | HuffmanTree.cpp:42-47 | one round shrinks the queue by one and pushes an internal node that weighs what its two children weigh |
| Trees.MergeTakesLightest | HuffmanTree.cpp:42-47 | a round pops exactly two nodes and pushes their parent; the left child is a lightest node, and the right child is no heavier than any node left |
| Trees.MergeKeepsWeight | HuffmanTree.cpp:44-47 | a round keeps the total weight of the queue |
| Trees.MergeKeepsSymbols | HuffmanTree.cpp:44-47 | a round keeps the multiset of leaf symbols of the queue |
| Trees.MergeKeepsWellFormed | HuffmanTree.cpp:44-46 | a round keeps every node's weight equal to its children's sum |
| Trees.Reduce | HuffmanTree.cpp:41-49 | the last node left weighs the whole queue, holds all its leaf symbols, is well formed, and is internal when there were two or more leaves |
| Trees.BuildTree | HuffmanTree.cpp:39-50 | class `HuffmanTree` succeeds on one or more leaves; class `Huffman` (huffman.hpp:81-100) needs two; an empty queue is `EmptyQueue` and a lone leaf under class `Huffman` is `NullRoot` |
| Trees.LeavesOfPresent | HuffmanTree.cpp:32-35 | the pushed leaves carry each symbol with a nonzero count exactly once, and no other symbol |
| Trees.LeavesWeigh | HuffmanTree.cpp:32-35 | the pushed leaves weigh the total of the counts |
| Codec.TreeOfInput | HuffmanTree.cpp:39-50 | the built tree is well formed, its root weighs the input length, and its leaves hold each input symbol exactly once |
| Codec.TableLength | HuffmanTree.cpp:31-36 | the leaf list is empty exactly when the input is, and has two or more entries exactly when the input has two different symbols |
| Codes.AssignCodes | HuffmanTree.cpp:52-60 | each leaf's code extends the path accumulated so far |
| Codes.OneEntryPerLeaf | HuffmanTree.cpp:52-60 | the walk assigns exactly one entry per leaf of the tree |
| Codes.CodesArePaths | HuffmanTree.cpp:52-60 | each leaf's code, '0' for left and '1' for right, is the path from the root to that leaf |
| Codes.CodesPrefixFree | HuffmanTree.cpp:52-60 | no leaf's code is a prefix of another leaf's code, so the codes are pairwise distinct |
| Codes.EveryLeafCoded | HuffmanTree.cpp:62-65 | every leaf symbol of the tree receives a code |
| Codes.LookupCode | HuffmanTree.cpp:55 | the code stored for a symbol that has a leaf is the code of one of its leaves |
| Codes.CodeTableReaches | HuffmanTree.cpp:62-65 | the code stored for every leaf symbol leads from the root to a leaf holding that symbol |
| Codes.EncodeAppend | HuffmanTree.cpp:93-102 | encoding a concatenation is the concatenation of the encodings |
| Codes.Walk | HuffmanTree.cpp:173-187 | the decoder emits at most one symbol per bit, and after a nonempty bit string it stands at the root or at an internal node |
| Codes.WalkCode | HuffmanTree.cpp:179-185 | walking one code from the root emits its leaf's symbol and restarts at the root |
| Codes.DecodeEncode | HuffmanTree.cpp:168-187 | walking the encoding of an input over a tree with an internal root gives the input back and ends at the root |
| Bits.Padding | HuffmanTree.cpp:107 | the padding is below 8, fills the bit count up to a multiple of 8, and is 0 exactly for a multiple of 8 |
| Bits.PackLength | HuffmanTree.cpp:109-125 | packing writes the bit count rounded up to a multiple of eight, divided by eight, in bytes |
| Bits.PaddingBitsZero | HuffmanTree.cpp:121-125 | the low `padding` bits of the last packed byte are zero |
| Bits.Truncate | HuffmanTree.cpp:113 | storing into the `unsigned char` keeps the value modulo 256, and leaves a value below 256 unchanged |
| Bits.SaveEncoded | HuffmanTree.cpp:105-127 | the shift-and-put loop, truncating to 8 bits, writes the padding count and exactly the packed bytes |
| Bits.Unpack | HuffmanTree.cpp:172-178 | the decoder reads 8 bits from each byte but the last, and 8 minus the padding from the last |
| Bits.Kept | HuffmanTree.cpp:175-177 | the decoder keeps at most eight bits of the last byte; `Bits.KeptPadding` proves it keeps exactly the written bits |
| Bits.BitAt | HuffmanTree.cpp:179 | the bit test `byte & (1 << i)`; `Bits.ToBitsAt` proves the `j`-th of the `k` bits of `n`, most significant first, is the bit tested at position `k - 1 - j` |
| Bits.KeptPadding | HuffmanTree.cpp:177 | breaking at bit positions below the padding keeps exactly the written bits of a partial last byte |
| Bits.ReadPayload | HuffmanTree.cpp:172-178 | the nested byte and bit loop reads exactly the unpacked bit string |
| Bits.UnpackPack | HuffmanTree.cpp:172-178 | unpacking the packed bits with their padding count gives the bits back |
| Text.ReadToken | HuffmanTree.cpp:140 | `>>` into a string succeeds exactly when a non-space byte remains; the skipped input is the token followed by the rest, the token is a nonempty run of non-space bytes, and the rest is empty or starts with whitespace |
| Text.SkipSpace | HuffmanTree.cpp:140 | the sentry of `>>` drops exactly the leading whitespace: every dropped byte is whitespace and what remains does not start with one |
| Text.Decimal | HuffmanTree.cpp:74 | `<<` of a count writes one or more decimal digits with no leading zero |
| Text.DigitsValue | HuffmanTree.cpp:164 | the value `>>` accumulates from a digit run; `Text.DecimalRoundTrip` proves it reads the written digits back as the number |
| Text.DecimalRoundTrip | HuffmanTree.cpp:74 | the digits written for a count read back as that count |
| Text.ReadNumber | HuffmanTree.cpp:164 | `>>` into a number succeeds exactly when a digit follows the skipped whitespace; the skipped input is then a run of digits worth the value read, followed by the rest, which does not start with a digit |
| Text.ReadDecimal | HuffmanTree.cpp:163-165 | the written padding count reads back as itself, leaving the newline after it |
| Trees.LeavesOf | HuffmanTree.cpp:32-35 | one leaf per listed symbol, weighing its count; `Trees.LeavesOfPresent` and `Trees.LeavesWeigh` state its symbols and total weight |
| Codes.CodeTable | HuffmanTree.cpp:62-65 | a code for each of the 128 symbols; `Codes.CodeTableReaches` proves each present symbol's code leads from the root to its leaf |
| Codes.Encode | HuffmanTree.cpp:93-102 | the concatenated codes of the input; `Codes.EncodeAppend` proves it distributes over concatenation and `Codes.DecodeEncode` that walking it gives the input back |
| Bits.Pack | HuffmanTree.cpp:109-125 | the packed bytes are empty exactly when the bits are; `Bits.PackLength` gives one byte per eight bits rounded up and `Bits.UnpackPack` proves unpacking returns the bits |
| Header.Sentinel | HuffmanTree.cpp:88 | the end marker is a nonempty line; class `Huffman` uses the 18-byte marker of huffman.hpp:146 |
| Header.SentinelPlain | HuffmanTree.cpp:136 | the end marker holds no space and no newline, so no symbol line equals it |
| Header.Escape | HuffmanTree.cpp:72-85 | a token is the symbol itself or a backslash and one more byte, never containing a newline, and never a space after its first byte |
| Header.UnescapeEscape | huffman.hpp:219-232 | reading a written token gives its symbol back in every case except a tab in class `Huffman` |
| Header.ReadLine | HuffmanTree.cpp:135 | `getline` reads a line exactly when input remains; the line holds no newline, and the input is the line, a newline and the rest, or, when no newline is left, the line alone |
| Header.ReadLineOf | HuffmanTree.cpp:135 | a line ending in a newline is read back whole, leaving what follows |
| Header.ParseLine | HuffmanTree.cpp:137-157 | a parsed line names a symbol below 128; it fails with `BadLine` exactly when the count is never read (no token, or nothing but whitespace after the token), fails with `BadSymbol` exactly when the unescaped token is 128 or more, and otherwise gives the unescaped token as the symbol |
| Header.ReadCount | HuffmanTree.cpp:140 | the count field of a written line reads back as the count |
| Header.LineRoundTrip | HuffmanTree.cpp:137-157 | the line written for an escapable symbol reads back as the same symbol and count |
| Header.LineRoundTripIff | huffman.hpp:212-232 | a written line reads back exactly when its symbol is escapable in the dialect: in the source, not a vertical tab or form feed, and not a tab in class `Huffman` |
| Header.TabReadAsBackslash | huffman.hpp:219-232 | class `Huffman` reads the tab line back as a backslash with the tab's count |
| Header.SpaceSymbolMisread | HuffmanTree.cpp:84 | a vertical tab or form feed written raw is skipped by `>>`, so the count's digits become the token and nothing is left for the count, which is never read |
| Header.Serialize | HuffmanTree.cpp:68-90 | the header is one line per listed symbol and the sentinel line (huffman.hpp:121-148 for class `Huffman`); `Header.HeaderRoundTrip` proves the reader gives the list back |
| Header.Unescape | HuffmanTree.cpp:141-155 | the escape lookup, with no `\t` branch in huffman.hpp:219-230; `Header.UnescapeEscape` proves it inverts `Escape` except for a tab in class `Huffman` |
| Header.ParseHeader | HuffmanTree.cpp:134-137 | what follows the header is shorter than the input or empty, and strictly shorter in the corrected dialect |
| Header.HeaderRoundTrip | HuffmanTree.cpp:135-159 | reading a written header gives back its symbol/count list and exactly the bytes after the sentinel line |
| Codec.Table | HuffmanTree.cpp:21-36 | the counted, present symbols; `Codec.TableLength` and `Codec.LeavesOfInput` prove it is empty exactly for the empty input and lists each input symbol once |
| Codec.Compress | HuffmanTree.cpp:203-210 | header, padding line, then the packed code string; `Codec.CompressOutcome` states when it fails and `Codec.RoundTrip` that `Codec.Decompress` inverts it |
| Codec.Decompress | HuffmanTree.cpp:129-187 | the decoded text has at most eight symbols per byte of the compressed file |
| Codec.TrailerRead | HuffmanTree.cpp:163-165 | the padding line as written reads back as the padding count, leaving its newline and the payload |
| Codec.WrittenReadsBack | HuffmanTree.cpp:134-178 | a written file splits back into the header's list, the padding count and the exact code string |
| Codec.CompressOutcome | HuffmanTree.cpp:203-210 | compression fails exactly on an empty input (`EmptyQueue`, both copies) and on a single distinct symbol under class `Huffman` (`NullRoot`) |
| Codec.RoundTrip | HuffmanTree.cpp:203-215 | decompressing the compressed input gives the input back when it has two different symbols, all escapable in the copy's header |
| Codec.EmptyInputFails | HuffmanTree.cpp:49 | an empty input reads the top of an empty queue |
| Codec.SingleSymbolNullRoot | huffman.hpp:85-117 | with one distinct symbol the root stays null and compression dereferences it |
| Codec.SingleSymbolDecodesEmpty | HuffmanTree.cpp:54-56 | with one distinct symbol the lone leaf's code is empty, and decompression of the compressed file yields nothing |
| Fixed.FixedCodes | HuffmanTree.cpp:52-60 | repaired code table: a lone leaf gets the code "0", and otherwise every symbol's code leads from the root to its leaf |
| Fixed.Compress | HuffmanTree.cpp:203-210 | repaired compression never fails; it escapes every byte the token reader skips as whitespace, and the backslash, and ends the header with "@END"; `Fixed.FileReadsBack` and `Fixed.RoundTrip` prove `Fixed.Decompress` reads it back |
| Fixed.Decompress | HuffmanTree.cpp:129-187 | repaired decompression yields at most eight symbols per byte of the file; `Fixed.RoundTrip` proves it inverts `Fixed.Compress` for every input below 128 |
| Fixed.FileReadsBack | HuffmanTree.cpp:134-178 | the repaired compressed file reads back as its list, its padding count and its exact code string |
| Fixed.RoundTrip | HuffmanTree.cpp:203-215 | the repaired codec gives back every input below 128, including the empty input and one of a single repeated symbol |

## Left out

- File opening, its error exit, and writing the output file. These are I/O; the model works on byte sequences.
- main.cpp, encode.cpp and decode.cpp. They are command-line wrappers.
- Memory management (`shared_ptr`, `new`, leaks). The tree is an immutable datatype.
- A header that names the same symbol twice. In the source both lines push the same shared node, so the later count changes an entry already in the heap. The model pushes two independent leaves.
- The exact `std::priority_queue` heap layout and its tie-breaking among equal counts. A deterministic first-minimum rule replaces them, as described above.
- Bytes of 128 or more in the input. They index past the 128-entry table, which is undefined behaviour. Every input operation requires symbols below 128.
- Signs and 32-bit limits of the counts and the padding. A count is an unbounded `nat`, and the reader's digits are unsigned: a negative or overflowing count is not modelled.
- Header.ParseLine: a line without a token, or with only whitespace after its token, leaves the count uninitialised (`>> freq` meets the end of the line before any digit). It is modelled as the failure `BadLine`, not as an arbitrary count.
- Codec.Decompress: undefined behaviour (an empty queue, a null root or child) is a failure, not whatever the process happens to do.
- Codec.RoundTrip: stated for inputs with two different symbols, all escapable in the copy's header. The other inputs are what the finding lemmas and `Fixed.RoundTrip` cover.

## Findings

| source | as written | input that shows it | evidently intended | confidence | as-written member | corrected member |
|---|---|---|---|---|---|---|
| huffman.hpp:219-232 | the reader's escape table has no `\t`, so the token `\t` is read as its first byte, a backslash | any input with a tab and another symbol, e.g. "a\tb" | a tab reads back as a tab, as in HuffmanTree.cpp:144-145 | high, not executed | Header.TabReadAsBackslash | Fixed.RoundTrip |
| HuffmanTree.cpp:84 | a vertical tab (11) or form feed (12) is written as itself; `>>` skips it as whitespace and takes the count's digits as the token | "a\vb": its header line "\v 1" reads back as symbol '1' with an uninitialised count | every symbol below 128 reads back as itself | medium, not executed | Header.SpaceSymbolMisread | Fixed.RoundTrip |
| HuffmanTree.cpp:54-56 | when the root is a leaf its code is empty, so nothing is written after the padding line | "aaa" decompresses to "" | "aaa" decompresses to "aaa" | high, not executed | Codec.SingleSymbolDecodesEmpty | Fixed.RoundTrip |
| huffman.hpp:85 | the loop `while(tempPQ.size() != 1)` never runs for one leaf, so the root stays null and huffman.hpp:104 dereferences it | "aaa" | compression of a one-symbol input succeeds | high, not executed | Codec.SingleSymbolNullRoot | Fixed.RoundTrip |
| HuffmanTree.cpp:49 | `top()` of an empty queue for an empty input (also huffman.hpp:87) | "" | an empty input compresses to an empty header and decompresses to "" | high, not executed | Codec.EmptyInputFails | Fixed.RoundTrip |

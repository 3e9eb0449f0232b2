# Huffman compression engine of Bruh_tool, in Dafny

Bruh_tool compresses a text file with Huffman coding. It counts each symbol,
builds a Huffman tree by repeatedly merging the two lightest trees of a
min-heap, and reads a prefix-free code per symbol off the tree (`0` = left,
`1` = right). It then concatenates the codes of the text. Finally it puts an
8-bit header in front of the bit string that holds the pad amount, and appends
that many zero bits so that the whole stream fills whole bytes.
Decompression reads the header, strips the header and the padding, and
decodes greedily: bits are accumulated, and a symbol is emitted whenever the
accumulator equals a code.

The model follows `bruh_tool/huffmancoding.py` function by function:

| file | module | models |
|---|---|---|
| `wrappers.dfy` | `Wrappers` | `Option`, `Result` and the error kinds |
| `bitstring.dfy` | `BitString` | bit strings (`seq<bool>`, `false` = `'0'`), the 8-bit binary header and its reading back |
| `frequency.dfy` | `Frequency` | `build_frequency_table`; the sum of a table's counts |
| `tree.dfy` | `HuffmanTree` | the tree, the heap as a forest, `build_huffman_tree` |
| `codes.dfy` | `CodeGen` | `generate_codes`; prefix-freedom; codes as root-to-leaf paths |
| `codec.dfy` | `Codec` | `encode_text`, the reverse table, `decode_text` |
| `padding.dfy` | `Padding` | `pad_encoded`, `remove_padding` |
| `pipeline.dfy` | `Pipeline` | the compress and decompress flows of `bruh_tool/UI.py` |

The heap is a sequence of trees. Each pop removes *some* tree of minimum
weight, chosen with `:|`. Every property proved about the tree, the codes and
the round trip therefore holds for every tie-break the heap might apply.
Likewise, the reverse code table is built by visiting the keys in an order
left open.

## Model

| member | source | states |
|---|---|---|
| `Frequency.FrequencyTable` | bruh_tool/huffmancoding.py:5-11 | the table's keys are exactly the symbols occurring in the text, and each count is the number of occurrences of that symbol |
| `Frequency.TotalOfFrequencyTable` | bruh_tool/huffmancoding.py:5-11 | the counts of the frequency table add up to the length of the text |
| `HuffmanTree.InitialForest` | bruh_tool/huffmancoding.py:16-17 | the initial heap holds one well-formed leaf per table entry, and the leaves together carry exactly the table |
| `HuffmanTree.PopMin` | bruh_tool/huffmancoding.py:19-20 | a pop removes one occurrence of a tree of the heap weighing no more than any other; the remaining trees with the popped one are the heap as before, as a multiset |
| `HuffmanTree.MergeTwoLightest` | bruh_tool/huffmancoding.py:18-24 | one loop round takes a lightest tree `left` and a lightest `right` among the rest, keeps every other tree, and pushes `Node(left.w + right.w, left, right)`; the heap shrinks by one, keeps its leaves, their symbols disjoint and every tree well formed |
| `HuffmanTree.WeightIsTotal` | bruh_tool/huffmancoding.py:21 | in a well-formed tree the root weighs the sum of its leaves' weights |
| `HuffmanTree.LeafIffOneSymbol` | bruh_tool/huffmancoding.py:18-25 | a tree with distinct leaf symbols is a lone leaf exactly when it holds one symbol |
| `HuffmanTree.LastTree` | bruh_tool/huffmancoding.py:25 | the one tree left on the heap carries the whole table, weighs the sum of all counts, and is a leaf exactly when the table has one entry |
| `HuffmanTree.BuildHuffmanTree` | bruh_tool/huffmancoding.py:13-25 | no tree exactly when the table is empty; otherwise its leaves are exactly the table's symbols with their counts, node weights are children's sums, the root weighs the total count, and it is a lone leaf exactly when the table has one entry |
| `CodeGen.CodesFrom` | bruh_tool/huffmancoding.py:32-38 | the walk from a subtree gives a code to exactly the subtree's symbols; each code extends the path so far, is non-empty, and is strictly longer below an internal node |
| `CodeGen.CodesFromPrefixFree` | bruh_tool/huffmancoding.py:37-38 | the codes read off a tree with distinct symbols are prefix-free |
| `CodeGen.GenerateCodes` | bruh_tool/huffmancoding.py:27-39 | no tree gives the empty table; otherwise one prefix-free, non-empty code per symbol of the tree; a lone leaf gets the code `0` |
| `CodeGen.CodesArePaths` | bruh_tool/huffmancoding.py:37-38 | below an internal root, following a symbol's code from the root ends on that symbol's leaf (its length is the leaf's depth), and every path ending on a leaf is that leaf's code |
| `Codec.Encode` | bruh_tool/huffmancoding.py:42 | with non-empty codes the encoding is at least as long as the text |
| `Codec.EncodeText` | bruh_tool/huffmancoding.py:41-42 | succeeds exactly when every symbol has a code, with the concatenated codes; otherwise fails naming the first symbol without a code |
| `Codec.EncodeAppend` | bruh_tool/huffmancoding.py:42 | the encoding of a concatenation is the concatenation of the encodings |
| `Codec.EncodedLength` | bruh_tool/huffmancoding.py:41-42 | the encoding's length is the sum over symbols of count times code length |
| `Codec.ReverseCodes` | bruh_tool/huffmancoding.py:59 | the reverse table's keys are exactly the codes, and each maps back to a symbol having that code |
| `Codec.ReverseUnique` | bruh_tool/huffmancoding.py:59 | a prefix-free table has exactly one reverse table, so the dictionary's key order cannot change the decoding |
| `Codec.ReverseOfCode` | bruh_tool/huffmancoding.py:59 | for a prefix-free table every code reverses to its own symbol |
| `Codec.DecodeFrom` | bruh_tool/huffmancoding.py:60-67 | the decoder emits at most one symbol per bit, each a value of the reverse table |
| `Codec.DecodeOneCode` | bruh_tool/huffmancoding.py:62-66 | reading the rest of a code after the accumulated part emits exactly its symbol and clears the accumulator |
| `Codec.DecodeEncodeAppend` | bruh_tool/huffmancoding.py:58-67 | decoding an encoded text followed by any bits gives the text followed by the decoding of those bits |
| `Codec.DecodeIncomplete` | bruh_tool/huffmancoding.py:62-67 | bits that stay a proper prefix of a code emit nothing |
| `Codec.DecodeTruncated` | bruh_tool/huffmancoding.py:58-67 | an encoding followed by a proper prefix of a code decodes to the text: the remainder is silently dropped |
| `Codec.DecodeText` | bruh_tool/huffmancoding.py:58-67 | the result is the greedy decoding of the whole stream under a reverse table of the codes, for every stream; every decoded symbol has a code, at most one per bit; with a prefix-free table of non-empty codes, an encoding of a text followed by an incomplete remainder decodes to that text |
| `Padding.PadAmount` | bruh_tool/huffmancoding.py:45 | the pad amount is below 8 and brings the length to a multiple of 8 |
| `Padding.PadAmountUnique` | bruh_tool/huffmancoding.py:45 | no other value below 8 brings the length to a multiple of 8 |
| `Padding.PadEncoded` | bruh_tool/huffmancoding.py:44-48 | the padded stream is the 8-bit header of the pad amount, the stream unchanged, then that many zero bits, in whole bytes |
| `Padding.DropLast` | bruh_tool/huffmancoding.py:55 | `s[:-k]` keeps a prefix, of length `len - k`, or nothing when `k` is at least the length |
| `Padding.RemovePadding` | bruh_tool/huffmancoding.py:50-56 | fails exactly on the empty stream; otherwise a prefix of the bits after the header, shortened by exactly the header's value, or empty when the header exceeds the bits after it |
| `Padding.RemovePaddingOfPad` | bruh_tool/huffmancoding.py:44-56 | every padded stream is well padded, and removing its padding gives back the stream |
| `Padding.PadOfRemovePadding` | bruh_tool/huffmancoding.py:44-56 | every well-padded stream is the padding of what removing its padding gives |
| `BitString.NatToBits` | bruh_tool/huffmancoding.py:46 | the binary form has exactly the requested width |
| `BitString.BitsToNat` | bruh_tool/huffmancoding.py:52 | the value read from `n` bits is below `2^n` |
| `BitString.BitsToNatOfNatToBits` | bruh_tool/huffmancoding.py:46-52 | reading back a number written in a width it fits gives the number |
| `BitString.NatToBitsOfBitsToNat` | bruh_tool/huffmancoding.py:46-52 | writing back the value of a bit string in its own width gives the bit string |
| `Pipeline.CodesFor` | bruh_tool/UI.py:78-80 | the code table of a text codes exactly its symbols, prefix-free and non-empty; empty for the empty text, `0` for a one-symbol text |
| `Pipeline.Compress` | bruh_tool/UI.py:78-86 | the stored stream is well padded, removes to the encoding of the text, and is a header byte plus the encoding plus the pad amount long; the table codes exactly the text's symbols |
| `Pipeline.Decompress` | bruh_tool/UI.py:121-123 | fails exactly on an empty stream; otherwise the greedy decoding, under a reverse table of the codes, of what removing the padding gives; decoded symbols all have codes; with a prefix-free table, a stream whose padding removes to a text's encoding gives that text |
| `Pipeline.CompressDecompress` | bruh_tool/UI.py:78-123 | decompressing what compression stores gives back the text, for every tie-break |

## Left out

- The Streamlit interface of `bruh_tool/UI.py` is left out, and so are its floating-point reduction percentage and its previews. Only the order in which it calls the engine is modelled.
- `bruh_tool/File_Manager.py` is left out: the zip archive, the JSON code table and the `compressed.bin` file are I/O. The model assumes the stream and the table come back unchanged.
- UTF-8 decoding of the uploaded bytes with errors ignored is left out. Texts are sequences of `char`.
- Characters other than `0` and `1` in a stored stream are left out, because bits are booleans. In the eight header characters, `int(..., 2)` does not raise on all of them. Among the cases it accepts are surrounding whitespace, a leading sign, a `0b`/`0B` prefix, single underscores between digits, and any Unicode decimal digit of value 0 or 1 (such as `１`). This list is not exhaustive. So `0000_001` reads as 1, `0b000011` reads as 3, and a negative header strips nothing. After the header, such characters go into the decoder's accumulator, where they match no code that `generate_codes` produces.
- `Node.__lt__` (in `node.py`, which is not part of this model) is assumed, not modelled. The model takes it to order nodes by `freq` first, so that `heappop` returns a lightest tree. Only the "lightest" clauses of `HuffmanTree.PopMin` and `HuffmanTree.MergeTwoLightest` rest on this assumption. The tree's leaves and weights, the codes, and the round trip hold for any pop order. Beyond weight, `__lt__`'s tie-break and `heapq`'s are left open: a pop may take any lightest tree, so the tree shape and code lengths for equal weights are not determined.
- The insertion order of the frequency dictionary is not modelled. Tables are maps, and that order only feeds the heap's tie-break.
- HuffmanTree.BuildHuffmanTree: the contract does not state that the tree has minimum weighted path length, which is the optimality of Huffman's algorithm. It states the tree's leaves, weights and shape cases only.
- Padding.RemovePadding: this follows the code, not a stricter reading. A stream shorter than 8 bits, a header above 7 and non-zero pad bits are all accepted as they come. Only an empty stream fails, because `int('', 2)` raises.
- Codec.DecodeText: this follows the code, which drops bits left in the accumulator at the end instead of reporting an invalid encoding. For a table that is not prefix-free, which reverse table the dictionary builds depends on its key order, which is left open. So the result is stated for some reverse table of the codes.
- Codec.EncodeText: `KeyError` on a symbol without a code is modelled as a failure naming the first such symbol. Exceptions are not modelled otherwise.

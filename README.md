# Huffman codec in Dafny

This project models the core of a small Huffman codec written in Python (`main.py`) and proves
properties of the model. The codec:

1. counts how often each character occurs in a text (`calculate_character_frequencies`);
2. builds a Huffman tree by repeatedly merging the two lightest trees of a priority queue
   (`build_huffman_tree`, with `HuffmanNode` as the tree node);
3. assigns each leaf's character the path from the root to that leaf as its code, 0 for left
   and 1 for right (`assign_huffman_codes`);
4. encodes a text by joining the codes of its characters (`encode_text_using_huffman`);
5. frames the code bits as bytes. The first byte holds the number of padding bits. The code bits
   follow, padded with zero bits to a whole number of bytes and packed most significant bit
   first (`encode_to_file`);
6. reads such bytes back, drops the padding (`decode_from_file`) and decodes the bits by walking
   the tree (`decode_text`).

The model works on values. The file is the sequence of bytes it would hold. Bits are the
integers 0 and 1, and the source's strings of `'0'` and `'1'` become sequences of them. The tree
is an immutable datatype, since the source never changes a node once it is built. The loops of
the source are methods:

- the counting loop (`Frequencies.CountFrequencies`);
- the merging loop (`TreeBuilder.BuildTree`, with one turn in `TreeBuilder.MergeTwo` and each
  `heappop` in `TreeBuilder.PopMin`);
- the decoding loop (`Decoding.DecodeText`);
- the packing loop (`Framing.Pack`);
- the unpacking loop (`Framing.Unpack`).

Each of these methods is proved equal to a specification function: `Tally`, `Huffman`,
`Combine`, `MinIndex`, `Decode`, `PackSpec` and `UnpackSpec`. The properties are proved about
those functions. In particular, `Huffman` is the greedy construction itself, so the tree
`BuildTree` returns is pinned down completely, not only by the invariants it keeps.

Modules, in dependency order: `HuffmanTypes` (bits, bytes, errors, the tree),
`Frequencies`, `TreeBuilder`, `Codes`, `Encoding`, `Decoding`, `Framing` and `Pipeline` (the
stages chained the way the driver chains them).

The model follows the code in four places where a reader might expect otherwise:

- A lone leaf gets the empty code. A text with one distinct character is therefore encoded as
  no bits and decodes to the empty string. The source does not crash here, and it does not
  build a degenerate root either.
- A code word cut short at the end of the bits is dropped silently. It does not raise an error.
- A padding byte larger than the number of bits, or equal to 0, leaves no bits to decode. This
  follows the Python slice `s[:-padding]`; no error is raised.
- The padding is `8 - n % 8`, which is 8, a whole extra byte, when `n` is already a multiple of 8.

Errors are values of `HuffmanTypes.Error`:

- `InvalidInput` is the `IndexError` of `priority_queue[0]` on an empty table.
- `UnknownSymbol(c)` is the `KeyError` of a character without a code.
- `MalformedStream` is the `AttributeError` raised when a bit is read while the cursor is on a
  lone-leaf root.

## Model

| member | source | states |
|---|---|---|
| HuffmanTypes.Symbols | main.py:4-9 | A tree has at least one leaf, and it is an internal node exactly when it has two or more leaves. |
| Frequencies.Bump | main.py:17 | One update keeps the dict valid. The keys become the old keys plus the character. The character's count becomes one more than before, counting from 0 for a new key. Every other count is unchanged. The old key order is kept, and at most the new character is added at the end. |
| Frequencies.Tally | main.py:14-18 | The dict built from a text is valid (distinct keys, equal to the mapping's domain) and its keys are exactly the characters of the text. |
| Frequencies.CountFrequencies | main.py:14-18 | The counting loop produces the dict for the whole text. Its keys are the text's characters, each key's count is that character's number of occurrences, and the counts add up to the text's length. |
| Frequencies.TallyCounts | main.py:14-18 | Every character's count equals its number of occurrences in the text, and a character that is not a key does not occur. |
| Frequencies.TallyWeighted | main.py:14-18 | Weighting each key's count by any per-character weight gives the same sum as weighting every character of the text, so each occurrence is counted exactly once. |
| Frequencies.BumpWeighted | main.py:17 | One dict update keeps the dict valid and adds exactly the new character's weight to the weighted sum. |
| Frequencies.TallySum | main.py:14-18 | The counts add up to the length of the text. |
| TreeBuilder.InitialQueue | main.py:21 | The initial queue has one tree per key. The tree at each position is a leaf carrying that key and its count. |
| TreeBuilder.InitialQueueForest | main.py:21 | Read tree by tree, the initial queue's leaves are the keys in key order. Its total weight is the sum of the counts, and every tree in it keeps the weight invariant and carries its key's count. |
| TreeBuilder.MinIndex | main.py:24-25 | The position `heappop` takes from holds a tree no heavier than any other in the queue (by frequency, as `__lt__` compares), and every tree in front of it is strictly heavier, so it is the first of the lightest trees. |
| TreeBuilder.PopMin | main.py:24-25 | `heappop` removes the tree at `MinIndex`: a tree no heavier than any other in the queue, and the nearest to the front among equals. The queue is left with exactly the other trees, in their order. |
| TreeBuilder.MergeForest | main.py:24-29 | Popping two trees and pushing their merge keeps the multiset of leaf characters in the queue and the queue's total weight. |
| TreeBuilder.MergeTwo | main.py:24-29 | One turn of the loop is `Combine`. The left child is a lightest tree and the right child a lightest of the rest. The merged node weighs their sum and replaces the two, so the queue shrinks by one. The queue's leaves and total weight do not change. |
| TreeBuilder.Combine | main.py:24-29 | A turn shrinks the queue by one tree. |
| TreeBuilder.CombineKeeps | main.py:24-29 | A turn keeps the multiset of leaf characters in the queue and its total weight. If every tree keeps the weight invariant and carries the counts, so does every tree after the turn. |
| TreeBuilder.Huffman | main.py:23-30 | The tree the merging loop ends with has the starting queue's leaf characters, with their multiplicities, and weighs the queue's total weight. |
| TreeBuilder.HuffmanKeeps | main.py:23-30 | If every tree of the starting queue keeps the weight invariant and carries the counts, so does the tree the loop ends with. |
| TreeBuilder.BuildTree | main.py:20-30 | It fails with `InvalidInput` exactly when the table is empty. Otherwise the tree is the greedy tree `Huffman` of the initial queue. Every internal node weighs the sum of its children, and every leaf carries its character's count. The leaves are the table's keys, each exactly once, and the root weighs the total count. |
| TreeBuilder.HuffmanMergesLightestFirst | main.py:23-30 | With counts a:1, b:1 and c:5, the construction merges the two light leaves first, and the heavy leaf joins them at the root. |
| Codes.CodeTable | main.py:32-38 | After the walk, the table has a binding for exactly the characters it had before and the characters at the leaves below the node. |
| Codes.AssignCodes | main.py:32-38 | The table has a code for exactly the characters of the tree. |
| Codes.CodeTableKeeps | main.py:32-38 | The walk leaves the binding of every character that is not below the node unchanged. |
| Codes.CodeTableSpec | main.py:32-38 | The traversal binds each leaf below the node to the prefix followed by that leaf's path from the node, and leaves every other existing binding unchanged. |
| Codes.CodesAreLeafPaths | main.py:32-38 | The code table's keys are exactly the tree's characters, and each code is the path from the root to that character's leaf. |
| Codes.LeafPathIsMaximal | main.py:32-38 | A path that reaches a leaf cannot be extended to reach another leaf. |
| Codes.CodesPrefixFree | main.py:32-38 | No character's code is a prefix of another character's code. |
| Codes.CodesEmptyOnlyAtLeafRoot | main.py:32-37 | A code is empty exactly when the root is a leaf. |
| Encoding.EncodeText | main.py:40-41 | Encoding succeeds exactly when every character of the text has a code. Otherwise it fails with `UnknownSymbol`, naming the first character of the text that has no code. |
| Encoding.EncodeAppend | main.py:41 | The encoding of a concatenation is the concatenation of the encodings. |
| Encoding.EncodeLength | main.py:40-41 | The encoding's length is the sum of the code lengths of the text's characters. |
| Encoding.EncodeCost | main.py:40-41 | The encoding's length is the sum, over the keys of the text's dict, of count times code length. |
| Decoding.Walk | main.py:46-50 | The walk only extends the output it starts with, by at most one character per bit read. It can fail only when the cursor or the root is a leaf. |
| Decoding.Decode | main.py:43-51 | Decoding fails exactly when the tree is a lone leaf and there is at least one bit. Otherwise the output has no more characters than there are bits. |
| Decoding.DecodeText | main.py:43-51 | The decoding loop computes the tree walk that `Decode` specifies. |
| Decoding.WalkCodeWord | main.py:46-50 | Reading one complete code word emits its character and returns the cursor to the root. |
| Decoding.WalkEncoded | main.py:43-51 | Walking the encoding of a text from the root emits the text. |
| Decoding.DecodeEncode | main.py:43-51 | Round trip: for a tree with two or more distinct leaves, decoding the encoding of any text over its characters gives the text back. |
| Decoding.LoneLeafEncodesEmpty | main.py:32-41 | With a lone leaf, every text over its character encodes to no bits. |
| Decoding.LoneLeafLosesText | main.py:32-51 | With a lone leaf, every text over its character encodes to no bits, and those bits decode to the empty string. |
| Framing.BitsValue | main.py:65 | The value of a bit string is below 2 to the power of its length. |
| Framing.ToBits | main.py:59 | Formatting a number gives exactly `width` bits. |
| Framing.ValueOfBits | main.py:59 | Writing a number that fits in `width` bits and reading it back gives the number. |
| Framing.BitsOfValue | main.py:76 | Reading a bit string and writing its value in as many bits gives the bit string back. |
| Framing.Padding | main.py:56 | The padding is between 1 and 8 and brings the length to a multiple of 8. It is 8 exactly when the length is already a multiple of 8. |
| Framing.Frame | main.py:55-60 | The framed bit string has a whole number of bytes. |
| Framing.FrameLayout | main.py:55-60 | The frame is 8 header bits whose value is the padding, then the code bits unchanged, then exactly that many zero bits. |
| Framing.PackSpec | main.py:63-65 | Packing gives one byte per eight bits. |
| Framing.UnpackSpec | main.py:73-77 | Unpacking gives eight bits per byte. |
| Framing.UnpackPack | main.py:63-77 | Unpacking packed bits gives the bits back. |
| Framing.PackUnpack | main.py:63-77 | Packing unpacked bytes gives the bytes back. |
| Framing.PackAppend | main.py:63-65 | Packing works byte by byte: packing two whole-byte strings one after the other gives their packings one after the other. |
| Framing.StripPadding | main.py:78 | As the Python slice `s[:-padding]` does, stripping keeps the first `len(s) - padding` bits, and nothing at all when the padding is 0 or at least `len(s)`. |
| Framing.Header | main.py:70-71 | The header is a byte value, 0 for an empty file. Followed by the body it gives the file back. |
| Framing.Body | main.py:72-76 | The body is the file without its first byte: one byte shorter and a suffix of the file, and empty for an empty file. |
| Framing.Payload | main.py:70-78 | The bits handed to the decoder are a prefix of the unpacked body. Their number is the body's bit count minus the header's padding count, or 0 when that count is 0 or covers all the bits. |
| Framing.PackHeader | main.py:59-65 | The eight header bits pack into the single byte holding the padding count. |
| Framing.FrameBytes | main.py:56-65 | The file is the padding count as one byte, followed by the packed padded code bits, one byte per eight bits. |
| Framing.FrameRoundTrip | main.py:53-81 | Reading the bytes written for any code bits and stripping the padding recovers exactly those bits. |
| Framing.Pack | main.py:63-65 | The packing loop writes the byte of each group of eight bits, in order. |
| Framing.Unpack | main.py:73-77 | The reading loop appends the eight bits of each byte, in order. |
| Framing.EncodeToFile | main.py:53-66 | It fails exactly when a character of the text has no code, with the encoder's error. Otherwise it returns the framed bits of the encoding and the bytes that pack them. |
| Framing.DecodeFromFile | main.py:68-81 | It decodes, with the tree, the bits that remain after the header byte is read and the padding is stripped. |
| Pipeline.FileRoundTrip | main.py:93-101 | For a tree with two or more distinct leaves, decoding the bytes written for any text over its characters gives the text back. |
| Pipeline.TreeCoversText | main.py:93-95 | A tree built from a text's dict has one leaf per distinct character and a leaf for every character of the text. |
| Pipeline.CompressAndVerify | main.py:93-101 | Encoding and decoding a text as the driver does fails with `InvalidInput` on the empty text. A text with two or more distinct characters comes back unchanged, and one with a single distinct character comes back empty. |

## Left out

- The driver `process_files` and `main` (main.py:83-132) are left out: file existence checks, reading the input file, printing, file sizes and the floating-point compression ratio. Only the stage-to-stage data flow of main.py:93-101 is modelled, in `Pipeline.CompressAndVerify`.
- The `open`, `read` and `write` calls are left out. The file is the sequence of bytes it holds, and one-byte reads become indexing into that sequence.
- The internals of `heapq` (heapify, sift-up and sift-down) are left out. The queue is a sequence, and a pop takes the lightest tree nearest the front.
- TreeBuilder.PopMin: fixes a tie-break (first in the queue; merged nodes join at the back). `heapq` breaks ties by its internal layout, which the model does not reproduce. The weight, leaf and count properties of the tree do not depend on the choice. The exact shape does: `BuildTree`'s equality with `Huffman`, and `HuffmanMergesLightestFirst`, hold for this tie-break.
- The shared mutable default argument `code_map={}` is left out. It carries codes over from earlier calls, and the model starts each call from an empty table, so stale bindings from an earlier tree are not modelled. They never change an encoding, because every character of the current text is rebound.
- Python truthiness is left out. The `if root_node:` and `if node.character:` tests become the leaf test of the datatype, which is equivalent because characters of a text are never empty strings.
- Bits are the integers 0 and 1, not the characters `'0'` and `'1'`. The string formatting `{0:08b}` and the parsing `int(byte, 2)` are modelled only for values below 256, the only values the source produces.


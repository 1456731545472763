# Huffman dictionary of cw-haffman, modelled in Dafny

The library `Haffman` builds a Huffman dictionary from a frequency table or
from a message and uses it to pack a message into bytes and to unpack them
again. The dictionary (`HfmDictionary`) has two halves. The encoder uses the
code table, which maps each char to an `HfmCharInfo` (its code bits, code
length and frequency). The decoder walks the tree of `HfmDictionaryNode`
values (internal `Node`s and `Leaf`s). The dictionary also caches
`ByteCount`, the size of the encoded message.

This project models that engine as pure functions and small methods over
sequences:

- **Tree construction** (`TreeBuilder`): the merge loop, which repeatedly
  joins the two least frequent nodes, and the wrap of a lone leaf in a node
  whose Right child is a `'\0'` placeholder.
- **Code table** (`CodeTable`, `Dictionaries`): the stack walk that gives
  every leaf its code, the `charInfos.Add` that rejects a repeated char, and
  the cached byte count.
- **Frequency table** (`FrequencyTables`): the counting loop of
  `FromMessage`.
- **Encoder** (`Encoder`): the 32-bit accumulator loop of `Encode`. It
  writes into a caller's buffer and stops when the buffer is full. Also
  `GetByteCount`.
- **Decoder** (`Decoder`): the bit-by-bit walk of `Decode` and
  `GetCharCount`.
- **Round trip** (`RoundTrip`): encoding followed by decoding.
- **Byte count** (`ByteCounts`): the cached size against the real encoded
  size.
- **Worked example** (`Scenario`): the message "aaabbc", carried through
  every stage.

`List.Sort` is not stable, so two nodes of equal frequency may come out in
either order. The model therefore takes the tie-break as a parameter
`pick`. Every law below is proved for every `pick`.

The library throws exceptions. In the model each exception is a `Failure`
of `Result`:

| error | raised when |
|---|---|
| `InvalidFrequency` | a node is constructed with a frequency that is not positive |
| `EmptyTable` | `nodes[0]` is read on an empty table |
| `DuplicateKey` | `charInfos.Add` receives `'\0'` twice, which happens only for a table whose only key is `'\0'` |
| `UnexpectedChar` | the encoder, or `GetByteCount`, meets a char that has no code |
| `Overflow` | `new byte[GetByteCount(input)]` or `new char[GetCharCount(input)]` is given a size that wrapped below zero |

The bit stream carries no length and no end marker. Decoding the bytes of
`Encode(m)` without a length therefore also walks the zero bits that fill
the last byte. The result is `m` followed by at most seven more chars, each
the char of the leftmost leaf. The library's own caller cuts the decoded
text back to the message length (`MainWindow.xaml.cs`, lines 120-126).
`RoundTrip.RoundTrip` states exactly this. Decoding into a buffer as
long as `m` returns the count `|m|` and gives `m` back
(`RoundTrip.DecodeWithLength`), as long as the bit count fits in an `int`.

Two details of the code shape the model:

- The placeholder leaf that wraps a single-symbol table is
  `new Leaf('\0', 1)` (`Haffman/HfmDictionary.cs`, line 73). Its frequency
  is 1, not the frequency of the real leaf.
- C# `int` arithmetic is unchecked. The merge sum `right.Frequency +
  left.Frequency` (line 59), the bit total `bitCount += …` (line 117), the
  count of `GetByteCount` (line 265) and the count of `GetCharCount`
  (line 355) all wrap modulo 2^32 into the `int` range (`Bits.Int32`). A
  merge whose sum wraps to a value that is not positive throws in the node
  constructor, so a table whose total exceeds `int.MaxValue` fails with
  `InvalidFrequency`. A wrapped byte or char count that is negative makes
  the array allocation throw (`Overflow`). A wrapped count that stays
  non-negative sizes a buffer that is too short, and the result is cut
  to it.
- The "Unexpected char." exceptions (`Haffman/HfmDictionary.cs`, lines 160
  and 263) do not name the char. So `UnexpectedChar` carries no char.

## Model

| member | source | states |
|---|---|---|
| Nodes.NewNode | Haffman/HfmDictionaryNode.cs:9-29 | building a Node fails with InvalidFrequency exactly when the frequency is not positive; otherwise it holds the given frequency and children |
| Nodes.NewLeaf | Haffman/HfmDictionaryNode.cs:31-36 | building a Leaf fails with InvalidFrequency exactly when the frequency is not positive (the base constructor's check); otherwise it holds the char and frequency |
| Nodes.WeightedFrequency | Haffman/HfmDictionaryNode.cs:6-7 | in a tree where each node's frequency is its children's sum, a node's frequency is the total frequency of the leaves beneath it |
| Nodes.LeafPathIsMaximal | Haffman/HfmDictionary.cs:313-318 | no path continues past a leaf, so reaching a leaf ends a code |
| CharInfos.Code | Haffman/HfmCharInfo.cs:1-4 | the code read from `Bits` over `BitCount` bits is a path of exactly `BitCount` steps whose value is `Bits` |
| Bits.ToBitsValue | Haffman/HfmCharInfo.cs:1-4 | reading a `BitCount`-bit integer as a path and back gives the integer |
| Bits.ValueToBits | Haffman/HfmCharInfo.cs:1-4 | reading a path as an integer and back gives the path |
| Bits.Int32Add | Haffman/HfmDictionary.cs:117 | adding wrapped `int` values and wrapping again is wrapping the exact sum, so a running total kept in an `int` is the wrap of the true total |
| Bits.Int32PositiveSum | Haffman/HfmDictionary.cs:59 | the wrapped sum of two positive `int`s is positive exactly when the true sum fits in an `int`, and then it is the true sum |
| Bits.BytesFor | Haffman/HfmDictionary.cs:121-123 | `(b & 7) == 0 ? b >> 3 : (b >> 3) + 1` on any `int` b, negative ones included, is the least r with b <= 8r |
| Bits.CeilDiv8 | Haffman/HfmDictionary.cs:121-123 | `(n & 7) == 0 ? n >> 3 : (n >> 3) + 1` is the least number of bytes that hold n bits |
| Bits.ValueSlice | Haffman/HfmDictionary.cs:204 | `(uint)(bits >> (bitCount - k)) & ((1 << k) - 1)` cuts out exactly the next k bits of the code |
| Bits.UintMask | Haffman/HfmDictionary.cs:204 | the `(uint)` cast before a mask of at most 32 bits changes nothing |
| Bits.ToBitsAt | Haffman/HfmDictionary.cs:305 | `(buffer >> (bufferLength - 1)) & 1` is the bit at that position of the byte, MSB first |
| Bits.PackBitsAppend | Haffman/HfmDictionary.cs:210-216 | packing a stream split at a byte boundary packs each part separately |
| Bits.PackBitsLength | Haffman/HfmDictionary.cs:241-242 | a packed stream of n bits has CeilDiv8(n) bytes, the last one zero-filled |
| Bits.PackBitsPrefix | Haffman/HfmDictionary.cs:218-220 | two streams that share their first 8m bits pack to the same first m bytes |
| Bits.BytesToBitsAt | Haffman/HfmDictionary.cs:286-305 | bit 8a + b of the decoder's stream is bit b of byte a |
| Bits.UnpackPack | Haffman/HfmDictionary.cs:241-242 | unpacking the packed stream gives back the bits followed by the zero padding of the last byte |
| FrequencyTables.IndexOf | Haffman/HfmDictionary.cs:129 | the lookup finds the position of the char, or reports it absent exactly when the char is not a key |
| FrequencyTables.Increment | Haffman/HfmDictionary.cs:128-131 | one counting step adds one occurrence of the char: the entry is added or increased, the others are unchanged, the keys stay distinct and the total grows by one |
| FrequencyTables.Frequencies | Haffman/HfmDictionary.cs:125-131 | the counted table has each char of the message exactly once, with its number of occurrences, and its total is the message length |
| FrequencyTables.FrequenciesWeighted | Haffman/HfmDictionary.cs:113-117 | summing weight times count over the table is summing the weight over the message, one term per occurrence |
| FrequencyTables.SumByPermutation | Haffman/HfmDictionary.cs:115-116 | the order in which the leaves are visited does not change the bit total |
| TreeBuilder.LastMin | Haffman/HfmDictionary.cs:44-54 | the descending sort leaves a least-frequency node last, and no node after it is as small |
| TreeBuilder.Choose | Haffman/HfmDictionary.cs:49-55 | the node taken from the end is always of least frequency, and it is the tie-break's choice whenever that choice is a least one |
| TreeBuilder.RemoveAtBag | Haffman/HfmDictionary.cs:57 | removing a node takes exactly that node out of the list |
| TreeBuilder.RemoveAtSums | Haffman/HfmDictionary.cs:57 | removing a node takes its frequency and its leaves out of the list's totals |
| TreeBuilder.Merge | Haffman/HfmDictionary.cs:49-65 | one round: the list shrinks by one; the new parent's frequency is Left + Right; Right <= Left <= every remaining node; the two children plus the rest are the old list; total frequency and leaves are unchanged |
| TreeBuilder.MergeOrder | Haffman/HfmDictionary.cs:54-55 | the two nodes taken are the least and the second least of the list |
| TreeBuilder.MergeParts | Haffman/HfmDictionary.cs:54-64 | after a round every node is either untouched or the new parent, whose children come from the list |
| TreeBuilder.MergeKeeps | Haffman/HfmDictionary.cs:49-65 | a round keeps positive frequencies, the sum invariant and the Left >= Right order of every node |
| TreeBuilder.BuildTree | Haffman/HfmDictionary.cs:48-65 | the loop ends with one tree carrying the total frequency and every initial leaf exactly once, which is a Node when there were two or more leaves, and which keeps all three invariants |
| TreeBuilder.MergeChecked | Haffman/HfmDictionary.cs:49-64 | a round with the wrapped sum fails only with InvalidFrequency; on `int` frequencies it fails exactly when the parent's true frequency exceeds `int.MaxValue`, and otherwise is the exact round and keeps the frequencies in range |
| TreeBuilder.BuildChecked | Haffman/HfmDictionary.cs:48-65 | the library's loop fails only with InvalidFrequency and leaves a lone node as it is |
| TreeBuilder.BuildCheckedTree | Haffman/HfmDictionary.cs:48-65 | on `int` frequencies the library's loop fails exactly when the total exceeds `int.MaxValue`, and otherwise builds the tree of the exact loop |
| TreeBuilder.LeavesOf | Haffman/HfmDictionary.cs:41-43 | one leaf per table entry, in order, failing with InvalidFrequency exactly when a count is not positive |
| TreeBuilder.LeavesTotals | Haffman/HfmDictionary.cs:41-43 | the initial leaves carry the table's total and exactly its keys |
| TreeBuilder.BuildTreeLeavesIn | Haffman/HfmDictionary.cs:48-65 | every leaf of the final tree is a pair of the table |
| TreeBuilder.WrapRoot | Haffman/HfmDictionary.cs:67-74 | a Node root is kept; a lone leaf becomes the Left child of a node with its frequency, next to a `'\0'` leaf of frequency 1; positivity and order carry over |
| TreeBuilder.WrapperIsNotWeighted | Haffman/HfmDictionary.cs:71-74 | the wrapper's children add up to one more than the wrapper, against the documented meaning of a node's frequency |
| CodeTable.ShiftOr | Haffman/HfmDictionary.cs:97-109 | shifting the code left by one and or-ing in branch bit b appends b to the code, which still fits in one more bit |
| CodeTable.CodeWalk | Haffman/HfmDictionary.cs:76-119 | the stack walk, with the Right child pushed last and so popped first, records one entry per leaf of the tree |
| CodeTable.CodeWalkSound | Haffman/HfmDictionary.cs:76-119 | every entry the stack walk records is a code leading from the node to a leaf with that char and frequency |
| CodeTable.CodeWalkChars | Haffman/HfmDictionary.cs:89-119 | the walk visits every leaf exactly once |
| CodeTable.DistinctCharsIffSingles | Haffman/HfmDictionary.cs:112 | the entries repeat no char exactly when no char occurs twice among them |
| CodeTable.CollectCodes | Haffman/HfmDictionary.cs:83-112 | `charInfos.Add` for every entry succeeds exactly when no char repeats, fails with DuplicateKey otherwise, and yields a table of exactly the entries' chars and infos |
| CodeTable.CodesFromWalk | Haffman/HfmDictionary.cs:76-119 | the collected table matches the tree (each code is well formed and leads to its char's leaf) and has an entry for every leaf |
| CodeTable.LeafOfPositiveTree | Haffman/HfmDictionaryNode.cs:9-14 | every node of a tree built from checked nodes has a positive frequency |
| CodeTable.LeafPathsPrefixFree | Haffman/HfmDictionary.cs:94-109 | a leaf's path is a prefix of no other path into the tree |
| CodeTable.PrefixFree | Haffman/HfmDictionary.cs:94-112 | no char's code is a prefix of another char's code |
| Dictionaries.FromFrequencyTable | Haffman/HfmDictionary.cs:39-124 | fails with InvalidFrequency on a non-positive count or a total beyond `int.MaxValue`, with EmptyTable on an empty table, with DuplicateKey on a table whose only key is `'\0'`, and succeeds exactly otherwise with a valid dictionary whose CharCount is the table's total |
| Dictionaries.BuiltFrom | Haffman/HfmDictionary.cs:41-124 | a buildable table yields one leaf per entry, carrying exactly its keys, and its dictionary is the one built from those leaves |
| Dictionaries.CheckedLeaves | Haffman/HfmDictionary.cs:41-65 | on positive `int` counts the merge loop fails exactly when the table's total exceeds `int.MaxValue`; a lone entry always fits |
| Dictionaries.TableBuild | Haffman/HfmDictionary.cs:41-74 | a table of positive counts yields leaves; the rest of the construction fails exactly on the lone `'\0'` table; the root carries the total |
| Dictionaries.Build | Haffman/HfmDictionary.cs:48-123 | from the leaves, construction succeeds exactly when the walk repeats no char, and yields a valid dictionary on the built root |
| Dictionaries.TreeFacts | Haffman/HfmDictionary.cs:48-119 | the root is a positive, ordered Node with the table's total, and its walk meets each table key once, plus `'\0'` for a lone leaf |
| Dictionaries.WalkDistinct | Haffman/HfmDictionary.cs:67-112 | the walk repeats no char exactly unless the table's only key is `'\0'` |
| Dictionaries.TableCodes | Haffman/HfmDictionary.cs:76-119 | every key of the table gets a code whose frequency is the table's count, and with two or more keys the code table has exactly the table's keys |
| Dictionaries.SingleSymbolCodes | Haffman/HfmDictionary.cs:67-123 | a single-symbol table gives the symbol code 0 and the placeholder code 1, both one bit long, and a cached byte count for f + 1 bits, which is negative when f is `int.MaxValue` |
| Dictionaries.ByteCountLaw | Haffman/HfmDictionary.cs:113-123 | with two or more keys the cached byte count is the sum over the table of code length times count, wrapped to an `int` and rounded up to whole bytes; the exact rounding when the sum fits |
| Dictionaries.TableBytes | Haffman/HfmDictionary.cs:87-123 | the bit total the walk adds up is non-negative, the cached byte count is that total wrapped to an `int` and rounded up to bytes, and it is the exact rounding when the total fits |
| Dictionaries.MessageCounts | Haffman/HfmDictionary.cs:125-131 | every count of a message no longer than `int.MaxValue` fits in an `int` |
| Dictionaries.FromMessage | Haffman/HfmDictionary.cs:125-134 | fails exactly on an empty message or one made only of `'\0'`; otherwise every char of the message has a code recording its number of occurrences, and CharCount is the message length |
| Dictionaries.MessageTable | Haffman/HfmDictionary.cs:125-134 | a message that is neither empty nor only `'\0'` counts to a table of positive counts that is not only the placeholder, and building from the message is building from that table |
| Dictionaries.OnlyPlaceholderMessage | Haffman/HfmDictionary.cs:125-134 | the counted table is the lone `'\0'` entry exactly for a non-empty message made only of `'\0'` |
| Dictionaries.MessageByteCount | Haffman/HfmDictionary.cs:113-123 | with two or more distinct chars, the cached byte count is the message's total code length, wrapped to an `int` and rounded up; the exact rounding when the total fits |
| Encoder.FirstUnknown | Haffman/HfmDictionary.cs:157-160 | the position where the encoder throws: every earlier char has a code and the char there has none |
| Encoder.CodeBitsPrefix | Haffman/HfmDictionary.cs:157-226 | the stream of a prefix of the message is a prefix of the stream |
| Encoder.CodeBitsLength | Haffman/HfmDictionary.cs:259-266 | the stream is as long as the sum of the chars' `BitCount`s |
| Encoder.ShiftIn | Haffman/HfmDictionary.cs:204 | shifting the uint accumulator left by k and or-ing in the chunk keeps the old pending bits, followed by the chunk, as its low bits |
| Encoder.AddChunk | Haffman/HfmDictionary.cs:204-207 | one step of the inner loop appends the next k bits of the code to the encoder's state |
| Encoder.Flush | Haffman/HfmDictionary.cs:210-216 | `output[encoded++] = (byte)buffer` writes the next byte of the packed stream and leaves no bits pending |
| Encoder.FinalByte | Haffman/HfmDictionary.cs:241-242 | the last byte, `(byte)(buffer << (8 - bufferLength))`, completes the packed stream with its left-aligned, zero-filled tail |
| Encoder.LastByte | Haffman/HfmDictionary.cs:241-242 | the pending bits shifted to the top of the byte are the packed last byte |
| Encoder.PushCode | Haffman/HfmDictionary.cs:166-225 | the inner loop appends the whole code unless the buffer fills, which it does exactly when the stream reaches 8 times the buffer length; then the state holds the code cut at that point |
| Encoder.PushChunk | Haffman/HfmDictionary.cs:169-221 | one pass adds Min(8 - bufferLength, remaining) bits and writes a byte when eight are pending, keeping the packed state |
| Encoder.Encode | Haffman/HfmDictionary.cs:145-245 | returns 0 and writes nothing on an empty buffer or input; throws UnexpectedChar exactly when a char without a code comes before the buffer fills; otherwise writes min(buffer, stream bytes) leading bytes of the packed stream and leaves the rest of the buffer untouched |
| Encoder.EncodeChar | Haffman/HfmDictionary.cs:157-225 | one pass of the outer loop appends the char's whole code to the packed state, or, when the buffer fills, leaves it holding the leading bytes of the stream up to the first char without a code |
| Encoder.Finish | Haffman/HfmDictionary.cs:241-244 | after the last char the written bytes are the whole packed stream |
| Encoder.EarlyReturn | Haffman/HfmDictionary.cs:218-220 | bits consumed before the buffer filled are a prefix of the stream up to the first char without a code |
| Encoder.FullResult | Haffman/HfmDictionary.cs:218-220 | a full buffer holds the leading bytes of the stream up to the first unknown char |
| Encoder.GetByteCount | Haffman/HfmDictionary.cs:255-269 | UnexpectedChar exactly when some char has no code, and otherwise the stream's bit count wrapped to an `int` and rounded up, which is the number of bytes of the packed stream when the count fits |
| Encoder.CountStep | Haffman/HfmDictionary.cs:265 | adding the next char's `BitCount` to the wrapped count gives the wrapped length of the longer stream |
| Encoder.EncodeAll | Haffman/HfmDictionary.cs:246-251 | fails with UnexpectedChar exactly when a char has no code and with Overflow exactly when the wrapped size is negative; otherwise returns the leading GetByteCount bytes of the packed stream, which are all of it when the bit count fits |
| Encoder.EncodeMessage | Haffman/HfmDictionary.cs:135-139 | the static Encode fails with FromMessage's error when FromMessage fails, and otherwise only with Overflow; it returns the message's dictionary with leading bytes of the packed stream, all of them when the bit count fits |
| Decoder.Walk | Haffman/HfmDictionary.cs:283-319 | the decoder's loop over the bit stream, a 1 going Right and a 0 Left, emits at most one char per bit, since only a step onto a leaf emits |
| Decoder.ReadBit | Haffman/HfmDictionary.cs:286-305 | the head of the decoding loops refills the buffer from the next byte when it is empty, stops exactly when the input is used up, and otherwise yields the next bit of the stream, MSB first |
| Decoder.WalkAppend | Haffman/HfmDictionary.cs:283-319 | walking two streams in a row is walking the second from where the first stopped |
| Decoder.WalkStep | Haffman/HfmDictionary.cs:305-318 | one more bit moves to the child; a leaf emits its char and sends the walk back to the root |
| Decoder.NextBit | Haffman/HfmDictionary.cs:286-305 | the bit the loop tests is the next bit of the input stream, MSB first |
| Decoder.Decode | Haffman/HfmDictionary.cs:270-322 | writes min(buffer length, decodable chars) chars, which are the leading chars of the walk over the whole input, and leaves the rest of the buffer untouched |
| Decoder.DecodedPrefix | Haffman/HfmDictionary.cs:285-319 | chars decoded from part of the stream begin the full decoding, and are all of it once the stream is consumed |
| Decoder.GetCharCount | Haffman/HfmDictionary.cs:330-362 | the number of chars the walk emits over the whole input, wrapped to an `int`; exactly that number when it fits |
| Decoder.CountBit | Haffman/HfmDictionary.cs:349-358 | one bit of GetCharCount's loop moves to the child or back to the root, and `decoded++` on a leaf keeps the wrapped count of chars emitted |
| Decoder.DecodeAll | Haffman/HfmDictionary.cs:323-328 | fails with Overflow exactly when the wrapped char count is negative; otherwise returns that many leading chars of the walk, which is the whole walk when the count fits |
| RoundTrip.WalkCode | Haffman/HfmDictionary.cs:305-318 | walking a char's code from the root emits exactly that char and returns to the root |
| RoundTrip.DecodeCodes | Haffman/HfmDictionary.cs:270-322 | walking the codes of a message emits the message |
| RoundTrip.ZerosWalk | Haffman/HfmDictionary.cs:241-242 | zero padding can emit only the leftmost leaf's char |
| RoundTrip.EncodedStream | Haffman/HfmDictionary.cs:241-242 | the encoded bytes decode to the message, then to whatever the padding walks to |
| RoundTrip.RoundTrip | Haffman.Demonstration/Windows/MainWindow.xaml.cs:120-126 | decoding Encode(m) without a length gives m followed by at most seven chars, each the leftmost leaf's, so cutting it to the length of m gives m back |
| RoundTrip.EncodableBuilds | Haffman/HfmDictionary.cs:125-134 | building from a message no longer than `int.MaxValue` succeeds exactly when the message is neither empty nor only `'\0'` |
| RoundTrip.DecodeWithLength | Haffman/HfmDictionary.cs:270-322 | decoding Encode(m) into a '\0'-filled buffer as long as m fails with UnexpectedChar exactly when a char has no code and with Overflow exactly when the wrapped size is negative; otherwise Decode's count is at most the length of m and the buffer keeps '\0' past it, and when the bit count fits the count is the length of m and the buffer holds exactly m |
| RoundTrip.EncodeThenDecode | Haffman/HfmDictionary.cs:135-139 | the static Encode followed by Decode fails, with an error other than Overflow, on the empty or all-`'\0'` message; for other messages any failure is Overflow, and when the sizes fit the result starts with the message and adds at most seven chars |
| ByteCounts.MessageKnown | Haffman/HfmDictionary.cs:125-134 | a dictionary built from a message has a code for every char of it |
| ByteCounts.ByteCountMatches | Haffman/HfmDictionary.cs:121-123 | with two or more distinct chars the cached byte count is what GetByteCount returns, and so the length of the encoded message when its bit count fits |
| ByteCounts.RepeatedFrequencies | Haffman/HfmDictionary.cs:125-131 | n copies of one char count to the single entry (c, n) |
| ByteCounts.SingleSymbolByteCount | Haffman/HfmDictionary.cs:113-123 | as written: n copies of a char other than `'\0'` encode to n bits, but the cache holds the size of n + 1 bits, negative when n is `int.MaxValue` |
| ByteCounts.ByteCountOverstated | Haffman/HfmDictionary.cs:121-123 | as written: "aaaaaaaa" encodes to one byte while the cache says two |
| ByteCounts.FixedFromFrequencyTable | Haffman/HfmDictionary.cs:39-124 | corrected: succeeds exactly on buildable tables, with a valid dictionary; with two or more keys it is the library's result, and a lone key's count is its own bit count |
| ByteCounts.TableBits | Haffman/HfmDictionary.cs:113-123 | the table's own bit total is what the cache counts with two or more keys, and the lone count otherwise |
| ByteCounts.FixedFromMessage | Haffman/HfmDictionary.cs:125-134 | corrected: fails exactly when FromMessage does, with the same codes and tree |
| ByteCounts.FixedByteCountMatches | Haffman/HfmDictionary.cs:84-87 | corrected: for every message the cached byte count is what GetByteCount returns, and so the length of the encoded message when its bit count fits |
| Scenario.KeepOrderChoose | Haffman/HfmDictionary.cs:44-55 | a sort that keeps equal frequencies in place takes the last node of least frequency |
| Scenario.FirstMerge | Haffman/HfmDictionary.cs:49-64 | for a:3, b:2, c:1 the first round joins b (Left) and c (Right) |
| Scenario.SecondMerge | Haffman/HfmDictionary.cs:49-64 | the second round joins a (Left) and the new node (Right) |
| Scenario.ExampleTree | Haffman/HfmDictionary.cs:48-65 | the tree of a:3, b:2, c:1 is (a, (b, c)) |
| Scenario.ExampleWalk | Haffman/HfmDictionary.cs:76-119 | the walk records c = 11, b = 10, a = 0, in that order, with 9 bits in total |
| Scenario.ExampleDictionary | Haffman/HfmDictionary.cs:39-124 | the dictionary of a:3, b:2, c:1 has codes a = 0, b = 10, c = 11 and a byte count of 2 |
| Scenario.ExampleValid | Haffman/HfmDictionary.cs:39-124 | the example dictionary is valid |
| Scenario.ExampleBits | Haffman/HfmDictionary.cs:157-226 | "aaabbc" becomes the nine bits 000101011 |
| Scenario.ExampleEncoding | Haffman/HfmDictionary.cs:145-245 | "aaabbc" packs to the bytes 0x15 0x80 |
| Scenario.ExampleStream | Haffman/HfmDictionary.cs:286-305 | the decoder reads 0x15 0x80 as the nine code bits followed by seven zero bits |
| Scenario.ZerosDecodeToA | Haffman/HfmDictionary.cs:305-318 | from the root each zero bit reaches the leaf a |
| Scenario.ExampleDecoding | Haffman/HfmDictionary.cs:323-328 | decoding 0x15 0x80 without a length yields "aaabbc" followed by seven 'a's |

## Left out

- The demonstration UI (`Haffman.Demonstration`) is not modelled: it is drawing and text boxes around the library.
- The read-only dictionary members `Count`, the indexer, `Keys`, `Values`, `ContainsKey`, `TryGetValue` and the enumerators are plain map operations. They are used directly on the `codes` map and get no separate model.
- `Encode`, `Decode`, `GetByteCount` and `GetCharCount` are instance methods. Here they take the code table or the tree as a parameter rather than the whole dictionary.
- `Span`, `ReadOnlySpan` and the caller's buffers are sequences. The methods return the buffer's new contents instead of writing into it.
- Exceptions are `Failure` values. What `Encode` wrote into the caller's buffer before it threw is not part of the result.
- `List.Sort` is represented by the tie-break parameter `pick` rather than modelled: `pick` may choose any node of least frequency, and an invalid choice falls back to the last one. The proofs hold for every choice. Which node an unstable sort really leaves last is not modelled.
- The 32-bit wrap of `int` sums is modelled at every site listed above, and the 32-bit `uint` accumulator of the encoder with its truncation. Counts in a table are `int` by type, so the model takes them in the `int` range. A message is at most `int.MaxValue` chars long, because a span's length is an `int`.
- The `long` code bits of a tree deeper than 63 levels are not modelled: codes are unbounded. Such a tree needs a total frequency far beyond `int.MaxValue`, a bound the model does not prove.
- RoundTrip.DecodeWithLength: when the message's bit count exceeds `int.MaxValue` but wraps to a non-negative size, `Encode` returns only the leading bytes of the stream. The contract then states only that the count is at most `|m|` and that the buffer past the count keeps its '\0's. It does not state which chars were decoded.
- RoundTrip.EncodeThenDecode: when a size wraps, it states only that any failure is Overflow; the text then decoded is not described.
- The encoder's `|` is written as `+`: the chunk always lands in bits the shift has just cleared.
- The `NodeStackEntry` stack is modelled as recursion: the Right subtree's entries are listed before the Left one's, which is the order the stack pops them.
- Nodes whose `Left` or `Right` is never set (null) cannot occur in the model. The library never builds one.
- The enumeration order of the frequency table is modelled as the order of a sequence. For `FromMessage` this is the order of first occurrence.
- RoundTrip.RoundTrip: states only that the extra chars are at most seven and all equal to the leftmost leaf's char. It does not state how many there are, which is the number of codes the zero padding completes.

## Findings

| source | as written | input that shows it | evidently intended | confidence | as-written member | corrected member |
|---|---|---|---|---|---|---|
| Haffman/HfmDictionary.cs:113-123 | `bitCount += entry.BitCount * leaf.Frequency` runs for every leaf of the walk, including the `'\0'` placeholder that wraps a single-symbol table's lone leaf. The cached `ByteCount` therefore counts one bit the message never contains. | the message "aaaaaaaa": `ByteCount` is 2, but `Encode` produces 1 byte | `ByteCount` equals the size of the encoded message, which is what the comment at lines 84-87 promises and what `GetByteCount` returns | medium, not executed | ByteCounts.SingleSymbolByteCount, ByteCounts.ByteCountOverstated | ByteCounts.FixedFromFrequencyTable, ByteCounts.FixedByteCountMatches |

The corrected construction sums code length times count over the table's
own entries. Nothing else in the model reads the cached byte count: like
the library, the encoder sizes its buffer with `GetByteCount`.

# Custom64: a word-alphabet Base64-style codec, in Dafny

`Custom64` (b64.py) encodes text as a string of Chinese words. It borrows the
6-bit grouping of Base64, but its alphabet is a table of words, not
characters. This project models the codec and proves what it guarantees.

**Encoding.**
- The UTF-8 bytes of the text become one bit string, most significant bit
  first.
- The bits are cut into `bit_width`-bit chunks. The last chunk is
  right-padded with zeros.
- Each chunk is replaced by the word for its value. An all-zero chunk uses
  the pad word at index 65 instead.

**Decoding.**
- The word string is split by a greedy longest-match scan over the table's
  words.
- Each word turns back into bits. The pad word gives `bit_width` zeros. Any
  other index gives its binary numeral left-padded to `bit_width`.
- The bits are cut into 8-bit groups. Every all-zero group is dropped and
  the rest become bytes.

**Modules.**
- `Bits`: bit strings, their values, binary numerals and splitting.
- `Table`: the two lookup tables built by `__init__`.
- `Encoder`: `_chunk_and_pad` and `encode`.
- `Segmenter`: `_segment`.
- `Decoder`: `decode`.
- `RoundTrip`: the round-trip theorem.
- `Sample`: the sample table `sample_map` with the default pad word, and
  the concrete checks on it.

**Representation.**
- Bytes are `Byte` (0 to 255) and bits are `seq<bool>`.
- A configuration mapping is its `(index, word)` entries in insertion order.
- The tables are `map`s inside the `Codec` datatype. They do not change
  after construction.

**Operations.** Each imperative operation is a method proved equal to a
specification function: `Encoder.Encode`, `Segmenter.Segment`,
`Decoder.DecodeBytes` and `Decoder.Decode`. The lemmas are stated about
those functions. The sort `Segmenter.SortByLength` is the exception: it is
not tied to a function, and its contract states that the result holds
exactly the table's words, each once, each at least as long as the next. Failures are values of `Result`:
- `UndefinedSymbol(index)`: encode meets a chunk index with no word;
- `Segmentation(position)`: decode finds no word at a position;
- `UnknownSymbol`: decode's defensive check. `Decoder.DecodeErrors` proves
  it never fires.

**Where the model follows the code.**
- Decoding keeps a final group shorter than 8 bits when it is not all zeros,
  and appends its value, because `int(bstr, 2)` accepts a short group. It is
  not discarded.
- An all-zero chunk becomes the pad word, which decodes to the same zero
  bits. So the round trip does not need "no zero chunk inside the data". It
  holds for any bytes, except that decoding drops every 0x00 byte.

## Model

| member | source | states |
|---|---|---|
| Table.ToMap | b64.py:12 | the index table has exactly the mapping's indices as keys, and every entry's index maps to the entry's word |
| Table.Invert | b64.py:14 | the inverted table has exactly the mapping's words as keys, and each word maps to an index it was paired with |
| Table.InvertLaterWins | b64.py:14 | a word maps back to its entry's index unless a later entry reuses the word (later entries win) |
| Table.New | b64.py:11-16 | after construction the index keys are the mapping's indices plus 65 and the word keys are the mapping's words plus the pad word; 65 maps to the pad word and the pad word to 65, overriding the mapping; every other entry is kept and every other inverse entry inverts a mapping entry |
| Table.NewInverts | b64.py:11-16 | with distinct words, the two tables invert each other on every entry the pad does not override |
| Bits.IsZero | b64.py:25 | definition of `set(chunk) == {'0'}`: the string is non-empty and has no one bit |
| Bits.ValueOf | b64.py:24 | the value that `int(chunk, 2)` reads is below 2 to the power of the chunk's length |
| Bits.ValueZero | b64.py:25 | a chunk's value is 0 exactly when all its bits are zero |
| Bits.ValueInjective | b64.py:24 | two bit strings of the same length and value are equal |
| Bits.ValueLeadingZeros | b64.py:35 | left-padding with zeros keeps the value |
| Bits.Digits | b64.py:35 | the shortest numeral of a value is non-empty and reads back as the value |
| Bits.DigitsFit | b64.py:35 | a value below 2^w has a numeral of at most w digits |
| Bits.Binary | b64.py:35 | the zero-padded numeral reads back as the value, is at least the width long (and at least 1), and is exactly the width when the value fits |
| Bits.BinaryOfValue | b64.py:35 | re-writing a non-empty chunk's value at the chunk's width gives the chunk back |
| Bits.ByteBits | b64.py:20 | the 8-bit numeral of a byte has 8 bits and reads back as the byte |
| Bits.BytesToBits | b64.py:20 | the joined byte numerals have 8 bits per byte |
| Bits.Zeros | b64.py:49 | a run of n zero bits has length n and no one bit |
| Bits.Concat | b64.py:20 | definition of `''.join`: the pieces in order, one after another |
| Bits.Split | b64.py:38 | slicing into n-bit pieces: the pieces join back to the input, each is 1 to n bits, and all but the last are exactly n |
| Bits.SplitCount | b64.py:38 | slicing gives ceil(length / n) pieces |
| Bits.SplitExact | b64.py:50 | when n divides the length every piece is exactly n bits |
| Encoder.PadLength | b64.py:47-49 | the number of padding zeros is below the width and makes the length a multiple of the width |
| Encoder.ChunkAndPad | b64.py:46-50 | the chunks join to the input followed by the padding zeros, and every chunk is exactly the width |
| Encoder.ChunkCount | b64.py:46-50 | there are ceil(bits / width) chunks |
| Encoder.PadCount | b64.py:47-49 | padding does not change the number of chunks |
| Encoder.ChunkIndex | b64.py:24-26 | definition: a chunk's index is its value, except that an all-zero chunk selects the pad index 65 |
| Encoder.ChunkIndices | b64.py:19-26 | definition: the index of every chunk of the padded bits of the input, in order |
| Encoder.ChunkIndexCases | b64.py:24-26 | a chunk never selects index 0; it selects the pad index exactly when it is all zeros or its value is 65; a non-zero chunk selects 1 to 2^width - 1 |
| Encoder.ChunkIndicesMeaning | b64.py:21-26 | for every chunk of the input the selected index is nonzero, is the pad index for an all-zero chunk and the chunk's value otherwise, and lies in 1 to 2^width - 1 unless it is the pad |
| Encoder.LookupWords | b64.py:23-27 | the lookup succeeds exactly when every index has a word, then gives one word per index in order; otherwise it reports the first missing index |
| Encoder.FirstMissingUnique | b64.py:23-27 | the reported error is the first index without a word |
| Encoder.EncodeSpec | b64.py:18-28 | definition of `encode` after the UTF-8 step: the words of the chunk indices, joined, or the first index without a word |
| Encoder.Encode | b64.py:18-28 | the loop returns what the encoding specification gives: the joined words of the chunk indices, or the first undefined index |
| Encoder.EncodeWords | b64.py:18-28 | with a word for the pad and for every value 1 to 2^width - 1, encoding succeeds with one word per chunk, ceil(8 * bytes / width) of them, in chunk order |
| Encoder.EncodeEmpty | b64.py:18-28 | empty input encodes to the empty string |
| Segmenter.StartsWithAt | b64.py:57 | definition of `encoded.startswith(tok, i)`: the token fits in the string from `i` and the string has it there |
| Segmenter.LongestUpTo | b64.py:56-60 | the match found is a word at the cursor, and no longer word up to the bound matches there |
| Segmenter.Longest | b64.py:53-60 | definition: the length of the longest non-empty word that starts at the cursor, if any |
| Segmenter.SegmentFrom | b64.py:52-63 | definition of what `_segment` returns from the cursor on: the longest word at each position in turn, or the segmentation error at the first position where no non-empty word starts |
| Segmenter.LongestIgnoresEmpty | b64.py:53-60 | the longest match at a position is the same with or without the empty word in the table |
| Segmenter.SegmentIgnoresEmpty | b64.py:52-63 | segmentation gives the same result with or without the empty word in the table |
| Segmenter.SortByLength | b64.py:53 | the sorted tokens are exactly the table's words, each once, each at least as long as the next |
| Segmenter.LongestExists | b64.py:53 | a non-empty set of words has a longest member |
| Segmenter.Segment | b64.py:52-63 | the scan returns the longest-match segmentation: at each position the longest word there, or the segmentation error at the first position where no word starts |
| Segmenter.LongestFirstOrder | b64.py:53 | in a list where each token is at least as long as the next, no token is shorter than any later one |
| Segmenter.FirstMatch | b64.py:56-60 | the position found is that of the first token in list order that starts at the cursor, or the list's length when none does |
| Segmenter.ScanStep | b64.py:56-60 | taking the first matching token and moving the cursor past it keeps the scan's invariant: the segments so far, followed by the segmentation from the cursor, make up the whole segmentation |
| Segmenter.LongestStep | b64.py:55-60 | where a longest match exists, segmentation takes it and continues right after it |
| Segmenter.LongestIsWord | b64.py:56-60 | in a prefix-free table, the longest match at a position where a word starts is that word |
| Segmenter.NoTokenMatches | b64.py:61-62 | when no token starts at the cursor, segmentation fails at exactly that position |
| Segmenter.FirstTokenIsLongest | b64.py:53-60 | in the length-sorted list the first token that matches is a longest match, and segmentation continues after it |
| Segmenter.SegmentCovers | b64.py:52-63 | a successful segmentation joins back to the input and every segment is a non-empty table word |
| Segmenter.SegmentGreedy | b64.py:56-60 | no word starting at the cursor is longer than the first segment |
| Segmenter.SegmentFails | b64.py:61-62 | a failure reports a position p inside the string where no non-empty word starts, and the part before p segments completely |
| Segmenter.LongestPrefix | b64.py:55-60 | cutting the input after the longest match does not change that match |
| Segmenter.SegmentUnique | b64.py:52-63 | with a prefix-free table without the empty word, a concatenation of table words segments back into exactly those words |
| Decoder.IndexBits | b64.py:35 | definition: the pad index stands for width zero bits, any other index for its binary numeral zero-padded to the width |
| Decoder.IndicesToBits | b64.py:34-37 | definition: the bits of every index, joined in order |
| Decoder.IndexBitsMeaning | b64.py:34-37 | the pad index gives width zeros; any other index reads back as itself, is exactly width bits when below 2^width and longer otherwise (64 and 66 at width 6) |
| Decoder.GroupsToBytes | b64.py:39-43 | at most one byte per group, and no 0x00 byte when no group is empty: every all-zero group is dropped, every other group gives its value |
| Decoder.IndicesToBytes | b64.py:34-43 | definition: the index bits cut into 8-bit groups, then decoded group by group |
| Decoder.DecodeSpec | b64.py:30-43 | definition of `decode` before the UTF-8 step: the segmentation error, or the bytes of the segments' indices |
| Decoder.DecodeBytes | b64.py:38-43 | the loop appends the value of every group that is not all zeros, and skips the rest |
| Decoder.Decode | b64.py:30-44 | decode returns the decoding specification: segment, map to indices, rebuild the bits, keep the non-zero 8-bit groups |
| Decoder.DecodeErrors | b64.py:31-33 | for every table, decoding never fails with the undefined-symbol error; it fails exactly when segmentation fails, at a position inside the input where no non-empty word starts |
| RoundTrip.RemoveZeros | b64.py:40-42 | the result has no zero byte and leaves zero-free input unchanged |
| RoundTrip.ByteGroupsConcat | b64.py:20 | the 8-bit groups of the bytes join to the bytes' bit string |
| RoundTrip.SplitUnique | b64.py:38 | any pieces that join to the input, are 1 to n long and are all n long but the last are the slicing |
| RoundTrip.SplitBytes | b64.py:38 | the bytes' bits plus fewer than 8 zeros slice into one group per byte and then the padding |
| RoundTrip.ByteGroupsDecode | b64.py:38-43 | decoding the groups of bytes drops exactly the zero bytes |
| RoundTrip.GroupsZeroTail | b64.py:41-42 | a trailing all-zero group adds nothing |
| RoundTrip.IndexBitsOfChunks | b64.py:34-37 | the bits rebuilt from the chunk indices are the chunks |
| RoundTrip.DecodeOfEncode | b64.py:30-37 | on a suitable table the encoded words segment back into the chunk indices |
| RoundTrip.NarrowWidth | b64.py:13 | a width whose data indices stay below the pad index 65 is at most 6 |
| RoundTrip.IndicesToBytesOfChunks | b64.py:34-43 | the bytes rebuilt from the chunk indices are the input without its zero bytes |
| RoundTrip.RoundTrip | b64.py:18-44 | on a table with the pad and every index 1 to 2^width - 1 mapping back, non-empty prefix-free words and width at most 6, encoding succeeds and decoding gives the input without its zero bytes |
| RoundTrip.RoundTripExact | b64.py:18-44 | input without zero bytes comes back exactly |
| RoundTrip.ZeroByteErased | b64.py:40-42 | a lone 0x00 byte decodes to nothing |
| Sample.SampleMapping | b64.py:66-77 | definition of `sample_map`: the enumerated word list with key 65 replaced by the pad word |
| Sample.SampleCodec | b64.py:80 | definition of `coder = Custom64(sample_map)` |
| Sample.SampleEntry | b64.py:66-77 | the sample mapping has 67 entries, entry k is index k with the k-th word, and entry 65 holds the pad word |
| Sample.EntryLookup | b64.py:12-15 | an entry's index looks up the entry's word unless the pad overrides it |
| Sample.AbsentWord | b64.py:14-16 | a word no entry uses, and not the pad, has no index |
| Sample.UniqueWordIndex | b64.py:14-16 | a word used by one entry only, and not the pad, maps back to that entry's index |
| Sample.SampleSpecialIndices | b64.py:66-77 | in the sample table 65 holds the pad word both ways, 16 is "香蕉", 64 is "绿豆" and 66 is "黑豆" |
| Sample.SampleWordIndex | b64.py:66-77 | a word the list holds at one index only, other than the pad index, maps back to that index in the sample table |
| Sample.SampleBanana | b64.py:69 | "香蕉" maps back to 16 |
| Sample.PadReplacesWord | b64.py:74-76 | setting key 65 to the pad word removes "黄豆" from the table |
| Sample.AbsentFromSample | b64.py:66-77 | a word the list does not hold, other than the pad word, is not a key of the sample table |
| Sample.SampleAbsentWords | b64.py:67-76 | the empty word, "香", "香蕉香" and "香蕉香蕉" are not words of the sample table |
| Sample.ValueOfSixteen | b64.py:24 | 010000 reads as 16 |
| Sample.BitsOfA | b64.py:20 | "A" is the bits 01000001 |
| Sample.ChunksOfA | b64.py:21-26 | at width 6 the bits of "A" give index 16 twice |
| Sample.EncodeAWith | b64.py:18-28 | any table with "香蕉" at 16 encodes "A" as "香蕉香蕉" |
| Sample.EncodeA | b64.py:18-28 | with the sample table, "A" encodes to "香蕉香蕉" |
| Sample.SegmentBanana | b64.py:52-63 | when "香蕉" is the only non-empty prefix of "香蕉香蕉" in the table, that string segments into "香蕉" twice |
| Sample.BytesOfSixteens | b64.py:34-43 | index 16 twice at width 6 decodes to the byte 0x41 |
| Sample.DecodeAWith | b64.py:30-44 | any such table with "香蕉" mapping to 16 decodes "香蕉香蕉" to "A" |
| Sample.DecodeA | b64.py:30-44 | with the sample table, "香蕉香蕉" decodes back to "A" |

## Left out

- UTF-8 encoding of the text and decoding of the bytes (b64.py:19, b64.py:44) are library calls. `encode` and `decode` are modelled on byte sequences. The failure to decode invalid UTF-8 is not modelled.
- The Flask application, its route, template and the decorative prefix and suffix around encoded output (b64.py:79-150) are web plumbing and are not part of this model.
- Parsing of the decimal string keys with `int(k)` (b64.py:12) is left out. The mapping is taken as already integer-keyed, with non-negative indices.
- Encoder.Encode: requires a positive width. A width of 0 raises a division error in the source, and negative widths are not modelled.
- Decoder.Decode: takes the width as a natural number. The source accepts any integer width; negative widths are not modelled. Like `Segmenter.Segment`, which it calls, it requires that the empty string is not a word.
- Segmenter.Segment: requires that the empty string is not a word, which the loop needs to terminate. With an empty word in the table (for example an empty pad word) the source returns the same segmentation whenever one exists, because it tries the empty word last. Where no non-empty word starts at a position, it loops forever there instead of raising the segmentation error. `Segmenter.SegmentIgnoresEmpty` proves that the specification `Segmenter.SegmentFrom`, and with it `Decoder.DecodeSpec`, does not depend on the empty word. So only the methods `Segment` and `Decode` carry this requirement.
- Segmenter.SortByLength: does not fix the relative order of words of equal length. It does not need to: two equal-length words that both start at the same position are the same word, so the segmentation does not depend on it.
- Python exception types and the Chinese error messages are replaced by the `Error` values.
- The round trip on the sample table is checked for "A" only. That its 67 words are distinct and that none is a proper prefix of another is not proved, so `RoundTrip.RoundTrip` is not instantiated with the sample table.

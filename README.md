# IPMT indexing engine in Dafny

This project models the core of IPMT, a compressed full-text index written in C++. IPMT does four things:

- It builds the suffix array of a text with the Manber–Myers prefix-doubling algorithm.
- It compresses the text with LZ78 (or with a Huffman code computed elsewhere).
- It writes the array and the compressed text to a binary `.idx` file, and reads that file back.
- It answers pattern queries with two binary searches over the array.

The modules follow the repository's files:

| module | file of the repository | form |
|---|---|---|
| `SuffixArray`, `Doubling`, `FirstByteSort`, `SuffixOrder` | src/sufarray.cpp | arrays updated in place by methods, proved against the specification datatype `Doubling.Round` |
| `Lz78` | src/lz78.cpp | loop methods over maps and sequences, proved against the functions `DecodeText` and `EncoderAfter` |
| `Bitset` | src/dynamic_bitset.cpp, include/dynamic_bitset.h | the class `DynamicBitset` over an `array<bv8>` |
| `HuffmanHeapNode` | include/huffman_heap_node.h | an inductive datatype with recursive functions |
| `Search`, `Paths`, `IndexFormat` | src/utils.cpp | loop methods for the searches and the bitset reader; pure serialise/parse functions for the file layout |
| `Lexicographic`, `Bytes` | (shared) | the byte order of `std::string::compare`; little-endian integers |
| `Query` | src/sufarray.cpp with src/utils.cpp | building the array and then searching it |

Texts are byte sequences (`seq<byte>`, with `byte` the integers 0..255). They are ordered as `std::string::compare` orders them: bytes compare as unsigned values, and a proper prefix comes first. A `size_t` is 8 little-endian bytes and an `int` is 4 little-endian bytes in two's complement.

The main results are these:

- `SuffixArray.BuildSuffixArray` returns a permutation of `[0, n)` sorted by suffix. Its number of doubling rounds r satisfies 2^r < 2n, so r ≤ ⌈log₂ n⌉.
- `Query.IndexAndSearch` returns, in strictly ascending order, exactly the offsets where the pattern occurs, each once.
- LZ78 decoding of the encoder's output gives back the input minus the phrase still pending at the end.
- The index file reads back the suffix array and the LZ78 text that were written. The Huffman table and code come back with the bits of every whole byte reversed, because `ReadBitset` unpacks bytes in the opposite order to `DynamicBitset`.

## Model

| member | source | states |
|---|---|---|
| SuffixArray.BuildSuffixArray | src/sufarray.cpp:10-99 | for a non-empty text the result is a permutation of [0, n) strictly ordered by suffix, and the number of doubling rounds r satisfies 2^r < 2n |
| SuffixArray.OneByteText | src/sufarray.cpp:37 | a one-byte text has the suffix array [0] |
| SuffixArray.BaseCase | src/sufarray.cpp:22-33 | after the base case, pos is ordered by first byte, bh marks position 0 and each change of first byte, and b2h is all false: a valid round for h = 1 |
| SuffixArray.MarkFirstBytes | src/sufarray.cpp:28-31 | bh[0] is set, and bh[i] holds exactly when the first bytes at pos[i-1] and pos[i] differ |
| SuffixArray.ClearAll | src/sufarray.cpp:33 | every entry of b2h is false |
| SuffixArray.Step | src/sufarray.cpp:37-96 | one turn of the outer loop: either every position starts a bucket and pos is left as the sorted answer, or pos and bh become those of the next round, for 2h |
| SuffixArray.FindBuckets | src/sufarray.cpp:38-49 | the number of buckets counted is the number of marks in bh, and next_suffix of each bucket start is the next bucket start |
| SuffixArray.BucketEnd | src/sufarray.cpp:44 | the inner scan stops at the first bucket start after i, with no start in between |
| SuffixArray.CountMarksAll | src/sufarray.cpp:52-54 | the bucket count equals n exactly when every position starts a bucket, the condition for stopping early |
| SuffixArray.AssignBuckets | src/sufarray.cpp:56-61 | every suffix's prm becomes the start of its bucket, and count is zero at every bucket start |
| SuffixArray.FillBucket | src/sufarray.cpp:58-60 | the suffixes of the bucket at i get i as their prm |
| SuffixArray.PlaceLastSuffix | src/sufarray.cpp:63-67 | the suffix n-h, which has no successor, is placed first in its bucket and its slot is marked |
| SuffixArray.PlacePass | src/sufarray.cpp:70-79 | after the placement scan of bucket i, every suffix whose successor lies before the end of that bucket has its final slot in prm, the fill counts match, and the slots of this pass are marked |
| SuffixArray.PlaceOne | src/sufarray.cpp:71-78 | placing d = pos[c]-h moves it to the next free slot of its bucket, bumps that bucket's count and marks the slot |
| SuffixArray.ClearScan | src/sufarray.cpp:85-87 | the scan unmarks the marked non-start slots from f0 and stops at a bucket start, an unmarked slot or the end of the array |
| SuffixArray.ClearPass | src/sufarray.cpp:81-89 | after the clearing scan of bucket i, the marks of the slots this pass filled have their final values: set exactly where a new 2h-bucket starts |
| SuffixArray.ClearOne | src/sufarray.cpp:82-88 | one step of the clearing scan keeps the marks invariant |
| SuffixArray.RunPasses | src/sufarray.cpp:69-90 | after all passes, prm holds every suffix's final slot and b2h marks exactly the new 2h-bucket starts |
| SuffixArray.Rebuild | src/sufarray.cpp:92-95 | pos becomes the inverse of prm, and bh becomes bh or b2h |
| SuffixArray.RebuildRound | src/sufarray.cpp:92-95 | the rebuilt pos, prm and bh are those of the next round |
| SuffixArray.DoublingRound | src/sufarray.cpp:56-95 | a whole round turns a valid h-state into the valid 2h-state |
| SuffixArray.Finished | src/sufarray.cpp:37-54 | a valid round in which h ≥ n or every position starts a bucket is a suffix array |
| Doubling.Round.NextRoundValid | src/sufarray.cpp:56-95 | the next round is valid: the new pos is a permutation with prm as its inverse, sorted by 2h-prefix, and bh marks exactly the changes of 2h-prefix |
| Doubling.Round.OccInverse | src/sufarray.cpp:92-93 | the new pos and prm are inverse permutations, so pos[prm[i]] == i |
| Doubling.FirstByteRound | src/sufarray.cpp:26-31 | positions ordered by first byte, marked where the first byte changes, form a valid round for h = 1 |
| Doubling.ClearRunStops | src/sufarray.cpp:85-87 | the clearing scan unmarks exactly the run of marked non-start slots from f |
| Doubling.ClearScanOverrun | src/sufarray.cpp:85 | on "aa" in the round for h = 1, suffix 0 lands in the last slot, so the clearing scan starts at f = n |
| FirstByteSort.SortByFirstByte | src/sufarray.cpp:22-26 | the positions come out grouped by first byte (unsigned), ascending positions within a byte |
| FirstByteSort.SortedPermutation | src/sufarray.cpp:22-26 | that order is a permutation of [0, n) with non-decreasing first bytes |
| FirstByteSort.SignedCharOrderDiffers | src/sufarray.cpp:26 | on the text [200, 65], comparing signed chars puts position 0 first, while the suffix order and the corrected sort put position 1 first |
| FirstByteSort.BelowFacts | src/sufarray.cpp:26 | the sort's output lists every position whose byte is below v, with distinct entries and non-decreasing bytes |
| FirstByteSort.BelowCount | src/sufarray.cpp:26 | the number of positions with a byte below v is counted exactly |
| SuffixOrder.InverseOf | src/sufarray.cpp:14 | a one-to-one map of [0, n) into itself has an inverse, the role prm plays for pos |
| Lexicographic.CompareSign | src/utils.cpp:96-100 | the sign of compare is the byte order: negative iff before, positive iff after, zero iff equal |
| Lexicographic.LeqTotal | src/utils.cpp:96 | the order is total |
| Lexicographic.LeqTrans | src/utils.cpp:96 | the order is transitive |
| Lexicographic.LeqAntisym | src/utils.cpp:96 | the order is antisymmetric |
| Lz78.LZ78Decode | src/lz78.cpp:8-25 | the decoding loop computes DecodeText: each pair appends the phrase at its index followed by its byte, bound at indices 1, 2, 3, ... |
| Lz78.LZ78Encode | src/lz78.cpp:27-45 | the encoding loop appends to the given code exactly the pairs of EncoderAfter(text) |
| Lz78.EncoderAfterInvariant | src/lz78.cpp:30-43 | after any input, the pending phrase is bound, the encoder's dictionary agrees with the decoder's, and decoded pairs plus pending phrase give the input |
| Lz78.OneStepEffect | src/lz78.cpp:34-44 | each byte either only extends the pending phrase, or emits one pair, binds one new phrase at the next index and clears the pending phrase |
| Lz78.DictionarySize | src/lz78.cpp:29-41 | the dictionary holds one phrase per emitted pair plus the empty phrase, and the next index equals that size |
| Lz78.EmittedIndicesBound | src/lz78.cpp:29-41 | pair j carries an index between 0 and j, so it names a phrase already bound |
| Lz78.CodeNoLonger | src/lz78.cpp:34-44 | there are at most as many pairs as input bytes |
| Lz78.RoundTrip | src/lz78.cpp:8-45 | decoding the code gives the input minus the pending phrase; it is a prefix of the input, and equals the input iff nothing is pending |
| Lz78.DictionariesAgree | src/lz78.cpp:8-45 | encoder and decoder dictionaries agree index for index |
| Lz78.DecodeAppend | src/lz78.cpp:19-21 | one more pair appends its phrase and byte; an unbound index reads as the empty phrase |
| Lz78.EmptyCases | src/lz78.cpp:15-34 | the empty text gives no pairs, and no pairs decode to the empty text |
| Lz78.Examples | src/lz78.cpp:27-45 | "aa" gives [(0,'a')] with "a" pending, "aaa" gives [(0,'a'),(1,'a')], and "aabb" round-trips |
| Bitset.DynamicBitset.constructor | include/dynamic_bitset.h:16-19 | a new bitset is empty with capacity kDefaultBitsetCapacity = 1 byte |
| Bitset.DynamicBitset.Copy | src/dynamic_bitset.cpp:9-14 | the copy has the source's capacity, size and bytes, hence its bits |
| Bitset.DynamicBitset.Resize | src/dynamic_bitset.cpp:16-25 | the capacity doubles, the old bytes are kept, and the bits are unchanged |
| Bitset.DynamicBitset.Get | src/dynamic_bitset.cpp:27-32 | operator[] reads bit i%8, counting from the least significant, of byte i/8: the i-th bit pushed |
| Bitset.DynamicBitset.PushBack | src/dynamic_bitset.cpp:54-63 | the size grows by one, the bits become the old bits followed by the value, and the capacity doubles exactly when the buffer was full |
| Bitset.DynamicBitset.Flush | src/dynamic_bitset.cpp:49-52 | every byte up to the capacity is zero and the size is 0 |
| Bitset.DynamicBitset.Assign | src/dynamic_bitset.cpp:34-47 | self-assignment changes nothing; otherwise the size and first capacity bytes are copied, the capacity never shrinks, and the bits equal the source's |
| Bitset.DynamicBitset.ToString | src/dynamic_bitset.cpp:65-84 | exactly size characters, character i being '1' or '0' as bit i |
| Bitset.PushBit | src/dynamic_bitset.cpp:57-62 | writing bit size%8 of byte size/8 appends exactly that bit to the bits |
| Bitset.BitsOfPrefix | include/dynamic_bitset.h:39-41 | the bits depend only on the bytes below the size |
| HuffmanHeapNode.DefaultNode | include/huffman_heap_node.h:10 | the default node is a leaf with c = 0 and freq = 0 |
| HuffmanHeapNode.LeafNode | include/huffman_heap_node.h:11 | the (c, freq) node is a leaf carrying those values |
| HuffmanHeapNode.LeafCaseIsGeneral | include/huffman_heap_node.h:32-54 | the leaf cases of NodesAmount and NodeHeight agree with the general 1 + left + right and 1 + max(left, right) |
| HuffmanHeapNode.NodesAmountCountsNodes | include/huffman_heap_node.h:32-40 | NodesAmount is the number of nodes of the tree |
| HuffmanHeapNode.HeightBounds | include/huffman_heap_node.h:32-54 | for a non-null node 1 ≤ height ≤ node count, and node count ≤ 2^height - 1 |
| HuffmanHeapNode.PathsShorterThanHeight | include/huffman_heap_node.h:42-54 | every root-to-node path is shorter than the height |
| HuffmanHeapNode.SomePathAttainsHeight | include/huffman_heap_node.h:42-54 | some path has exactly height - 1 edges |
| Search.GetOccurrences | src/utils.cpp:93-115 | the result is ascending and a sub-multiset of the array; on an array sorted by suffix it holds exactly the offsets whose next |p| bytes equal the pattern, each as many times as the array does |
| Search.LowerBound | src/utils.cpp:104 | a boundary: the entry before the result passes the comparator and the entry at it fails; when the passing entries form a prefix, as std::lower_bound requires, the result is the end of that prefix |
| Search.UpperBound | src/utils.cpp:105 | a boundary from l: the entry before the result fails the comparator and the entry at it passes; when the passing entries form a suffix, as std::upper_bound requires, the result is the start of that suffix |
| Search.Leqm | src/utils.cpp:95-97 | the comparator holds exactly when the text from i sorts before the pattern |
| Search.Geqm | src/utils.cpp:99-101 | the comparator holds exactly when the text from i sorts after the pattern |
| Search.CopyRun | src/utils.cpp:108-110 | the entries from l up to r, in order |
| Search.SortAscending | src/utils.cpp:112 | the occurrences are sorted ascending and are a permutation of the input |
| Search.MatchRun | src/utils.cpp:104-105 | on a sorted array, the entries between the two bounds are exactly those matching the pattern |
| Search.Matches | src/utils.cpp:104-110 | the values copied from between the bounds are exactly the matching offsets of the array |
| Search.RunCounts | src/utils.cpp:104-110 | on a sorted array, the entries between the bounds hold each matching offset as often as the whole array and no other value |
| Search.RunResult | src/utils.cpp:104-112 | a permutation of the entries between the bounds is a sub-multiset of the array; on a sorted array it holds exactly the matches, with their counts in the array |
| Search.StrictlyAscending | src/utils.cpp:112 | an ascending sub-multiset of an array without repeats is strictly ascending |
| Search.Monotone | src/utils.cpp:95-101 | on a sorted array both comparators are monotone, as the binary searches need |
| Search.Between | src/utils.cpp:96-100 | neither before nor after the pattern means the next |p| bytes equal it |
| Search.MatchIsPrefix | src/utils.cpp:96 | the next |p| bytes equal the pattern iff the pattern is a prefix of the suffix, so a short suffix never matches |
| Query.IndexAndSearch | src/utils.cpp:93-115 | searching the suffix array built for a text returns, strictly ascending and so each once, exactly the offsets where the pattern is a prefix of the suffix |
| Query.SuffixArrayFacts | src/sufarray.cpp:13-24 | a suffix array is sorted by suffix, lists every offset of the text, and lists none twice |
| Paths.FindLastOf | src/utils.cpp:22-29 | find_last_of gives the last position holding one of the characters, or -1 when there is none |
| Paths.SplitFilenameParts | src/utils.cpp:21-26 | without a separator the file name is the path and the directory is empty; otherwise the name holds no separator and the path is the directory (its "/" for the separator) plus the name |
| Paths.SplitFilenameJoins | src/utils.cpp:21-26 | on paths using only '/', directory followed by file name is the path |
| Paths.BasenameParts | src/utils.cpp:28-31 | the base name is a prefix; a name without '.' is its own base; otherwise name = base + "." + extension with no '.' in the extension |
| Paths.IndexPathParts | src/utils.cpp:240-242 | the index path is the directory, the base name and ".idx" |
| Paths.IndexPathExamples | src/utils.cpp:240-242 | "docs/a.txt" and "docs\a.txt" give "docs/a.idx", "a.b.txt" gives "a.b.idx", "notes" gives "notes.idx" |
| Bytes.LittleEndianRoundTrip | src/utils.cpp:246-247 | reading back n little-endian bytes gives the value modulo 2^(8n) |
| Bytes.Int32RoundTrip | src/utils.cpp:249-251 | an int written as 4 bytes reads back as itself |
| Bytes.U64RoundTrip | src/utils.cpp:246-247 | a size_t written as 8 bytes reads back as itself |
| IndexFormat.ReadU64Written | src/utils.cpp:174-175 | reading a size_t from its written bytes gives it back and the rest of the input |
| IndexFormat.ReadInt32Written | src/utils.cpp:179-180 | reading an int from its written bytes gives it back and the rest of the input |
| IndexFormat.ByteCount | src/utils.cpp:38-39 | for a non-negative bit count, the byte count is the ceiling of bits/8; for a negative one it is at most 0 |
| IndexFormat.BitsetBlockWritten | src/utils.cpp:36-63 | the reader takes back the bit count and exactly the ⌈size/8⌉ bytes the writer wrote |
| IndexFormat.StoredBits | src/utils.cpp:33-53 | a reader in either bit order gets back exactly as many bits as the stored size |
| IndexFormat.BitsetReadBack | src/utils.cpp:33-63 | a written bitset read in either order gives the bits StoredBits names for that order, and the rest of the input |
| IndexFormat.BitsetReadReversed | src/utils.cpp:33-63 | read most significant bit first, as ReadBitset does, every whole byte of a bitset comes back with its bits in reverse order |
| IndexFormat.BitsetReadDiffers | src/utils.cpp:46-48 | the one-bit bitset [true] is written as byte 1 and read back by ReadBitset as [false] |
| IndexFormat.BitsetRoundTrip | src/dynamic_bitset.cpp:61-62 | a reader unpacking least significant bit first gets back exactly the bits written |
| IndexFormat.ReadBitset | src/utils.cpp:33-55 | the reading loops build a fresh bitset holding the bits unpacked most significant first, and return the rest of the input |
| IndexFormat.UnpackWord | src/utils.cpp:46-51 | one byte appends its bits from bit 7 down to bit 0, stopping at the bit count |
| IndexFormat.GetLine | src/utils.cpp:186 | getline returns the bytes before the first newline, holding no newline, and the input after that newline |
| IndexFormat.GetLineWritten | src/utils.cpp:184-186 | a tag written with a newline reads back as itself, followed by the rest |
| IndexFormat.Int32sRoundTrip | src/utils.cpp:178-182 | the suffix-array entries parse back exactly as written |
| IndexFormat.PairsRoundTrip | src/utils.cpp:217-225 | the LZ78 pairs parse back exactly as written |
| IndexFormat.TableRoundTrip | src/utils.cpp:194-200 | the Huffman code table parses back, in either bit order, as the map the written entries make with codewords read in that order, a later key overwriting an earlier one |
| IndexFormat.TableOfKeys | src/utils.cpp:194-200 | the keys of the table read back are the keys of the written entries |
| IndexFormat.TableOfUntouched | src/utils.cpp:194-200 | a key no entry names keeps its value or stays absent |
| IndexFormat.TableOfLast | src/utils.cpp:194-200 | a key takes the codeword of the last entry naming it, as read in the reader's bit order |
| IndexFormat.EntryWritten | src/utils.cpp:195-199 | one table entry (key byte, then bitset) reads back as its key and its codeword's bits in the reader's order |
| IndexFormat.HeaderRoundTrip | src/utils.cpp:174-182 | the header reads back as the length and then the entries of the suffix array |
| IndexFormat.TagsWithoutNewline | src/utils.cpp:254-274 | the two tags differ and contain no newline |
| IndexFormat.ReadAfterTag | src/utils.cpp:166-188 | reading a file that starts with a header and a tag line goes on with the tag and the payload after it |
| IndexFormat.Lz78Code | src/utils.cpp:276-277 | the encoder's indices fit in an int when the text is shorter than 2^31 bytes |
| IndexFormat.WriteIndexFile | src/utils.cpp:236-288 | the file goes to dir + basename + ".idx" and starts with the suffix-array header |
| IndexFormat.ReadIndexFile | src/utils.cpp:166-234 | a missing file gives -1 and the array untouched; the status is -1, -2 or 0; entries are only appended to the array; status 0 iff text content was read |
| IndexFormat.ReadBody | src/utils.cpp:188-233 | after the tag line the array is kept, and the status is 0 with content or -2 without |
| IndexFormat.Lz78PayloadRoundTrip | src/utils.cpp:209-228 | an LZ78 payload reads back as the decoding of the pairs written |
| IndexFormat.HuffmanPayloadRoundTrip | src/utils.cpp:188-202 | a Huffman payload read in either bit order gives the table of the written entries and the code, every bitset as read in that order; least significant first, they are the bits written |
| IndexFormat.Lz78IndexRoundTrip | src/utils.cpp:166-234 | reading an LZ78 index file written by WriteIndexFile gives status 0, the written suffix array appended, and the decoded text, a prefix of the original text |
| IndexFormat.HuffmanIndexRoundTrip | src/utils.cpp:166-234 | reading a Huffman index file written by WriteIndexFile gives status 0, the written suffix array appended, and the table and code read most significant bit first, so the code's whole bytes come back bit-reversed |
| IndexFormat.UnknownTag | src/utils.cpp:229-230 | an unknown tag gives -2 after the suffix array has been appended |

## Left out

- Stream I/O is not modelled. Files are byte sequences: an unopenable file is `None`, and WriteIndexFile returns the path and the bytes.
- A read past the end of a truncated file is not modelled. The parsers return `None` there, where the source reads garbage and carries on.
- IndexFormat.ReadBitset: requires that the input holds the bit count and all the bytes it announces; the source does not check.
- The Huffman codec is not part of this model: `HuffmanEncode`, `HuffmanDecode`, `BuildTreeFromTable` and `CodeTable`. Their bodies are not in the repository's core. The file writer takes the code table and the code as a parameter (`HuffmanCode`), and the reader returns them (`HuffmanCoded`) instead of decoding the text.
- IndexFormat.WriteIndexFile: its own contract only fixes the path and the header; the round-trip lemmas state what it writes.
- IndexFormat.Lz78Code: requires a text shorter than 2^31 bytes, so that the dictionary indices fit the `int` of the pair.
- SuffixArray.BuildSuffixArray: requires a non-empty text; on an empty text the source writes `bh[0]` of an empty vector.
- SuffixArray.BuildSuffixArray: integers are unbounded; the overflow of `h <<= 1` for texts longer than 2^30 bytes is not modelled.
- SuffixArray.ClearScan: stops at the end of the array, which the source's loop does not (third finding).
- SuffixArray.BaseCase: sorts first bytes as unsigned values (first finding), with one scan of the text per byte value in place of `std::sort`. `std::sort` compares signed `char`s and leaves the order of positions with equal first bytes unspecified; the model fixes ascending positions within each byte.
- Search.SortAscending: an insertion sort stands in for `std::sort`; it promises the same sorted permutation.
- Search.GetOccurrences: requires every entry of the array to lie between 0 and the text length. `text.compare` throws `std::out_of_range` for a larger entry or a negative `int`, and an index file can supply such entries unchecked (src/utils.cpp:177-182); exceptions are not modelled.
- Bitset.DynamicBitset: new storage is zero-filled, where `new byte_t[]` leaves it undefined; no contract depends on bytes at or above the size.
- Bitset.DynamicBitset: size and capacity are unbounded integers, where the source keeps them in `int`s; the overflow of `kWordSize * capacity_` (from a capacity of 2^28 bytes), of `capacity_ << 1` (from 2^30) and of `++size_` (past 2^31 - 1 bits) is not modelled, so PushBack and Resize can grow without limit.
- Bitset.DynamicBitset.Assign: requires distinct storage when the two bitsets differ, which the source's separate allocations guarantee.
- Memory management is not modelled: `delete`, destructors and pointer ownership.
- Console and OS code is not modelled: `PrintHelp`, `PrintIndexModeHelp`, `PrintSearchModeHelp`, `PrintOccurrences`, `GetFilenames` (glob), `HuffmanHeapNode::PrintTree`, and src/main.cpp.
- src/sufarray.h is not part of this model. It holds declarations without bodies.
- Lz78.LZ78Encode: keeps the source's behaviour of dropping the phrase still pending at the end of the input; Lz78.RoundTrip states exactly what is lost.

## Findings

| source | as written | input that shows it | evidently intended | confidence | as-written member | corrected member |
|---|---|---|---|---|---|---|
| src/sufarray.cpp:26 | the base case compares first bytes with `<` on `char`, which is signed on common targets, while the search compares with `std::string::compare`, which orders bytes as unsigned | text bytes [200, 65]: the builder puts suffix 0 first, but suffix 1 sorts first, so a search for byte 65 also returns offset 0, whose suffix does not start with 65 | one byte order in builder and search: unsigned | not executed | FirstByteSort.SignedCharOrderDiffers | FirstByteSort.SortByFirstByte |
| src/utils.cpp:46-48 | ReadBitset unpacks each byte from bit 7 down to bit 0, while PushBack stores bit k of a byte at position 8q+k and WriteBitset writes those bytes unchanged | the one-bit bitset [true] is written as byte 1 and read back as [false] | read each byte from bit 0 up, so that the bits round-trip | not executed | IndexFormat.BitsetReadDiffers | IndexFormat.BitsetRoundTrip |
| src/sufarray.cpp:85 | the clearing loop `for (f = prm[d] + 1; !bh[f] && b2h[f]; ++f)` has no bound, and bh has n entries | text "aa": in the round for h = 1 suffix 0 lands in slot 1, so the loop tests bh[2] | stop at f = n, as at a bucket start | not executed | Doubling.ClearScanOverrun | SuffixArray.ClearScan |

/** The binary layout of an index file: a `size_t` count of suffix-array
    entries, the entries as `int`s, a newline-terminated codec tag, then the
    codec's payload. `size_t` is 8 bytes and `int` 4 bytes, both
    little-endian. */
module IndexFormat {
  import opened Bytes
  import opened Bitset
  import Lz78
  import Paths

  /** The `CompressionType` enumeration: which codec an index file uses. */
  datatype CompressionType = Huffman | LZ78

  datatype Option<T> = None | Some(value: T)

  /** A value an `int` can hold. */
  predicate IsInt32(x: int)
  {
    -0x8000_0000 <= x < 0x8000_0000
  }

  // ---------------------------------------------------------------------
  // Fixed-width integers

  /** Reads a `size_t`; `None` when fewer than 8 bytes remain. */
  function ReadU64(s: seq<byte>): (r: Option<(nat, seq<byte>)>)
    ensures r.Some? <==> |s| >= 8
    ensures r.Some? ==> r.value.1 == s[8..]
  {
    if |s| < 8 then None else Some((FromLittleEndian(s[..8]), s[8..]))
  }

  /** Reads an `int`; `None` when fewer than 4 bytes remain. */
  function ReadInt32(s: seq<byte>): (r: Option<(int, seq<byte>)>)
    ensures r.Some? <==> |s| >= 4
    ensures r.Some? ==> r.value.1 == s[4..]
  {
    if |s| < 4 then None else Some((Int32FromBits(FromLittleEndian(s[..4])), s[4..]))
  }

  lemma ReadU64Written(x: nat, rest: seq<byte>)
    requires x < 0x1_0000_0000_0000_0000
    ensures ReadU64(U64Bytes(x) + rest) == Some((x, rest))
  {
    U64RoundTrip(x);
    assert (U64Bytes(x) + rest)[..8] == U64Bytes(x);
    assert (U64Bytes(x) + rest)[8..] == rest;
  }

  lemma ReadInt32Written(x: int, rest: seq<byte>)
    requires IsInt32(x)
    ensures ReadInt32(Int32Bytes(x) + rest) == Some((x, rest))
  {
    Int32RoundTrip(x);
    assert (Int32Bytes(x) + rest)[..4] == Int32Bytes(x);
    assert (Int32Bytes(x) + rest)[4..] == rest;
  }

  // ---------------------------------------------------------------------
  // Bitsets (src/utils.cpp:33-64)

  /** The stored form of a `DynamicBitset`: its raw bytes and its size in
      bits. Bytes past the size may hold anything. */
  datatype BitsetImage = BitsetImage(data: seq<bv8>, size: int)
  {
    predicate Valid()
    {
      0 <= size <= WordSize * |data| && IsInt32(size)
    }
  }

  /** `bits / kWordSize`, plus one when `bits % kWordSize > 0`, in C's
      truncating arithmetic: the bytes that hold `bits` bits, and none for a
      negative count. */
  function ByteCount(bits: int): (r: int)
    ensures bits >= 0 ==> 0 <= r && WordSize * r - WordSize < bits <= WordSize * r
    ensures bits < 0 ==> r <= 0
  {
    var quotient := if bits >= 0 then bits / WordSize else -((-bits) / WordSize);
    var remainder := bits - WordSize * quotient;
    if remainder > 0 then quotient + 1 else quotient
  }

  function ToBytes(bs: seq<bv8>): (r: seq<byte>)
    ensures |r| == |bs|
  {
    seq(|bs|, k requires 0 <= k < |bs| => bs[k] as int)
  }

  function ToWords(bs: seq<byte>): (r: seq<bv8>)
    ensures |r| == |bs|
  {
    seq(|bs|, k requires 0 <= k < |bs| => bs[k] as bv8)
  }

  /** `WriteBitset`: the size as an `int`, then the bytes that hold it. */
  function WriteBitset(b: BitsetImage): (r: seq<byte>)
    requires b.Valid()
  {
    Int32Bytes(b.size) + ToBytes(b.data[..ByteCount(b.size)])
  }

  /** The first `n` bits of `block`, taking the bits of each byte from the
      most-significant one down: the order in which `ReadBitset` unpacks. */
  function MsbFirstBits(block: seq<byte>, n: nat): (r: seq<bool>)
    requires n <= WordSize * |block|
    ensures |r| == n
  {
    seq(n, k requires 0 <= k < n => BitAt(block[k / WordSize] as bv8, WordSize - 1 - k % WordSize))
  }

  /** The header of a stored bitset: its bit count, the bytes that hold it
      and what follows; `None` when the input is too short. */
  function BitsetBlock(s: seq<byte>): (r: Option<(int, seq<byte>, seq<byte>)>)
    ensures r.Some? ==> var (bits, block, _) := r.value;
      |block| == if bits > 0 then ByteCount(bits) else 0
  {
    match ReadInt32(s)
    case None => None
    case Some((bits, rest)) =>
      var count := if bits > 0 then ByteCount(bits) else 0;
      if |rest| < count then None else Some((bits, rest[..count], rest[count..]))
  }

  /** What `ReadBitset` (src/utils.cpp:33-53) reads, as written: the bits of
      every byte most-significant first. */
  function ReadBitsetMsbFirst(s: seq<byte>): (r: Option<(seq<bool>, seq<byte>)>)
  {
    match BitsetBlock(s)
    case None => None
    case Some((bits, block, rest)) =>
      Some((MsbFirstBits(block, if bits > 0 then bits else 0), rest))
  }

  /** What a reader matching the writer's order reads: the bits of every
      byte least-significant first, as `DynamicBitset` stores them. */
  function ReadBitsetLsbFirst(s: seq<byte>): (r: Option<(seq<bool>, seq<byte>)>)
  {
    match BitsetBlock(s)
    case None => None
    case Some((bits, block, rest)) =>
      Some((BitsOf(ToWords(block), if bits > 0 then bits else 0), rest))
  }

  /** The two orders in which a reader can unpack the bits of each stored
      byte: from bit 7 down, as `ReadBitset` does, or from bit 0 up, the
      order in which `DynamicBitset` stores them. */
  datatype BitOrder = MsbFirst | LsbFirst

  /** A stored bitset read in `order`. */
  function ReadBitsetIn(order: BitOrder, s: seq<byte>): Option<(seq<bool>, seq<byte>)>
  {
    match order
    case MsbFirst => ReadBitsetMsbFirst(s)
    case LsbFirst => ReadBitsetLsbFirst(s)
  }

  /** The bits a reader in `order` gets back from the bitset `b` as
      `WriteBitset` stores it. */
  function StoredBits(order: BitOrder, b: BitsetImage): (r: seq<bool>)
    requires b.Valid()
    ensures |r| == b.size
  {
    match order
    case MsbFirst => MsbFirstBits(ToBytes(b.data[..ByteCount(b.size)]), b.size)
    case LsbFirst => BitsOf(b.data, b.size)
  }

  /** `read` is `stored` with the bits of every whole byte in reverse
      order. */
  predicate MirroredBytes(read: seq<bool>, stored: seq<bool>)
  {
    && |read| == |stored|
    && forall k :: 0 <= k < |stored| && WordSize * (k / WordSize) + WordSize <= |stored| ==>
         read[k] == stored[WordSize * (k / WordSize) + (WordSize - 1 - k % WordSize)]
  }

  lemma BitsetBlockWritten(b: BitsetImage, rest: seq<byte>)
    requires b.Valid()
    ensures BitsetBlock(WriteBitset(b) + rest)
      == Some((b.size, ToBytes(b.data[..ByteCount(b.size)]), rest))
  {
    var block := ToBytes(b.data[..ByteCount(b.size)]);
    assert WriteBitset(b) + rest == Int32Bytes(b.size) + (block + rest);
    ReadInt32Written(b.size, block + rest);
    assert (block + rest)[..|block|] == block;
    assert (block + rest)[|block|..] == rest;
  }

  /** A bitset written and read back in either order: the reader takes the
      bit count, the bits `StoredBits` names, and leaves what follows. */
  lemma BitsetReadBack(order: BitOrder, b: BitsetImage, rest: seq<byte>)
    requires b.Valid()
    ensures ReadBitsetIn(order, WriteBitset(b) + rest) == Some((StoredBits(order, b), rest))
  {
    match order
    case MsbFirst => BitsetBlockWritten(b, rest);
    case LsbFirst => BitsetRoundTrip(b, rest);
  }

  /** Read as written, every whole byte of a bitset comes back with its
      bits in reverse order. */
  lemma BitsetReadReversed(b: BitsetImage)
    requires b.Valid()
    ensures MirroredBytes(StoredBits(MsbFirst, b), BitsOf(b.data, b.size))
  {
    var block := ToBytes(b.data[..ByteCount(b.size)]);
    forall k | 0 <= k < b.size && WordSize * (k / WordSize) + WordSize <= b.size
      ensures StoredBits(MsbFirst, b)[k] == BitsOf(b.data, b.size)[WordSize * (k / WordSize) + (WordSize - 1 - k % WordSize)]
    {
      ReversedAt(b, block, k);
    }
  }

  /** Bit `k` unpacked most-significant first is the bit mirrored within
      its byte in the stored order. */
  lemma ReversedAt(b: BitsetImage, block: seq<byte>, k: int)
    requires b.Valid() && block == ToBytes(b.data[..ByteCount(b.size)])
    requires 0 <= k < b.size && WordSize * (k / WordSize) + WordSize <= b.size
    ensures MsbFirstBits(block, b.size)[k]
      == BitsOf(b.data, b.size)[WordSize * (k / WordSize) + (WordSize - 1 - k % WordSize)]
  {
    var q := k / WordSize;
    SplitIndex(q, WordSize - 1 - k % WordSize);
    assert block[q] == b.data[q] as int;
    WordOfByte(b.data[q]);
  }

  /** Bit `r` of byte `q` is bit `8q + r` overall. */
  lemma SplitIndex(q: int, r: int)
    requires 0 <= q && 0 <= r < WordSize
    ensures (WordSize * q + r) / WordSize == q && (WordSize * q + r) % WordSize == r
  {
  }

  lemma WordOfByte(x: bv8)
    ensures (x as int) as bv8 == x
  {
  }

  /** A bitset written and read back with the reader in the writer's order
      comes back exactly, and so does what follows it. */
  lemma BitsetRoundTrip(b: BitsetImage, rest: seq<byte>)
    requires b.Valid()
    ensures ReadBitsetLsbFirst(WriteBitset(b) + rest) == Some((BitsOf(b.data, b.size), rest))
  {
    BitsetBlockWritten(b, rest);
    var block := ToBytes(b.data[..ByteCount(b.size)]);
    assert ToWords(block) == b.data[..ByteCount(b.size)];
    BitsOfPrefix(b.data[..ByteCount(b.size)], b.data, b.size);
  }

  /** The bitset holding the single bit 1 is stored as the byte 1 and read
      back, as written, as the single bit 0. */
  lemma BitsetReadDiffers()
    ensures var b := BitsetImage([1], 1);
      && BitsOf(b.data, b.size) == [true]
      && ReadBitsetMsbFirst(WriteBitset(b)).value.0 == [false]
      && ReadBitsetLsbFirst(WriteBitset(b)).value.0 == [true]
  {
    var b := BitsetImage([1], 1);
    BitsetBlockWritten(b, []);
    assert WriteBitset(b) + [] == WriteBitset(b);
    assert BitAt(1, 0) && !BitAt(1, 7);
  }

  /** Lemma for the unpacking loop: one more bit of the block. */
  lemma MsbFirstNext(block: seq<byte>, i: int, j: int)
    requires 0 <= i < |block| && 0 <= j < WordSize
    ensures var n := WordSize * i + (WordSize - 1 - j);
      MsbFirstBits(block, n + 1) == MsbFirstBits(block, n) + [BitAt(block[i] as bv8, j)]
  {
    SplitIndex(i, WordSize - 1 - j);
  }

  /** `ReadBitset` (src/utils.cpp:33-53) on the bytes of a file: reads the
      bit count, then each stored byte, pushing its bits from bit 7 down to
      bit 0 until the count is reached. */
  method ReadBitset(input: seq<byte>) returns (bitset: DynamicBitset, rest: seq<byte>)
    requires BitsetBlock(input).Some?
    ensures fresh(bitset) && bitset.Valid()
    ensures ReadBitsetMsbFirst(input) == Some((bitset.Bits(), rest))
  {
    bitset := new DynamicBitset();
    var bits := Int32FromBits(FromLittleEndian(input[..4]));
    var bytes := ByteCount(bits);
    ghost var n := if bits > 0 then bits else 0;
    ghost var block := BitsetBlock(input).value.1;
    rest := input[4..];
    var currBit := 0;
    var i := 0;
    while i < bytes
      invariant 0 <= i <= |block| && (i > 0 ==> bits > 0)
      invariant rest == input[4 + i..] && block == input[4..4 + |block|]
      invariant currBit == if WordSize * i <= n then WordSize * i else n
      invariant fresh(bitset) && fresh(bitset.data) && bitset.Valid()
      invariant bitset.Bits() == MsbFirstBits(block, currBit)
    {
      var word := rest[0];
      rest := rest[1..];
      currBit := UnpackWord(bitset, word, bits, currBit, block, i);
      i := i + 1;
    }
  }

  /** The inner loop of `ReadBitset`: the bits of byte `i` of the block,
      from bit 7 down to bit 0, while fewer than `bits` have been pushed. */
  method UnpackWord(bitset: DynamicBitset, word: byte, bits: int, currBit: int,
                    ghost block: seq<byte>, ghost i: int) returns (next: int)
    requires bitset.Valid() && 0 <= i < |block| && block[i] == word && 0 < bits <= WordSize * |block|
    requires currBit == if WordSize * i <= bits then WordSize * i else bits
    requires bitset.Bits() == MsbFirstBits(block, currBit)
    modifies bitset, bitset.data
    ensures bitset.Valid() && (bitset.data == old(bitset.data) || fresh(bitset.data))
    ensures next == if WordSize * (i + 1) <= bits then WordSize * (i + 1) else bits
    ensures bitset.Bits() == MsbFirstBits(block, next)
  {
    next := currBit;
    ghost var base := WordSize * i;
    var j := WordSize - 1;
    while j >= 0
      invariant -1 <= j < WordSize
      invariant next == if base + (WordSize - 1 - j) <= bits then base + (WordSize - 1 - j) else bits
      invariant bitset.Valid() && (bitset.data == old(bitset.data) || fresh(bitset.data))
      invariant bitset.Bits() == MsbFirstBits(block, next)
    {
      if next < bits {
        MsbFirstNext(block, i, j);
        bitset.PushBack(BitAt(word as bv8, j));
        next := next + 1;
      }
      j := j - 1;
    }
  }

  // ---------------------------------------------------------------------
  // Index layout (src/utils.cpp:166-286)

  /** The bytes of an ASCII string. */
  function Ascii(s: string): (r: seq<byte>)
    requires forall k :: 0 <= k < |s| ==> s[k] as int < 128
    ensures |r| == |s|
  {
    seq(|s|, k requires 0 <= k < |s| => s[k] as int)
  }

  /** The line terminator `std::endl` writes and `std::getline` consumes. */
  const Newline: byte := 10
  const HuffmanTag: seq<byte> := Ascii("huffman")
  const Lz78Tag: seq<byte> := Ascii("lz78")

  predicate AllInt32(xs: seq<int>)
  {
    forall k :: 0 <= k < |xs| ==> IsInt32(xs[k])
  }

  /** `std::getline`: the bytes up to the first newline, and what follows
      that newline; the whole input when there is no newline. */
  function GetLine(s: seq<byte>): (r: (seq<byte>, seq<byte>))
    ensures r.0 <= s && Newline !in r.0
    ensures |r.0| == |s| ==> r.1 == []
    ensures |r.0| < |s| ==> s == r.0 + [Newline] + r.1
  {
    if s == [] then ([], [])
    else if s[0] == Newline then ([], s[1..])
    else var (line, rest) := GetLine(s[1..]); ([s[0]] + line, rest)
  }

  /** The suffix-array entries, each as an `int`. */
  function Int32s(xs: seq<int>): (r: seq<byte>)
    requires AllInt32(xs)
    ensures |r| == 4 * |xs|
  {
    if xs == [] then [] else Int32Bytes(xs[0]) + Int32s(xs[1..])
  }

  /** Reads `n` `int`s; `None` when the input runs out. */
  function ParseInt32s(s: seq<byte>, n: nat): (r: Option<(seq<int>, seq<byte>)>)
    ensures r.Some? ==> |r.value.0| == n
  {
    if n == 0 then Some(([], s))
    else match ReadInt32(s)
      case None => None
      case Some((x, rest)) =>
        match ParseInt32s(rest, n - 1)
        case None => None
        case Some((xs, after)) => Some(([x] + xs, after))
  }

  /** The LZ78 pairs, each as an `int` index and a `char`. */
  function PairsBytes(code: seq<Lz78.Pair>): (r: seq<byte>)
    requires forall k :: 0 <= k < |code| ==> IsInt32(code[k].index)
    ensures |r| == 5 * |code|
  {
    if code == [] then []
    else assert IsInt32(code[0].index); Int32Bytes(code[0].index) + [code[0].c] + PairsBytes(code[1..])
  }

  /** Reads `n` pairs; `None` when the input runs out. */
  function ParsePairs(s: seq<byte>, n: nat): (r: Option<(seq<Lz78.Pair>, seq<byte>)>)
    ensures r.Some? ==> |r.value.0| == n
  {
    if n == 0 then Some(([], s))
    else match ReadInt32(s)
      case None => None
      case Some((j, rest)) =>
        if rest == [] then None
        else match ParsePairs(rest[1..], n - 1)
          case None => None
          case Some((code, after)) => Some(([Lz78.Pair(j, rest[0])] + code, after))
  }

  /** Every codeword of the table is a valid bitset. */
  predicate ValidEntries(entries: seq<(byte, BitsetImage)>)
  {
    forall k :: 0 <= k < |entries| ==> entries[k].1.Valid()
  }

  /** The code table as `WriteIndexFile` writes it: each key as a `char`,
      then its codeword as a bitset. */
  function TableBytes(entries: seq<(byte, BitsetImage)>): seq<byte>
    requires ValidEntries(entries)
  {
    if entries == [] then []
    else [entries[0].0] + WriteBitset(entries[0].1) + TableBytes(entries[1..])
  }

  /** Reads `n` table entries into `table`, each codeword read in `order`,
      a later key replacing an earlier one as `code_table[key] = codeword`
      does. */
  function ParseTable(order: BitOrder, s: seq<byte>, n: nat, table: map<byte, seq<bool>>): (r: Option<(map<byte, seq<bool>>, seq<byte>)>)
  {
    if n == 0 then Some((table, s))
    else match ReadEntry(order, s)
      case None => None
      case Some((key, bits, rest)) => ParseTable(order, rest, n - 1, table[key := bits])
  }

  /** One table entry: a key `char`, then its codeword read in `order`. */
  function ReadEntry(order: BitOrder, s: seq<byte>): (r: Option<(byte, seq<bool>, seq<byte>)>)
  {
    if s == [] then None
    else match ReadBitsetIn(order, s[1..])
      case None => None
      case Some((bits, rest)) => Some((s[0], bits, rest))
  }

  /** The map the entries make when stored one after another into `table`,
      each codeword as a reader in `order` gets it back. */
  function TableOf(order: BitOrder, entries: seq<(byte, BitsetImage)>, table: map<byte, seq<bool>>): map<byte, seq<bool>>
    requires ValidEntries(entries)
  {
    if entries == [] then table
    else
      var codeword := entries[0].1;
      assert codeword.Valid();
      TableOf(order, entries[1..], table[entries[0].0 := StoredBits(order, codeword)])
  }

  /** What `HuffmanEncode` produces: the code table, in the order the map
      iterates, and the encoded text. The encoder itself is not part of this
      model; its result is an input. */
  datatype HuffmanCode = HuffmanCode(table: seq<(byte, BitsetImage)>, code: BitsetImage)
  {
    predicate Valid()
    {
      code.Valid() && ValidEntries(table)
    }
  }

  /** The LZ78 code `WriteIndexFile` computes: `LZ78Encode` into an empty
      vector. Its indices fit an `int` when the text is shorter than 2^31. */
  function Lz78Code(text: seq<byte>): (code: seq<Lz78.Pair>)
    requires |text| < 0x8000_0000
    ensures forall k :: 0 <= k < |code| ==> IsInt32(code[k].index)
  {
    Lz78.EmittedIndicesBound(text);
    Lz78.CodeNoLonger(text);
    Lz78.EncoderAfter(text).code
  }

  /** The start of every index file: the suffix-array size and entries. */
  function Header(suffixArray: seq<int>): seq<byte>
    requires AllInt32(suffixArray)
  {
    U64Bytes(|suffixArray|) + Int32s(suffixArray)
  }

  /** The Huffman payload (src/utils.cpp:254-269): the table size as a
      `size_t`, the table, then the code as a bitset. */
  function HuffmanPayload(huffman: HuffmanCode): seq<byte>
    requires huffman.Valid()
  {
    U64Bytes(|huffman.table|) + TableBytes(huffman.table) + WriteBitset(huffman.code)
  }

  /** The LZ78 payload (src/utils.cpp:270-284): the pair count as a
      `size_t`, then the pairs. */
  function Lz78Payload(code: seq<Lz78.Pair>): seq<byte>
    requires forall k :: 0 <= k < |code| ==> IsInt32(code[k].index)
  {
    U64Bytes(|code|) + PairsBytes(code)
  }

  /** `WriteIndexFile` (src/utils.cpp:236-286): the index path, and the
      bytes written there. */
  function WriteIndexFile(pathname: string, suffixArray: seq<int>, text: seq<byte>,
                          compression: CompressionType, huffman: HuffmanCode): (r: (string, seq<byte>))
    requires AllInt32(suffixArray)
    requires compression == Huffman ==> huffman.Valid()
    requires compression == LZ78 ==> |text| < 0x8000_0000
    ensures r.0 == Paths.IndexPath(pathname)
    ensures Header(suffixArray) <= r.1
  {
    var body :=
      if compression == Huffman then HuffmanTag + [Newline] + HuffmanPayload(huffman)
      else Lz78Tag + [Newline] + Lz78Payload(Lz78Code(text));
    (Paths.IndexPath(pathname), Header(suffixArray) + body)
  }

  /** What `ReadIndexFile` leaves in `*text`: the LZ78-decoded text, or, for
      Huffman, the code table and code that the Huffman decoder (not part of
      this model) turns into text. */
  datatype Content = Lz78Text(text: seq<byte>) | HuffmanCoded(table: map<byte, seq<bool>>, code: seq<bool>)

  /** The status `ReadIndexFile` returns, the suffix array it leaves, and
      the content it decoded, if any. */
  datatype Loaded = Loaded(status: int, suffixArray: seq<int>, content: Option<Content>)

  /** Reads a Huffman payload (src/utils.cpp:186-204), every bitset read
      in `order`; `ReadIndexFile` reads in the order `ReadBitset` does. */
  function ReadHuffmanPayload(order: BitOrder, s: seq<byte>): Option<Content>
  {
    match ReadU64(s)
    case None => None
    case Some((size, s1)) =>
      match ParseTable(order, s1, size, map[])
      case None => None
      case Some((table, s2)) =>
        match ReadBitsetIn(order, s2)
        case None => None
        case Some((code, _)) => Some(HuffmanCoded(table, code))
  }

  /** Reads an LZ78 payload and decodes it (src/utils.cpp:205-228). */
  function ReadLz78Payload(s: seq<byte>): Option<Content>
  {
    match ReadU64(s)
    case None => None
    case Some((size, s1)) =>
      match ParsePairs(s1, size)
      case None => None
      case Some((code, _)) => Some(Lz78Text(Lz78.DecodeText(code)))
  }

  /** `ReadIndexFile` (src/utils.cpp:166-234) on the file's bytes, `None`
      standing for a file that cannot be opened. Entries are appended to
      `suffixArray0`, the caller's vector. The status is -1 when the file
      cannot be opened, -2 for an unknown tag (the suffix array already
      read), 0 otherwise. The model answers `None` when the file ends before
      the layout does. */
  function ReadIndexFile(file: Option<seq<byte>>, suffixArray0: seq<int>): (r: Option<Loaded>)
    ensures file.None? ==> r == Some(Loaded(-1, suffixArray0, None))
    ensures r.Some? ==> r.value.status in {-1, -2, 0}
    ensures r.Some? ==> suffixArray0 <= r.value.suffixArray
    ensures r.Some? ==> (r.value.status == 0 <==> r.value.content.Some?)
  {
    match file
    case None => Some(Loaded(-1, suffixArray0, None))
    case Some(s) =>
      match ReadU64(s)
      case None => None
      case Some((n, s1)) =>
        match ParseInt32s(s1, n)
        case None => None
        case Some((entries, s2)) =>
          ReadBody(GetLine(s2), suffixArray0 + entries)
  }

  /** The part of `ReadIndexFile` after the suffix array: dispatch on the
      tag line. */
  function ReadBody(line: (seq<byte>, seq<byte>), suffixArray: seq<int>): (r: Option<Loaded>)
    ensures r.Some? ==> r.value.suffixArray == suffixArray
    ensures r.Some? ==> r.value.status in {-2, 0} && (r.value.status == 0 <==> r.value.content.Some?)
  {
    var (tag, payload) := line;
    var content :=
      if tag == HuffmanTag then ReadHuffmanPayload(MsbFirst, payload)
      else if tag == Lz78Tag then ReadLz78Payload(payload)
      else None;
    if tag != HuffmanTag && tag != Lz78Tag then Some(Loaded(-2, suffixArray, None))
    else if content.None? then None
    else Some(Loaded(0, suffixArray, content))
  }

  // ---------------------------------------------------------------------
  // Round trips of the layout

  lemma {:induction false} GetLineWritten(line: seq<byte>, rest: seq<byte>)
    requires Newline !in line
    ensures GetLine(line + [Newline] + rest) == (line, rest)
  {
    if line != [] {
      GetLineWritten(line[1..], rest);
      assert (line + [Newline] + rest)[1..] == line[1..] + [Newline] + rest;
      assert [line[0]] + line[1..] == line;
    }
  }

  lemma {:induction false} Int32sRoundTrip(xs: seq<int>, rest: seq<byte>)
    requires AllInt32(xs)
    ensures ParseInt32s(Int32s(xs) + rest, |xs|) == Some((xs, rest))
  {
    if xs != [] {
      var s := Int32s(xs) + rest;
      assert s == Int32Bytes(xs[0]) + (Int32s(xs[1..]) + rest);
      ReadInt32Written(xs[0], Int32s(xs[1..]) + rest);
      Int32sRoundTrip(xs[1..], rest);
      assert ParseInt32s(s, |xs|) == Some(([xs[0]] + xs[1..], rest));
      assert [xs[0]] + xs[1..] == xs;
    } else {
      assert Int32s(xs) + rest == rest;
    }
  }

  lemma {:induction false} PairsRoundTrip(code: seq<Lz78.Pair>, rest: seq<byte>)
    requires forall k :: 0 <= k < |code| ==> IsInt32(code[k].index)
    ensures ParsePairs(PairsBytes(code) + rest, |code|) == Some((code, rest))
  {
    if code != [] {
      PairStep(code, rest);
      PairsRoundTrip(code[1..], rest);
      assert [code[0]] + code[1..] == code;
    } else {
      assert PairsBytes(code) + rest == rest;
    }
  }

  /** Reading the first pair of written pairs. */
  lemma PairStep(code: seq<Lz78.Pair>, rest: seq<byte>)
    requires forall k :: 0 <= k < |code| ==> IsInt32(code[k].index)
    requires code != []
    ensures ParsePairs(PairsBytes(code) + rest, |code|)
      == match ParsePairs(PairsBytes(code[1..]) + rest, |code| - 1)
         case None => None
         case Some((tail, after)) => Some(([code[0]] + tail, after))
  {
    var p := code[0];
    assert IsInt32(p.index);
    var tail := PairsBytes(code[1..]) + rest;
    PairsLayout(code, rest);
    ParsePairHead(p.index, p.c, tail, |code|);
    assert Lz78.Pair(p.index, p.c) == p;
  }

  lemma PairsLayout(code: seq<Lz78.Pair>, rest: seq<byte>)
    requires forall k :: 0 <= k < |code| ==> IsInt32(code[k].index)
    requires code != []
    ensures IsInt32(code[0].index)
    ensures PairsBytes(code) + rest == Int32Bytes(code[0].index) + ([code[0].c] + (PairsBytes(code[1..]) + rest))
  {
    assert IsInt32(code[0].index);
  }

  lemma ParsePairHead(j: int, c: byte, tail: seq<byte>, n: nat)
    requires IsInt32(j) && n > 0
    ensures ParsePairs(Int32Bytes(j) + ([c] + tail), n)
      == match ParsePairs(tail, n - 1)
         case None => None
         case Some((code, after)) => Some(([Lz78.Pair(j, c)] + code, after))
  {
    ReadInt32Written(j, [c] + tail);
    assert ([c] + tail)[1..] == tail;
  }

  lemma {:induction false} TableRoundTrip(order: BitOrder, entries: seq<(byte, BitsetImage)>, table: map<byte, seq<bool>>, rest: seq<byte>)
    requires ValidEntries(entries)
    ensures ParseTable(order, TableBytes(entries) + rest, |entries|, table) == Some((TableOf(order, entries, table), rest))
  {
    if entries == [] {
      assert TableBytes(entries) + rest == rest;
      assert TableOf(order, entries, table) == table;
    } else {
      var codeword := entries[0].1;
      assert codeword.Valid();
      var table' := table[entries[0].0 := StoredBits(order, codeword)];
      TableStep(order, entries, table, rest);
      TableRoundTrip(order, entries[1..], table', rest);
      assert TableOf(order, entries, table) == TableOf(order, entries[1..], table');
    }
  }

  /** Reading the first entry of a written table. */
  lemma TableStep(order: BitOrder, entries: seq<(byte, BitsetImage)>, table: map<byte, seq<bool>>, rest: seq<byte>)
    requires ValidEntries(entries)
    requires entries != []
    ensures entries[0].1.Valid()
    ensures ParseTable(order, TableBytes(entries) + rest, |entries|, table)
      == ParseTable(order, TableBytes(entries[1..]) + rest, |entries[1..]|,
                    table[entries[0].0 := StoredBits(order, entries[0].1)])
  {
    var key, codeword := entries[0].0, entries[0].1;
    assert codeword.Valid();
    var tail := TableBytes(entries[1..]) + rest;
    assert TableBytes(entries) + rest == [key] + WriteBitset(codeword) + tail;
    EntryWritten(order, key, codeword, tail);
  }

  lemma EntryWritten(order: BitOrder, key: byte, codeword: BitsetImage, tail: seq<byte>)
    requires codeword.Valid()
    ensures ReadEntry(order, [key] + WriteBitset(codeword) + tail) == Some((key, StoredBits(order, codeword), tail))
  {
    var s := [key] + WriteBitset(codeword) + tail;
    assert s[1..] == WriteBitset(codeword) + tail;
    BitsetReadBack(order, codeword, tail);
  }

  /** The keys of a table the entries are stored into: those it had and
      those of the entries. */
  lemma {:induction false} TableOfKeys(order: BitOrder, entries: seq<(byte, BitsetImage)>, table: map<byte, seq<bool>>)
    requires ValidEntries(entries)
    ensures TableOf(order, entries, table).Keys == table.Keys + (set k | 0 <= k < |entries| :: entries[k].0)
  {
    if entries != [] {
      var codeword := entries[0].1;
      assert codeword.Valid();
      var table' := table[entries[0].0 := StoredBits(order, codeword)];
      TableOfKeys(order, entries[1..], table');
      KeysSplit(entries);
    }
  }

  /** The keys of the entries: the first one and those of the rest. */
  lemma KeysSplit(entries: seq<(byte, BitsetImage)>)
    requires entries != []
    ensures (set k | 0 <= k < |entries| :: entries[k].0)
      == {entries[0].0} + (set k | 0 <= k < |entries[1..]| :: entries[1..][k].0)
  {
    var later := set k | 0 <= k < |entries[1..]| :: entries[1..][k].0;
    var all := set k | 0 <= k < |entries| :: entries[k].0;
    forall x | x in all ensures x in {entries[0].0} + later {
      var k :| 0 <= k < |entries| && entries[k].0 == x;
      if k > 0 { assert entries[1..][k - 1].0 == x; }
    }
    forall x | x in later ensures x in all {
      var k :| 0 <= k < |entries[1..]| && entries[1..][k].0 == x;
      assert entries[k + 1].0 == x;
    }
  }

  /** A key that no entry names keeps its value, or stays absent. */
  lemma {:induction false} TableOfUntouched(order: BitOrder, entries: seq<(byte, BitsetImage)>, table: map<byte, seq<bool>>, key: byte)
    requires ValidEntries(entries)
    requires forall k :: 0 <= k < |entries| ==> entries[k].0 != key
    ensures key in TableOf(order, entries, table) <==> key in table
    ensures key in table ==> TableOf(order, entries, table)[key] == table[key]
  {
    if entries != [] {
      var codeword := entries[0].1;
      assert codeword.Valid();
      var table' := table[entries[0].0 := StoredBits(order, codeword)];
      assert entries[0].0 != key;
      TableOfUntouched(order, entries[1..], table', key);
    }
  }

  /** A key takes the codeword of the last entry that names it, as a
      reader in `order` gets it back. */
  lemma {:induction false} TableOfLast(order: BitOrder, entries: seq<(byte, BitsetImage)>, table: map<byte, seq<bool>>, i: int)
    requires ValidEntries(entries) && 0 <= i < |entries|
    requires forall k :: i < k < |entries| ==> entries[k].0 != entries[i].0
    ensures entries[i].1.Valid()
    ensures entries[i].0 in TableOf(order, entries, table)
    ensures TableOf(order, entries, table)[entries[i].0] == StoredBits(order, entries[i].1)
  {
    var codeword := entries[0].1;
    assert codeword.Valid();
    var table' := table[entries[0].0 := StoredBits(order, codeword)];
    if i == 0 {
      TableOfUntouched(order, entries[1..], table', entries[0].0);
    } else {
      assert entries[1..][i - 1] == entries[i];
      TableOfLast(order, entries[1..], table', i - 1);
    }
  }

  /** The header read back: the suffix array, then what follows. */
  lemma HeaderRoundTrip(suffixArray: seq<int>, rest: seq<byte>)
    requires AllInt32(suffixArray) && |suffixArray| < 0x1_0000_0000_0000_0000
    ensures ReadU64(Header(suffixArray) + rest) == Some((|suffixArray|, Int32s(suffixArray) + rest))
    ensures ParseInt32s(Int32s(suffixArray) + rest, |suffixArray|) == Some((suffixArray, rest))
  {
    assert Header(suffixArray) + rest == U64Bytes(|suffixArray|) + (Int32s(suffixArray) + rest);
    ReadU64Written(|suffixArray|, Int32s(suffixArray) + rest);
    Int32sRoundTrip(suffixArray, rest);
  }

  lemma TagsWithoutNewline()
    ensures Newline !in HuffmanTag && Newline !in Lz78Tag && HuffmanTag != Lz78Tag
  {
    assert HuffmanTag[0] != Lz78Tag[0];
  }

  /** Reading any file that starts with a header and a tag line comes
      down to reading the payload after the tag. */
  lemma ReadAfterTag(suffixArray: seq<int>, tag: seq<byte>, payload: seq<byte>, suffixArray0: seq<int>)
    requires AllInt32(suffixArray) && |suffixArray| < 0x1_0000_0000_0000_0000
    requires Newline !in tag
    ensures ReadIndexFile(Some(Header(suffixArray) + (tag + [Newline] + payload)), suffixArray0)
      == ReadBody((tag, payload), suffixArray0 + suffixArray)
  {
    HeaderRoundTrip(suffixArray, tag + [Newline] + payload);
    GetLineWritten(tag, payload);
  }

  lemma Lz78PayloadRoundTrip(code: seq<Lz78.Pair>)
    requires forall k :: 0 <= k < |code| ==> IsInt32(code[k].index)
    requires |code| < 0x1_0000_0000_0000_0000
    ensures ReadLz78Payload(Lz78Payload(code)) == Some(Lz78Text(Lz78.DecodeText(code)))
  {
    assert Lz78Payload(code) == U64Bytes(|code|) + (PairsBytes(code) + []);
    ReadU64Written(|code|, PairsBytes(code) + []);
    PairsRoundTrip(code, []);
  }

  /** A Huffman payload read back in either order: the table the entries
      make and the code, each bitset as a reader in that order gets it. */
  lemma HuffmanPayloadRoundTrip(order: BitOrder, huffman: HuffmanCode)
    requires huffman.Valid() && |huffman.table| < 0x1_0000_0000_0000_0000
    ensures ReadHuffmanPayload(order, HuffmanPayload(huffman))
      == Some(HuffmanCoded(TableOf(order, huffman.table, map[]), StoredBits(order, huffman.code)))
  {
    var codeBytes := WriteBitset(huffman.code);
    assert HuffmanPayload(huffman) == U64Bytes(|huffman.table|) + (TableBytes(huffman.table) + codeBytes);
    ReadU64Written(|huffman.table|, TableBytes(huffman.table) + codeBytes);
    TableRoundTrip(order, huffman.table, map[], codeBytes);
    assert codeBytes == codeBytes + [];
    BitsetReadBack(order, huffman.code, []);
  }

  /** An LZ78 index written and read back: status 0, the suffix array
      appended to the caller's vector, and the decoded text, which is the
      text less the phrase the encoder leaves pending. */
  lemma Lz78IndexRoundTrip(pathname: string, suffixArray: seq<int>, text: seq<byte>,
                           huffman: HuffmanCode, suffixArray0: seq<int>)
    requires AllInt32(suffixArray) && |suffixArray| < 0x1_0000_0000_0000_0000
    requires |text| < 0x8000_0000
    ensures var file := WriteIndexFile(pathname, suffixArray, text, LZ78, huffman).1;
      var decoded := Lz78.DecodeText(Lz78Code(text));
      && ReadIndexFile(Some(file), suffixArray0) == Some(Loaded(0, suffixArray0 + suffixArray, Some(Lz78Text(decoded))))
      && decoded <= text
  {
    var code := Lz78Code(text);
    TagsWithoutNewline();
    ReadAfterTag(suffixArray, Lz78Tag, Lz78Payload(code), suffixArray0);
    Lz78.CodeNoLonger(text);
    Lz78PayloadRoundTrip(code);
    Lz78.RoundTrip(text);
  }

  /** A Huffman index written and read back: status 0, the suffix array
      appended, and the table and code read most-significant bit first, as
      `ReadBitset` reads them, so that the code comes back with the bits of
      every whole byte reversed. */
  lemma HuffmanIndexRoundTrip(pathname: string, suffixArray: seq<int>, text: seq<byte>,
                              huffman: HuffmanCode, suffixArray0: seq<int>)
    requires AllInt32(suffixArray) && |suffixArray| < 0x1_0000_0000_0000_0000
    requires huffman.Valid() && |huffman.table| < 0x1_0000_0000_0000_0000
    ensures var file := WriteIndexFile(pathname, suffixArray, text, Huffman, huffman).1;
      ReadIndexFile(Some(file), suffixArray0)
        == Some(Loaded(0, suffixArray0 + suffixArray,
                       Some(HuffmanCoded(TableOf(MsbFirst, huffman.table, map[]),
                                         StoredBits(MsbFirst, huffman.code)))))
    ensures MirroredBytes(StoredBits(MsbFirst, huffman.code), BitsOf(huffman.code.data, huffman.code.size))
  {
    TagsWithoutNewline();
    ReadAfterTag(suffixArray, HuffmanTag, HuffmanPayload(huffman), suffixArray0);
    HuffmanPayloadRoundTrip(MsbFirst, huffman);
    BitsetReadReversed(huffman.code);
  }

  /** A file whose tag is neither "huffman" nor "lz78" gives status -2 with
      the suffix array already appended, whatever follows the tag. */
  lemma UnknownTag(suffixArray: seq<int>, tag: seq<byte>, rest: seq<byte>, suffixArray0: seq<int>)
    requires AllInt32(suffixArray) && |suffixArray| < 0x1_0000_0000_0000_0000
    requires Newline !in tag && tag != HuffmanTag && tag != Lz78Tag
    ensures ReadIndexFile(Some(Header(suffixArray) + (tag + [Newline] + rest)), suffixArray0)
      == Some(Loaded(-2, suffixArray0 + suffixArray, None))
  {
    ReadAfterTag(suffixArray, tag, rest, suffixArray0);
  }
}

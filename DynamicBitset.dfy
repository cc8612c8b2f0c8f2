/** A growable, append-only bit buffer. Bit `i` lives in byte `i / 8` at
    bit position `i % 8` counted from the least-significant bit. The logical
    size is counted in bits, the capacity in bytes. */
module Bitset {

  /** `kWordSize`: bits per stored byte. */
  const WordSize: int := 8
  /** `kDefaultBitsetCapacity`: bytes allocated by the default constructor. */
  const DefaultBitsetCapacity: int := 1

  /** Bit `k` of byte `b`, counting from the least-significant bit. */
  function BitAt(b: bv8, k: int): bool
    requires 0 <= k < 8
  {
    b & (1 << k) != 0
  }

  /** The first `n` bits of `bytes`, least-significant bit of each byte first. */
  function BitsOf(bytes: seq<bv8>, n: nat): (r: seq<bool>)
    requires n <= 8 * |bytes|
    ensures |r| == n
  {
    seq(n, i requires 0 <= i < n => BitAt(bytes[i / 8], i % 8))
  }

  /** `|=` with a one-bit mask sets exactly that bit. */
  lemma SetBit(x: bv8, b: int, k: int)
    requires 0 <= b < 8 && 0 <= k < 8
    ensures BitAt(x | (1 << b), k) == (k == b || BitAt(x, k))
  {
  }

  /** `&=` with the complement of a one-bit mask clears exactly that bit. */
  lemma ClearBit(x: bv8, b: int, k: int)
    requires 0 <= b < 8 && 0 <= k < 8
    ensures BitAt(x & !(1 << b), k) == (k != b && BitAt(x, k))
  {
  }

  /** The masked-and-shifted bit that `ToString` adds to '0' is 0 or 1. */
  lemma MaskedBit(x: bv8, b: int)
    requires 0 <= b < 8
    ensures ((x & (1 << b)) >> b) as int == if BitAt(x, b) then 1 else 0
  {
  }

  /** Changing bytes at or beyond byte `n / 8` ... leaves the first bits alone:
      the bits below `n` depend only on the first ⌈n/8⌉ bytes. */
  lemma BitsOfPrefix(a: seq<bv8>, b: seq<bv8>, n: nat)
    requires n <= 8 * |a| && n <= 8 * |b|
    requires forall k :: 0 <= k < |a| && k < |b| && k * 8 < n ==> a[k] == b[k]
    ensures BitsOf(a, n) == BitsOf(b, n)
  {
    forall i | 0 <= i < n ensures BitsOf(a, n)[i] == BitsOf(b, n)[i] {
      assert (i / 8) * 8 <= i;
    }
  }

  /** The byte `x` with bit `b` set (`|= 1 << b`) or cleared (`&= ~(1 << b)`). */
  function WriteBit(x: bv8, b: int, value: bool): bv8
    requires 0 <= b < 8
  {
    if value then x | (1 << b) else x & !(1 << b)
  }

  lemma WriteBitAt(x: bv8, b: int, value: bool, k: int)
    requires 0 <= b < 8 && 0 <= k < 8
    ensures BitAt(WriteBit(x, b, value), k) == if k == b then value else BitAt(x, k)
  {
    if value { SetBit(x, b, k); } else { ClearBit(x, b, k); }
  }

  /** Writing bit `n` into its byte extends the first `n` bits by that bit. */
  lemma PushBit(before: seq<bv8>, n: nat, value: bool)
    requires n < 8 * |before|
    ensures BitsOf(before[n / 8 := WriteBit(before[n / 8], n % 8, value)], n + 1) == BitsOf(before, n) + [value]
  {
    var w, b := n / 8, n % 8;
    var after := before[w := WriteBit(before[w], b, value)];
    forall i | 0 <= i < n + 1
      ensures BitsOf(after, n + 1)[i] == (BitsOf(before, n) + [value])[i]
    {
      var q, k := i / 8, i % 8;
      if q == w {
        assert i == 8 * q + k && n == 8 * w + b;
        WriteBitAt(before[w], b, value, k);
      }
    }
  }

  /** `std::copy_n(src, n, dst)`. */
  method CopyN(src: array<bv8>, n: int, dst: array<bv8>)
    requires 0 <= n <= src.Length && n <= dst.Length && src != dst
    modifies dst
    ensures dst[..n] == src[..n]
    ensures dst[n..] == old(dst[n..])
  {
    var k := 0;
    while k < n
      invariant 0 <= k <= n
      invariant dst[..k] == src[..k]
      invariant dst[n..] == old(dst[n..])
    {
      dst[k] := src[k];
      k := k + 1;
    }
  }

  class DynamicBitset {
    var data: array<bv8>
    var capacity: int
    var size: int

    /** Size in bits never exceeds the storage, and storage is never empty. */
    ghost predicate Valid()
      reads this
    {
      data.Length == capacity && capacity >= 1 && 0 <= size <= WordSize * capacity
    }

    /** The logical content: the bits below `size`. Bytes beyond are unspecified. */
    ghost function Bits(): seq<bool>
      reads this, data
      requires Valid()
    {
      BitsOf(data[..], size)
    }

    /** The default constructor: size 0, one byte of (uninitialised) storage. */
    constructor ()
      ensures Valid() && fresh(data)
      ensures size == 0 && capacity == DefaultBitsetCapacity && Bits() == []
    {
      data := new bv8[DefaultBitsetCapacity];
      capacity := DefaultBitsetCapacity;
      size := 0;
    }

    /** The copy constructor: the source's size and its first `capacity` bytes. */
    constructor Copy(bitset: DynamicBitset)
      requires bitset.Valid()
      ensures Valid() && fresh(data)
      ensures capacity == bitset.capacity && size == bitset.size
      ensures data[..] == bitset.data[..]
      ensures Bits() == bitset.Bits()
    {
      var a := new bv8[bitset.capacity];
      CopyN(bitset.data, bitset.capacity, a);
      data := a;
      capacity := bitset.capacity;
      size := bitset.size;
      assert a[..] == a[..bitset.capacity];
    }

    /** Doubles the capacity, keeping the old bytes (and so every bit). */
    method Resize()
      requires Valid()
      modifies this
      ensures Valid() && fresh(data)
      ensures capacity == 2 * old(capacity) && size == old(size)
      ensures data[..old(capacity)] == old(data[..])
      ensures Bits() == old(Bits())
    {
      var newCapacity := capacity * 2;
      var newData := new bv8[newCapacity];
      CopyN(data, capacity, newData);
      data := newData;
      capacity := newCapacity;
      BitsOfPrefix(data[..], old(data[..]), size);
    }

    /** `operator[]`: bit `index % 8` of byte `index / 8`. No bounds check in
        the source, hence the precondition. */
    method Get(index: int) returns (b: bool)
      requires Valid() && 0 <= index < size
      ensures b == Bits()[index]
    {
      var wordIndex := index / WordSize;
      var bitIndex := index % WordSize;
      b := data[wordIndex] & (1 << bitIndex) != 0;
    }

    /** Appends one bit, doubling the storage first when it is exactly full. */
    method PushBack(value: bool)
      requires Valid()
      modifies this, data
      ensures Valid() && (data == old(data) || fresh(data))
      ensures size == old(size) + 1
      ensures Bits() == old(Bits()) + [value]
      ensures capacity == if old(size) == WordSize * old(capacity) then 2 * old(capacity) else old(capacity)
    {
      if size == WordSize * capacity {
        Resize();
      }
      ghost var before := data[..];
      assert BitsOf(before, size) == old(Bits());
      var wordIndex := size / WordSize;
      var bitIndex := size % WordSize;
      size := size + 1;
      var word := WriteBit(data[wordIndex], bitIndex, value);
      data[wordIndex] := word;
      assert data[..] == before[wordIndex := word];
      PushBit(before, size - 1, value);
      assert Bits() == BitsOf(before, size - 1) + [value];
    }

    /** Zeroes every byte of storage and empties the bitset. */
    method Flush()
      requires Valid()
      modifies this, data
      ensures Valid() && data == old(data) && capacity == old(capacity)
      ensures size == 0 && Bits() == []
      ensures forall k :: 0 <= k < capacity ==> data[k] == 0
    {
      var k := 0;
      while k < capacity
        invariant data == old(data) && capacity == old(capacity) && size == old(size)
        invariant 0 <= k <= capacity
        invariant forall j :: 0 <= j < k ==> data[j] == 0
      {
        data[k] := 0;
        k := k + 1;
      }
      size := 0;
    }

    /** `operator=`: copies the source's size and its first `capacity` bytes;
        reallocates only when the own storage is smaller, so the capacity never
        shrinks; self-assignment changes nothing. */
    method Assign(bitset: DynamicBitset)
      requires Valid() && bitset.Valid()
      requires bitset == this || bitset.data != data
      modifies this, data
      ensures Valid()
      ensures bitset == this ==> capacity == old(capacity) && size == old(size) && data == old(data) && data[..] == old(data[..])
      ensures bitset != this ==> size == old(bitset.size)
      ensures bitset != this ==> capacity == if old(capacity) < old(bitset.capacity) then old(bitset.capacity) else old(capacity)
      ensures bitset != this ==> data[..old(bitset.capacity)] == old(bitset.data[..])
      ensures Bits() == old(bitset.Bits())
    {
      if this != bitset {
        if capacity < bitset.capacity {
          data := new bv8[bitset.capacity];
          capacity := bitset.capacity;
        }
        CopyN(bitset.data, bitset.capacity, data);
        size := bitset.size;
        BitsOfPrefix(data[..], bitset.data[..], size);
      }
    }

    /** The bits as text: exactly `size` characters, character `i` is '0' plus bit `i`. */
    method ToString() returns (result: string)
      requires Valid()
      ensures |result| == size
      ensures forall i :: 0 <= i < size ==> result[i] == if Bits()[i] then '1' else '0'
    {
      result := [];
      var bitIndex := 0;
      var wordIndex := 0;
      var i := 0;
      while i < size
        invariant 0 <= i <= size && |result| == i
        invariant wordIndex == i / WordSize && bitIndex == i % WordSize
        invariant forall k :: 0 <= k < i ==> result[k] == if Bits()[k] then '1' else '0'
      {
        var maskedBit := (data[wordIndex] & (1 << bitIndex)) >> bitIndex;
        MaskedBit(data[wordIndex], bitIndex);
        result := result + [(maskedBit as int + '0' as int) as char];
        bitIndex := bitIndex + 1;
        if bitIndex == WordSize {
          bitIndex := 0;
          wordIndex := wordIndex + 1;
        }
        i := i + 1;
      }
    }
  }
}

/** The bit output stream and the bit input stream. */
module Streams {
  import opened WordBits
  import opened StreamBits
  import opened Arithmetic
  import opened Sequences

  /** The bits filled up to whole bytes. */
  function Padded(bits: seq<bool>): (r: seq<bool>)
    ensures |r| % 8 == 0 && bits <= r && |r| < |bits| + 8 && forall k :: |bits| <= k < |r| ==> !r[k]
  {
    bits + Falses((8 - |bits| % 8) % 8)
  }

  lemma PaddedUnique(bits: seq<bool>, p: seq<bool>)
    requires |p| % 8 == 0 && bits <= p && |p| < |bits| + 8 && forall k :: |bits| <= k < |p| ==> !p[k]
    ensures p == Padded(bits)
  {
    assert |p| == |Padded(bits)|;
    assert p[..|bits|] == bits && Padded(bits)[..|bits|] == bits;
    assert forall k :: 0 <= k < |bits| ==> p[k] == p[..|bits|][k] && Padded(bits)[k] == Padded(bits)[..|bits|][k];
  }

  // ---------- writing one bit ----------

  /** The data with room for one more bit. */
  function Room(data: seq<nat>, n: nat): seq<nat> {
    if n % 8 == 0 then data + [0] else data
  }

  lemma RoomPacks(data: seq<nat>, bits: seq<bool>)
    requires Packs(data, Padded(bits))
    ensures |Padded(bits + [false])| == 8 * |Room(data, |bits|)| && Packs(Room(data, |bits|), Padded(bits + [false]))
  {
    var n := |bits|;
    if n % 8 == 0 {
      NoBits(Falses(8));
      PackByte(data, Padded(bits), 0, Falses(8));
      PaddedUnique(bits + [false], Padded(bits) + Falses(8));
    } else {
      PaddedUnique(bits + [false], Padded(bits));
    }
  }

  /** Or-ing the mask into the last byte sets the bit. */
  lemma SetLastBit(data: seq<nat>, bits: seq<bool>)
    requires Packs(data, Padded(bits + [false]))
    ensures var i, k := |bits| / 8, |bits| % 8;
      i < |data| && Packs(data[i := Or(data[i], Pow2(7 - k))], Padded(bits + [true]))
  {
    var p := Padded(bits + [false]);
    LastIsFree(bits);
    assert ByteHolds(data, p, |bits| / 8);
    SetBitOfByte(data, p, |bits|);
  }

  lemma LastIsFree(bits: seq<bool>)
    ensures var p := Padded(bits + [false]);
      !p[|bits|] && p[|bits| := true] == Padded(bits + [true])
  {
    var p := Padded(bits + [false]);
    assert p[..|bits| + 1] == bits + [false];
    assert p[|bits|] == p[..|bits| + 1][|bits|];
    assert p[|bits| := true][..|bits| + 1] == bits + [true];
    PaddedUnique(bits + [true], p[|bits| := true]);
  }

  /** Or-ing a mask into a byte sets a bit that was not set. */
  lemma SetBitOfByte(data: seq<nat>, p: seq<bool>, pos: nat)
    requires Packs(data, p) && pos < |p| && !p[pos]
    ensures var i, k := pos / 8, pos % 8;
      i < |data| && Packs(data[i := Or(data[i], Pow2(7 - k))], p[pos := true])
  {
    var i, k := pos / 8, pos % 8;
    assert i < |data| && ByteHolds(data, p, i);
    var slice := p[8 * i..8 * i + 8];
    assert slice[k] == p[pos];
    BitOfFromBits(slice, k);
    OrBit(data[i], 7 - k);
    SetBitValue(slice, k);
    var p' := p[pos := true];
    assert p'[8 * i..8 * i + 8] == slice[k := true];
    RepackByte(data, p, i, Or(data[i], Pow2(7 - k)), p');
  }

  // ---------- writing one byte ----------

  lemma PaddedAligned(bits: seq<bool>)
    requires |bits| % 8 == 0
    ensures Padded(bits) == bits
  {
  }

  lemma AlignedByte(data: seq<nat>, bits: seq<bool>, value: nat)
    requires Packs(data, Padded(bits)) && |bits| % 8 == 0 && value < 256
    ensures Packs(data + [value], Padded(bits + NBits(value, 8)))
  {
    Pow2Byte();
    NumberRoundTrip(value, 8);
    PaddedAligned(bits);
    PaddedAligned(bits + NBits(value, 8));
    PackByte(data, bits, value, NBits(value, 8));
  }

  /** The number in the l1 bits of the last byte. */
  function LastBits(bits: seq<bool>): nat {
    FromBits(bits[|bits| / 8 * 8..])
  }

  /** The bits with a byte appended, as bytes: all but the last ones stay. */
  lemma SplitByte(bits: seq<bool>, value: nat, q: nat, l1: nat)
    requires |bits| == 8 * q + l1 && 0 < l1 < 8 && value < 256
    ensures var p, p' := Padded(bits), Padded(bits + NBits(value, 8));
      && |p| == 8 * q + 8 && |p'| == 8 * q + 16 && p'[..8 * q] == p[..8 * q]
      && FromBits(p[8 * q..8 * q + 8]) == FromBits(bits[8 * q..]) * Pow2(8 - l1)
      && FromBits(p'[8 * q..8 * q + 8]) == FromBits(bits[8 * q..]) * Pow2(8 - l1) + value / Pow2(l1)
      && FromBits(p'[8 * q + 8..8 * q + 16]) == (value % Pow2(l1)) * Pow2(8 - l1)
  {
    NBitsSplit(value, 8 - l1, l1);
    SplitPadded(bits, q, l1, NBits(value / Pow2(l1), 8 - l1), NBits(value, l1));
    ValuesOfParts(bits[8 * q..], value, l1);
  }

  lemma SplitPadded(bits: seq<bool>, q: nat, l1: nat, hi: seq<bool>, lo: seq<bool>)
    requires |bits| == 8 * q + l1 && 0 < l1 < 8 && |hi| == 8 - l1 && |lo| == l1
    ensures var p, p' := Padded(bits), Padded(bits + (hi + lo));
      && |p| == 8 * q + 8 && |p'| == 8 * q + 16 && p'[..8 * q] == p[..8 * q]
      && p[8 * q..8 * q + 8] == bits[8 * q..] + Falses(8 - l1)
      && p'[8 * q..8 * q + 8] == bits[8 * q..] + hi && p'[8 * q + 8..8 * q + 16] == lo + Falses(8 - l1)
  {
    PaddedBy(bits, q, l1);
    PaddedBy(bits + (hi + lo), q + 1, l1);
    CutOld(bits, 8 * q, Falses(8 - l1));
    CutNew(bits, 8 * q, hi, lo, Falses(8 - l1));
  }

  lemma PaddedBy(bits: seq<bool>, q: nat, l1: nat)
    requires |bits| == 8 * q + l1 && 0 < l1 < 8
    ensures Padded(bits) == bits + Falses(8 - l1)
  {
  }

  lemma CutOld(bits: seq<bool>, n: nat, z: seq<bool>)
    requires n <= |bits|
    ensures (bits + z)[..n] == bits[..n] && (bits + z)[n..] == bits[n..] + z
    ensures |bits| + |z| == n + 8 ==> (bits + z)[n..n + 8] == bits[n..] + z
  {
  }

  lemma CutNew(bits: seq<bool>, n: nat, hi: seq<bool>, lo: seq<bool>, z: seq<bool>)
    requires n <= |bits| && |bits| + |hi| == n + 8 && |lo| + |z| == 8
    ensures var p := bits + (hi + lo) + z;
      p[..n] == bits[..n] && p[n..n + 8] == bits[n..] + hi && p[n + 8..n + 16] == lo + z
  {
    var p := bits + (hi + lo) + z;
    assert p == (bits + hi) + (lo + z);
  }

  lemma ValuesOfParts(last: seq<bool>, value: nat, l1: nat)
    requires |last| == l1 && 0 < l1 < 8 && value < 256
    ensures value / Pow2(l1) >= 0
    ensures FromBits(last + Falses(8 - l1)) == FromBits(last) * Pow2(8 - l1)
    ensures FromBits(last + NBits(value / Pow2(l1), 8 - l1)) == FromBits(last) * Pow2(8 - l1) + value / Pow2(l1)
    ensures FromBits(NBits(value, l1) + Falses(8 - l1)) == (value % Pow2(l1)) * Pow2(8 - l1)
  {
    UpperBits(value, l1);
    NoBits(Falses(8 - l1));
    FromBitsSplit(last, Falses(8 - l1));
    FromBitsSplit(last, NBits(value / Pow2(l1), 8 - l1));
    FromBitsSplit(NBits(value, l1), Falses(8 - l1));
    NBitsRoundTrip(value, l1);
    NumberRoundTrip(value / Pow2(l1), 8 - l1);
  }

  lemma UpperBits(value: nat, l1: nat)
    requires value < 256 && 0 < l1 < 8
    ensures 0 <= value / Pow2(l1) < Pow2(8 - l1)
  {
    QuotientNat(value, Pow2(l1));
    DivMod(value, Pow2(l1));
    Pow2Byte();
    Pow2Add(8 - l1, l1);
    BelowProduct(value / Pow2(l1), Pow2(l1), Pow2(8 - l1));
  }

  /** Two bytes in place of the last one hold the bits with the value appended exactly when they are the
      right ones. */
  lemma UnalignedByte(data: seq<nat>, bits: seq<bool>, value: nat, lower: nat, next: nat)
    requires Packs(data, Padded(bits)) && |bits| % 8 != 0 && value < 256
    ensures var q := |bits| / 8; |data| == q + 1 && data[q] == LastBits(bits) * Pow2(8 - |bits| % 8)
    ensures Packs(data[..|data| - 1] + [lower, next], Padded(bits + NBits(value, 8))) <==>
      WrittenRight(LastBits(bits), lower, next, value, |bits| % 8)
  {
    var q, l1 := |bits| / 8, |bits| % 8;
    UnalignedAt(data, bits, value, lower, next, q, l1);
    LastBitsAt(bits, q, l1);
    assert data[..|data| - 1] == data[..q];
  }

  /** What the writer puts there is right exactly as `WriterRight` says. */
  lemma WriterPacks(data: seq<nat>, bits: seq<bool>, value: nat)
    requires Packs(data, Padded(bits)) && |bits| % 8 != 0 && value < 256
    ensures |data| > 0
    ensures var l1 := |bits| % 8; var last := data[|data| - 1];
      Packs(data[..|data| - 1] + [Lower(last, value, l1), Next(value, l1)], Padded(bits + NBits(value, 8))) <==>
        WriterRight(LastBits(bits), value, l1)
    ensures |bits| % 8 == 4 ==> WriterRight(LastBits(bits), value, 4)
  {
    var l1, f := |bits| % 8, LastBits(bits);
    var last := f * Pow2(8 - l1);
    UnalignedByte(data, bits, value, Lower(last, value, l1), Next(value, l1));
    HalfByteWriter(f, value);
  }

  lemma LastBitsAt(bits: seq<bool>, q: nat, l1: nat)
    requires |bits| == 8 * q + l1 && l1 < 8
    ensures LastBits(bits) == FromBits(bits[8 * q..])
  {
  }

  lemma UnalignedAt(data: seq<nat>, bits: seq<bool>, value: nat, lower: nat, next: nat, q: nat, l1: nat)
    requires Packs(data, Padded(bits)) && |bits| == 8 * q + l1 && 0 < l1 < 8 && value < 256
    ensures |data| == q + 1 && data[q] == FromBits(bits[8 * q..]) * Pow2(8 - l1)
    ensures Packs(data[..q] + [lower, next], Padded(bits + NBits(value, 8))) <==>
      WrittenRight(FromBits(bits[8 * q..]), lower, next, value, l1)
  {
    SplitByte(bits, value, q, l1);
    var p' := Padded(bits + NBits(value, 8));
    LastTwoBytes(
      data, Padded(bits), p', q, FromBits(p'[8 * q..8 * q + 8]), FromBits(p'[8 * q + 8..8 * q + 16]), lower, next);
  }

  /** Two bytes in place of the last one pack the bits exactly when they are the bytes x and y. */
  lemma LastTwoBytes(
    data: seq<nat>, p: seq<bool>, p': seq<bool>, q: nat, x: int, y: int, lower: nat, next: nat)
    requires Packs(data, p) && |p| == 8 * q + 8 && |p'| == 8 * q + 16 && p'[..8 * q] == p[..8 * q]
    requires FromBits(p'[8 * q..8 * q + 8]) == x && FromBits(p'[8 * q + 8..8 * q + 16]) == y
    ensures |data| == q + 1 && data[q] == FromBits(p[8 * q..8 * q + 8])
    ensures Packs(data[..q] + [lower, next], p') <==> lower == x && next == y
  {
    assert |data| == q + 1 && ByteHolds(data, p, q);
    var data' := data[..q] + [lower, next];
    forall i | 0 <= i < q
      ensures ByteHolds(data', p', i)
    {
      assert ByteHolds(data, p, i);
      SameSlice(p, p', 8 * q, 8 * i);
    }
    assert ByteHolds(data', p', q) <==> lower == x;
    assert ByteHolds(data', p', q + 1) <==> next == y;
  }

  // ---------- reading ----------

  lemma BitInMemory(data: seq<nat>, memory: seq<bool>, p: nat)
    requires Packs(data, memory) && p < |memory|
    ensures p / 8 < |data| && (And(data[p / 8], Pow2(7 - p % 8)) != 0 <==> memory[p])
  {
    var i, k := p / 8, p % 8;
    assert ByteHolds(data, memory, i);
    var slice := memory[8 * i..8 * i + 8];
    assert slice[k] == memory[p];
    BitOfByte(slice, k);
  }

  /** Testing one bit of a byte. */
  lemma BitOfByte(slice: seq<bool>, k: nat)
    requires |slice| == 8 && k < 8
    ensures And(FromBits(slice), Pow2(7 - k)) != 0 <==> slice[k]
  {
    BitOfFromBits(slice, k);
    AndBit(FromBits(slice), 7 - k);
    TimesBit(BitOf(FromBits(slice), 7 - k), Pow2(7 - k));
  }

  /** The byte put together from the two it is spread over. */
  lemma GatheredByte(data: seq<nat>, memory: seq<bool>, p: nat)
    requires Packs(data, memory) && p + 8 <= |memory| && p % 8 != 0
    ensures var i, l1 := p / 8, p % 8;
      && i + 1 < |data| && data[i + 1] / Pow2(8 - l1) >= 0
      && Or((data[i] * Pow2(l1)) % 256, data[i + 1] / Pow2(8 - l1)) == FromBits(memory[p..p + 8])
  {
    GatheredAt(data, memory, p / 8, p % 8);
  }

  lemma GatheredAt(data: seq<nat>, memory: seq<bool>, i: nat, l1: nat)
    requires Packs(data, memory) && 0 < l1 < 8 && i + 1 < |data|
    ensures data[i + 1] / Pow2(8 - l1) >= 0
    ensures Or((data[i] * Pow2(l1)) % 256, data[i + 1] / Pow2(8 - l1)) == FromBits(memory[8 * i + l1..8 * i + l1 + 8])
  {
    var p := 8 * i + l1;
    assert ByteHolds(data, memory, i) && ByteHolds(data, memory, i + 1);
    var a, b := ByteParts(memory, 8 * i, p);
    var c, d := ByteParts(memory, 8 * i + 8, p + 8);
    ValueOfSlices(memory, p, 8 * i + 8, p + 8);
    GatheredValue(data[i], data[i + 1], a, b, c, d, l1);
  }

  /** The numbers in the two parts of the byte at position m. */
  lemma ByteParts(memory: seq<bool>, m: nat, p: nat) returns (a: nat, b: nat)
    requires m < p < m + 8 <= |memory|
    ensures a == FromBits(memory[m..p]) < Pow2(p - m) && b == FromBits(memory[p..m + 8]) < Pow2(m + 8 - p)
    ensures FromBits(memory[m..m + 8]) == a * Pow2(m + 8 - p) + b
  {
    a, b := FromBits(memory[m..p]), FromBits(memory[p..m + 8]);
    ValueOfSlices(memory, m, p, m + 8);
    FromBitsBound(memory[m..p]);
  }

  /** Two slices side by side are one number. */
  lemma ValueOfSlices(memory: seq<bool>, a: nat, b: nat, c: nat)
    requires a <= b <= c <= |memory|
    ensures FromBits(memory[a..c]) == FromBits(memory[a..b]) * Pow2(c - b) + FromBits(memory[b..c])
    ensures FromBits(memory[b..c]) < Pow2(c - b)
  {
    JoinSlices(memory, a, b, c);
    SplitValue(memory[a..b], memory[b..c], c - b);
  }

  lemma SplitValue(x: seq<bool>, y: seq<bool>, n: nat)
    requires |y| == n
    ensures FromBits(x + y) == FromBits(x) * Pow2(n) + FromBits(y) && FromBits(y) < Pow2(n)
  {
    FromBitsSplit(x, y);
    FromBitsBound(y);
  }

  lemma GatheredValue(x: nat, y: nat, a: nat, b: nat, c: nat, d: nat, l1: nat)
    requires 0 < l1 < 8 && x == a * Pow2(8 - l1) + b && b < Pow2(8 - l1) && y == c * Pow2(8 - l1) + d &&
      d < Pow2(8 - l1) && c < Pow2(l1)
    ensures y / Pow2(8 - l1) == c && Or((x * Pow2(l1)) % 256, c) == b * Pow2(l1) + c
  {
    DivUnique(y, Pow2(8 - l1), c, d);
    Pow2Byte();
    Pow2Add(8 - l1, l1);
    CutByte(x, a, b, Pow2(l1), Pow2(8 - l1));
    OrDisjoint(c, b, l1);
    OrCommutes(c, b * Pow2(l1));
  }

  lemma CutByte(x: int, a: int, b: int, p: int, q: int)
    requires x == a * q + b && 0 <= b < q && p > 0 && q * p == 256
    ensures (x * p) % 256 == b * p
  {
    MulGap(b, q, p);
    assert 0 <= b * p;
    assert x * p == a * 256 + b * p by {
      MulSum(a * q, b, p);
      assert (a * q) * p == a * (q * p);
    }
    DivUnique(x * p, 256, a, b * p);
  }

  class MemoryOutputStream {
    var data: seq<nat>
    var length: nat
    ghost var bits: seq<bool>   // everything written so far

    ghost predicate Valid()
      reads this
    {
      |bits| == length && Packs(data, Padded(bits))
    }

    /** The offsets at which bytes can be written. */
    predicate ByteWritable()
      reads this
    {
      length % 8 == 0 || length % 8 == 4
    }

    constructor ()
      ensures Valid() && bits == [] && length == 0
    {
      data, length, bits := [], 0, [];
    }

    method WriteBit(value: bool)
      requires Valid()
      modifies this
      ensures Valid() && bits == old(bits) + [value]
    {
      var byteIndex, bitIndex := length / 8, length % 8;
      RoomPacks(data, bits);
      if bitIndex == 0 {
        data := data + [0];
      }
      if value {
        SetLastBit(data, bits);
        data := data[byteIndex := Or(data[byteIndex], Pow2(7 - bitIndex))];
      }
      length := length + 1;
      bits := bits + [value];
    }

    /** The stream then holds the bits of the value after those before, exactly when it is byte aligned or
        the bytes happen to be the right ones, as they always are in the middle of a byte. */
    method WriteByte(value: nat)
      requires Valid() && value < 256
      modifies this
      ensures bits == old(bits) + NBits(value, 8) && length == old(length) + 8
      ensures Valid() <==> old(length) % 8 == 0 || WriterRight(LastBits(old(bits)), value, old(length) % 8)
      ensures old(ByteWritable()) ==> Valid() && ByteWritable()
    {
      PutByte(value);
      length := length + 8;
      bits := bits + NBits(value, 8);
    }

    /** The change of the data alone. */
    method PutByte(value: nat)
      requires Valid() && value < 256
      modifies this`data
      ensures Packs(data, Padded(bits + NBits(value, 8))) <==>
        length % 8 == 0 || WriterRight(LastBits(bits), value, length % 8)
      ensures ByteWritable() ==> Packs(data, Padded(bits + NBits(value, 8)))
    {
      if length % 8 == 0 {
        AlignedByte(data, bits, value);
        data := data + [value];
      } else {
        WriterPacks(data, bits, value);
        PutUnaligned(value, length % 8);
      }
    }

    /** The two bytes that replace the last one. */
    method PutUnaligned(value: nat, l1: nat)
      requires |data| > 0 && 0 < l1 < 8
      modifies this`data
      ensures data == old(data)[..|old(data)| - 1] + [Lower(old(data)[|old(data)| - 1], value, l1), Next(value, l1)]
    {
      var last := data[|data| - 1];
      data := data[..|data| - 1] + [Lower(last, value, l1), Next(value, l1)];
    }

    /** Whole bytes, at a byte boundary. */
    method WriteBytes(bytes: seq<nat>)
      requires Valid() && length % 8 == 0 && forall i :: 0 <= i < |bytes| ==> bytes[i] < 256
      modifies this
      ensures Valid() && bits == old(bits) + AllBits(bytes) && length % 8 == 0
    {
      AlignedBytes(data, bits, bytes);
      StillAligned(length, |bytes|);
      data := data + bytes;
      length := length + 8 * |bytes|;
      bits := bits + AllBits(bytes);
    }

    /** One bit of a number, j more to come after it. */
    method WriteMasked(value: nat, mask: nat, ghost j: nat, ghost before: seq<bool>, ghost n: nat)
      requires Valid() && mask == Pow2(j) && bits + NBits(value, j + 1) == before + NBits(value, n)
      modifies this
      ensures Valid() && bits + NBits(value, j) == before + NBits(value, n)
    {
      MaskedBit(value, j);
      Regroup(bits, [BitOf(value, j) == 1], NBits(value, j));
      WriteBit(And(value, mask) != 0);
    }

    method WriteUint2(value: nat)
      requires Valid() && value < 4
      modifies this
      ensures Valid() && bits == old(bits) + NBits(value, 2)
    {
      assert Pow2(0) == 1 && Pow2(1) == 2;
      ghost var before := bits;
      WriteMasked(value, 0x2, 1, before, 2);
      WriteMasked(value, 0x1, 0, before, 2);
      assert bits + NBits(value, 0) == bits;
    }

    method WriteUint4(value: nat)
      requires Valid() && value < 16
      modifies this
      ensures Valid() && bits == old(bits) + NBits(value, 4)
    {
      assert Pow2(0) == 1 && Pow2(1) == 2 && Pow2(2) == 4 && Pow2(3) == 8;
      ghost var before := bits;
      WriteMasked(value, 0x8, 3, before, 4);
      WriteMasked(value, 0x4, 2, before, 4);
      WriteMasked(value, 0x2, 1, before, 4);
      WriteMasked(value, 0x1, 0, before, 4);
      assert bits + NBits(value, 0) == bits;
    }

    /** Byte i of an n-byte word, after the higher ones. */
    method WriteByteOf(value: nat, i: nat, ghost before: seq<bool>, ghost n: nat)
      requires i < n <= 8 && Valid() && ByteWritable() && bits == before + TopBits(value, i + 1, n)
      modifies this
      ensures Valid() && ByteWritable() && bits == before + TopBits(value, i, n)
    {
      NextLowByte(value, i, n);
      Regroup(before, TopBits(value, i + 1, n), NBits(Shr(value, i) % 256, 8));
      WriteByte(Shr(value, i) % 256);
    }

    method WriteUint16Be(value: nat)
      requires Valid() && ByteWritable() && value < 0x10000
      modifies this
      ensures Valid() && ByteWritable() && bits == old(bits) + NBits(value, 16)
    {
      ghost var before := bits;
      assert before + TopBits(value, 2, 2) == before;
      WriteByteOf(value, 1, before, 2);
      WriteByteOf(value, 0, before, 2);
    }

    method WriteUint16Le(value: nat)
      requires Valid() && ByteWritable() && value < 0x10000
      modifies this
      ensures Valid() && ByteWritable() && bits == old(bits) + LeBits(value, 2)
    {
      ghost var before := bits;
      assert before + LeBits(value, 0) == before;
      WriteNextByte(value, 0, before);
      WriteNextByte(value, 1, before);
    }

    method WriteUint24Be(value: nat)
      requires Valid() && ByteWritable() && value < 0x1000000
      modifies this
      ensures Valid() && ByteWritable() && bits == old(bits) + NBits(value, 24)
    {
      ghost var before := bits;
      assert before + TopBits(value, 3, 3) == before;
      WriteByteOf(value, 2, before, 3);
      WriteByteOf(value, 1, before, 3);
      WriteByteOf(value, 0, before, 3);
    }

    method WriteUint24Le(value: nat)
      requires Valid() && ByteWritable() && value < 0x1000000
      modifies this
      ensures Valid() && ByteWritable() && bits == old(bits) + LeBits(value, 3)
    {
      ghost var before := bits;
      assert before + LeBits(value, 0) == before;
      WriteNextByte(value, 0, before);
      WriteNextByte(value, 1, before);
      WriteNextByte(value, 2, before);
    }

    method WriteUint32Be(value: nat)
      requires Valid() && ByteWritable() && value < 0x100000000
      modifies this
      ensures Valid() && ByteWritable() && bits == old(bits) + NBits(value, 32)
    {
      ghost var before := bits;
      assert before + TopBits(value, 4, 4) == before;
      WriteByteOf(value, 3, before, 4);
      WriteByteOf(value, 2, before, 4);
      WriteByteOf(value, 1, before, 4);
      WriteByteOf(value, 0, before, 4);
    }

    method WriteUint32Le(value: nat)
      requires Valid() && ByteWritable() && value < 0x100000000
      modifies this
      ensures Valid() && ByteWritable() && bits == old(bits) + LeBits(value, 4)
    {
      ghost var before := bits;
      assert before + LeBits(value, 0) == before;
      WriteNextByte(value, 0, before);
      WriteNextByte(value, 1, before);
      WriteNextByte(value, 2, before);
      WriteNextByte(value, 3, before);
    }

    method WriteUint48Be(value: nat)
      requires Valid() && ByteWritable() && value < 0x1000000000000
      modifies this
      ensures Valid() && ByteWritable() && bits == old(bits) + NBits(value, 48)
    {
      ghost var before := bits;
      assert before + TopBits(value, 6, 6) == before;
      WriteByteOf(value, 5, before, 6);
      WriteByteOf(value, 4, before, 6);
      WriteByteOf(value, 3, before, 6);
      WriteByteOf(value, 2, before, 6);
      WriteByteOf(value, 1, before, 6);
      WriteByteOf(value, 0, before, 6);
    }

    method WriteUint48Le(value: nat)
      requires Valid() && ByteWritable() && value < 0x1000000000000
      modifies this
      ensures Valid() && ByteWritable() && bits == old(bits) + LeBits(value, 6)
    {
      ghost var before := bits;
      assert before + LeBits(value, 0) == before;
      WriteNextByte(value, 0, before);
      WriteNextByte(value, 1, before);
      WriteNextByte(value, 2, before);
      WriteNextByte(value, 3, before);
      WriteNextByte(value, 4, before);
      WriteNextByte(value, 5, before);
    }

    method WriteUint64Be(value: nat)
      requires Valid() && ByteWritable() && value < 0x10000000000000000
      modifies this
      ensures Valid() && ByteWritable() && bits == old(bits) + NBits(value, 64)
    {
      ghost var before := bits;
      assert before + TopBits(value, 8, 8) == before;
      WriteByteOf(value, 7, before, 8);
      WriteByteOf(value, 6, before, 8);
      WriteByteOf(value, 5, before, 8);
      WriteByteOf(value, 4, before, 8);
      WriteByteOf(value, 3, before, 8);
      WriteByteOf(value, 2, before, 8);
      WriteByteOf(value, 1, before, 8);
      WriteByteOf(value, 0, before, 8);
    }

    method WriteUint64Le(value: nat)
      requires Valid() && ByteWritable() && value < 0x10000000000000000
      modifies this
      ensures Valid() && ByteWritable() && bits == old(bits) + LeBits(value, 8)
    {
      ghost var before := bits;
      assert before + LeBits(value, 0) == before;
      WriteNextByte(value, 0, before);
      WriteNextByte(value, 1, before);
      WriteNextByte(value, 2, before);
      WriteNextByte(value, 3, before);
      WriteNextByte(value, 4, before);
      WriteNextByte(value, 5, before);
      WriteNextByte(value, 6, before);
      WriteNextByte(value, 7, before);
    }

    /** Byte k of a word, after the lower ones. */
    method WriteNextByte(value: nat, k: nat, ghost before: seq<bool>)
      requires k < 8 && Valid() && ByteWritable() && bits == before + LeBits(value, k)
      modifies this
      ensures Valid() && ByteWritable() && bits == before + LeBits(value, k + 1)
    {
      Regroup(before, LeBits(value, k), NBits(Shr(value, k) % 256, 8));
      WriteByte(Shr(value, k) % 256);
    }

    /** The characters and a zero byte, at a byte boundary. */
    method WriteString(s: seq<nat>)
      requires Valid() && length % 8 == 0 && forall i :: 0 <= i < |s| ==> s[i] < 256
      modifies this
      ensures Valid() && bits == old(bits) + AllBits(s + [0])
    {
      assert (s + [0])[..|s|] == s;
      WriteBytes(s);
      WriteByte(0);
    }

    /** The low n bits of a number; no bits and more than 64 are an error.  The mask is an int before it is
        widened, which is exact up to 31 bits. */
    method WriteNBitsOfUint64Be(value: nat, n: nat) returns (ok: bool)
      requires Valid() && !(31 < n <= 64)
      modifies this
      ensures ok <==> 0 < n <= 64
      ensures Valid() && bits == if ok then old(bits) + NBits(value, n) else old(bits)
    {
      if n == 0 || n > 64 {
        return false;
      }
      var mul := Pow2(n - 1);
      ghost var before := bits;
      for i := 0 to n
        invariant Valid() && (i < n ==> mul == Pow2(n - 1 - i))
        invariant bits + NBits(value, n - i) == before + NBits(value, n)
      {
        WriteMasked(value, mul, n - 1 - i, before, n);
        mul := mul / 2;
      }
      assert NBits(value, 0) == [] && bits + [] == bits;
      ok := true;
    }
  }

  lemma Regroup(a: seq<bool>, b: seq<bool>, c: seq<bool>)
    ensures a + (b + c) == (a + b) + c
  {
  }

  /** The upper bytes of an n-byte word, from byte i on. */
  function TopBits(v: nat, i: nat, n: nat): seq<bool>
    requires i <= n <= 8
  {
    if i == n then [] else NBits(Shr(v, i), 8 * (n - i))
  }

  lemma NextLowByte(v: nat, i: nat, n: nat)
    requires i < n <= 8
    ensures TopBits(v, i, n) == TopBits(v, i + 1, n) + NBits(Shr(v, i) % 256, 8)
  {
    AppendByte(Shr(v, i), n - i - 1);
    if i + 1 < n {
      ShrNext(v, i + 1);
    }
  }

  lemma NBitsTop(v: nat, n: nat)
    requires n > 0
    ensures NBits(v, n) == [BitOf(v, n - 1) == 1] + NBits(v, n - 1)
    ensures BitOf(v, n - 1) == 0 || BitOf(v, n - 1) == 1
  {
  }

  lemma MaskedBit(value: nat, j: nat)
    ensures And(value, Pow2(j)) != 0 <==> BitOf(value, j) == 1
    ensures NBits(value, j + 1) == [BitOf(value, j) == 1] + NBits(value, j)
  {
    AndBit(value, j);
    NBitsTop(value, j + 1);
    TimesBit(BitOf(value, j), Pow2(j));
  }

  /** The bits of whole bytes. */
  function AllBits(bytes: seq<nat>): (r: seq<bool>)
    ensures |r| == 8 * |bytes|
  {
    if bytes == [] then [] else AllBits(bytes[..|bytes| - 1]) + NBits(bytes[|bytes| - 1], 8)
  }

  lemma {:induction false} AlignedBytes(data: seq<nat>, bits: seq<bool>, bytes: seq<nat>)
    requires Packs(data, Padded(bits)) && |bits| % 8 == 0 && forall i :: 0 <= i < |bytes| ==> bytes[i] < 256
    ensures Packs(data + bytes, Padded(bits + AllBits(bytes)))
  {
    if bytes == [] {
      assert data + bytes == data && bits + AllBits(bytes) == bits;
    } else {
      var n := |bytes| - 1;
      AlignedBytes(data, bits, bytes[..n]);
      StillAligned(|bits|, n);
      AlignedByte(data + bytes[..n], bits + AllBits(bytes[..n]), bytes[n]);
      LastOfBytes(data, bytes);
      Regroup(bits, AllBits(bytes[..n]), NBits(bytes[n], 8));
    }
  }

  lemma StillAligned(length: nat, n: nat)
    requires length % 8 == 0
    ensures (length + 8 * n) % 8 == 0
  {
  }

  lemma LastOfBytes(data: seq<nat>, bytes: seq<nat>)
    requires bytes != []
    ensures data + bytes[..|bytes| - 1] + [bytes[|bytes| - 1]] == data + bytes
  {
  }

  lemma {:induction false} AllBitsPacks(data: seq<nat>)
    requires forall i :: 0 <= i < |data| ==> data[i] < 256
    ensures Packs(data, AllBits(data))
  {
    if data != [] {
      var n := |data| - 1;
      AllBitsPacks(data[..n]);
      Pow2Byte();
      NumberRoundTrip(data[n], 8);
      PackByte(data[..n], AllBits(data[..n]), data[n], NBits(data[n], 8));
      assert data[..n] + [data[n]] == data;
    }
  }

  class MemoryInputStream {
    const data: seq<nat>
    const length: nat
    var position: nat
    var isReadBeyondEnd: bool
    ghost const memory: seq<bool>   // all bits of the data

    ghost predicate Valid()
      reads this
    {
      Packs(data, memory) && position <= length <= |memory|
    }

    /** What the stream has at the current position: at least n bits, and which. */
    predicate Left(n: nat)
      reads this
    {
      position + n <= length
    }

    ghost function Ahead(n: nat): seq<bool>
      requires Valid() && Left(n)
      reads this
    {
      memory[position..position + n]
    }

    /** A read of n bits that found them. */
    twostate predicate Advanced(n: nat)
      reads this
    {
      position == old(position) + n && isReadBeyondEnd == old(isReadBeyondEnd)
    }

    constructor (data: seq<nat>, length: nat)
      requires length <= 8 * |data| && forall i :: 0 <= i < |data| ==> data[i] < 256
      ensures Valid() && position == 0 && !isReadBeyondEnd
      ensures this.data == data && this.length == length && memory == AllBits(data)
    {
      this.data, this.length := data, length;
      position, isReadBeyondEnd := 0, false;
      memory := AllBits(data);
      AllBitsPacks(data);
    }

    method ReadBit() returns (r: bool)
      requires Valid()
      modifies this
      ensures Valid()
      ensures if old(position) + 1 <= length
        then Advanced(1) && r == memory[old(position)]
        else isReadBeyondEnd && !r && position == length
    {
      if position == length {
        isReadBeyondEnd := true;
        return false;
      }
      var byteIndex, bitIndex := position / 8, position % 8;
      BitInMemory(data, memory, position);
      position := position + 1;
      r := And(data[byteIndex], Pow2(7 - bitIndex)) != 0;
    }

    method ReadByte() returns (r: nat)
      requires Valid()
      modifies this
      ensures Valid() && r < 256
      ensures if old(position) + 8 <= length
        then Advanced(8) && r == FromBits(memory[old(position)..old(position) + 8])
        else isReadBeyondEnd && r == 0 && position == length
    {
      if position + 8 > length {
        isReadBeyondEnd := true;
        position := length;
        return 0;
      }
      Pow2Byte();
      FromBitsBound(Ahead(8));
      if position % 8 == 0 {
        assert ByteHolds(data, memory, position / 8);
        r := data[position / 8];
      } else {
        var l1 := position % 8;
        var l2 := 8 - l1;
        GatheredByte(data, memory, position);
        r := (data[(position - l1) / 8] * Pow2(l1)) % 256;
        r := Or(r, data[(position + l2) / 8] / Pow2(l2));
      }
      position := position + 8;
    }

    /** k bits asked for since position start: there or not. */
    ghost predicate Asked(start: nat, k: nat, beyond: bool)
      reads this
    {
      if start + k <= length then position == start + k && isReadBeyondEnd == beyond
      else position == length && isReadBeyondEnd
    }

    /** One more bit of a number, m more to come after it; mul is its weight. */
    method TakeBit(num: nat, mul: nat, ghost m: nat, ghost start: nat, ghost k: nat, ghost beyond: bool)
        returns (r: nat)
      requires Valid() && mul == Pow2(m) && Asked(start, k, beyond)
      requires start + k <= length ==> num == FromBits(memory[start..start + k]) * Pow2(m + 1)
      modifies this
      ensures Valid() && Asked(start, k + 1, beyond)
      ensures start + k + 1 <= length ==> r == FromBits(memory[start..start + k + 1]) * Pow2(m)
    {
      r := num;
      if start + k + 1 <= length {
        NextBit(num, m, memory, start, k);
      }
      var b := ReadBit();
      if b {
        r := Or(num, mul);
      }
    }

    /** k bytes of a big endian number read, i more to come, if they are there. */
    ghost predicate BeRead(start: nat, k: nat, i: nat, num: nat, beyond: bool)
      reads this
    {
      Asked(start, 8 * k, beyond) && (start + 8 * k <= length <= |memory| ==> num == BeAt(memory, start, k, i))
    }

    /** One more byte of a big endian number, at byte i of it. */
    method TakeByte(num: nat, i: nat, ghost start: nat, ghost k: nat, ghost beyond: bool) returns (r: nat)
      requires Valid() && BeRead(start, k, i + 1, num, beyond)
      modifies this
      ensures Valid() && BeRead(start, k + 1, i, r, beyond)
    {
      var byte := ReadByte();
      r := Or(num, ShiftedByte(byte, i));
      if start + 8 * k + 8 <= length {
        NextByte(num, byte, i, memory, start, k);
      }
    }

    /** k bytes of a little endian number read, if they are there. */
    ghost predicate LeRead(start: nat, k: nat, num: nat, beyond: bool)
      reads this
    {
      Asked(start, 8 * k, beyond) && (start + 8 * k <= length <= |memory| ==> num == LeAt(memory, start, k))
    }

    /** One more byte of a little endian number. */
    method TakeHighByte(num: nat, k: nat, ghost start: nat, ghost beyond: bool) returns (r: nat)
      requires Valid() && LeRead(start, k, num, beyond)
      modifies this
      ensures Valid() && LeRead(start, k + 1, r, beyond)
    {
      var byte := ReadByte();
      r := Or(num, ShiftedByte(byte, k));
      if start + 8 * k + 8 <= length {
        NextHighByte(num, byte, memory, start, k);
      }
    }

    method ReadUint2() returns (value: nat)
      requires Valid()
      modifies this
      ensures Valid()
      ensures if old(position) + 2 <= length
        then Advanced(2) && value == FromBits(memory[old(position)..old(position) + 2])
        else isReadBeyondEnd
    {
      assert Pow2(0) == 1 && Pow2(1) == 2;
      ghost var start, beyond := position, isReadBeyondEnd;
      value := TakeBit(0, 0x2, 1, start, 0, beyond);
      value := TakeBit(value, 0x1, 0, start, 1, beyond);
    }

    method ReadUint4() returns (value: nat)
      requires Valid()
      modifies this
      ensures Valid()
      ensures if old(position) + 4 <= length
        then Advanced(4) && value == FromBits(memory[old(position)..old(position) + 4])
        else isReadBeyondEnd
    {
      assert Pow2(0) == 1 && Pow2(1) == 2 && Pow2(2) == 4 && Pow2(3) == 8;
      ghost var start, beyond := position, isReadBeyondEnd;
      value := TakeBit(0, 0x8, 3, start, 0, beyond);
      value := TakeBit(value, 0x4, 2, start, 1, beyond);
      value := TakeBit(value, 0x2, 1, start, 2, beyond);
      value := TakeBit(value, 0x1, 0, start, 3, beyond);
    }

    method ReadUint16Be() returns (value: nat)
      requires Valid()
      modifies this
      ensures Valid()
      ensures if old(position) + 16 <= length
        then Advanced(16) && value == FromBits(memory[old(position)..old(position) + 16])
        else isReadBeyondEnd
    {
      ghost var start, beyond := position, isReadBeyondEnd;
      BeAtStarts(memory, start, 2);
      value := 0;
      value := TakeByte(value, 1, start, 0, beyond);
      value := TakeByte(value, 0, start, 1, beyond);
    }

    method ReadUint16Le() returns (value: nat)
      requires Valid()
      modifies this
      ensures Valid()
      ensures if old(position) + 16 <= length
        then Advanced(16) && value == FromLe(memory[old(position)..old(position) + 16])
        else isReadBeyondEnd
    {
      ghost var start, beyond := position, isReadBeyondEnd;
      value := 0;
      value := TakeHighByte(value, 0, start, beyond);
      value := TakeHighByte(value, 1, start, beyond);
      if start + 16 <= length {
        LeAtIsFromLe(memory, start, 2);
      }
    }

    method ReadUint24Be() returns (value: nat)
      requires Valid()
      modifies this
      ensures Valid()
      ensures if old(position) + 24 <= length
        then Advanced(24) && value == FromBits(memory[old(position)..old(position) + 24])
        else isReadBeyondEnd
    {
      ghost var start, beyond := position, isReadBeyondEnd;
      BeAtStarts(memory, start, 3);
      value := 0;
      value := TakeByte(value, 2, start, 0, beyond);
      value := TakeByte(value, 1, start, 1, beyond);
      value := TakeByte(value, 0, start, 2, beyond);
    }

    method ReadUint24Le() returns (value: nat)
      requires Valid()
      modifies this
      ensures Valid()
      ensures if old(position) + 24 <= length
        then Advanced(24) && value == FromLe(memory[old(position)..old(position) + 24])
        else isReadBeyondEnd
    {
      ghost var start, beyond := position, isReadBeyondEnd;
      value := 0;
      value := TakeHighByte(value, 0, start, beyond);
      value := TakeHighByte(value, 1, start, beyond);
      value := TakeHighByte(value, 2, start, beyond);
      if start + 24 <= length {
        LeAtIsFromLe(memory, start, 3);
      }
    }

    method ReadUint32Be() returns (value: nat)
      requires Valid()
      modifies this
      ensures Valid()
      ensures if old(position) + 32 <= length
        then Advanced(32) && value == FromBits(memory[old(position)..old(position) + 32])
        else isReadBeyondEnd
    {
      ghost var start, beyond := position, isReadBeyondEnd;
      BeAtStarts(memory, start, 4);
      value := 0;
      value := TakeByte(value, 3, start, 0, beyond);
      value := TakeByte(value, 2, start, 1, beyond);
      value := TakeByte(value, 1, start, 2, beyond);
      value := TakeByte(value, 0, start, 3, beyond);
    }

    method ReadUint32Le() returns (value: nat)
      requires Valid()
      modifies this
      ensures Valid()
      ensures if old(position) + 32 <= length
        then Advanced(32) && value == FromLe(memory[old(position)..old(position) + 32])
        else isReadBeyondEnd
    {
      ghost var start, beyond := position, isReadBeyondEnd;
      value := 0;
      value := TakeHighByte(value, 0, start, beyond);
      value := TakeHighByte(value, 1, start, beyond);
      value := TakeHighByte(value, 2, start, beyond);
      value := TakeHighByte(value, 3, start, beyond);
      if start + 32 <= length {
        LeAtIsFromLe(memory, start, 4);
      }
    }

    method ReadUint48Be() returns (value: nat)
      requires Valid()
      modifies this
      ensures Valid()
      ensures if old(position) + 48 <= length
        then Advanced(48) && value == FromBits(memory[old(position)..old(position) + 48])
        else isReadBeyondEnd
    {
      ghost var start, beyond := position, isReadBeyondEnd;
      BeAtStarts(memory, start, 6);
      value := 0;
      value := TakeByte(value, 5, start, 0, beyond);
      value := TakeByte(value, 4, start, 1, beyond);
      value := TakeByte(value, 3, start, 2, beyond);
      value := TakeByte(value, 2, start, 3, beyond);
      value := TakeByte(value, 1, start, 4, beyond);
      value := TakeByte(value, 0, start, 5, beyond);
    }

    method ReadUint48Le() returns (value: nat)
      requires Valid()
      modifies this
      ensures Valid()
      ensures if old(position) + 48 <= length
        then Advanced(48) && value == FromLe(memory[old(position)..old(position) + 48])
        else isReadBeyondEnd
    {
      ghost var start, beyond := position, isReadBeyondEnd;
      value := 0;
      value := TakeHighByte(value, 0, start, beyond);
      value := TakeHighByte(value, 1, start, beyond);
      value := TakeHighByte(value, 2, start, beyond);
      value := TakeHighByte(value, 3, start, beyond);
      value := TakeHighByte(value, 4, start, beyond);
      value := TakeHighByte(value, 5, start, beyond);
      if start + 48 <= length {
        LeAtIsFromLe(memory, start, 6);
      }
    }

    method ReadUint64Be() returns (value: nat)
      requires Valid()
      modifies this
      ensures Valid()
      ensures if old(position) + 64 <= length
        then Advanced(64) && value == FromBits(memory[old(position)..old(position) + 64])
        else isReadBeyondEnd
    {
      ghost var start, beyond := position, isReadBeyondEnd;
      BeAtStarts(memory, start, 8);
      value := 0;
      value := TakeByte(value, 7, start, 0, beyond);
      value := TakeByte(value, 6, start, 1, beyond);
      value := TakeByte(value, 5, start, 2, beyond);
      value := TakeByte(value, 4, start, 3, beyond);
      value := TakeByte(value, 3, start, 4, beyond);
      value := TakeByte(value, 2, start, 5, beyond);
      value := TakeByte(value, 1, start, 6, beyond);
      value := TakeByte(value, 0, start, 7, beyond);
    }

    method ReadUint64Le() returns (value: nat)
      requires Valid()
      modifies this
      ensures Valid()
      ensures if old(position) + 64 <= length
        then Advanced(64) && value == FromLe(memory[old(position)..old(position) + 64])
        else isReadBeyondEnd
    {
      ghost var start, beyond := position, isReadBeyondEnd;
      value := 0;
      value := TakeHighByte(value, 0, start, beyond);
      value := TakeHighByte(value, 1, start, beyond);
      value := TakeHighByte(value, 2, start, beyond);
      value := TakeHighByte(value, 3, start, beyond);
      value := TakeHighByte(value, 4, start, beyond);
      value := TakeHighByte(value, 5, start, beyond);
      value := TakeHighByte(value, 6, start, beyond);
      value := TakeHighByte(value, 7, start, beyond);
      if start + 64 <= length {
        LeAtIsFromLe(memory, start, 8);
      }
    }

    /** The bytes up to a zero; the end of the stream, too, reads as zero, and sets the flag. */
    method ReadString() returns (s: seq<nat>)
      requires Valid()
      modifies this
      ensures Valid() && s == TextFrom(memory, length, old(position))
      ensures if old(position) + 8 * |s| + 8 <= length then Advanced(8 * |s| + 8)
        else isReadBeyondEnd && position == length
    {
      s := [];
      ghost var start, beyond := position, isReadBeyondEnd;
      var b := 1;
      while b != 0
        invariant Valid() && TextRead(memory, length, start, beyond, s, b, position, isReadBeyondEnd)
        decreases length - position, b
      {
        ghost var from := position;
        b := ReadByte();
        TextStep(memory, length, start, beyond, s, from, b, position, isReadBeyondEnd);
        if b != 0 {
          s := s + [b];
        }
      }
    }

    method ReadNBitsToUint64Be(n: nat) returns (ok: bool, num: nat)
      requires Valid() && !(31 < n <= 64)
      modifies this
      ensures Valid() && (ok <==> 0 < n <= 64)
      ensures ok ==> if old(position) + n <= length
        then Advanced(n) && num == FromBits(memory[old(position)..old(position) + n])
        else isReadBeyondEnd
    {
      if n == 0 || n > 64 {
        return false, 0;
      }
      var mul := Pow2(n - 1);
      num := 0;
      ghost var start, beyond := position, isReadBeyondEnd;
      for i := 0 to n
        invariant Valid() && (i < n ==> mul == Pow2(n - 1 - i)) && Asked(start, i, beyond)
        invariant start + i <= length ==> num == FromBits(memory[start..start + i]) * Pow2(n - i)
      {
        num := TakeBit(num, mul, n - 1 - i, start, i, beyond);
        mul := mul / 2;
      }
      assert Pow2(0) == 1;
      ok := true;
    }
  }

  /** byte << (8 * i) */
  function ShiftedByte(byte: nat, i: nat): nat {
    if i == 0 then byte else 256 * ShiftedByte(byte, i - 1)
  }

  lemma {:induction false} ShiftedIsProduct(byte: nat, i: nat)
    ensures ShiftedByte(byte, i) == byte * Pow2(8 * i)
  {
    if i > 0 {
      ShiftedIsProduct(byte, i - 1);
      Pow2Byte();
      Pow2Add(8, 8 * (i - 1));
      TwoFiftySix(byte, Pow2(8 * (i - 1)));
    } else {
      assert Pow2(0) == 1;
    }
  }

  lemma TwoFiftySix(x: int, p: int)
    ensures 256 * (x * p) == x * (256 * p)
  {
  }

  lemma NextBit(num: nat, m: nat, memory: seq<bool>, start: nat, k: nat)
    requires start + k + 1 <= |memory| && num == FromBits(memory[start..start + k]) * Pow2(m + 1)
    ensures FromBits(memory[start..start + k + 1]) * Pow2(m) == if memory[start + k] then Or(num, Pow2(m)) else num
  {
    assert memory[start..start + k + 1] == memory[start..start + k] + [memory[start + k]];
    FromBitsSplit(memory[start..start + k], [memory[start + k]]);
    assert FromBits([memory[start + k]]) == if memory[start + k] then 1 else 0;
    PlaceBit(FromBits(memory[start..start + k]), if memory[start + k] then 1 else 0, Pow2(m));
    OrBit(num, m);
  }

  lemma PlaceBit(f: int, b: int, p: int)
    requires p > 0
    ensures (f * 2 + b) * p == f * (2 * p) + b * p && ((f * (2 * p)) / p) % 2 == 0
  {
    MulSum(f * 2, b, p);
    assert (f * 2) * p == f * (2 * p);
    DivUnique((f * 2) * p, p, f * 2, 0);
  }

  /** The number in k bytes from position start, the highest first, followed by i zero bytes. */
  function BeAt(memory: seq<bool>, start: nat, k: nat, i: nat): nat
    requires start + 8 * k <= |memory|
  {
    ShiftedByte(FromBits(memory[start..start + 8 * k]), i)
  }

  lemma {:induction false} BeAtStarts(memory: seq<bool>, start: nat, i: nat)
    requires start <= |memory|
    ensures BeAt(memory, start, 0, i) == 0
  {
    assert memory[start..start] == [];
    ShiftedIsProduct(0, i);
  }

  lemma NextByte(num: nat, byte: nat, i: nat, memory: seq<bool>, start: nat, k: nat)
    requires start + 8 * k + 8 <= |memory| && num == BeAt(memory, start, k, i + 1)
    requires byte == FromBits(memory[start + 8 * k..start + 8 * k + 8]) && byte < 256
    ensures BeAt(memory, start, k + 1, i) == Or(num, ShiftedByte(byte, i))
  {
    Pow2Byte();
    ValueOfSlices(memory, start, start + 8 * k, start + 8 * k + 8);
    OrByte(FromBits(memory[start..start + 8 * k]), byte, i);
  }

  /** A byte or-ed in below a number. */
  lemma OrByte(f: nat, byte: nat, i: nat)
    requires byte < 256
    ensures Or(ShiftedByte(f, i + 1), ShiftedByte(byte, i)) == ShiftedByte(f * 256 + byte, i)
  {
    Pow2Byte();
    Pow2Add(8, 8 * i);
    ShiftedIsProduct(byte, i);
    ShiftedIsProduct(f, i + 1);
    ShiftedIsProduct(f * 256 + byte, i);
    PlaceByte(f, byte, Pow2(8 * i));
    OrDisjoint(ShiftedByte(byte, i), f, 8 * i + 8);
    OrCommutes(ShiftedByte(byte, i), ShiftedByte(f, i + 1));
  }

  lemma PlaceByte(f: int, byte: int, p: int)
    requires p > 0 && 0 <= byte < 256
    ensures (f * 256 + byte) * p == f * (256 * p) + byte * p && 0 <= byte * p < 256 * p
  {
    MulSum(f * 256, byte, p);
    assert (f * 256) * p == f * (256 * p);
    MulGap(byte, 256, p);
    assert 0 <= byte * p;
  }

  lemma JoinSlices(s: seq<bool>, a: nat, b: nat, c: nat)
    requires a <= b <= c <= |s|
    ensures s[a..c] == s[a..b] + s[b..c]
  {
  }

  lemma ByteOfSlice(s: seq<bool>, a: nat, t: seq<bool>, p: nat)
    requires a + |t| <= |s| && p + 8 <= |t| && s[a..a + |t|] == t
    ensures s[a + p..a + p + 8] == t[p..p + 8]
  {
    var x, y := t[p..p + 8], s[a + p..a + p + 8];
    assert |x| == |y|;
    assert forall i :: 0 <= i < 8 ==>
      x[i] == t[p + i] == s[a..a + |t|][p + i] == s[a + (p + i)] && y[i] == s[(a + p) + i];
  }

  /** The number in k bytes from position start, the lowest first. */
  function LeAt(memory: seq<bool>, start: nat, k: nat): nat
    requires start + 8 * k <= |memory|
  {
    if k == 0 then 0 else
      LeAt(memory, start, k - 1) + ShiftedByte(FromBits(memory[start + 8 * (k - 1)..start + 8 * k]), k - 1)
  }

  lemma {:induction false} LeAtIsFromLe(memory: seq<bool>, start: nat, k: nat)
    requires start + 8 * k <= |memory|
    ensures LeAt(memory, start, k) == FromLe(memory[start..start + 8 * k])
  {
    if k > 0 {
      LeAtIsFromLe(memory, start, k - 1);
      LastByte(memory, start, k - 1);
      ShiftedIsProduct(FromBits(memory[start + 8 * (k - 1)..start + 8 * k]), k - 1);
    }
  }

  lemma LastByte(memory: seq<bool>, start: nat, k: nat)
    requires start + 8 * k + 8 <= |memory|
    ensures var s := memory[start..start + 8 * k + 8];
      s[..8 * k] == memory[start..start + 8 * k] && s[8 * k..] == memory[start + 8 * k..start + 8 * k + 8]
  {
  }

  lemma NextHighByte(num: nat, byte: nat, memory: seq<bool>, start: nat, k: nat)
    requires start + 8 * k + 8 <= |memory| && num == LeAt(memory, start, k)
    requires byte == FromBits(memory[start + 8 * k..start + 8 * k + 8])
    ensures LeAt(memory, start, k + 1) == Or(num, ShiftedByte(byte, k))
  {
    LeAtIsFromLe(memory, start, k);
    FromLeBound(memory[start..start + 8 * k]);
    ShiftedIsProduct(byte, k);
    OrDisjoint(num, byte, 8 * k);
  }

  // ---------- texts ----------

  /** The text at a position: the bytes up to a zero, or up to the end of the stream. */
  function TextFrom(memory: seq<bool>, length: nat, position: nat): (text: seq<nat>)
    requires position <= length <= |memory|
    decreases length - position
  {
    if position + 8 > length then [] else
      var b := FromBits(memory[position..position + 8]);
      if b == 0 then [] else [b] + TextFrom(memory, length, position + 8)
  }

  /** The bytes s have been read from position start, and with b == 0 the end of the text. */
  predicate TextRead(
    memory: seq<bool>, length: nat, start: nat, beyond: bool, s: seq<nat>, b: nat, position: nat, flag: bool) {
    && start <= length && position <= length <= |memory|
    && if b != 0 then
         && position == start + 8 * |s| && flag == beyond
         && TextFrom(memory, length, start) == s + TextFrom(memory, length, position)
       else
         && TextFrom(memory, length, start) == s
         && if start + 8 * |s| + 8 <= length then position == start + 8 * |s| + 8 && flag == beyond
            else position == length && flag
  }

  lemma TextStep(
    memory: seq<bool>, length: nat, start: nat, beyond: bool, s: seq<nat>, from: nat, b: nat, to: nat, flag: bool)
    requires TextRead(memory, length, start, beyond, s, 1, from, beyond)
    requires if from + 8 <= length then to == from + 8 && flag == beyond && b == FromBits(memory[from..from + 8])
      else to == length && flag && b == 0
    ensures TextRead(memory, length, start, beyond, if b != 0 then s + [b] else s, b, to, flag)
  {
    if b != 0 {
      assert s + ([b] + TextFrom(memory, length, to)) == (s + [b]) + TextFrom(memory, length, to);
    }
  }

  /** A zero terminated text in memory is found again. */
  lemma {:induction false} TextFound(memory: seq<bool>, length: nat, start: nat, text: seq<nat>, k: nat)
    requires (forall i :: 0 <= i < |text| ==> 0 < text[i] < 256) && k <= |text|
    requires start + 8 * |text| + 8 <= length <= |memory|
    requires Packs(text + [0], memory[start..start + 8 * |text| + 8])
    ensures TextFrom(memory, length, start + 8 * k) == text[k..]
    decreases |text| - k
  {
    TextByte(memory, start, text + [0], memory[start..start + 8 * |text| + 8], k);
    TextFromByte(memory, length, start + 8 * k, (text + [0])[k]);
    if k < |text| {
      TextFound(memory, length, start, text, k + 1);
      assert text[k..] == [text[k]] + text[k + 1..];
    }
  }

  lemma TextFromByte(memory: seq<bool>, length: nat, position: nat, b: nat)
    requires position + 8 <= length <= |memory| && b == FromBits(memory[position..position + 8])
    ensures TextFrom(memory, length, position) == if b == 0 then [] else [b] + TextFrom(memory, length, position + 8)
  {
  }

  lemma ZeroEnded(text: seq<nat>)
    requires forall i :: 0 <= i < |text| ==> 0 < text[i] < 256
    ensures Packs(text + [0], AllBits(text + [0]))
  {
    AllBitsPacks(text + [0]);
  }

  /** Byte k of bytes that lie in memory as the bits t. */
  lemma TextByte(memory: seq<bool>, start: nat, all: seq<nat>, t: seq<bool>, k: nat)
    requires Packs(all, t) && k < |all| && start + |t| <= |memory| && memory[start..start + |t|] == t
    ensures FromBits(memory[start + 8 * k..start + 8 * k + 8]) == all[k]
  {
    assert ByteHolds(all, t, k);
    ByteOfSlice(memory, start, t, 8 * k);
  }
}

/** Sequences of mixed writes, and that the same reads undo them. */
module StreamItems {
  import opened Arithmetic
  import opened WordBits
  import opened StreamBits
  import opened Streams

  /** What is written: single bits, 2- and 4-bit numbers, words of n bytes in either byte order, n-bit
      numbers, and texts. */
  datatype Kind = OneBit | TwoBits | FourBits | Word(n: nat, bigEndian: bool) | Bits(n: nat) | Text

  datatype Item = Number(kind: Kind, value: nat) | String(text: seq<nat>)

  function KindOf(item: Item): Kind {
    if item.Number? then item.kind else Text
  }

  predicate WordSize(n: nat) {
    n == 1 || n == 2 || n == 3 || n == 4 || n == 6 || n == 8
  }

  /** The number of bits of a number. */
  function Width(k: Kind): nat {
    match k
    case OneBit => 1
    case TwoBits => 2
    case FourBits => 4
    case Word(n, _) => 8 * n
    case Bits(n) => n
    case Text => 0
  }

  predicate NumberKind(kind: Kind) {
    !kind.Text? && (kind.Word? ==> WordSize(kind.n)) && (kind.Bits? ==> 1 <= kind.n <= 31)
  }

  /** The values that the typed writes take. */
  predicate WellFormed(item: Item) {
    match item
    case Number(kind, value) =>
      NumberKind(kind) && value < Pow2(Width(kind))
    case String(text) => forall i :: 0 <= i < |text| ==> 0 < text[i] < 256
  }

  /** Words of several bytes with the lowest one first. */
  predicate LowFirst(kind: Kind) {
    kind.Word? && kind.n > 1 && !kind.bigEndian
  }

  function Encoded(item: Item): seq<bool>
    requires WellFormed(item)
  {
    match item
    case Number(kind, value) => if LowFirst(kind) then LeBits(value, kind.n) else NBits(value, Width(kind))
    case String(text) => AllBits(text + [0])
  }

  predicate AllWellFormed(items: seq<Item>) {
    forall i :: 0 <= i < |items| ==> WellFormed(items[i])
  }

  function Encoding(items: seq<Item>): seq<bool>
    requires AllWellFormed(items)
  {
    if items == [] then [] else Encoded(items[0]) + Encoding(items[1..])
  }

  /** Byte writes start on a byte or in the middle of one, texts on a byte. */
  predicate Fits(item: Item, offset: nat) {
    match KindOf(item)
    case Word(_, _) => offset % 8 == 0 || offset % 8 == 4
    case Text => offset % 8 == 0
    case _ => true
  }

  predicate AllFit(items: seq<Item>, offset: nat)
    requires AllWellFormed(items)
  {
    items == [] || (Fits(items[0], offset) && AllFit(items[1..], offset + |Encoded(items[0])|))
  }

  lemma Pow2Words()
    ensures Pow2(1) == 2 && Pow2(2) == 4 && Pow2(4) == 16 && Pow2(8) == 0x100 && Pow2(16) == 0x1_0000 &&
      Pow2(24) == 0x100_0000
    ensures Pow2(32) == 0x1_0000_0000 && Pow2(48) == 0x1_0000_0000_0000 && Pow2(64) == 0x1_0000_0000_0000_0000
  {
    assert Pow2(0) == 1;
    Pow2Byte();
    Pow2Add(8, 8);
    Pow2Add(16, 8);
    Pow2Add(16, 16);
    Pow2Add(32, 16);
    Pow2Add(32, 32);
  }

  method WriteWord(out: MemoryOutputStream, n: nat, bigEndian: bool, value: nat)
    requires WordSize(n) && value < Pow2(8 * n) && out.Valid() && out.ByteWritable()
    modifies out
    ensures out.Valid()
    ensures out.bits == old(out.bits) + if bigEndian || n == 1 then NBits(value, 8 * n) else LeBits(value, n)
  {
    Pow2Words();
    if n == 1 {
      out.WriteByte(value);
    } else if n == 2 {
      if bigEndian { out.WriteUint16Be(value); } else { out.WriteUint16Le(value); }
    } else if n == 3 {
      if bigEndian { out.WriteUint24Be(value); } else { out.WriteUint24Le(value); }
    } else if n == 4 {
      if bigEndian { out.WriteUint32Be(value); } else { out.WriteUint32Le(value); }
    } else if n == 6 {
      if bigEndian { out.WriteUint48Be(value); } else { out.WriteUint48Le(value); }
    } else {
      if bigEndian { out.WriteUint64Be(value); } else { out.WriteUint64Le(value); }
    }
  }

  method Write(out: MemoryOutputStream, item: Item)
    requires WellFormed(item) && Fits(item, out.length) && out.Valid()
    modifies out
    ensures out.Valid() && out.bits == old(out.bits) + Encoded(item)
  {
    match item
    case Number(kind, value) =>
      WriteNumber(out, kind, value);
    case String(text) =>
      out.WriteString(text);
  }

  method WriteNumber(out: MemoryOutputStream, kind: Kind, value: nat)
    requires WellFormed(Number(kind, value)) && Fits(Number(kind, value), out.length) && out.Valid()
    modifies out
    ensures out.Valid() && out.bits == old(out.bits) + Encoded(Number(kind, value))
  {
    match kind {
      case OneBit =>
        OneBitOf(value);
        out.WriteBit(value == 1);
      case TwoBits =>
        Pow2Words();
        out.WriteUint2(value);
      case FourBits =>
        Pow2Words();
        out.WriteUint4(value);
      case Word(n, bigEndian) =>
        WriteWord(out, n, bigEndian, value);
      case Bits(n) =>
        var ok := out.WriteNBitsOfUint64Be(value, n);
    }
  }

  lemma OneBitOf(value: nat)
    requires value < Pow2(1)
    ensures NBits(value, 1) == [value == 1]
  {
    BitZero(value);
    NBitsTop(value, 1);
  }

  method ReadWord(in_: MemoryInputStream, n: nat, bigEndian: bool) returns (value: nat)
    requires WordSize(n) && in_.Valid() && in_.Left(8 * n)
    modifies in_
    ensures in_.Valid() && in_.isReadBeyondEnd == old(in_.isReadBeyondEnd)
    ensures NumberRead(in_.memory, old(in_.position), Word(n, bigEndian), in_.position, value)
  {
    if n == 1 {
      value := in_.ReadByte();
    } else if bigEndian {
      value := ReadWordBe(in_, n);
    } else {
      value := ReadWordLe(in_, n);
    }
  }

  method ReadWordBe(in_: MemoryInputStream, n: nat) returns (value: nat)
    requires WordSize(n) && n > 1 && in_.Valid() && in_.Left(8 * n)
    modifies in_
    ensures in_.Valid() && in_.position == old(in_.position) + 8 * n && in_.isReadBeyondEnd == old(in_.isReadBeyondEnd)
    ensures value == FromBits(in_.memory[old(in_.position)..old(in_.position) + 8 * n])
  {
    match n
    case 2 => value := in_.ReadUint16Be();
    case 3 => value := in_.ReadUint24Be();
    case 4 => value := in_.ReadUint32Be();
    case 6 => value := in_.ReadUint48Be();
    case _ => value := in_.ReadUint64Be();
  }

  method ReadWordLe(in_: MemoryInputStream, n: nat) returns (value: nat)
    requires WordSize(n) && n > 1 && in_.Valid() && in_.Left(8 * n)
    modifies in_
    ensures in_.Valid() && in_.position == old(in_.position) + 8 * n && in_.isReadBeyondEnd == old(in_.isReadBeyondEnd)
    ensures value == FromLe(in_.memory[old(in_.position)..old(in_.position) + 8 * n])
  {
    match n
    case 2 => value := in_.ReadUint16Le();
    case 3 => value := in_.ReadUint24Le();
    case 4 => value := in_.ReadUint32Le();
    case 6 => value := in_.ReadUint48Le();
    case _ => value := in_.ReadUint64Le();
  }

  /** The number read is the one written. */
  lemma ReadIsWritten(item: Item)
    requires WellFormed(item) && item.Number?
    ensures var bits := Encoded(item);
      |bits| == Width(item.kind) && NumberKind(item.kind) && item.value == Decoded(item.kind, bits)
  {
    var v, w := item.value, Width(item.kind);
    if LowFirst(item.kind) {
      LeRoundTrip(v, item.kind.n);
      NBitsRoundTrip(v, w);
    }
    NumberRoundTrip(v, w);
  }

  /** The number that the bits of a kind stand for. */
  function Decoded(kind: Kind, bits: seq<bool>): nat
    requires |bits| == Width(kind)
  {
    if LowFirst(kind) then FromLe(bits) else FromBits(bits)
  }

  /** A number of this kind has been read from position start. */
  predicate NumberRead(memory: seq<bool>, start: nat, kind: Kind, position: nat, value: nat) {
    && position == start + Width(kind) <= |memory|
    && value == Decoded(kind, memory[start..start + Width(kind)])
  }

  method ReadOne(in_: MemoryInputStream) returns (value: nat)
    requires in_.Valid() && in_.Left(1)
    modifies in_
    ensures in_.Valid() && in_.isReadBeyondEnd == old(in_.isReadBeyondEnd)
    ensures NumberRead(in_.memory, old(in_.position), OneBit, in_.position, value)
  {
    OneBitNumber(in_.memory[in_.position..in_.position + 1]);
    var b := in_.ReadBit();
    value := if b then 1 else 0;
  }

  method ReadFew(in_: MemoryInputStream, kind: Kind) returns (value: nat)
    requires (kind.TwoBits? || kind.FourBits? || (kind.Bits? && 1 <= kind.n <= 31)) && in_.Valid() &&
      in_.Left(Width(kind))
    modifies in_
    ensures in_.Valid() && in_.isReadBeyondEnd == old(in_.isReadBeyondEnd)
    ensures NumberRead(in_.memory, old(in_.position), kind, in_.position, value)
  {
    if kind.TwoBits? {
      value := in_.ReadUint2();
    } else if kind.FourBits? {
      value := in_.ReadUint4();
    } else {
      var ok;
      ok, value := in_.ReadNBitsToUint64Be(kind.n);
    }
  }

  method ReadNumber(in_: MemoryInputStream, kind: Kind) returns (value: nat)
    requires NumberKind(kind) && in_.Valid() && in_.Left(Width(kind))
    modifies in_
    ensures in_.Valid() && in_.isReadBeyondEnd == old(in_.isReadBeyondEnd)
    ensures NumberRead(in_.memory, old(in_.position), kind, in_.position, value)
  {
    if kind.OneBit? {
      value := ReadOne(in_);
    } else if kind.Word? {
      value := ReadWord(in_, kind.n, kind.bigEndian);
    } else {
      value := ReadFew(in_, kind);
    }
  }

  /** Reads an item of a kind; if the encoding of an item of that kind comes next, that item. */
  method Read(in_: MemoryInputStream, kind: Kind, ghost item: Item) returns (r: Item)
    requires WellFormed(item) && kind == KindOf(item) && in_.Valid() && in_.Left(|Encoded(item)|)
    requires in_.memory[in_.position..in_.position + |Encoded(item)|] == Encoded(item)
    modifies in_
    ensures in_.Valid() && r == item
    ensures in_.position == old(in_.position) + |Encoded(item)| && in_.isReadBeyondEnd == old(in_.isReadBeyondEnd)
  {
    if kind.Text? {
      TextIsItem(in_.memory, in_.length, in_.position, item);
      var s := in_.ReadString();
      r := String(s);
    } else {
      ghost var start := in_.position;
      var v := ReadNumber(in_, kind);
      NumberIsItem(in_.memory, start, item, in_.position, v);
      r := Number(kind, v);
    }
  }

  lemma TextIsItem(memory: seq<bool>, length: nat, start: nat, item: Item)
    requires WellFormed(item) && item.String? && start + |Encoded(item)| <= length <= |memory|
    requires memory[start..start + |Encoded(item)|] == Encoded(item)
    ensures |Encoded(item)| == 8 * |item.text| + 8 && TextFrom(memory, length, start) == item.text
  {
    ZeroEnded(item.text);
    TextFound(memory, length, start, item.text, 0);
  }

  lemma NumberIsItem(memory: seq<bool>, start: nat, item: Item, position: nat, value: nat)
    requires WellFormed(item) && item.Number? && start + |Encoded(item)| <= |memory|
    requires memory[start..start + |Encoded(item)|] == Encoded(item)
    requires NumberRead(memory, start, item.kind, position, value)
    ensures position == start + |Encoded(item)| && value == item.value
  {
    ReadIsWritten(item);
  }

  lemma OneBitNumber(bits: seq<bool>)
    requires |bits| == 1
    ensures FromBits(bits) == if bits[0] then 1 else 0
  {
    assert Pow2(0) == 1 && bits[1..] == [];
  }

  method WriteAll(out: MemoryOutputStream, items: seq<Item>)
    requires AllWellFormed(items) && out.Valid() && AllFit(items, out.length)
    modifies out
    ensures out.Valid() && out.bits == old(out.bits) + Encoding(items)
    decreases |items|
  {
    if items == [] {
      assert out.bits + [] == out.bits;
    } else {
      ghost var before := out.bits;
      Write(out, items[0]);
      WriteAll(out, items[1..]);
      Regroup(before, Encoded(items[0]), Encoding(items[1..]));
    }
  }

  method ReadAll(in_: MemoryInputStream, kinds: seq<Kind>, ghost items: seq<Item>) returns (r: seq<Item>)
    requires AllWellFormed(items) && |kinds| == |items| &&
      (forall i :: 0 <= i < |kinds| ==> kinds[i] == KindOf(items[i]))
    requires in_.Valid() && in_.Left(|Encoding(items)|) &&
      in_.memory[in_.position..in_.position + |Encoding(items)|] == Encoding(items)
    modifies in_
    ensures in_.Valid() && r == items
    ensures in_.position == old(in_.position) + |Encoding(items)| && in_.isReadBeyondEnd == old(in_.isReadBeyondEnd)
    decreases |kinds|
  {
    if kinds == [] {
      r := [];
    } else {
      var first := ReadFirst(in_, kinds[0], items[0], Encoding(items[1..]));
      var rest := ReadAll(in_, kinds[1..], items[1..]);
      r := [first] + rest;
    }
  }

  /** Reads an item and leaves the rest ahead. */
  method ReadFirst(in_: MemoryInputStream, kind: Kind, ghost item: Item, ghost rest: seq<bool>) returns (r: Item)
    requires WellFormed(item) && kind == KindOf(item) && in_.Valid() && in_.Left(|Encoded(item)| + |rest|)
    requires in_.memory[in_.position..in_.position + |Encoded(item)| + |rest|] == Encoded(item) + rest
    modifies in_
    ensures in_.Valid() && r == item && in_.Left(|rest|) && in_.memory[in_.position..in_.position + |rest|] == rest
    ensures in_.position == old(in_.position) + |Encoded(item)| && in_.isReadBeyondEnd == old(in_.isReadBeyondEnd)
  {
    AheadSplit(in_.memory, in_.position, Encoded(item), rest);
    r := Read(in_, kind, item);
  }

  lemma AheadSplit(s: seq<bool>, p: nat, a: seq<bool>, b: seq<bool>)
    requires p + |a| + |b| <= |s| && s[p..p + |a| + |b|] == a + b
    ensures s[p..p + |a|] == a && s[p + |a|..p + |a| + |b|] == b
  {
    var t := s[p..p + |a| + |b|];
    assert t[..|a|] == a && t[|a|..] == b;
    assert s[p..p + |a|] == t[..|a|];
    assert s[p + |a|..p + |a| + |b|] == t[|a|..];
  }

  /** Any sequence of writes whose byte writes start on a byte or in the middle of one is read back by
      the same sequence of reads, which end exactly at the end of the stream and never read past it. */
  method RoundTrip(items: seq<Item>) returns (r: seq<Item>, in_: MemoryInputStream)
    requires AllWellFormed(items) && AllFit(items, 0)
    ensures r == items && in_.position == in_.length == |Encoding(items)| && !in_.isReadBeyondEnd
  {
    var out := new MemoryOutputStream();
    WriteAll(out, items);
    assert out.bits == Encoding(items);
    DataAreBytes(out.data, Padded(out.bits));
    in_ := new MemoryInputStream(out.data, out.length);
    SameMemory(out.data, Padded(out.bits), in_.memory);
    assert in_.memory[0..out.length] == out.bits;
    var kinds := seq(|items|, i requires 0 <= i < |items| => KindOf(items[i]));
    r := ReadAll(in_, kinds, items);
  }

  lemma DataAreBytes(data: seq<nat>, padded: seq<bool>)
    requires Packs(data, padded)
    ensures forall i :: 0 <= i < |data| ==> data[i] < 256
  {
    Pow2Byte();
    forall i | 0 <= i < |data|
      ensures data[i] < 256
    {
      assert ByteHolds(data, padded, i);
      FromBitsBound(padded[8 * i..8 * i + 8]);
    }
  }

  /** Bytes determine the bits they hold. */
  lemma SameMemory(data: seq<nat>, a: seq<bool>, b: seq<bool>)
    requires Packs(data, a) && Packs(data, b)
    ensures a == b
  {
    forall p: nat | p < |a|
      ensures a[p] == b[p]
    {
      BitInMemory(data, a, p);
      BitInMemory(data, b, p);
    }
  }
}

/** Bit vectors over bytes, and the optimised form that holds up to 32 bits in one word. */
module BitVectors {
  import opened Options
  import opened WordBits
  import opened BitSequences
  import opened Arithmetic
  import opened Sequences

  const WORD: int := 0x1_0000_0000

  // ---------- bits in bytes ----------

  ghost predicate Holds(bytes: seq<nat>, padded: seq<bool>) {
    |padded| == 8 * |bytes| && forall i :: 0 <= i < |bytes| ==> ByteIs(bytes, padded, i)
  }

  ghost predicate ByteIs(bytes: seq<nat>, padded: seq<bool>, i: nat)
    requires i < |bytes| && |padded| == 8 * |bytes|
  {
    bytes[i] == Dec(padded[8 * i..8 * i + 8])
  }

  function Padded(value: seq<bool>, n: nat): (r: seq<bool>)
    requires |value| <= 8 * n
    ensures |r| == 8 * n && forall i :: 0 <= i < |r| ==> r[i] == (i < |value| && value[i])
  {
    value + Falses(8 * n - |value|)
  }

  lemma PaddedIs(value: seq<bool>, n: nat, r: seq<bool>)
    requires |value| <= 8 * n == |r| && forall i :: 0 <= i < |r| ==> r[i] == (i < |value| && value[i])
    ensures r == Padded(value, n)
  {
  }

  /** A zero byte more. */
  lemma GrowByte(bytes: seq<nat>, value: seq<bool>)
    requires |value| <= 8 * |bytes| && Holds(bytes, Padded(value, |bytes|))
    ensures Holds(bytes + [0], Padded(value, |bytes| + 1))
  {
    var p, p', bytes' := Padded(value, |bytes|), Padded(value, |bytes| + 1), bytes + [0];
    forall i | 0 <= i < |bytes'|
      ensures ByteIs(bytes', p', i)
    {
      if i < |bytes| {
        assert ByteIs(bytes, p, i);
        assert p'[8 * i..8 * i + 8] == p[8 * i..8 * i + 8];
      } else {
        DecFalses(8);
        assert p'[8 * i..8 * i + 8] == Falses(8);
      }
    }
  }

  /** Changing one bit of one byte. */
  lemma ChangeBit(bytes: seq<nat>, p: seq<bool>, pos: nat, v: bool, byte: nat)
    requires Holds(bytes, p) && pos < |p|
    requires byte == bytes[pos / 8] + ((if v then 1 else 0) - BitOf(bytes[pos / 8], pos % 8)) * Pow2(pos % 8)
    ensures BitOf(bytes[pos / 8], pos % 8) == if p[pos] then 1 else 0
    ensures Holds(bytes[pos / 8 := byte], p[pos := v])
  {
    var q, k := pos / 8, pos % 8;
    var p', bytes' := p[pos := v], bytes[q := byte];
    assert ByteIs(bytes, p, q);
    var slice := p[8 * q..8 * q + 8];
    DecBit(slice, k);
    DecReplace(slice, k, v);
    assert p'[8 * q..8 * q + 8] == slice[k := v];
    forall i | 0 <= i < |bytes'|
      ensures ByteIs(bytes', p', i)
    {
      assert ByteIs(bytes, p, i);
      if i != q {
        assert p'[8 * i..8 * i + 8] == p[8 * i..8 * i + 8];
      }
    }
  }

  lemma ByteBound(bytes: seq<nat>, p: seq<bool>, i: nat)
    requires Holds(bytes, p) && i < |bytes|
    ensures bytes[i] < 256 && Pow2(8) == 256
  {
    assert ByteIs(bytes, p, i);
    DecBound(p[8 * i..8 * i + 8]);
    assert Pow2(4) == 16;
    Pow2Add(4, 4);
  }

  // ---------- numbers from bits, with unsigned overflow ----------

  lemma ModSum(a: int, b: int)
    ensures (a % WORD + b % WORD) % WORD == (a + b) % WORD
  {
    var q, r := a / WORD, b / WORD;
    assert a + b == (q + r) * WORD + (a % WORD + b % WORD);
    var s := a % WORD + b % WORD;
    assert s == (s / WORD) * WORD + s % WORD;
    DivUnique(a + b, WORD, q + r + s / WORD, s % WORD);
  }

  /** One turn of the loops: the sum of the bits so far and the next power of two, both cut to 32 bits. */
  lemma DecimalStep(s: seq<bool>, k: nat, dec: int, power: int)
    requires k < |s| && dec == Dec(s[..k]) % WORD && power == Pow2(k) % WORD
    ensures (if s[k] then (dec + power) % WORD else dec) == Dec(s[..k + 1]) % WORD
    ensures (power * 2) % WORD == Pow2(k + 1) % WORD
  {
    assert s[..k + 1] == s[..k] + [s[k]];
    DecAppend(s[..k], [s[k]]);
    assert Dec([s[k]]) == if s[k] then 1 else 0;
    ModSum(Dec(s[..k]), Pow2(k));
    ModSum(Pow2(k), Pow2(k));
  }

  // ---------- the two classes ----------

  class BitVector {
    var bytes: seq<nat>
    var size: nat
    ghost var value: seq<bool>

    ghost predicate Valid()
      reads this
    {
      |value| == size <= 8 * |bytes| && Holds(bytes, Padded(value, |bytes|))
    }

    constructor ()
      ensures Valid() && value == []
    {
      size, value, bytes := 0, [], [0];
      new;
      DecFalses(8);
      assert Padded([], 1)[0..8] == Falses(8);
      assert ByteIs(bytes, Padded(value, 1), 0);
    }

    method GetBit(pos: nat) returns (r: Option<bool>)
      requires Valid()
      ensures r == if pos < |value| then Some(value[pos]) else None
    {
      if pos >= size {
        return None;
      }
      var p := Padded(value, |bytes|);
      ReadBit(bytes, p, pos);
      var field := bytes[pos / 8];
      r := Some(And(field, Pow2(pos % 8)) != 0);
    }

    /** Makes room for a bit at pos. */
    method Grow(pos: nat)
      requires Valid()
      modifies this`bytes
      ensures Valid() && pos < 8 * |bytes|
    {
      while 8 * |bytes| <= pos
        invariant Valid()
        decreases pos + 8 - 8 * |bytes|
      {
        GrowByte(bytes, value);
        bytes := bytes + [0];
      }
    }

    method SetBit(pos: nat, v: bool)
      requires Valid()
      modifies this
      ensures Valid() && value == SetAt(old(value), pos, v)
    {
      Grow(pos);
      ghost var p := Padded(value, |bytes|);
      if pos + 1 > size {
        size := pos + 1;
      }
      var field, k := bytes[pos / 8], pos % 8;
      ByteBound(bytes, p, pos / 8);
      ByteChange(field, k);
      if v {
        field := Or(field, Pow2(k));
      } else {
        field := And(field, 255 - Pow2(k));
      }
      ChangeBit(bytes, p, pos, v, field);
      bytes := bytes[pos / 8 := field];
      value := SetAt(value, pos, v);
      PaddedIs(value, |bytes|, p[pos := v]);
    }

    /** Out of range positions are an error. */
    method ToggleBit(pos: nat) returns (ok: bool)
      requires Valid()
      modifies this
      ensures Valid() && (ok <==> pos < |old(value)|)
      ensures value == if ok then old(value)[pos := !old(value)[pos]] else old(value)
    {
      if pos >= size {
        return false;
      }
      ghost var p := Padded(value, |bytes|);
      var field, k := bytes[pos / 8], pos % 8;
      ToggleByte(bytes, p, pos);
      bytes := bytes[pos / 8 := Xor(field, Pow2(k))];
      value := value[pos := !value[pos]];
      PaddedIs(value, |bytes|, p[pos := !p[pos]]);
      ok := true;
    }

    method AppendBit(v: bool)
      requires Valid()
      modifies this
      ensures Valid() && value == old(value) + [v]
    {
      ghost var before := value;
      SetBit(size, v);
      assert before + Falses(0) + [v] == before + [v];
    }

    method ToDecimal() returns (dec: int)
      requires Valid()
      ensures dec == Dec(value) % WORD
    {
      dec := 0;
      var powerOfTwo := 1;
      assert value[..0] == [] && Pow2(0) == 1;
      for i := 0 to size
        invariant dec == Dec(value[..i]) % WORD && powerOfTwo == Pow2(i) % WORD
      {
        DecimalStep(value, i, dec, powerOfTwo);
        var b := GetBit(i);
        if b.value {
          dec := (dec + powerOfTwo) % WORD;
        }
        powerOfTwo := (powerOfTwo * 2) % WORD;
      }
      assert value[..size] == value;
    }

    method ReverseToDecimal() returns (dec: int)
      requires Valid()
      ensures dec == Dec(Reverse(value)) % WORD
    {
      dec := 0;
      var powerOfTwo := 1;
      ghost var s := Reverse(value);
      assert s[..0] == [] && Pow2(0) == 1;
      for i := size downto 0
        invariant dec == Dec(s[..size - i]) % WORD && powerOfTwo == Pow2(size - i) % WORD
      {
        DecimalStep(s, size - i - 1, dec, powerOfTwo);
        var b := GetBit(i);
        if b.value {
          dec := (dec + powerOfTwo) % WORD;
        }
        powerOfTwo := (powerOfTwo * 2) % WORD;
      }
      assert s[..size] == s;
    }

    /** Bit by bit; vectors of different sizes are an error. */
    method ComputeHammingDistance(u: BitVector) returns (d: Option<nat>)
      requires Valid() && u.Valid()
      ensures d == if |value| == |u.value| then Some(Hamming(value, u.value)) else None
    {
      if size != u.size {
        return None;
      }
      var n := 0;
      for i := 0 to size
        invariant n == Hamming(value[..i], u.value[..i])
      {
        HammingStep(value, u.value, i);
        var a := u.GetBit(i);
        var b := GetBit(i);
        if a.value != b.value {
          n := n + 1;
        }
      }
      assert value[..size] == value && u.value[..size] == u.value;
      d := Some(n);
    }

    method Equals(u: BitVector) returns (r: bool)
      requires Valid() && u.Valid()
      ensures r <==> value == u.value
    {
      if size != u.size {
        return false;
      }
      for i := 0 to size
        invariant value[..i] == u.value[..i]
      {
        var a := GetBit(i);
        var b := u.GetBit(i);
        if a != b {
          return false;
        }
        assert value[..i + 1] == value[..i] + [value[i]];
      }
      assert value[..size] == value && u.value[..size] == u.value;
      r := true;
    }

    /** Assignment from another vector: bit by bit after clearing. */
    method Copy(other: BitVector)
      requires Valid() && other.Valid() && other != this
      modifies this
      ensures Valid() && value == other.value
    {
      size, bytes, value := 0, [], [];
      for i := 0 to other.size
        invariant Valid() && other.Valid() && value == other.value[..i] && other.value == old(other.value) &&
          other.size == old(other.size)
      {
        var b := other.GetBit(i);
        AppendBit(b.value);
      }
    }
  }

  lemma ReadBit(bytes: seq<nat>, p: seq<bool>, pos: nat)
    requires Holds(bytes, p) && pos < |p|
    ensures And(bytes[pos / 8], Pow2(pos % 8)) != 0 <==> p[pos]
  {
    var q := pos / 8;
    assert ByteIs(bytes, p, q);
    DecBit(p[8 * q..8 * q + 8], pos % 8);
    AndBit(bytes[q], pos % 8);
  }

  lemma ByteChange(field: nat, k: nat)
    requires field < 256 && k < 8
    ensures Or(field, Pow2(k)) == field + (1 - BitOf(field, k)) * Pow2(k)
    ensures 255 - Pow2(k) >= 0 && And(field, 255 - Pow2(k)) == field + (0 - BitOf(field, k)) * Pow2(k)
  {
    assert Pow2(4) == 16;
    Pow2Add(4, 4);
    OrBit(field, k);
    AndClear(field, k, 8);
    Negated(BitOf(field, k), Pow2(k));
  }

  lemma Negated(b: int, p: int)
    ensures (0 - b) * p == -(b * p)
  {
  }

  lemma ToggleByte(bytes: seq<nat>, p: seq<bool>, pos: nat)
    requires Holds(bytes, p) && pos < |p|
    ensures Holds(bytes[pos / 8 := Xor(bytes[pos / 8], Pow2(pos % 8))], p[pos := !p[pos]])
  {
    var q, k := pos / 8, pos % 8;
    XorBit(bytes[q], k);
    assert ByteIs(bytes, p, q);
    DecBit(p[8 * q..8 * q + 8], k);
    ChangeBit(bytes, p, pos, !p[pos], Xor(bytes[q], Pow2(k)));
  }

  class ShortBitVector {
    var bits: nat
    var size: nat
    ghost var value: seq<bool>

    ghost predicate Valid()
      reads this
    {
      |value| == size <= 32 && bits == Dec(value)
    }

    constructor ()
      ensures Valid() && value == []
    {
      size, bits, value := 0, 0, [];
    }

    method GetBit(pos: nat) returns (r: Option<bool>)
      requires Valid()
      ensures r == if pos < |value| then Some(value[pos]) else None
    {
      if pos >= size {
        return None;
      }
      DecBit(value, pos);
      AndBit(bits, pos);
      r := Some(And(bits, Pow2(pos)) != 0);
    }

    /** Positions from 32 on are an error. */
    method SetBit(pos: nat, v: bool) returns (ok: bool)
      requires Valid()
      modifies this
      ensures Valid() && (ok <==> pos < 32)
      ensures value == if ok then SetAt(old(value), pos, v) else old(value)
    {
      if pos >= 32 {
        return false;
      }
      WordBound(value);
      DecSet(value, pos, v);
      OrBit(bits, pos);
      AndClear(bits, pos, 32);
      Negated(BitOf(bits, pos), Pow2(pos));
      if pos + 1 > size {
        size := pos + 1;
      }
      if v {
        bits := Or(bits, Pow2(pos));
      } else {
        bits := And(bits, WORD - 1 - Pow2(pos));
      }
      value := SetAt(value, pos, v);
      ok := true;
    }

    method ToggleBit(pos: nat) returns (ok: bool)
      requires Valid()
      modifies this
      ensures Valid() && (ok <==> pos < |old(value)|)
      ensures value == if ok then old(value)[pos := !old(value)[pos]] else old(value)
    {
      if pos >= size {
        return false;
      }
      XorBit(bits, pos);
      DecBit(value, pos);
      DecReplace(value, pos, !value[pos]);
      bits := Xor(bits, Pow2(pos));
      value := value[pos := !value[pos]];
      ok := true;
    }

    method AppendBit(v: bool) returns (ok: bool)
      requires Valid()
      modifies this
      ensures Valid() && (ok <==> |old(value)| < 32) && value == if ok then old(value) + [v] else old(value)
    {
      ghost var before := value;
      ok := SetBit(size, v);
      assert before + Falses(0) + [v] == before + [v];
    }

    function ToDecimal(): nat
      reads this
    {
      bits
    }

    method ReverseToDecimal() returns (dec: int)
      requires Valid()
      ensures dec == Dec(Reverse(value)) % WORD
    {
      dec := 0;
      var powerOfTwo := 1;
      ghost var s := Reverse(value);
      assert s[..0] == [] && Pow2(0) == 1;
      for i := size downto 0
        invariant dec == Dec(s[..size - i]) % WORD && powerOfTwo == Pow2(size - i) % WORD
      {
        DecimalStep(s, size - i - 1, dec, powerOfTwo);
        var b := GetBit(i);
        if b.value {
          dec := (dec + powerOfTwo) % WORD;
        }
        powerOfTwo := (powerOfTwo * 2) % WORD;
      }
      assert s[..size] == s;
    }

    /** Word-parallel. */
    method ComputeHammingDistance(u: ShortBitVector) returns (d: Option<nat>)
      requires Valid() && u.Valid()
      ensures d == if |value| == |u.value| then Some(Hamming(value, u.value)) else None
    {
      if size != u.size {
        return None;
      }
      WordDistance(value, u.value, 4);
      var hammingDistance: int := Xor(bits, u.ToDecimal());
      hammingDistance := Swar1(hammingDistance);
      hammingDistance := Swar2(hammingDistance);
      d := Some(Swar4(Swar3(hammingDistance)));
    }

    /** The comparison looks at the word only: it errs exactly for different vectors that differ in
        trailing zeros. */
    function Equals(u: ShortBitVector): (r: bool)
      requires Valid() && u.Valid()
      reads this, u
      ensures r != (value == u.value) <==> value != u.value && SameUpToZeros(value, u.value)
    {
      WordsAgree(value, u.value);
      bits == u.bits
    }
  }

  lemma WordBound(s: seq<bool>)
    requires |s| <= 32
    ensures Dec(s) < WORD == Pow2(32)
  {
    DecBound(s);
    Pow2Monotone(|s|, 32);
    assert Pow2(4) == 16;
    Pow2Add(4, 4);
    Pow2Add(8, 8);
    Pow2Add(16, 16);
  }

  lemma {:induction false} XorBound(a: seq<bool>, b: seq<bool>)
    requires |a| == |b|
    ensures Xor(Dec(a), Dec(b)) < Pow2(|a|)
  {
    if a != [] {
      XorDigit(a, b);
      XorBound(a[1..], b[1..]);
    }
  }

  /** The word-parallel count is the bit by bit distance. */
  lemma WordDistance(a: seq<bool>, b: seq<bool>, k: nat)
    requires |a| == |b| <= 32 && k == 4
    ensures var x := Xor(Dec(a), Dec(b));
      Swar1(x) >= 0 && Swar2(Swar1(x)) + Swar2(Swar1(x)) / 16 < WORD && Swar4(Swar3(Swar2(Swar1(x)))) == Hamming(a, b)
  {
    XorBound(a, b);
    Pow2Monotone(|a|, 32);
    WordBound(a);
    SwarCounts(Xor(Dec(a), Dec(b)), k);
    XorCounts(a, b, 8 * k);
  }

  /** The longer vector is the shorter one followed by zeros. */
  predicate SameUpToZeros(a: seq<bool>, b: seq<bool>) {
    if |a| <= |b| then b == a + Falses(|b| - |a|) else a == b + Falses(|a| - |b|)
  }

  lemma DecPadded(a: seq<bool>, k: nat)
    ensures Dec(a + Falses(k)) == Dec(a)
  {
    DecAppend(a, Falses(k));
    DecFalses(k);
  }

  lemma PaddedAgree(a: seq<bool>, b: seq<bool>, k: nat)
    requires |b| == |a| + k
    ensures Dec(a) == Dec(b) <==> b == a + Falses(k)
  {
    DecPadded(a, k);
    if Dec(a) == Dec(b) {
      DecInjective(a + Falses(k), b);
    }
  }

  /** The words agree exactly if the vectors differ in trailing zeros at most. */
  lemma WordsAgree(a: seq<bool>, b: seq<bool>)
    ensures Dec(a) == Dec(b) <==> SameUpToZeros(a, b)
  {
    if |a| <= |b| {
      PaddedAgree(a, b, |b| - |a|);
    } else {
      PaddedAgree(b, a, |a| - |b|);
    }
  }

  /** For vectors of two sizes, comparing the words is right for all of them if and only if the sizes are
      the same: vectors of zeros of different sizes compare equal. */
  lemma WordsExact(m: nat, n: nat)
    ensures (forall a: seq<bool>, b: seq<bool> :: |a| == m && |b| == n ==> (Dec(a) == Dec(b) <==> a == b)) <==> m == n
  {
    DecFalses(m);
    DecFalses(n);
    assert m != n ==> Falses(m) != Falses(n);
    forall a: seq<bool>, b: seq<bool> | |a| == m == n == |b|
      ensures Dec(a) == Dec(b) <==> a == b
    {
      if Dec(a) == Dec(b) {
        DecInjective(a, b);
      }
    }
  }

  // ---------- operation histories ----------

  datatype Op = SetOp(pos: nat, v: bool) | ToggleOp(pos: nat) | AppendOp(v: bool)

  function Apply(s: seq<bool>, op: Op): seq<bool> {
    match op
    case SetOp(pos, v) => SetAt(s, pos, v)
    case ToggleOp(pos) => if pos < |s| then s[pos := !s[pos]] else s
    case AppendOp(v) => s + [v]
  }

  /** The vector never grows beyond 32 bits. */
  predicate StaysShort(s: seq<bool>, ops: seq<Op>)
    decreases |ops|
  {
    |s| <= 32 && (ops == [] || StaysShort(Apply(s, ops[0]), ops[1..]))
  }

  function ApplyAll(s: seq<bool>, ops: seq<Op>): seq<bool>
    decreases |ops|
  {
    if ops == [] then s else ApplyAll(Apply(s, ops[0]), ops[1..])
  }

  /** The same history on both forms: the same bits, and no error in either that the other does not have. */
  method RunBoth(a: BitVector, b: ShortBitVector, ops: seq<Op>)
    requires a.Valid() && b.Valid() && a.value == b.value && StaysShort(a.value, ops)
    modifies a, b
    ensures a.Valid() && b.Valid() && a.value == b.value == ApplyAll(old(a.value), ops) && |a.value| <= 32
    decreases |ops|
  {
    if ops != [] {
      assert |Apply(a.value, ops[0])| <= 32;
      match ops[0] {
        case SetOp(pos, v) =>
          a.SetBit(pos, v);
          var ok := b.SetBit(pos, v);
          assert ok;
        case ToggleOp(pos) =>
          var oka := a.ToggleBit(pos);
          var okb := b.ToggleBit(pos);
          assert oka == okb;
        case AppendOp(v) =>
          a.AppendBit(v);
          var ok := b.AppendBit(v);
          assert ok;
      }
      RunBoth(a, b, ops[1..]);
    }
  }

  /** Both forms of two vectors after any two histories answer every question alike. */
  method SameAnswers(ops: seq<Op>, ops': seq<Op>)
    returns (decimals: (int, int), reversed: (int, int), distances: (Option<nat>, Option<nat>))
    requires StaysShort([], ops) && StaysShort([], ops')
    ensures decimals.0 == decimals.1 == Dec(ApplyAll([], ops))
    ensures reversed.0 == reversed.1 == Dec(Reverse(ApplyAll([], ops)))
    ensures distances.0 == distances.1 &&
      (distances.0.Some? ==>
        |ApplyAll([], ops)| == |ApplyAll([], ops')| &&
        distances.0.value == Hamming(ApplyAll([], ops), ApplyAll([], ops')))
  {
    var a := new BitVector();
    var b := new ShortBitVector();
    RunBoth(a, b, ops);
    var u := new BitVector();
    var w := new ShortBitVector();
    RunBoth(u, w, ops');
    WordBound(a.value);
    DivUnique(Dec(a.value), WORD, 0, Dec(a.value));
    WordBound(Reverse(a.value));
    DivUnique(Dec(Reverse(a.value)), WORD, 0, Dec(Reverse(a.value)));
    var d := a.ToDecimal();
    decimals := (d, b.ToDecimal());
    var r := a.ReverseToDecimal();
    var r' := b.ReverseToDecimal();
    reversed := (r, r');
    var h := a.ComputeHammingDistance(u);
    var h' := b.ComputeHammingDistance(w);
    distances := (h, h');
  }
}

/** The byte writer and reader every frame goes through: for each field, what reading back a write yields. */
module Wire {
  import opened Bytes

  const I64_MIN: int := -0x8000_0000_0000_0000
  const I64_MAX: int := 0x7fff_ffff_ffff_ffff

  /** Bytes of a slot on the wire: fixed width, not a varint. */
  const SLOT_WIDTH: nat := 2

  datatype CodecError = UnexpectedEof | VarintOverflow | UnknownFrameKind(tag: Byte)

  datatype Result<+T> = Ok(value: T) | Err(error: CodecError) {
    predicate IsFailure() {
      Err?
    }

    function PropagateFailure<U>(): Result<U>
      requires Err?
    {
      Err(error)
    }

    function Extract(): T
      requires Ok?
    {
      value
    }
  }

  /** A value read off the front of some bytes, with the bytes after it. */
  type Parsed<+T> = Result<(T, seq<Byte>)>

  // ------------------------------------------------------------------ fixed-width fields

  function TakeOf(bs: seq<Byte>, count: nat): (r: Parsed<seq<Byte>>)
    ensures r.Ok? ==> bs == r.value.0 + r.value.1 && |r.value.0| == count
  {
    if |bs| < count then Err(UnexpectedEof) else Ok((bs[..count], bs[count..]))
  }

  lemma TakeBack(field: seq<Byte>, rest: seq<Byte>)
    ensures TakeOf(field + rest, |field|) == Ok((field, rest))
  {
    assert (field + rest)[..|field|] == field && (field + rest)[|field|..] == rest;
  }

  /** A little-endian unsigned field of `width` bytes. */
  function UintOf(bs: seq<Byte>, width: nat): (r: Parsed<nat>)
    ensures r.Ok? ==> r.value.0 < Pow2(8 * width) && |r.value.1| + width == |bs|
  {
    var (field, rest) :- TakeOf(bs, width);
    LeBounded(field);
    Ok((LeValue(field), rest))
  }

  lemma UintRoundTrip(value: nat, width: nat, rest: seq<Byte>)
    requires value < Pow2(8 * width)
    ensures UintOf(LeBytes(value, width) + rest, width) == Ok((value, rest))
  {
    LeRoundTrip(value, width);
    TakeBack(LeBytes(value, width), rest);
  }

  lemma SlotBack(slot: nat, rest: seq<Byte>)
    requires slot < U16
    ensures UintOf(LeBytes(slot, SLOT_WIDTH) + rest, SLOT_WIDTH) == Ok((slot, rest))
  {
    Pow2Of64();
    UintRoundTrip(slot, SLOT_WIDTH, rest);
  }

  /** `value as u8` for a signed byte, and back. */
  function I8Bits(value: int): Byte
    requires -128 <= value < 128
  {
    if value < 0 then value + 256 else value
  }

  function I8Of(b: Byte): (value: int)
    ensures -128 <= value < 128
  {
    if b < 128 then b else b - 256
  }

  // ------------------------------------------------------------------ varints (DWARF 5 section 7.6)

  /** Seven bits a byte, low first, the top bit saying that more follow. */
  function VarintBytes(value: nat): (bs: seq<Byte>)
    ensures bs != []
  {
    if value < 128 then [value] else [value % 128 + 128] + VarintBytes(value / 128)
  }

  predicate Overflows(payload: nat, shift: nat) {
    shift >= 64 || (shift == 63 && payload > 1)
  }

  /** The varint at the front of `bs`, its first payload standing at bit `shift`. */
  function VarintFrom(bs: seq<Byte>, shift: nat): (r: Parsed<nat>)
    ensures r.Ok? ==> |r.value.1| < |bs|
  {
    if bs == [] then Err(UnexpectedEof)
    else if Overflows(bs[0] % 128, shift) then Err(VarintOverflow)
    else if bs[0] < 128 then Ok((Shl(bs[0], shift), bs[1..]))
    else Offset(Shl(bs[0] % 128, shift), VarintFrom(bs[1..], shift + 7))
  }

  function Offset(base: nat, parsed: Parsed<nat>): (r: Parsed<nat>)
    ensures r.Ok? <==> parsed.Ok?
    ensures r.Ok? ==> r.value == (base + parsed.value.0, parsed.value.1)
  {
    if parsed.Ok? then Ok((base + parsed.value.0, parsed.value.1)) else parsed
  }

  function VarintOf(bs: seq<Byte>): (r: Parsed<nat>)
    ensures r.Ok? ==> r.value.0 < U64 && |r.value.1| < |bs|
  {
    VarintFits(bs, 0);
    VarintFrom(bs, 0)
  }

  lemma PayloadFits(payload: nat, shift: nat)
    requires payload < 128
    ensures payload * Pow2(shift) + Pow2(shift) <= Pow2(shift + 7)
  {
    Pow2Add(shift, 7);
    assert Pow2(7) == 128;
    Times(payload + 1, 128, Pow2(shift));
  }

  lemma OrPayload(result: nat, payload: nat, shift: nat)
    requires result < Pow2(shift) && payload < 128
    ensures Or(result, Shl(payload, shift)) == result + Shl(payload, shift) < Pow2(shift + 7)
  {
    OrDisjoint(result, payload, shift);
    PayloadFits(payload, shift);
  }

  /** Folding in one more byte of a varint, whether or not it is the last. */
  lemma NextPayload(bs: seq<Byte>, shift: nat, result: nat)
    requires bs != [] && !Overflows(bs[0] % 128, shift) && result < Pow2(shift)
    ensures var next := Or(result, Shl(bs[0] % 128, shift));
            && next < Pow2(shift + 7)
            && Offset(result, VarintFrom(bs, shift))
               == if bs[0] < 128 then Ok((next, bs[1..])) else Offset(next, VarintFrom(bs[1..], shift + 7))
  {
    OrPayload(result, bs[0] % 128, shift);
  }

  lemma Times(a: nat, b: nat, p: nat)
    requires a <= b
    ensures a * p <= b * p == p * b
  {
  }

  /** Whatever the bytes, a varint that is accepted fits 64 bits. */
  lemma {:induction false} VarintFits(bs: seq<Byte>, shift: nat)
    requires shift % 7 == 0
    ensures var r := VarintFrom(bs, shift); r.Ok? ==> r.value.0 + Pow2(shift) <= U64
    decreases |bs|
  {
    if VarintFrom(bs, shift).Ok? {
      var payload := bs[0] % 128;
      FinalPayloadFits(payload, shift);
      if bs[0] >= 128 {
        PayloadFits(payload, shift);
        VarintFits(bs[1..], shift + 7);
      }
    }
  }

  lemma FinalPayloadFits(payload: nat, shift: nat)
    requires payload < 128 && shift % 7 == 0 && !Overflows(payload, shift)
    ensures payload * Pow2(shift) + Pow2(shift) <= U64
  {
    Pow2Of64();
    if shift == 63 {
      Pow2Add(63, 1);
      assert Pow2(1) == 2;
      Times(payload, 1, Pow2(63));
    } else {
      PayloadFits(payload, shift);
      Pow2Monotone(shift + 7, 64);
    }
  }

  lemma {:induction false} VarintRoundTripFrom(value: nat, shift: nat, rest: seq<Byte>)
    requires shift % 7 == 0 && shift <= 63 && value * Pow2(shift) < U64
    ensures VarintFrom(VarintBytes(value) + rest, shift) == Ok((value * Pow2(shift), rest))
    decreases value
  {
    if value < 128 {
      LastByteReads(value, shift, rest);
    } else {
      SplitProduct(value, shift);
      NextShiftFits(value / 128, shift + 7);
      VarintRoundTripFrom(value / 128, shift + 7, rest);
      NextByteReads(value, shift, rest);
    }
  }

  lemma LastByteReads(value: nat, shift: nat, rest: seq<Byte>)
    requires value < 128 && shift <= 63 && value * Pow2(shift) < U64
    ensures VarintFrom(VarintBytes(value) + rest, shift) == Ok((value * Pow2(shift), rest))
  {
    if shift == 63 { TopBitOnly(value); }
    assert (VarintBytes(value) + rest)[1..] == rest;
  }

  lemma NextByteReads(value: nat, shift: nat, rest: seq<Byte>)
    requires value >= 128 && shift <= 63 && value * Pow2(shift) < U64
    requires VarintFrom(VarintBytes(value / 128) + rest, shift + 7) == Ok((value / 128 * Pow2(shift + 7), rest))
    ensures VarintFrom(VarintBytes(value) + rest, shift) == Ok((value * Pow2(shift), rest))
  {
    if shift == 63 { TopBitOnly(value); }
    VarintContinues(value, rest);
    SplitProduct(value, shift);
  }

  lemma VarintContinues(value: nat, rest: seq<Byte>)
    requires value >= 128
    ensures var bs := VarintBytes(value) + rest;
            bs[0] == value % 128 + 128 && bs[0] % 128 == value % 128 && bs[1..] == VarintBytes(value / 128) + rest
  {
    var low: Byte := value % 128 + 128;
    assert low % 128 == value % 128;
    assert VarintBytes(value) + rest == [low] + (VarintBytes(value / 128) + rest);
  }

  lemma TopBitOnly(value: nat)
    requires value * Pow2(63) < U64
    ensures value <= 1
  {
    Pow2Of64();
    Pow2Add(63, 1);
    assert Pow2(1) == 2;
    if value >= 2 { Times(2, value, Pow2(63)); }
  }

  lemma SplitProduct(value: nat, shift: nat)
    ensures value * Pow2(shift) == value % 128 * Pow2(shift) + value / 128 * Pow2(shift + 7)
  {
    Pow2Add(shift, 7);
    assert Pow2(7) == 128;
    SplitFactor(value / 128, value % 128, Pow2(shift));
  }

  lemma SplitFactor(q: nat, d: nat, p: nat)
    ensures (128 * q + d) * p == d * p + q * (p * 128)
  {
    assert (128 * q) * p == q * (p * 128);
  }

  lemma NextShiftFits(q: nat, shift: nat)
    requires q >= 1 && q * Pow2(shift) < U64
    ensures shift <= 63
  {
    Times(1, q, Pow2(shift));
    Pow2Of64();
    if shift >= 64 { Pow2Monotone(64, shift); }
  }

  /** Every 64-bit value reads back, consuming exactly what was written. */
  lemma VarintRoundTrip(value: nat, rest: seq<Byte>)
    requires value < U64
    ensures VarintOf(VarintBytes(value) + rest) == Ok((value, rest))
  {
    assert Pow2(0) == 1;
    VarintRoundTripFrom(value, 0, rest);
  }

  // ------------------------------------------------------------------ zigzag

  predicate IsI64(value: int) {
    I64_MIN <= value <= I64_MAX
  }

  /** A signed 64-bit value's bits. */
  function I64Bits(value: int): (bits: nat)
    requires IsI64(value)
    ensures bits < U64
  {
    if value < 0 then value + U64 else value
  }

  function I64Of(bits: nat): (value: int)
    requires bits < U64
    ensures IsI64(value) && I64Bits(value) == bits
  {
    if bits <= I64_MAX then bits else bits - U64
  }

  /** `((value << 1) ^ (value >> 63)) as u64`, the right shift copying the sign. */
  function Zigzagged(value: int): (raw: nat)
    requires IsI64(value)
    ensures raw < U64
  {
    ZigzagByCases(value);
    Xor(I64Bits(value) * 2 % U64, if value < 0 then U64 - 1 else 0)
  }

  /** Small magnitudes of either sign get small codes. */
  lemma ZigzagInterleaves(value: int)
    requires IsI64(value)
    ensures Zigzagged(value) == if value >= 0 then 2 * value else -2 * value - 1
  {
    ZigzagByCases(value);
  }

  /** `((raw >> 1) as i64) ^ -((raw & 1) as i64)`. */
  function Unzigzagged(raw: nat): (value: int)
    requires raw < U64
    ensures IsI64(value)
  {
    UnzigzagByCases(raw);
    I64Of(Xor(raw / 2, if raw % 2 == 1 then U64 - 1 else 0))
  }

  lemma {:induction false} XorZero(a: nat)
    ensures Xor(a, 0) == a
  {
    if a > 0 { XorZero(a / 2); }
  }

  lemma AllOnesHalve(a: nat, p: nat)
    requires p > 0
    ensures (2 * p - 1) / 2 == p - 1 && (a + (2 * p - 1)) % 2 == 1 - a % 2
    ensures a < 2 * p ==> a / 2 < p
  {
  }

  lemma {:induction false} XorOnes(a: nat, n: nat)
    requires a < Pow2(n)
    ensures Xor(a, Pow2(n) - 1) == Pow2(n) - 1 - a
    decreases n
  {
    if n > 0 {
      var p := Pow2(n - 1);
      AllOnesHalve(a, p);
      XorOnes(a / 2, n - 1);
      assert Xor(a, 2 * p - 1) == 2 * Xor(a / 2, p - 1) + (a + (2 * p - 1)) % 2;
    }
  }

  lemma ZigzagByCases(value: int)
    requires IsI64(value)
    ensures Xor(I64Bits(value) * 2 % U64, if value < 0 then U64 - 1 else 0)
         == if value < 0 then -2 * value - 1 else 2 * value
  {
    var doubled := I64Bits(value) * 2 % U64;
    if value < 0 { XorOnes64(doubled); } else { XorZero(doubled); }
  }

  lemma XorOnes64(a: nat)
    requires a < U64
    ensures Xor(a, U64 - 1) == U64 - 1 - a
  {
    Pow2Of64();
    XorOnes(a, 64);
  }

  lemma UnzigzagByCases(raw: nat)
    requires raw < U64
    ensures var bits := Xor(raw / 2, if raw % 2 == 1 then U64 - 1 else 0);
            bits < U64 && I64Of(bits) == if raw % 2 == 1 then -(raw / 2) - 1 else raw / 2
  {
    if raw % 2 == 1 { XorOnes64(raw / 2); } else { XorZero(raw / 2); }
  }

  /** Every signed 64-bit value survives, and every raw value is some signed value's. */
  lemma ZigzagRoundTrip(value: int)
    requires IsI64(value)
    ensures Unzigzagged(Zigzagged(value)) == value
  {
    ZigzagByCases(value);
    UnzigzagByCases(Zigzagged(value));
  }

  lemma ZigzagOnto(raw: nat)
    requires raw < U64
    ensures Zigzagged(Unzigzagged(raw)) == raw
  {
    UnzigzagByCases(raw);
    ZigzagByCases(Unzigzagged(raw));
  }

  function ZigzagOf(bs: seq<Byte>): (r: Parsed<int>)
    ensures r.Ok? ==> IsI64(r.value.0) && |r.value.1| < |bs|
  {
    var (raw, rest) :- VarintOf(bs);
    Ok((Unzigzagged(raw), rest))
  }

  /** Every signed 64-bit value reads back, consuming exactly what was written. */
  lemma ZigzagBack(value: int, rest: seq<Byte>)
    requires IsI64(value)
    ensures ZigzagOf(VarintBytes(Zigzagged(value)) + rest) == Ok((value, rest))
  {
    VarintRoundTrip(Zigzagged(value), rest);
    ZigzagRoundTrip(value);
  }

  // ------------------------------------------------------------------ bitmasks

  function MaskLength(count: nat): nat {
    (count + 7) / 8
  }

  /** Up to eight flags, low bit first. */
  function MaskByte(bits: seq<bool>): (b: nat)
    requires |bits| <= 8
    ensures b < Pow2(|bits|)
  {
    if bits == [] then 0 else (if bits[0] then 1 else 0) + 2 * MaskByte(bits[1..])
  }

  lemma {:induction false} MaskByteBit(bits: seq<bool>, k: nat)
    requires |bits| <= 8
    ensures Bit(MaskByte(bits), k) <==> k < |bits| && bits[k]
    decreases |bits|
  {
    if bits == [] {
      BitOfZero(k);
    } else {
      var tail := MaskByte(bits[1..]);
      assert MaskByte(bits) / 2 == tail;
      if k > 0 { MaskByteBit(bits[1..], k - 1); }
    }
  }

  lemma MaskByteFits(bits: seq<bool>)
    requires |bits| <= 8
    ensures MaskByte(bits) < 256
  {
    Pow2Monotone(|bits|, 8);
    Pow2Of64();
  }

  function MaskBytes(bits: seq<bool>): (bs: seq<Byte>)
    ensures |bs| == MaskLength(|bits|)
  {
    if bits == [] then []
    else
      var n := if |bits| < 8 then |bits| else 8;
      MaskByteFits(bits[..n]);
      [MaskByte(bits[..n]) as Byte] + MaskBytes(bits[n..])
  }

  /** Flag `i` of a mask is bit `i % 8` of byte `i / 8`. */
  function MaskBits(bs: seq<Byte>, count: nat): (bits: seq<bool>)
    requires |bs| == MaskLength(count)
    ensures |bits| == count
  {
    seq(count, i requires 0 <= i < count => Bit(bs[i / 8], i % 8))
  }

  lemma {:induction false} MaskBit(bits: seq<bool>, i: nat)
    requires i < |bits|
    ensures Bit(MaskBytes(bits)[i / 8], i % 8) == bits[i]
    decreases |bits|
  {
    var n := if |bits| < 8 then |bits| else 8;
    MaskSplits(bits, n);
    if i < 8 {
      MaskByteBit(bits[..n], i);
    } else {
      MaskBit(bits[8..], i - 8);
      ByteBefore(i);
    }
  }

  lemma MaskSplits(bits: seq<bool>, n: nat)
    requires bits != [] && n == if |bits| < 8 then |bits| else 8
    ensures MaskByte(bits[..n]) < 256
    ensures MaskBytes(bits) == [MaskByte(bits[..n]) as Byte] + MaskBytes(bits[n..])
  {
    MaskByteFits(bits[..n]);
  }

  lemma ByteBefore(i: nat)
    requires i >= 8
    ensures (i - 8) / 8 == i / 8 - 1 && (i - 8) % 8 == i % 8
  {
  }

  function MaskOf(bs: seq<Byte>, count: nat): (r: Parsed<seq<bool>>)
    ensures r.Ok? ==> |r.value.0| == count && |r.value.1| + MaskLength(count) == |bs|
  {
    var (field, rest) :- TakeOf(bs, MaskLength(count));
    Ok((MaskBits(field, count), rest))
  }

  lemma MaskBack(bits: seq<bool>)
    ensures MaskBits(MaskBytes(bits), |bits|) == bits
  {
    forall i | 0 <= i < |bits| ensures MaskBits(MaskBytes(bits), |bits|)[i] == bits[i] {
      MaskBit(bits, i);
    }
  }

  /** A mask of any length reads back, consuming exactly its bytes. */
  lemma MaskRoundTrip(bits: seq<bool>, rest: seq<Byte>)
    ensures MaskOf(MaskBytes(bits) + rest, |bits|) == Ok((bits, rest))
  {
    MaskBack(bits);
    TakeBack(MaskBytes(bits), rest);
  }

  // ------------------------------------------------------------------ the writer

  class Writer {
    var buf: seq<Byte>

    constructor ()
      ensures buf == []
    {
      buf := [];
    }

    /** Roll back to an earlier length; a longer one changes nothing. */
    method Truncate(length: nat)
      modifies this
      ensures buf == if length < |old(buf)| then old(buf)[..length] else old(buf)
    {
      if length < |buf| {
        buf := buf[..length];
      }
    }

    method U8(value: Byte)
      modifies this
      ensures buf == old(buf) + [value]
    {
      buf := buf + [value];
    }

    method I8(value: int)
      requires -128 <= value < 128
      modifies this
      ensures buf == old(buf) + [I8Bits(value)]
    {
      buf := buf + [I8Bits(value)];
    }

    /** A little-endian field. */
    method Uint(value: nat, width: nat)
      requires value < Pow2(8 * width)
      modifies this
      ensures buf == old(buf) + LeBytes(value, width)
    {
      buf := buf + LeBytes(value, width);
    }

    method Raw(value: seq<Byte>)
      modifies this
      ensures buf == old(buf) + value
    {
      buf := buf + value;
    }

    method Varint(value: nat)
      requires value < U64
      modifies this
      ensures buf == old(buf) + VarintBytes(value)
    {
      ghost var start := buf;
      var rest := value;
      while true
        invariant buf + VarintBytes(rest) == start + VarintBytes(value)
        decreases rest
      {
        var byte: Byte := rest % 128;
        if rest / 128 != 0 {
          byte := byte + 128;
        }
        assert VarintBytes(rest) == [byte] + if rest / 128 == 0 then [] else VarintBytes(rest / 128);
        buf := buf + [byte];
        rest := rest / 128;
        if rest == 0 {
          return;
        }
      }
    }

    method Zigzag(value: int)
      requires IsI64(value)
      modifies this
      ensures buf == old(buf) + VarintBytes(Zigzagged(value))
    {
      Varint(Zigzagged(value));
    }

    method Bitmask(bits: seq<bool>)
      modifies this
      ensures buf == old(buf) + MaskBytes(bits)
    {
      ghost var start := buf;
      var rest := bits;
      while rest != []
        invariant buf + MaskBytes(rest) == start + MaskBytes(bits)
        decreases |rest|
      {
        var n := if |rest| < 8 then |rest| else 8;
        var chunk := rest[..n];
        var byte := MaskLoop(chunk);
        buf := buf + [byte];
        rest := rest[n..];
      }
    }

    /** Set each flag's bit in turn. */
    static method MaskLoop(chunk: seq<bool>) returns (byte: Byte)
      requires |chunk| <= 8
      ensures byte == MaskByte(chunk)
    {
      var word := 0;
      for index := 0 to |chunk|
        invariant word == MaskByte(chunk[..index])
      {
        MaskByteGrows(chunk, index);
        MaskByteBit(chunk[..index], index);
        if chunk[index] {
          word := WithBit(word, index);
        }
      }
      assert chunk[..|chunk|] == chunk;
      MaskByteFits(chunk);
      byte := word;
    }

    static lemma {:induction false} MaskByteGrows(bits: seq<bool>, index: nat)
      requires index < |bits| <= 8
      ensures MaskByte(bits[..index + 1]) == MaskByte(bits[..index]) + if bits[index] then Pow2(index) else 0
    {
      if index == 0 {
        assert bits[..1][1..] == [];
      } else {
        assert bits[..index + 1][1..] == bits[1..][..index];
        assert bits[..index][1..] == bits[1..][..index - 1];
        MaskByteGrows(bits[1..], index - 1);
      }
    }
  }

  // ------------------------------------------------------------------ the reader

  class Reader {
    const buf: seq<Byte>
    var pos: nat

    ghost predicate Valid()
      reads this
    {
      pos <= |buf|
    }

    /** The bytes not yet consumed. */
    ghost function Rest(): seq<Byte>
      requires Valid()
      reads this
    {
      buf[pos..]
    }

    /** The cursor is where a parse of `before` left it, and the answer is that parse's. */
    ghost predicate Answers<T>(r: Result<T>, parsed: Parsed<T>)
      requires Valid()
      reads this
    {
      match parsed
      case Ok(pair) => r == Ok(pair.0) && Rest() == pair.1
      case Err(error) => r == Err(error)
    }

    constructor (buf: seq<Byte>)
      ensures Valid() && Rest() == buf && this.buf == buf
    {
      this.buf, pos := buf, 0;
    }

    method Take(count: nat) returns (r: Result<seq<Byte>>)
      requires Valid()
      modifies this
      ensures Valid() && old(pos) <= pos && Answers(r, TakeOf(old(Rest()), count))
      ensures r.Err? ==> pos == old(pos)
    {
      if |buf| - pos < count {
        return Err(UnexpectedEof);
      }
      var slice := buf[pos..pos + count];
      assert slice == buf[pos..][..count] && buf[pos + count..] == buf[pos..][count..];
      pos := pos + count;
      return Ok(slice);
    }

    method U8() returns (r: Result<Byte>)
      requires Valid()
      modifies this
      ensures Valid() && old(pos) <= pos
      ensures if old(Rest()) == [] then r == Err(UnexpectedEof) && pos == old(pos)
              else r == Ok(old(Rest())[0]) && Rest() == old(Rest())[1..]
    {
      var field := Take(1);
      if field.Err? {
        return Err(field.error);
      }
      return Ok(field.value[0]);
    }

    method Uint(width: nat) returns (r: Result<nat>)
      requires Valid()
      modifies this
      ensures Valid() && old(pos) <= pos && Answers(r, UintOf(old(Rest()), width))
    {
      var field := Take(width);
      if field.Err? {
        return Err(field.error);
      }
      return Ok(LeValue(field.value));
    }

    method Varint() returns (r: Result<nat>)
      requires Valid()
      modifies this
      ensures Valid() && old(pos) <= pos && Answers(r, VarintOf(old(Rest())))
    {
      ghost var start := Rest();
      var result: nat, shift: nat := 0, 0;
      while true
        invariant Valid() && old(pos) <= pos && result < Pow2(shift)
        invariant VarintFrom(start, 0) == Offset(result, VarintFrom(Rest(), shift))
        decreases |buf| - pos
      {
        ghost var here := Rest();
        var byte := U8();
        if byte.Err? {
          return Err(byte.error);
        }
        var payload := byte.value % 128;
        if Overflows(payload, shift) {
          return Err(VarintOverflow);
        }
        NextPayload(here, shift, result);
        result := Or(result, Shl(payload, shift));
        if byte.value < 128 {
          return Ok(result);
        }
        shift := shift + 7;
      }
    }

    method Zigzag() returns (r: Result<int>)
      requires Valid()
      modifies this
      ensures Valid() && old(pos) <= pos && Answers(r, ZigzagOf(old(Rest())))
    {
      var raw := Varint();
      if raw.Err? {
        return Err(raw.error);
      }
      return Ok(Unzigzagged(raw.value));
    }

    method Bitmask(count: nat) returns (r: Result<seq<bool>>)
      requires Valid()
      modifies this
      ensures Valid() && old(pos) <= pos && Answers(r, MaskOf(old(Rest()), count))
    {
      var field := Take(MaskLength(count));
      if field.Err? {
        return Err(field.error);
      }
      var out := [];
      for index := 0 to count
        invariant out == MaskBits(field.value, count)[..index]
      {
        var byte := field.value[index / 8];
        out := out + [Bit(byte, index % 8)];
      }
      assert MaskBits(field.value, count)[..count] == MaskBits(field.value, count);
      return Ok(out);
    }
  }
}

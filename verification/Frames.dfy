/** The header every hot frame begins with. */
module Frames {
  import opened Bytes
  import opened Wire

  datatype FrameKind =
    | ServerSnapshot | ClientInput | Ping | Pong | Challenge | Welcome
    | EntityManifest | EntityManifestDelta | InterestTable
  {
    function Tag(): Byte {
      match this
      case ServerSnapshot => 0x01
      case ClientInput => 0x02
      case Ping => 0x03
      case Pong => 0x04
      case Challenge => 0x05
      case Welcome => 0x06
      case EntityManifest => 0x07
      case EntityManifestDelta => 0x08
      case InterestTable => 0x09
    }
  }

  function KindOf(tag: Byte): Result<FrameKind> {
    match tag
    case 0x01 => Ok(ServerSnapshot)
    case 0x02 => Ok(ClientInput)
    case 0x03 => Ok(Ping)
    case 0x04 => Ok(Pong)
    case 0x05 => Ok(Challenge)
    case 0x06 => Ok(Welcome)
    case 0x07 => Ok(EntityManifest)
    case 0x08 => Ok(EntityManifestDelta)
    case 0x09 => Ok(InterestTable)
    case other => Err(UnknownFrameKind(other))
  }

  /** A kind byte is refused exactly when no kind has it. */
  lemma KindRoundTrip(tag: Byte)
    ensures KindOf(tag).Ok? <==> exists kind: FrameKind :: kind.Tag() == tag
    ensures forall kind: FrameKind :: KindOf(tag) == Ok(kind) <==> kind.Tag() == tag
  {
    if KindOf(tag).Ok? {
      assert KindOf(tag).value.Tag() == tag;
    }
  }

  datatype FrameHeader = FrameHeader(
    kind: FrameKind, tick: nat, ackTick: nat, ackBits: nat, ackToken: nat, marginTicks: int, flags: Byte,
    entityCount: nat)
  {
    /** Every field within its width. */
    predicate Fits() {
      && tick < U32 && ackTick < U32 && ackBits < U32 && ackToken < U32 && entityCount < U32
      && -128 <= marginTicks < 128
    }

    /** Append this header to `writer`. */
    method Encode(writer: Writer)
      requires Fits()
      modifies writer
      ensures writer.buf == old(writer.buf) + HeaderBytes(this)
    {
      EncodeLead(writer);
      EncodeTail(writer);
    }

    method EncodeLead(writer: Writer)
      requires Fits()
      modifies writer
      ensures writer.buf == old(writer.buf) + LeadBytes(this)
    {
      writer.U8(kind.Tag());
      writer.Varint(tick);
      writer.Zigzag(tick - ackTick);
    }

    lemma AcksFit()
      requires Fits()
      ensures ackBits < Pow2(8 * 4) && ackToken < Pow2(8 * 4)
    {
      Pow2Of64();
    }

    method EncodeTail(writer: Writer)
      requires Fits()
      modifies writer
      ensures writer.buf == old(writer.buf) + TailBytes(this)
    {
      AcksFit();
      ghost var start := writer.buf;
      ghost var written := LeBytes(ackBits, 4) + LeBytes(ackToken, 4);
      writer.Uint(ackBits, 4);
      writer.Uint(ackToken, 4);
      assert writer.buf == start + written;
      writer.I8(marginTicks);
      written := written + [I8Bits(marginTicks)];
      assert writer.buf == start + written;
      writer.U8(flags);
      written := written + [flags];
      assert writer.buf == start + written;
      writer.Varint(entityCount);
    }
  }

  // ------------------------------------------------------------------ what is written

  /** Kind, tick and acknowledged tick, the last as a signed distance. */
  function LeadBytes(h: FrameHeader): seq<Byte>
    requires h.Fits()
  {
    [h.kind.Tag()] + VarintBytes(h.tick) + VarintBytes(Zigzagged(h.tick - h.ackTick))
  }

  function TailBytes(h: FrameHeader): seq<Byte>
    requires h.Fits()
  {
    LeBytes(h.ackBits, 4) + LeBytes(h.ackToken, 4) + [I8Bits(h.marginTicks)] + [h.flags] + VarintBytes(h.entityCount)
  }

  function HeaderBytes(h: FrameHeader): seq<Byte>
    requires h.Fits()
  {
    LeadBytes(h) + TailBytes(h)
  }

  // ------------------------------------------------------------------ what is read

  function ByteOf(bs: seq<Byte>): (r: Parsed<Byte>)
    ensures r.Ok? ==> bs == [r.value.0] + r.value.1
  {
    if bs == [] then Err(UnexpectedEof) else Ok((bs[0], bs[1..]))
  }

  /** A varint that must fit 32 bits. */
  function Varint32Of(bs: seq<Byte>): (r: Parsed<nat>)
    ensures r.Ok? ==> r.value.0 < U32
  {
    var (value, rest) :- VarintOf(bs);
    if value < U32 then Ok((value, rest)) else Err(VarintOverflow)
  }

  function SaturatingSub(a: int, b: int): int {
    var d := a - b;
    if d < I64_MIN then I64_MIN else if d > I64_MAX then I64_MAX else d
  }

  function Clamp(value: int, low: int, high: int): int {
    if value < low then low else if value > high then high else value
  }

  function AckOf(tick: nat, delta: int): (ack: nat)
    ensures ack < U32
  {
    Clamp(SaturatingSub(tick, delta), 0, U32 - 1)
  }

  /** Whatever distance the wire gives, the acknowledged tick is the nearest one of its width. */
  lemma AckIsTheNearestTick(tick: nat, delta: int)
    requires tick < U32 && IsI64(delta)
    ensures AckOf(tick, delta)
         == if tick < delta then 0 else if tick - delta > 0xffff_ffff then 0xffff_ffff else tick - delta
  {
  }

  datatype Lead = Lead(kind: FrameKind, tick: nat, ackTick: nat)

  function LeadOf(bs: seq<Byte>): (r: Parsed<Lead>)
    ensures r.Ok? ==> r.value.0.tick < U32 && r.value.0.ackTick < U32
  {
    var (tag, r0) :- ByteOf(bs);
    var kind :- KindOf(tag);
    var (tick, r1) :- Varint32Of(r0);
    var (delta, r2) :- ZigzagOf(r1);
    Ok((Lead(kind, tick, AckOf(tick, delta)), r2))
  }

  function TailOf(lead: Lead, bs: seq<Byte>): (r: Parsed<FrameHeader>)
    requires lead.tick < U32 && lead.ackTick < U32
    ensures r.Ok? ==> r.value.0.Fits()
  {
    Pow2Of64();
    var (ackBits, r0) :- UintOf(bs, 4);
    var (ackToken, r1) :- UintOf(r0, 4);
    var (margin, r2) :- ByteOf(r1);
    var (flags, r3) :- ByteOf(r2);
    var (count, r4) :- Varint32Of(r3);
    Ok((FrameHeader(lead.kind, lead.tick, lead.ackTick, ackBits, ackToken, I8Of(margin), flags, count), r4))
  }

  /** Any bytes at all: either every field lands within its width, or the frame is refused. */
  function HeaderOf(bs: seq<Byte>): (r: Parsed<FrameHeader>)
    ensures r.Ok? ==> r.value.0.Fits()
  {
    var (lead, rest) :- LeadOf(bs);
    TailOf(lead, rest)
  }

  method DecodeHeader(reader: Reader) returns (r: Result<FrameHeader>)
    requires reader.Valid()
    modifies reader
    ensures reader.Valid() && old(reader.pos) <= reader.pos
    ensures reader.Answers(r, HeaderOf(old(reader.Rest())))
    ensures r.Ok? ==> r.value.Fits()
  {
    var lead :- DecodeLead(reader);
    r := DecodeTail(lead, reader);
  }

  method DecodeLead(reader: Reader) returns (r: Result<Lead>)
    requires reader.Valid()
    modifies reader
    ensures reader.Valid() && old(reader.pos) <= reader.pos
    ensures reader.Answers(r, LeadOf(old(reader.Rest())))
    ensures r.Ok? ==> r.value.tick < U32 && r.value.ackTick < U32
  {
    var tag :- reader.U8();
    var kind :- KindOf(tag);
    var tick :- reader.Varint();
    if tick >= U32 {
      return Err(VarintOverflow);
    }
    var delta :- reader.Zigzag();
    return Ok(Lead(kind, tick, AckOf(tick, delta)));
  }

  method DecodeTail(lead: Lead, reader: Reader) returns (r: Result<FrameHeader>)
    requires reader.Valid() && lead.tick < U32 && lead.ackTick < U32
    modifies reader
    ensures reader.Valid() && old(reader.pos) <= reader.pos
    ensures reader.Answers(r, TailOf(lead, old(reader.Rest())))
  {
    var ackBits :- reader.Uint(4);
    var ackToken :- reader.Uint(4);
    var margin :- reader.U8();
    var flags :- reader.U8();
    var count :- reader.Varint();
    if count >= U32 {
      return Err(VarintOverflow);
    }
    return Ok(FrameHeader(lead.kind, lead.tick, lead.ackTick, ackBits, ackToken, I8Of(margin), flags, count));
  }

  // ------------------------------------------------------------------ reading inverts writing

  lemma LeadRoundTrip(h: FrameHeader, rest: seq<Byte>)
    requires h.Fits()
    ensures LeadOf(LeadBytes(h) + rest) == Ok((Lead(h.kind, h.tick, h.ackTick), rest))
  {
    var delta := h.tick - h.ackTick;
    var r1 := VarintBytes(Zigzagged(delta)) + rest;
    var r0 := VarintBytes(h.tick) + r1;
    assert LeadBytes(h) + rest == [h.kind.Tag()] + r0;
    KindRoundTrip(h.kind.Tag());
    Varint32Back(h.tick, r1);
    ZigzagBack(delta, rest);
  }

  lemma Varint32Back(value: nat, rest: seq<Byte>)
    requires value < U32
    ensures Varint32Of(VarintBytes(value) + rest) == Ok((value, rest))
  {
    VarintRoundTrip(value, rest);
  }

  lemma TailRoundTrip(h: FrameHeader, rest: seq<Byte>)
    requires h.Fits()
    ensures TailOf(Lead(h.kind, h.tick, h.ackTick), TailBytes(h) + rest) == Ok((h, rest))
  {
    Pow2Of64();
    var r3 := VarintBytes(h.entityCount) + rest;
    var r2 := [h.flags] + r3;
    var r1 := [I8Bits(h.marginTicks)] + r2;
    var r0 := LeBytes(h.ackToken, 4) + r1;
    assert TailBytes(h) + rest == LeBytes(h.ackBits, 4) + r0;
    UintRoundTrip(h.ackBits, 4, r0);
    UintRoundTrip(h.ackToken, 4, r1);
    Varint32Back(h.entityCount, rest);
  }

  /** Every header of every width reads back from its own bytes, whatever follows them. */
  lemma HeaderRoundTrip(h: FrameHeader, rest: seq<Byte>)
    requires h.Fits()
    ensures HeaderOf(HeaderBytes(h) + rest) == Ok((h, rest))
  {
    assert HeaderBytes(h) + rest == LeadBytes(h) + (TailBytes(h) + rest);
    LeadRoundTrip(h, TailBytes(h) + rest);
    TailRoundTrip(h, rest);
  }
}

/** Entity state blocks: a full row, or a masked delta against a row the receiver already holds. */
module StateBlock {
  import opened Bytes
  import opened Options
  import opened Schema
  import opened Wire
  import opened Quant

  /** One entity's row to send, and the earlier row the encoder may delta against. */
  datatype Block = Block(props: seq<PropSchema>, slot: nat, entityTick: nat, reference: Option<(nat, seq<Byte>)>,
                         row: seq<Byte>, stateLane: bool) {
    /** A reference is only used when it names an earlier tick. */
    predicate IsDelta() {
      reference.Some? && reference.value.0 < entityTick
    }

    function Base(): seq<Byte>
      requires IsDelta()
    {
      reference.value.1
    }

    function Mask(): (mask: seq<bool>)
      ensures |mask| == |props|
    {
      if IsDelta() then ChangedMask(props, Base(), row) else Everything(props)
    }
  }

  datatype StateBlockMeta = StateBlockMeta(slot: nat, tick: nat, full: bool, stateLane: bool,
                                           referenceTick: Option<nat>, bodyLength: nat)

  function FlagsOf(full: bool, stateLane: bool): Byte {
    (if full then 1 else 0) + (if stateLane then 2 else 0)
  }

  function SaturatingSub(a: nat, b: nat): nat {
    if b <= a then a - b else 0
  }

  // ------------------------------------------------------------------ what is written

  predicate RowsFill(b: Block) {
    forall k :: 0 <= k < |b.props| ==> b.props[k].End() <= |b.row|
  }

  /** The flags, and for a delta how far back its base is. */
  function BodyHead(b: Block): (bs: seq<Byte>)
    ensures bs != []
  {
    if b.IsDelta() then [FlagsOf(false, b.stateLane)] + VarintBytes(b.entityTick - b.reference.value.0)
    else [FlagsOf(true, b.stateLane)]
  }

  /** For a delta which properties changed, and then the properties sent. */
  function BodyTail(ss3: Ss3Codec, b: Block): seq<Byte>
    requires RowsFill(b)
  {
    if b.IsDelta() then MaskBytes(b.Mask()) + MaskedWire(ss3, b.props, b.Mask(), b.row, 0)
    else MaskedWire(ss3, b.props, b.Mask(), b.row, 0)
  }

  function BlockBytes(ss3: Ss3Codec, b: Block, frameTick: nat): seq<Byte>
    requires RowsFill(b)
  {
    Framed(b.slot, SaturatingSub(frameTick, b.entityTick), BodyHead(b) + BodyTail(ss3, b))
  }

  /** The slot, how far the entity's tick trails the frame's, and a body behind its length. */
  function Framed(slot: nat, delta: nat, body: seq<Byte>): seq<Byte> {
    LeBytes(slot, SLOT_WIDTH) + (VarintBytes(delta) + (VarintBytes(|body|) + body))
  }

  /** What the encoder takes: a row its schema fits, and ticks, slot and length within their widths. */
  ghost predicate Encodable(ss3: Ss3Codec, b: Block, frameTick: nat) {
    && RowsFill(b) && b.slot < U16 && b.entityTick < U64 && frameTick < U64
    && |BodyHead(b)| + |BodyTail(ss3, b)| < U64
  }

  /** An entity tick past the frame's saturates, and only one at or before it reads back. */
  ghost predicate FieldsFit(ss3: Ss3Codec, b: Block, frameTick: nat) {
    Encodable(ss3, b, frameTick) && b.entityTick <= frameTick
  }

  /** What reads back whole: canonical rows of one length under a schema. */
  ghost predicate Sendable(ss3: Ss3Codec, b: Block, frameTick: nat) {
    && FieldsFit(ss3, b, frameTick)
    && LaidOut(b.props) && |b.row| == RowStride(b.props) && CanonicalRow(ss3, b.props, b.row)
    && (b.IsDelta() ==> |b.Base()| == |b.row|)
  }

  // ------------------------------------------------------------------ what is read

  function MetaOf(bs: seq<Byte>, frameTick: nat): (r: Parsed<StateBlockMeta>)
    ensures r.Ok? ==> r.value.0.bodyLength <= |r.value.1| && (r.value.0.full <==> r.value.0.referenceTick.None?)
  {
    var (slot, r0) :- UintOf(bs, SLOT_WIDTH);
    var (tickDelta, r1) :- VarintOf(r0);
    SizedMetaOf(slot, SaturatingSub(frameTick, tickDelta), r1)
  }

  /** A declared body longer than what is left, or empty, is malformed. */
  function SizedMetaOf(slot: nat, tick: nat, bs: seq<Byte>): (r: Parsed<StateBlockMeta>)
    ensures r.Ok? ==> r.value.0.bodyLength <= |r.value.1| && (r.value.0.full <==> r.value.0.referenceTick.None?)
  {
    var (length, rest) :- VarintOf(bs);
    if length > |rest| || length < 1 then Err(UnexpectedEof) else BodyMetaOf(slot, tick, length, rest)
  }

  /** The flags and base distance count against the declared length; one shorter than them is malformed. */
  function BodyMetaOf(slot: nat, tick: nat, length: nat, bs: seq<Byte>): (r: Parsed<StateBlockMeta>)
    requires 1 <= length
    ensures r.Ok? ==> (r.value.0.full <==> r.value.0.referenceTick.None?)
    ensures r.Ok? && length <= |bs| ==> r.value.0.bodyLength <= |r.value.1|
  {
    if bs == [] then Err(UnexpectedEof)
    else
      var full, lane := Bit(bs[0], 0), Bit(bs[0], 1);
      if full then Ok((StateBlockMeta(slot, tick, true, lane, None, length - 1), bs[1..]))
      else
        var (back, rest) :- VarintOf(bs[1..]);
        var consumed := |bs| - |rest|;
        if length < consumed then Err(UnexpectedEof)
        else Ok((StateBlockMeta(slot, tick, false, lane, Some(SaturatingSub(tick, back)), length - consumed), rest))
  }

  /** A body: the row it leaves, or none when it cannot be applied, with the bytes after it. */
  function BodyOf(ss3: Ss3Codec, bs: seq<Byte>, meta: StateBlockMeta, props: seq<PropSchema>, base: Option<seq<Byte>>,
                  out: seq<Byte>)
    : Parsed<Option<seq<Byte>>>
    requires ss3.Sized()
  {
    if meta.full then FullOf(ss3, bs, meta, props, out) else MaskedOf(ss3, bs, meta, props, base, out)
  }

  function FullOf(ss3: Ss3Codec, bs: seq<Byte>, meta: StateBlockMeta, props: seq<PropSchema>, out: seq<Byte>)
    : Parsed<Option<seq<Byte>>>
    requires ss3.Sized()
  {
    var (payload, rest) :- TakeOf(bs, meta.bodyLength);
    if |payload| != WireRowStride(props) then Ok((None, rest))
    else
      var applied := Applied(ss3, props, Everything(props), payload, out, 0);
      Ok((if applied.Some? then Some(applied.value.0) else None, rest))
  }

  function MaskedOf(ss3: Ss3Codec, bs: seq<Byte>, meta: StateBlockMeta, props: seq<PropSchema>,
                    base: Option<seq<Byte>>, out: seq<Byte>)
    : Parsed<Option<seq<Byte>>>
    requires ss3.Sized()
  {
    if MaskLength(|props|) > meta.bodyLength then Err(UnexpectedEof)
    else
      var (mask, r0) :- MaskOf(bs, |props|);
      var (payload, rest) :- TakeOf(r0, meta.bodyLength - MaskLength(|props|));
      if base.None? || |base.value| != |out| then Ok((None, rest))
      else
        match Applied(ss3, props, mask, payload, base.value, 0)
        case None => Err(UnexpectedEof)
        case Some((row, left)) => Ok((if left == [] then Some(row) else None, rest))
  }

  /** A delta whose base is not held, or not of the row's length, leaves no row. */
  lemma NoBaseNoRow(ss3: Ss3Codec, bs: seq<Byte>, meta: StateBlockMeta, props: seq<PropSchema>,
                    base: Option<seq<Byte>>, out: seq<Byte>)
    requires ss3.Sized() && !meta.full && (base.None? || |base.value| != |out|)
    ensures var r := BodyOf(ss3, bs, meta, props, base, out); r.Ok? ==> r.value.0.None?
  {
  }

  /**
   * A body that leaves a row has exactly the bytes its schema and mask call for, none short and none over, and
   * leaves a row of the length it was given.
   */
  lemma RowMeansExactBytes(ss3: Ss3Codec, bs: seq<Byte>, meta: StateBlockMeta, props: seq<PropSchema>,
                           base: Option<seq<Byte>>, out: seq<Byte>)
    requires ss3.Sized() && BodyOf(ss3, bs, meta, props, base, out).Ok?
    requires BodyOf(ss3, bs, meta, props, base, out).value.0.Some?
    ensures |BodyOf(ss3, bs, meta, props, base, out).value.0.value| == |out|
    ensures meta.full ==> meta.bodyLength == WireRowStride(props)
    ensures !meta.full ==>
              var maskLength := MaskLength(|props|);
              && maskLength <= meta.bodyLength <= |bs|
              && meta.bodyLength == maskLength + MaskedSize(props, MaskBits(bs[..maskLength], |props|), 0)
  {
    if !meta.full {
      var maskLength := MaskLength(|props|);
      var mask := MaskBits(bs[..maskLength], |props|);
      var payload := bs[maskLength..][..meta.bodyLength - maskLength];
      AppliedConsumes(ss3, props, mask, payload, base.value, 0);
    }
  }

  /** Skipping a body lands where every successful decode of it lands, whatever the bytes. */
  lemma SkipLandsWithDecode(ss3: Ss3Codec, bs: seq<Byte>, meta: StateBlockMeta, props: seq<PropSchema>,
                            base: Option<seq<Byte>>, out: seq<Byte>)
    requires ss3.Sized() && BodyOf(ss3, bs, meta, props, base, out).Ok?
    ensures TakeOf(bs, meta.bodyLength).Ok?
    ensures TakeOf(bs, meta.bodyLength).value.1 == BodyOf(ss3, bs, meta, props, base, out).value.1
  {
  }

  // ------------------------------------------------------------------ reading inverts writing

  function MetaFor(ss3: Ss3Codec, b: Block): StateBlockMeta
    requires RowsFill(b)
  {
    StateBlockMeta(b.slot, b.entityTick, !b.IsDelta(), b.stateLane,
                   if b.IsDelta() then Some(b.reference.value.0) else None, |BodyTail(ss3, b)|)
  }

  lemma FlagBits(full: bool, stateLane: bool)
    ensures Bit(FlagsOf(full, stateLane), 0) == full && Bit(FlagsOf(full, stateLane), 1) == stateLane
  {
  }

  lemma FullHead(slot: nat, tick: nat, lane: bool, tail: seq<Byte>, rest: seq<Byte>)
    ensures BodyMetaOf(slot, tick, 1 + |tail|, [FlagsOf(true, lane)] + (tail + rest))
         == Ok((StateBlockMeta(slot, tick, true, lane, None, |tail|), tail + rest))
  {
    FlagBits(true, lane);
  }

  lemma DeltaHead(slot: nat, tick: nat, lane: bool, back: nat, tail: seq<Byte>, rest: seq<Byte>)
    requires back <= tick && back < U64
    ensures var head := [FlagsOf(false, lane)] + VarintBytes(back);
            var meta := StateBlockMeta(slot, tick, false, lane, Some(tick - back), |tail|);
            BodyMetaOf(slot, tick, |head| + |tail|, head + (tail + rest)) == Ok((meta, tail + rest))
  {
    FlagBits(false, lane);
    var head := [FlagsOf(false, lane)] + VarintBytes(back);
    assert head + (tail + rest) == [FlagsOf(false, lane)] + (VarintBytes(back) + (tail + rest));
    VarintRoundTrip(back, tail + rest);
  }

  lemma HeadRoundTrip(ss3: Ss3Codec, b: Block, rest: seq<Byte>)
    requires RowsFill(b) && b.entityTick < U64
    ensures var head, tail := BodyHead(b), BodyTail(ss3, b);
            BodyMetaOf(b.slot, b.entityTick, |head| + |tail|, head + (tail + rest))
              == Ok((MetaFor(ss3, b), tail + rest))
  {
    if b.IsDelta() {
      DeltaHead(b.slot, b.entityTick, b.stateLane, b.entityTick - b.reference.value.0, BodyTail(ss3, b), rest);
    } else {
      FullHead(b.slot, b.entityTick, b.stateLane, BodyTail(ss3, b), rest);
    }
  }

  /** The fields before a body, for any bytes that read as them. */
  lemma PrefixReads(slotBytes: seq<Byte>, slot: nat, back: seq<Byte>, frameTick: nat, tick: nat,
                    length: seq<Byte>, count: nat, bs: seq<Byte>)
    requires tick <= frameTick && 1 <= count <= |bs|
    requires UintOf(slotBytes + (back + (length + bs)), SLOT_WIDTH) == Ok((slot, back + (length + bs)))
    requires VarintOf(back + (length + bs)) == Ok((frameTick - tick, length + bs))
    requires VarintOf(length + bs) == Ok((count, bs))
    ensures MetaOf(slotBytes + (back + (length + bs)), frameTick) == BodyMetaOf(slot, tick, count, bs)
  {
  }

  /** The fields before a body, read off the front of anything long enough to hold it. */
  lemma PrefixRoundTrip(slot: nat, frameTick: nat, tick: nat, length: nat, bs: seq<Byte>)
    requires slot < U16 && tick <= frameTick < U64 && 1 <= length <= |bs| && length < U64
    ensures MetaOf(LeBytes(slot, SLOT_WIDTH) + (VarintBytes(frameTick - tick) + (VarintBytes(length) + bs)), frameTick)
         == BodyMetaOf(slot, tick, length, bs)
  {
    var back, r1 := VarintBytes(frameTick - tick), VarintBytes(length) + bs;
    SlotBack(slot, back + r1);
    VarintRoundTrip(frameTick - tick, r1);
    VarintRoundTrip(length, bs);
    PrefixReads(LeBytes(slot, SLOT_WIDTH), slot, back, frameTick, tick, VarintBytes(length), length, bs);
  }

  /** A block that declares more body than there is, or none, is refused. */
  lemma TruncatedBodyIsRefused(slot: nat, frameTick: nat, back: nat, length: nat, bs: seq<Byte>)
    requires slot < U16 && back < U64 && length < U64 && (length > |bs| || length == 0)
    ensures MetaOf(LeBytes(slot, SLOT_WIDTH) + (VarintBytes(back) + (VarintBytes(length) + bs)), frameTick)
         == Err(UnexpectedEof)
  {
    SlotBack(slot, VarintBytes(back) + (VarintBytes(length) + bs));
    VarintRoundTrip(back, VarintBytes(length) + bs);
    VarintRoundTrip(length, bs);
  }

  /** Ticks never underflow: a distance past the start gives tick zero. */
  lemma TicksSaturate(tick: nat, back: nat)
    ensures SaturatingSub(tick, back) <= tick && (back <= tick ==> SaturatingSub(tick, back) + back == tick)
    ensures back >= tick ==> SaturatingSub(tick, back) == 0
  {
  }

  lemma MetaRoundTrip(ss3: Ss3Codec, b: Block, frameTick: nat, rest: seq<Byte>)
    requires FieldsFit(ss3, b, frameTick)
    ensures MetaOf(BlockBytes(ss3, b, frameTick) + rest, frameTick) == Ok((MetaFor(ss3, b), BodyTail(ss3, b) + rest))
  {
    PrefixOfBlock(ss3, b, frameTick, rest);
    HeadRoundTrip(ss3, b, rest);
  }

  lemma PrefixOfBlock(ss3: Ss3Codec, b: Block, frameTick: nat, rest: seq<Byte>)
    requires FieldsFit(ss3, b, frameTick)
    ensures MetaOf(BlockBytes(ss3, b, frameTick) + rest, frameTick)
         == BodyMetaOf(b.slot, b.entityTick, |BodyHead(b)| + |BodyTail(ss3, b)|,
                       BodyHead(b) + (BodyTail(ss3, b) + rest))
  {
    PrefixOfFramed(b.slot, frameTick, b.entityTick, BodyHead(b), BodyTail(ss3, b), rest);
  }

  lemma PrefixOfFramed(slot: nat, frameTick: nat, tick: nat, head: seq<Byte>, tail: seq<Byte>, rest: seq<Byte>)
    requires slot < U16 && tick <= frameTick < U64 && head != [] && |head| + |tail| < U64
    ensures MetaOf(Framed(slot, frameTick - tick, head + tail) + rest, frameTick)
         == BodyMetaOf(slot, tick, |head| + |tail|, head + (tail + rest))
  {
    FramedOnto(slot, frameTick - tick, head, tail, rest);
    PrefixOf(Framed(slot, frameTick - tick, head + tail) + rest, slot, frameTick, tick, |head| + |tail|,
             head + (tail + rest));
  }

  lemma PrefixOf(bs: seq<Byte>, slot: nat, frameTick: nat, tick: nat, length: nat, body: seq<Byte>)
    requires slot < U16 && tick <= frameTick < U64 && 1 <= length <= |body| && length < U64
    requires bs == LeBytes(slot, SLOT_WIDTH) + (VarintBytes(frameTick - tick) + (VarintBytes(length) + body))
    ensures MetaOf(bs, frameTick) == BodyMetaOf(slot, tick, length, body)
  {
    PrefixRoundTrip(slot, frameTick, tick, length, body);
  }

  lemma FramedOnto(slot: nat, delta: nat, head: seq<Byte>, tail: seq<Byte>, rest: seq<Byte>)
    ensures Framed(slot, delta, head + tail) + rest
         == LeBytes(slot, SLOT_WIDTH) + (VarintBytes(delta) + (VarintBytes(|head| + |tail|) + (head + (tail + rest))))
  {
    var a, b, c := LeBytes(slot, SLOT_WIDTH), VarintBytes(delta), VarintBytes(|head| + |tail|);
    Associate(a, b + (c + (head + tail)), rest);
    Associate(b, c + (head + tail), rest);
    Associate(c, head + tail, rest);
    Associate(head, tail, rest);
  }

  /** What a receiver of `b` must hold for a delta: the very row it was taken against. */
  predicate Holds(b: Block, base: Option<seq<Byte>>) {
    b.IsDelta() ==> base == Some(b.Base())
  }

  lemma TailRoundTrip(ss3: Ss3Codec, b: Block, frameTick: nat, base: Option<seq<Byte>>, out: seq<Byte>, rest: seq<Byte>)
    requires ss3.Sized() && Sendable(ss3, b, frameTick) && Holds(b, base) && |out| == |b.row|
    ensures BodyOf(ss3, BodyTail(ss3, b) + rest, MetaFor(ss3, b), b.props, base, out) == Ok((Some(b.row), rest))
  {
    var payload := MaskedWire(ss3, b.props, b.Mask(), b.row, 0);
    assert payload + [] == payload;
    TakeBack(payload, rest);
    if b.IsDelta() {
      Associate(MaskBytes(b.Mask()), payload, rest);
      MaskRoundTrip(b.Mask(), payload + rest);
      DeltaRestores(ss3, b.props, b.Base(), b.row, []);
    } else {
      MaskedWireSize(ss3, b.props, b.Mask(), b.row, 0);
      FullRestores(ss3, b.props, out, b.row, []);
    }
  }

  /**
   * A block, full or delta, decodes to exactly the row it was encoded from - any bytes after it untouched - at
   * every receiver that holds the delta's base.
   */
  lemma BlockRoundTrip(ss3: Ss3Codec, b: Block, frameTick: nat, base: Option<seq<Byte>>, out: seq<Byte>,
                       rest: seq<Byte>)
    requires ss3.Sized() && Sendable(ss3, b, frameTick) && Holds(b, base) && |out| == |b.row|
    ensures var meta := MetaOf(BlockBytes(ss3, b, frameTick) + rest, frameTick);
            && meta.Ok? && meta.value.0 == MetaFor(ss3, b)
            && BodyOf(ss3, meta.value.1, meta.value.0, b.props, base, out) == Ok((Some(b.row), rest))
            && TakeOf(meta.value.1, meta.value.0.bodyLength).Ok?
            && TakeOf(meta.value.1, meta.value.0.bodyLength).value.1 == rest
  {
    MetaRoundTrip(ss3, b, frameTick, rest);
    TailRoundTrip(ss3, b, frameTick, base, out, rest);
    TakeBack(BodyTail(ss3, b), rest);
  }

  // ------------------------------------------------------------------ a frame of blocks

  /** What a receiver knows: the schema bound to a slot, if any, and the rows it holds. */
  datatype Receiver = Receiver(schema: nat -> Option<seq<PropSchema>>, held: (nat, nat) -> Option<seq<Byte>>)

  datatype Landed = Landed(slot: nat, tick: nat, row: Option<seq<Byte>>)

  function BlankRow(props: seq<PropSchema>): (row: seq<Byte>)
    ensures |row| == RowStride(props)
  {
    seq(RowStride(props), _ => 0)
  }

  function BaseFor(rx: Receiver, meta: StateBlockMeta): Option<seq<Byte>> {
    match meta.referenceTick
    case None => None
    case Some(tick) => rx.held(meta.slot, tick)
  }

  /** One block's body: its row, or nothing when its slot is not bound. */
  function LandingOf(ss3: Ss3Codec, rx: Receiver, bs: seq<Byte>, meta: StateBlockMeta): Parsed<seq<Landed>>
    requires ss3.Sized()
  {
    match rx.schema(meta.slot)
    case None =>
      var (_, rest) :- TakeOf(bs, meta.bodyLength);
      Ok(([], rest))
    case Some(props) =>
      var (row, rest) :- BodyOf(ss3, bs, meta, props, BaseFor(rx, meta), BlankRow(props));
      Ok(([Landed(meta.slot, meta.tick, row)], rest))
  }

  /** `count` blocks one after another, those on unbound slots skipped. */
  function BlocksOf(ss3: Ss3Codec, rx: Receiver, bs: seq<Byte>, frameTick: nat, count: nat): Parsed<seq<Landed>>
    requires ss3.Sized()
    decreases count
  {
    if count == 0 then Ok(([], bs))
    else
      var (meta, r0) :- MetaOf(bs, frameTick);
      var (one, r1) :- LandingOf(ss3, rx, r0, meta);
      var (more, r2) :- BlocksOf(ss3, rx, r1, frameTick, count - 1);
      Ok((one + more, r2))
  }

  ghost predicate Receivable(ss3: Ss3Codec, rx: Receiver, b: Block, frameTick: nat) {
    && Sendable(ss3, b, frameTick)
    && (rx.schema(b.slot).Some? ==> rx.schema(b.slot).value == b.props && Holds(b, BaseFor(rx, MetaFor(ss3, b))))
  }

  predicate AllFill(blocks: seq<Block>) {
    blocks != [] ==> RowsFill(blocks[0]) && AllFill(blocks[1..])
  }

  /** Every block is one this receiver can take. */
  ghost predicate AllReceivable(ss3: Ss3Codec, rx: Receiver, blocks: seq<Block>, frameTick: nat) {
    blocks != [] ==> Receivable(ss3, rx, blocks[0], frameTick) && AllReceivable(ss3, rx, blocks[1..], frameTick)
  }

  function FrameBytes(ss3: Ss3Codec, blocks: seq<Block>, frameTick: nat): seq<Byte>
    requires AllFill(blocks)
  {
    if blocks == [] then [] else BlockBytes(ss3, blocks[0], frameTick) + FrameBytes(ss3, blocks[1..], frameTick)
  }

  /** The rows sent on the slots the receiver has bound. */
  function Rows(rx: Receiver, blocks: seq<Block>): seq<Landed> {
    if blocks == [] then []
    else RowOf(rx, blocks[0]) + Rows(rx, blocks[1..])
  }

  /** The row one block leaves at a receiver, if its slot is bound there. */
  function RowOf(rx: Receiver, b: Block): seq<Landed> {
    if rx.schema(b.slot).Some? then [Landed(b.slot, b.entityTick, Some(b.row))] else []
  }

  lemma LandsAs(ss3: Ss3Codec, rx: Receiver, b: Block, frameTick: nat, later: seq<Byte>)
    requires ss3.Sized() && Receivable(ss3, rx, b, frameTick) && RowsFill(b)
    ensures LandingOf(ss3, rx, BodyTail(ss3, b) + later, MetaFor(ss3, b)) == Ok((RowOf(rx, b), later))
  {
    if rx.schema(b.slot).Some? {
      TailRoundTrip(ss3, b, frameTick, BaseFor(rx, MetaFor(ss3, b)), BlankRow(b.props), later);
    } else {
      TakeBack(BodyTail(ss3, b), later);
    }
  }

  /** A block that reads as one landing, then whatever parse follows it. */
  lemma OneLanding(ss3: Ss3Codec, rx: Receiver, bs: seq<Byte>, frameTick: nat, count: nat,
                   meta: StateBlockMeta, body: seq<Byte>, one: seq<Landed>, later: seq<Byte>, more: seq<Landed>,
                   rest: seq<Byte>)
    requires ss3.Sized() && MetaOf(bs, frameTick) == Ok((meta, body))
    requires LandingOf(ss3, rx, body, meta) == Ok((one, later))
    requires BlocksOf(ss3, rx, later, frameTick, count) == Ok((more, rest))
    ensures BlocksOf(ss3, rx, bs, frameTick, count + 1) == Ok((one + more, rest))
  {
  }

  lemma OneBlock(ss3: Ss3Codec, rx: Receiver, b: Block, frameTick: nat, count: nat, later: seq<Byte>,
                 more: seq<Landed>, rest: seq<Byte>)
    requires ss3.Sized() && RowsFill(b) && Receivable(ss3, rx, b, frameTick)
    requires BlocksOf(ss3, rx, later, frameTick, count) == Ok((more, rest))
    ensures BlocksOf(ss3, rx, BlockBytes(ss3, b, frameTick) + later, frameTick, count + 1)
         == Ok((RowOf(rx, b) + more, rest))
  {
    MetaRoundTrip(ss3, b, frameTick, later);
    LandsAs(ss3, rx, b, frameTick, later);
    OneLanding(ss3, rx, BlockBytes(ss3, b, frameTick) + later, frameTick, count, MetaFor(ss3, b),
               BodyTail(ss3, b) + later, RowOf(rx, b), later, more, rest);
  }

  lemma FrameOnto(ss3: Ss3Codec, blocks: seq<Block>, frameTick: nat, rest: seq<Byte>)
    requires blocks != [] && AllFill(blocks)
    ensures FrameBytes(ss3, blocks, frameTick) + rest
         == BlockBytes(ss3, blocks[0], frameTick) + (FrameBytes(ss3, blocks[1..], frameTick) + rest)
  {
    Associate(BlockBytes(ss3, blocks[0], frameTick), FrameBytes(ss3, blocks[1..], frameTick), rest);
  }

  /** A frame parses back block by block, to every row on a slot the receiver knows and nothing else. */
  lemma {:induction false} FrameRoundTrip(ss3: Ss3Codec, rx: Receiver, blocks: seq<Block>, frameTick: nat,
                                          rest: seq<Byte>)
    requires ss3.Sized()
    requires AllFill(blocks) && AllReceivable(ss3, rx, blocks, frameTick)
    ensures BlocksOf(ss3, rx, FrameBytes(ss3, blocks, frameTick) + rest, frameTick, |blocks|)
         == Ok((Rows(rx, blocks), rest))
  {
    if blocks == [] {
      assert FrameBytes(ss3, blocks, frameTick) + rest == rest;
    } else {
      FrameRoundTrip(ss3, rx, blocks[1..], frameTick, rest);
      FrameOnto(ss3, blocks, frameTick, rest);
      OneBlock(ss3, rx, blocks[0], frameTick, |blocks| - 1, FrameBytes(ss3, blocks[1..], frameTick) + rest,
               Rows(rx, blocks[1..]), rest);
    }
  }

  // ------------------------------------------------------------------ the coders

  /** Append one block, answering whether it went out as a full row. */
  method EncodeStateBlock(writer: Writer, ss3: Ss3Codec, b: Block, frameTick: nat) returns (full: bool)
    requires Encodable(ss3, b, frameTick)
    modifies writer
    ensures writer.buf == old(writer.buf) + BlockBytes(ss3, b, frameTick)
    ensures full <==> b.reference.None? || b.reference.value.0 >= b.entityTick
  {
    var body := EncodeBody(ss3, b);
    full := !b.IsDelta();
    WriteFields(writer, b.slot, SaturatingSub(frameTick, b.entityTick), body);
  }

  method WriteFields(writer: Writer, slot: nat, delta: nat, body: seq<Byte>)
    requires slot < U16 && delta < U64 && |body| < U64
    modifies writer
    ensures writer.buf == old(writer.buf) + Framed(slot, delta, body)
  {
    SlotFits(slot);
    FieldsOnto(writer.buf, LeBytes(slot, SLOT_WIDTH), VarintBytes(delta), VarintBytes(|body|), body);
    writer.Uint(slot, SLOT_WIDTH);
    writer.Varint(delta);
    writer.Varint(|body|);
    writer.Raw(body);
  }

  lemma SlotFits(slot: nat)
    requires slot < U16
    ensures slot < Pow2(8 * SLOT_WIDTH)
  {
    Pow2Of64();
  }

  method EncodeBody(ss3: Ss3Codec, b: Block) returns (bytes: seq<Byte>)
    requires RowsFill(b) && b.entityTick < U64
    ensures bytes == BodyHead(b) + BodyTail(ss3, b)
  {
    var body := new Writer();
    if b.IsDelta() {
      var mask := ComputeChangedMask(b.props, b.Base(), b.row);
      body.U8(FlagsOf(false, b.stateLane));
      body.Varint(b.entityTick - b.reference.value.0);
      assert body.buf == BodyHead(b);
      body.Bitmask(mask);
      var fields := WriteMaskedWire(ss3, b.props, mask, b.row);
      body.Raw(fields);
    } else {
      body.U8(FlagsOf(true, b.stateLane));
      var fields := WriteMaskedWire(ss3, b.props, Everything(b.props), b.row);
      body.Raw(fields);
    }
    bytes := body.buf;
  }

  method DecodeStateBlockMeta(reader: Reader, frameTick: nat) returns (r: Result<StateBlockMeta>)
    requires reader.Valid()
    modifies reader
    ensures reader.Valid() && old(reader.pos) <= reader.pos
    ensures reader.Answers(r, MetaOf(old(reader.Rest()), frameTick))
  {
    var slot :- reader.Uint(SLOT_WIDTH);
    var tickDelta :- reader.Varint();
    var length :- reader.Varint();
    if length > |reader.buf| - reader.pos || length < 1 {
      return Err(UnexpectedEof);
    }
    r := DecodeBodyMeta(reader, slot, SaturatingSub(frameTick, tickDelta), length);
  }

  method DecodeBodyMeta(reader: Reader, slot: nat, tick: nat, length: nat) returns (r: Result<StateBlockMeta>)
    requires reader.Valid() && 1 <= length
    modifies reader
    ensures reader.Valid() && old(reader.pos) <= reader.pos
    ensures reader.Answers(r, BodyMetaOf(slot, tick, length, old(reader.Rest())))
  {
    var before := |reader.buf| - reader.pos;
    var flags :- reader.U8();
    var full, stateLane := Bit(flags, 0), Bit(flags, 1);
    if full {
      return Ok(StateBlockMeta(slot, tick, true, stateLane, None, length - 1));
    }
    var back :- reader.Varint();
    var consumed := before - (|reader.buf| - reader.pos);
    if length < consumed {
      return Err(UnexpectedEof);
    }
    return Ok(StateBlockMeta(slot, tick, false, stateLane, Some(SaturatingSub(tick, back)), length - consumed));
  }

  /** Hop over the body of a block whose slot is not bound. */
  method SkipStateBlockBody(reader: Reader, meta: StateBlockMeta) returns (r: Result<seq<Byte>>)
    requires reader.Valid()
    modifies reader
    ensures reader.Valid() && old(reader.pos) <= reader.pos
    ensures reader.Answers(r, TakeOf(old(reader.Rest()), meta.bodyLength))
  {
    r := reader.Take(meta.bodyLength);
  }

  /** The row a decode left, when it answers that it did. */
  function RowIf(applied: bool, row: seq<Byte>): Option<seq<Byte>> {
    if applied then Some(row) else None
  }

  /** The method's answer and the row it left are those of a parse. */
  ghost predicate Leaves(r: Result<bool>, row: seq<Byte>, rest: seq<Byte>, parsed: Parsed<Option<seq<Byte>>>) {
    match parsed
    case Err(error) => r == Err(error)
    case Ok(pair) => r.Ok? && rest == pair.1 && RowIf(r.value, row) == pair.0
  }

  /** Decode a body into `out`, in place. */
  method DecodeStateBlockInto(reader: Reader, ss3: Ss3Codec, meta: StateBlockMeta, props: seq<PropSchema>,
                              base: Option<seq<Byte>>, out: array<Byte>) returns (r: Result<bool>)
    requires reader.Valid() && ss3.Sized()
    modifies reader, out
    ensures reader.Valid() && old(reader.pos) <= reader.pos
    ensures Leaves(r, out[..], reader.Rest(), BodyOf(ss3, old(reader.Rest()), meta, props, base, old(out[..])))
    ensures !meta.full && (base.None? || |base.value| != out.Length) ==> r != Ok(true) && out[..] == old(out[..])
  {
    if meta.full {
      r := DecodeFull(reader, ss3, meta, props, out);
    } else {
      r := DecodeMasked(reader, ss3, meta, props, base, out);
    }
  }

  method DecodeFull(reader: Reader, ss3: Ss3Codec, meta: StateBlockMeta, props: seq<PropSchema>, out: array<Byte>)
    returns (r: Result<bool>)
    requires reader.Valid() && ss3.Sized()
    modifies reader, out
    ensures reader.Valid() && old(reader.pos) <= reader.pos
    ensures Leaves(r, out[..], reader.Rest(), FullOf(ss3, old(reader.Rest()), meta, props, old(out[..])))
  {
    var payload :- reader.Take(meta.bodyLength);
    if |payload| != WireRowStride(props) {
      return Ok(false);
    }
    var consumed := ApplyMaskedWire(ss3, props, Everything(props), payload, out);
    return Ok(consumed.Some?);
  }

  method DecodeMasked(reader: Reader, ss3: Ss3Codec, meta: StateBlockMeta, props: seq<PropSchema>,
                      base: Option<seq<Byte>>, out: array<Byte>) returns (r: Result<bool>)
    requires reader.Valid() && ss3.Sized()
    modifies reader, out
    ensures reader.Valid() && old(reader.pos) <= reader.pos
    ensures Leaves(r, out[..], reader.Rest(), MaskedOf(ss3, old(reader.Rest()), meta, props, base, old(out[..])))
    ensures base.None? || |base.value| != out.Length ==> r != Ok(true) && out[..] == old(out[..])
  {
    var maskLength := MaskLength(|props|);
    if maskLength > meta.bodyLength {
      return Err(UnexpectedEof);
    }
    var mask :- reader.Bitmask(|props|);
    var payload :- reader.Take(meta.bodyLength - maskLength);
    if base.None? || |base.value| != out.Length {
      return Ok(false);
    }
    Overwrite(out, 0, base.value);
    assert out[..] == base.value;
    var consumed := ApplyMaskedWire(ss3, props, mask, payload, out);
    match consumed
    case None => return Err(UnexpectedEof);
    case Some(n) => return Ok(n == |payload|);
  }
}

/** Entity input blocks: the newest rows, whole, newest first, each addressable on its own. */
module InputBlock {
  import opened Bytes
  import opened Options
  import opened Schema
  import opened Wire
  import opened Quant

  const MAX_ROWS: nat := 255

  datatype InputBlockMeta = InputBlockMeta(slot: nat, newestTick: nat, count: nat, bodyLength: nat)

  /** How many of `rows` a block carries. */
  function CountOf(rows: nat): nat {
    if rows < MAX_ROWS then rows else MAX_ROWS
  }

  // ------------------------------------------------------------------ what is written

  function WholeRow(ss3: Ss3Codec, props: seq<PropSchema>, row: seq<Byte>): seq<Byte>
    requires forall k :: 0 <= k < |props| ==> props[k].End() <= |row|
  {
    MaskedWire(ss3, props, Everything(props), row, 0)
  }

  predicate RowsFill(props: seq<PropSchema>, rows: seq<seq<Byte>>) {
    forall i :: 0 <= i < |rows| ==> RowFills(props, rows[i])
  }

  predicate RowFills(props: seq<PropSchema>, row: seq<Byte>) {
    forall k :: 0 <= k < |props| ==> props[k].End() <= |row|
  }

  function RowsBytes(ss3: Ss3Codec, props: seq<PropSchema>, rows: seq<seq<Byte>>): seq<Byte>
    requires RowsFill(props, rows)
  {
    if rows == [] then []
    else RowsBytes(ss3, props, rows[..|rows| - 1]) + WholeRow(ss3, props, rows[|rows| - 1])
  }

  /** The difference of two ticks read as signed 64-bit values, wrapping. */
  function SignedDelta(frameTick: nat, newestTick: nat): (delta: int)
    requires frameTick < U64 && newestTick < U64
    ensures IsI64(delta)
  {
    var delta := frameTick - newestTick;
    if delta > I64_MAX then delta - U64 else if delta < I64_MIN then delta + U64 else delta
  }

  /** What the encoder takes: rows its schema fits, and slot and length within their widths. */
  predicate Encodable(props: seq<PropSchema>, slot: nat, rows: seq<seq<Byte>>) {
    && slot < U16 && RowsFill(props, rows[..CountOf(|rows|)])
    && WireRowStride(props) * CountOf(|rows|) + 1 < U64
  }

  function BlockBytes(ss3: Ss3Codec, props: seq<PropSchema>, slot: nat, frameTick: nat, newestTick: nat,
                      rows: seq<seq<Byte>>): seq<Byte>
    requires Encodable(props, slot, rows) && frameTick < U64 && newestTick < U64
  {
    var sent := rows[..CountOf(|rows|)];
    LeBytes(slot, SLOT_WIDTH) + (VarintBytes(Zigzagged(SignedDelta(frameTick, newestTick)))
      + (VarintBytes(WireRowStride(props) * |sent| + 1) + ([|sent| as Byte] + RowsBytes(ss3, props, sent))))
  }

  // ------------------------------------------------------------------ what is read

  /** A tick the given distance before `frameTick`, or after it, saturating both ways. */
  function NewestFrom(frameTick: nat, delta: int): nat {
    if delta >= 0 then (if delta <= frameTick then frameTick - delta else 0)
    else if frameTick - delta >= U64 then U64 - 1 else frameTick - delta
  }

  /** Whatever distance the wire gives, the newest tick is the nearest 64-bit one. */
  lemma NewestIsTheNearestTick(frameTick: nat, delta: int)
    requires frameTick < U64
    ensures var newest := NewestFrom(frameTick, delta);
            && newest < U64
            && (0 <= frameTick - delta < U64 ==> newest == frameTick - delta)
            && (frameTick < delta ==> newest == 0)
            && (frameTick - delta >= U64 ==> newest + 1 == U64)
  {
  }

  function MetaOf(bs: seq<Byte>, frameTick: nat): (r: Parsed<InputBlockMeta>)
    ensures r.Ok? ==> r.value.0.bodyLength <= |r.value.1| && r.value.0.count <= MAX_ROWS
  {
    var (slot, r0) :- UintOf(bs, SLOT_WIDTH);
    var (delta, r1) :- ZigzagOf(r0);
    var (length, r2) :- VarintOf(r1);
    if length > |r2| || length < 1 then Err(UnexpectedEof)
    else Ok((InputBlockMeta(slot, NewestFrom(frameTick, delta), r2[0], length - 1), r2[1..]))
  }

  /** The wire bytes of one row, none when the count and the length disagree. */
  function RowAt(rest: seq<Byte>, meta: InputBlockMeta, stride: nat, index: nat): Option<seq<Byte>> {
    if stride == 0 || index >= meta.count then None
    else if stride * meta.count != meta.bodyLength then None
    else PeekOf(rest, stride * index, stride)
  }

  /** A row is borrowed exactly when it is one of those counted, the length is theirs, and the bytes are there. */
  lemma RowFoundIff(rest: seq<Byte>, meta: InputBlockMeta, stride: nat, index: nat)
    ensures RowAt(rest, meta, stride, index).Some?
       <==> (0 < stride && index < meta.count && meta.bodyLength == stride * meta.count
             && stride * index + stride <= |rest|)
    ensures RowAt(rest, meta, stride, index).Some? ==>
              var row := RowAt(rest, meta, stride, index).value;
              |row| == stride && forall k :: 0 <= k < stride ==> row[k] == rest[stride * index + k]
  {
  }

  function PeekOf(rest: seq<Byte>, offset: nat, count: nat): Option<seq<Byte>> {
    if offset + count > |rest| then None else Some(rest[offset..offset + count])
  }

  // ------------------------------------------------------------------ reading inverts writing

  lemma {:induction false} RowsBytesSize(ss3: Ss3Codec, props: seq<PropSchema>, rows: seq<seq<Byte>>)
    requires ss3.Sized() && RowsFill(props, rows)
    ensures |RowsBytes(ss3, props, rows)| == WireRowStride(props) * |rows|
  {
    if rows != [] {
      var n := |rows| - 1;
      RowsBytesSize(ss3, props, rows[..n]);
      assert RowFills(props, rows[n]);
      MaskedWireSize(ss3, props, Everything(props), rows[n], 0);
      OneMore(WireRowStride(props), n);
    }
  }

  lemma OneMore(stride: nat, n: nat)
    ensures stride * (n + 1) == stride * n + stride
  {
  }

  /** Row `index` lies at its multiple of the stride. */
  lemma {:induction false} RowLiesAt(ss3: Ss3Codec, props: seq<PropSchema>, rows: seq<seq<Byte>>, index: nat,
                                     rest: seq<Byte>)
    requires ss3.Sized() && RowsFill(props, rows) && index < |rows|
    ensures RowFills(props, rows[index])
    ensures PeekOf(RowsBytes(ss3, props, rows) + rest, WireRowStride(props) * index, WireRowStride(props))
         == Some(WholeRow(ss3, props, rows[index]))
    decreases |rows|
  {
    var n := |rows| - 1;
    RowsOnto(ss3, props, rows, rest);
    if index < n {
      RowLiesAt(ss3, props, rows[..n], index, WholeRow(ss3, props, rows[n]) + rest);
    } else {
      PeekMiddle(RowsBytes(ss3, props, rows[..n]), WholeRow(ss3, props, rows[n]), rest);
    }
  }

  lemma RowsOnto(ss3: Ss3Codec, props: seq<PropSchema>, rows: seq<seq<Byte>>, rest: seq<Byte>)
    requires ss3.Sized() && RowsFill(props, rows) && rows != []
    ensures var n := |rows| - 1;
            && RowsBytes(ss3, props, rows) + rest
              == RowsBytes(ss3, props, rows[..n]) + (WholeRow(ss3, props, rows[n]) + rest)
            && |RowsBytes(ss3, props, rows[..n])| == WireRowStride(props) * n
            && |WholeRow(ss3, props, rows[n])| == WireRowStride(props)
  {
    var n := |rows| - 1;
    RowsBytesSize(ss3, props, rows[..n]);
    MaskedWireSize(ss3, props, Everything(props), rows[n], 0);
    Associate(RowsBytes(ss3, props, rows[..n]), WholeRow(ss3, props, rows[n]), rest);
  }

  lemma PeekMiddle(before: seq<Byte>, middle: seq<Byte>, rest: seq<Byte>)
    ensures PeekOf(before + (middle + rest), |before|, |middle|) == Some(middle)
  {
    assert (before + (middle + rest))[|before|..|before| + |middle|] == middle;
  }

  /** What a receiver of the rows needs of them. */
  ghost predicate Sendable(ss3: Ss3Codec, props: seq<PropSchema>, slot: nat, rows: seq<seq<Byte>>) {
    && Encodable(props, slot, rows) && LaidOut(props)
    && forall i :: 0 <= i < CountOf(|rows|) ==> |rows[i]| == RowStride(props) && CanonicalRow(ss3, props, rows[i])
  }

  lemma MetaReads(slotBytes: seq<Byte>, slot: nat, back: seq<Byte>, delta: int, length: seq<Byte>, body: nat,
                  count: Byte, rows: seq<Byte>, frameTick: nat)
    requires body <= |rows|
    requires UintOf(slotBytes + (back + (length + ([count] + rows))), SLOT_WIDTH)
          == Ok((slot, back + (length + ([count] + rows))))
    requires ZigzagOf(back + (length + ([count] + rows))) == Ok((delta, length + ([count] + rows)))
    requires VarintOf(length + ([count] + rows)) == Ok((body + 1, [count] + rows))
    ensures MetaOf(slotBytes + (back + (length + ([count] + rows))), frameTick)
         == Ok((InputBlockMeta(slot, NewestFrom(frameTick, delta), count, body), rows))
  {
    assert ([count] + rows)[1..] == rows;
  }

  /** A tick reads back exactly when it is within a signed 64-bit distance of the frame's. */
  lemma TickReadsBackIff(frameTick: nat, newestTick: nat)
    requires frameTick < U64 && newestTick < U64
    ensures NewestFrom(frameTick, SignedDelta(frameTick, newestTick)) == newestTick <==> IsI64(frameTick - newestTick)
  {
  }

  /**
   * Slot, count and length read back, and the newest tick - newer or older than the frame - exactly when the
   * distance fits; skipping the body lands after the block.
   */
  lemma BlockRoundTrip(ss3: Ss3Codec, props: seq<PropSchema>, slot: nat, frameTick: nat, newestTick: nat,
                       rows: seq<seq<Byte>>, rest: seq<Byte>)
    requires ss3.Sized() && Encodable(props, slot, rows) && frameTick < U64 && newestTick < U64
    ensures var sent := rows[..CountOf(|rows|)];
            var body := RowsBytes(ss3, props, sent);
            var stamp := NewestFrom(frameTick, SignedDelta(frameTick, newestTick));
            && MetaOf(BlockBytes(ss3, props, slot, frameTick, newestTick, rows) + rest, frameTick)
               == Ok((InputBlockMeta(slot, stamp, |sent|, |body|), body + rest))
            && (stamp == newestTick <==> IsI64(frameTick - newestTick))
            && |sent| <= 255 && |sent| <= |rows| && (|sent| == 255 || |sent| == |rows|)
            && TakeOf(body + rest, |body|) == Ok((body, rest))
  {
    var sent := rows[..CountOf(|rows|)];
    var body := RowsBytes(ss3, props, sent);
    var delta := SignedDelta(frameTick, newestTick);
    RowsBytesSize(ss3, props, sent);
    BlockOnto(LeBytes(slot, SLOT_WIDTH), VarintBytes(Zigzagged(delta)), VarintBytes(|body| + 1), [|sent| as Byte],
              body, rest);
    FieldsRead(slot, frameTick, delta, |body|, |sent|, body + rest);
    TickReadsBackIff(frameTick, newestTick);
    TakeBack(body, rest);
  }

  lemma FieldsRead(slot: nat, frameTick: nat, delta: int, body: nat, count: Byte, rows: seq<Byte>)
    requires slot < U16 && IsI64(delta) && body <= |rows| && body + 1 < U64
    ensures var fields := VarintBytes(Zigzagged(delta)) + (VarintBytes(body + 1) + ([count] + rows));
            MetaOf(LeBytes(slot, SLOT_WIDTH) + fields, frameTick)
            == Ok((InputBlockMeta(slot, NewestFrom(frameTick, delta), count, body), rows))
  {
    var r1 := VarintBytes(body + 1) + ([count] + rows);
    SlotBack(slot, VarintBytes(Zigzagged(delta)) + r1);
    ZigzagBack(delta, r1);
    VarintRoundTrip(body + 1, [count] + rows);
    MetaReads(LeBytes(slot, SLOT_WIDTH), slot, VarintBytes(Zigzagged(delta)), delta, VarintBytes(body + 1), body,
              count, rows, frameTick);
  }

  lemma BlockOnto(a: seq<Byte>, b: seq<Byte>, c: seq<Byte>, d: seq<Byte>, e: seq<Byte>, rest: seq<Byte>)
    ensures a + (b + (c + (d + e))) + rest == a + (b + (c + (d + (e + rest))))
  {
    Associate(d, e, rest);
    Associate(c, d + e, rest);
    Associate(b, c + (d + e), rest);
    Associate(a, b + (c + (d + e)), rest);
  }

  /** Row `index` is found exactly when the schema has any wire bytes at all, and decodes to the row sent. */
  lemma RowRoundTrip(ss3: Ss3Codec, props: seq<PropSchema>, slot: nat, newestTick: nat, rows: seq<seq<Byte>>,
                     index: nat, was: seq<Byte>, rest: seq<Byte>)
    requires ss3.Sized() && Sendable(ss3, props, slot, rows) && index < CountOf(|rows|) && |was| == RowStride(props)
    ensures var sent := rows[..CountOf(|rows|)];
            var meta := InputBlockMeta(slot, newestTick, |sent|, |RowsBytes(ss3, props, sent)|);
            var found := RowAt(RowsBytes(ss3, props, sent) + rest, meta, WireRowStride(props), index);
            && (found.Some? <==> WireRowStride(props) > 0)
            && (found.Some? ==> Applied(ss3, props, Everything(props), found.value, was, 0) == Some((rows[index], [])))
  {
    var sent := rows[..CountOf(|rows|)];
    RowsBytesSize(ss3, props, sent);
    RowLiesAt(ss3, props, sent, index, rest);
    var whole := WholeRow(ss3, props, rows[index]);
    FullRestores(ss3, props, was, rows[index], []);
    assert whole + [] == whole;
  }

  // ------------------------------------------------------------------ the coders

  /** Append one block: at most 255 rows of those given. */
  method EncodeInputBlock(writer: Writer, ss3: Ss3Codec, props: seq<PropSchema>, slot: nat, frameTick: nat,
                          newestTick: nat, rows: seq<seq<Byte>>)
    requires Encodable(props, slot, rows) && frameTick < U64 && newestTick < U64
    modifies writer
    ensures writer.buf == old(writer.buf) + BlockBytes(ss3, props, slot, frameTick, newestTick, rows)
  {
    var sent := rows[..CountOf(|rows|)];
    var length := WireRowStride(props) * |sent| + 1;
    ghost var start := writer.buf;
    var delta := SignedDelta(frameTick, newestTick);
    WriteFields(writer, slot, delta, length, |sent| as Byte);
    WriteRows(writer, ss3, props, sent);
    HeadOnto(start, LeBytes(slot, SLOT_WIDTH), VarintBytes(Zigzagged(delta)), VarintBytes(length),
             [|sent| as Byte], RowsBytes(ss3, props, sent));
  }

  method WriteRows(writer: Writer, ss3: Ss3Codec, props: seq<PropSchema>, rows: seq<seq<Byte>>)
    requires RowsFill(props, rows)
    modifies writer
    ensures writer.buf == old(writer.buf) + RowsBytes(ss3, props, rows)
  {
    ghost var head := writer.buf;
    for i := 0 to |rows|
      invariant writer.buf == head + RowsBytes(ss3, props, rows[..i])
    {
      assert rows[..i + 1][..i] == rows[..i] && RowFills(props, rows[i]);
      var row := WriteMaskedWire(ss3, props, Everything(props), rows[i]);
      Associate(head, RowsBytes(ss3, props, rows[..i]), row);
      writer.Raw(row);
    }
    assert rows[..|rows|] == rows;
  }

  lemma HeadOnto(start: seq<Byte>, a: seq<Byte>, b: seq<Byte>, c: seq<Byte>, d: seq<Byte>, e: seq<Byte>)
    ensures start + (a + (b + (c + d))) + e == start + (a + (b + (c + (d + e))))
  {
    Associate(c, d, e);
    Associate(b, c + d, e);
    Associate(a, b + (c + d), e);
    Associate(start, a + (b + (c + d)), e);
  }

  method WriteFields(writer: Writer, slot: nat, delta: int, length: nat, count: Byte)
    requires slot < U16 && IsI64(delta) && length < U64
    modifies writer
    ensures writer.buf == old(writer.buf)
                          + (LeBytes(slot, SLOT_WIDTH)
                             + (VarintBytes(Zigzagged(delta)) + (VarintBytes(length) + [count])))
  {
    Pow2Of64();
    FieldsOnto(writer.buf, LeBytes(slot, SLOT_WIDTH), VarintBytes(Zigzagged(delta)), VarintBytes(length), [count]);
    writer.Uint(slot, SLOT_WIDTH);
    writer.Zigzag(delta);
    writer.Varint(length);
    writer.U8(count);
  }

  method DecodeInputBlockMeta(reader: Reader, frameTick: nat) returns (r: Result<InputBlockMeta>)
    requires reader.Valid()
    modifies reader
    ensures reader.Valid() && old(reader.pos) <= reader.pos
    ensures reader.Answers(r, MetaOf(old(reader.Rest()), frameTick))
  {
    var slot :- reader.Uint(SLOT_WIDTH);
    var delta :- reader.Zigzag();
    var length :- reader.Varint();
    if length > |reader.buf| - reader.pos || length < 1 {
      return Err(UnexpectedEof);
    }
    var count := reader.buf[reader.pos];
    reader.pos := reader.pos + 1;
    return Ok(InputBlockMeta(slot, NewestFrom(frameTick, delta), count, length - 1));
  }

  /** Borrow one row's wire bytes without moving the cursor. */
  method InputBlockRow(reader: Reader, meta: InputBlockMeta, stride: nat, index: nat) returns (row: Option<seq<Byte>>)
    requires reader.Valid()
    ensures row == RowAt(reader.Rest(), meta, stride, index)
  {
    if stride == 0 || index >= meta.count {
      return None;
    }
    if stride * meta.count != meta.bodyLength {
      return None;
    }
    var start := stride * index;
    if reader.pos + start + stride > |reader.buf| {
      return None;
    }
    row := Some(reader.buf[reader.pos + start..reader.pos + start + stride]);
    assert reader.Rest()[start..start + stride] == row.value;
  }
}

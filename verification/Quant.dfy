/** Wire quantizers over history rows: encoding and decoding whole rows and masked ones. */
module Quant {
  import opened Bytes
  import opened Options
  import opened Schema
  import H = Half

  /**
   * Smallest-three packing of an orientation, kept abstract: six bytes from a native quaternion or basis, and
   * a native value of the kind asked for from any six bytes.
   */
  datatype Ss3Codec = Ss3Codec(pack: (PropKind, seq<Byte>) -> seq<Byte>, unpack: (PropKind, seq<Byte>) -> seq<Byte>) {
    ghost predicate Sized() {
      && (forall kind, native :: |pack(kind, native)| == 6)
      && (forall kind, wire :: |unpack(kind, wire)| == kind.Stride())
    }
  }

  /** Bytes a property occupies on the wire. */
  function WireStride(kind: PropKind, quant: QuantKind): nat {
    match quant
    case Ss3 => if kind.Quat? || kind.Basis? then 6 else kind.Stride()
    case Half => if kind.Vec3? then 6 else if kind.Vec2? then 4 else if kind.F32? then 2 else kind.Stride()
    case Lossless => kind.Stride()
  }

  // ------------------------------------------------------------------ binary16 lanes

  function LaneOf(bytes: seq<Byte>): (f: H.Single)
    requires |bytes| == 4
    ensures f.WellFormed()
  {
    LeBounded(bytes);
    Pow2Of64();
    H.SingleOf(LeValue(bytes))
  }

  function LaneBytes(f: H.Single): (bytes: seq<Byte>)
    requires f.WellFormed()
    ensures |bytes| == 4
  {
    LeBytes(f.Bits(), 4)
  }

  function HalfBytes(bits: nat): (bytes: seq<Byte>)
    ensures |bytes| == 2
  {
    LeBytes(bits, 2)
  }

  function HalfOf(bytes: seq<Byte>): (bits: nat)
    requires |bytes| == 2
    ensures bits < U16
  {
    LeBounded(bytes);
    Pow2Of64();
    LeValue(bytes)
  }

  function WidenedLane(bytes: seq<Byte>): (native: seq<Byte>)
    requires |bytes| == 2
    ensures |native| == 4
  {
    H.DecodeIsFiniteAndExact(HalfOf(bytes));
    LaneBytes(H.Decode(HalfOf(bytes)))
  }

  /** Each whole 4-byte lane as a half. */
  function HalvedLanes(native: seq<Byte>): seq<Byte> {
    if |native| < 4 then [] else HalfBytes(H.Encode(LaneOf(native[..4]))) + HalvedLanes(native[4..])
  }

  /** Each whole half as a 4-byte lane. */
  function WidenedLanes(wire: seq<Byte>): seq<Byte> {
    if |wire| < 2 then [] else WidenedLane(wire[..2]) + WidenedLanes(wire[2..])
  }

  lemma {:induction false} HalvedSize(native: seq<Byte>, lanes: nat)
    requires |native| == 4 * lanes
    ensures |HalvedLanes(native)| == 2 * lanes
  {
    if lanes > 0 {
      HalvedSize(native[4..], lanes - 1);
    }
  }

  lemma {:induction false} WidenedSize(wire: seq<Byte>, lanes: nat)
    requires |wire| == 2 * lanes
    ensures |WidenedLanes(wire)| == 4 * lanes
  {
    if lanes > 0 {
      WidenedSize(wire[2..], lanes - 1);
    }
  }

  lemma LaneRoundTrip(f: H.Single)
    requires f.WellFormed()
    ensures LaneOf(LaneBytes(f)) == f
  {
    Pow2Of64();
    LeRoundTrip(f.Bits(), 4);
    H.SingleRoundTrip(f);
  }

  lemma HalfRoundTrip(bits: nat)
    requires bits < U16
    ensures HalfOf(HalfBytes(bits)) == bits
  {
    Pow2Of64();
    LeRoundTrip(bits, 2);
  }

  /** A lane's trip through the wire yields what its next trip yields. */
  lemma LaneIsCanonical(native: seq<Byte>)
    requires |native| == 4
    ensures var once := WidenedLane(HalfBytes(H.Encode(LaneOf(native))));
            WidenedLane(HalfBytes(H.Encode(LaneOf(once)))) == once
  {
    var bits := H.Encode(LaneOf(native));
    H.EncodeIsFinite(LaneOf(native));
    HalfRoundTrip(bits);
    H.DecodeIsFiniteAndExact(bits);
    LaneRoundTrip(H.Decode(bits));
    H.ReencodeIsIdentity(bits);
  }

  lemma HalvedSplit(lane: seq<Byte>, more: seq<Byte>)
    requires |lane| == 4
    ensures HalvedLanes(lane + more) == HalfBytes(H.Encode(LaneOf(lane))) + HalvedLanes(more)
  {
    assert (lane + more)[..4] == lane && (lane + more)[4..] == more;
  }

  lemma WidenedSplit(half: seq<Byte>, more: seq<Byte>)
    requires |half| == 2
    ensures WidenedLanes(half + more) == WidenedLane(half) + WidenedLanes(more)
  {
    assert (half + more)[..2] == half && (half + more)[2..] == more;
  }

  lemma {:induction false} LanesAreCanonical(native: seq<Byte>)
    ensures var once := WidenedLanes(HalvedLanes(native));
            WidenedLanes(HalvedLanes(once)) == once
  {
    if |native| >= 4 {
      var half, more := HalfBytes(H.Encode(LaneOf(native[..4]))), HalvedLanes(native[4..]);
      WidenedSplit(half, more);
      LaneIsCanonical(native[..4]);
      LanesAreCanonical(native[4..]);
      HalvedSplit(WidenedLane(half), WidenedLanes(more));
      WidenedSplit(HalfBytes(H.Encode(LaneOf(WidenedLane(half)))), HalvedLanes(WidenedLanes(more)));
    }
  }

  // ------------------------------------------------------------------ one property

  predicate IsPacked(prop: PropSchema) {
    prop.quant.Ss3? && prop.quant.ValidFor(prop.kind)
  }

  predicate IsHalved(prop: PropSchema) {
    prop.quant.Half? && prop.quant.ValidFor(prop.kind)
  }

  /** How many 4-byte lanes a property of a halved kind has. */
  function LanesIn(kind: PropKind): nat {
    if kind.Vec3? then 3 else if kind.Vec2? then 2 else 1
  }

  lemma HalfSizes(prop: PropSchema)
    requires IsHalved(prop)
    ensures prop.kind.Stride() == 4 * LanesIn(prop.kind) && WireStride(prop.kind, prop.quant) == 2 * LanesIn(prop.kind)
  {
  }

  /** One property's wire form. */
  function EncodeProp(ss3: Ss3Codec, prop: PropSchema, native: seq<Byte>): seq<Byte>
    requires |native| == prop.kind.Stride()
  {
    if IsPacked(prop) then ss3.pack(prop.kind, native)
    else if IsHalved(prop) then HalvedLanes(native)
    else native
  }

  /** Its native form from exactly its wire width. */
  function DecodeProp(ss3: Ss3Codec, prop: PropSchema, wire: seq<Byte>): seq<Byte>
    requires |wire| == WireStride(prop.kind, prop.quant)
  {
    if IsPacked(prop) then ss3.unpack(prop.kind, wire)
    else if IsHalved(prop) then WidenedLanes(wire)
    else wire
  }

  lemma WireSizes(ss3: Ss3Codec, prop: PropSchema, native: seq<Byte>)
    requires ss3.Sized() && |native| == prop.kind.Stride()
    ensures |EncodeProp(ss3, prop, native)| == WireStride(prop.kind, prop.quant)
    ensures |DecodeProp(ss3, prop, EncodeProp(ss3, prop, native))| == prop.kind.Stride()
  {
    if IsHalved(prop) {
      HalfSizes(prop);
      HalvedSize(native, LanesIn(prop.kind));
    }
    NativeSize(ss3, prop, EncodeProp(ss3, prop, native));
  }

  lemma NativeSize(ss3: Ss3Codec, prop: PropSchema, wire: seq<Byte>)
    requires ss3.Sized() && |wire| == WireStride(prop.kind, prop.quant)
    ensures |DecodeProp(ss3, prop, wire)| == prop.kind.Stride()
  {
    if IsHalved(prop) {
      HalfSizes(prop);
      WidenedSize(wire, LanesIn(prop.kind));
    }
  }

  /** One trip through the wire. */
  function Trip(ss3: Ss3Codec, prop: PropSchema, native: seq<Byte>): (r: seq<Byte>)
    requires |native| == prop.kind.Stride()
  {
    var wire := EncodeProp(ss3, prop, native);
    if |wire| == WireStride(prop.kind, prop.quant) then DecodeProp(ss3, prop, wire) else native
  }

  /** A value the wire reproduces. */
  predicate Canonical(ss3: Ss3Codec, prop: PropSchema, native: seq<Byte>)
    requires |native| == prop.kind.Stride()
  {
    Trip(ss3, prop, native) == native
  }

  /** Repeated trips, stopping at the first that changes nothing. */
  ghost function Trips(ss3: Ss3Codec, prop: PropSchema, native: seq<Byte>, rounds: nat): (r: seq<Byte>)
    requires ss3.Sized() && |native| == prop.kind.Stride()
    ensures |r| == |native|
    decreases rounds
  {
    WireSizes(ss3, prop, native);
    if rounds == 0 then native else Trips(ss3, prop, Trip(ss3, prop, native), rounds - 1)
  }

  lemma {:induction false} FixedStays(ss3: Ss3Codec, prop: PropSchema, native: seq<Byte>, rounds: nat)
    requires ss3.Sized() && |native| == prop.kind.Stride() && Canonical(ss3, prop, native)
    ensures Trips(ss3, prop, native, rounds) == native
  {
    if rounds > 0 {
      FixedStays(ss3, prop, native, rounds - 1);
    }
  }

  const CANONICAL_ROUNDS: nat := 8

  /** Round-trip a value in place until it stops changing, eight times at most. */
  method CanonicalizeValue(ss3: Ss3Codec, prop: PropSchema, native: array<Byte>)
    requires ss3.Sized() && native.Length == prop.kind.Stride()
    modifies native
    ensures native[..] == if prop.quant.Lossless? then old(native[..])
                          else Trips(ss3, prop, old(native[..]), CANONICAL_ROUNDS)
  {
    if prop.quant.Lossless? {
      return;
    }
    ghost var start := native[..];
    var round := 0;
    while round < CANONICAL_ROUNDS
      invariant round <= CANONICAL_ROUNDS
      invariant Trips(ss3, prop, start, CANONICAL_ROUNDS) == Trips(ss3, prop, native[..], CANONICAL_ROUNDS - round)
    {
      var previous := native[..];
      WireSizes(ss3, prop, previous);
      var decoded := DecodeProp(ss3, prop, EncodeProp(ss3, prop, previous));
      forall i | 0 <= i < native.Length {
        native[i] := decoded[i];
      }
      assert native[..] == decoded;
      if native[..] == previous {
        FixedStays(ss3, prop, previous, CANONICAL_ROUNDS - round);
        return;
      }
      round := round + 1;
    }
  }

  /** Under Half, canonicalizing - however many rounds it is allowed - is one trip, and its result is canonical. */
  lemma HalfIsCanonicalAfterOneTrip(ss3: Ss3Codec, prop: PropSchema, native: seq<Byte>, rounds: nat)
    requires ss3.Sized() && |native| == prop.kind.Stride() && IsHalved(prop) && rounds > 0
    ensures Trips(ss3, prop, native, rounds) == Trip(ss3, prop, native)
    ensures |Trip(ss3, prop, native)| == |native| && Canonical(ss3, prop, Trip(ss3, prop, native))
  {
    WireSizes(ss3, prop, native);
    HalfTrip(ss3, prop, native);
    LanesAreCanonical(native);
    HalfTrip(ss3, prop, Trip(ss3, prop, native));
    FixedStays(ss3, prop, Trip(ss3, prop, native), rounds - 1);
  }

  lemma HalfTrip(ss3: Ss3Codec, prop: PropSchema, native: seq<Byte>)
    requires |native| == prop.kind.Stride() && IsHalved(prop)
    ensures Trip(ss3, prop, native) == WidenedLanes(HalvedLanes(native))
  {
    HalfSizes(prop);
    HalvedSize(native, LanesIn(prop.kind));
  }

  // ------------------------------------------------------------------ rows

  /** A property's bytes in a row that has them. */
  function Slice(prop: PropSchema, row: seq<Byte>): (s: seq<Byte>)
    requires prop.End() <= |row|
    ensures |s| == prop.kind.Stride()
  {
    row[prop.offset..prop.End()]
  }

  ghost predicate CanonicalRow(ss3: Ss3Codec, props: seq<PropSchema>, row: seq<Byte>) {
    && (forall i :: 0 <= i < |props| ==> props[i].End() <= |row|)
    && (forall i :: 0 <= i < |props| ==> CanonicalAt(ss3, props, row, i))
  }

  predicate CanonicalAt(ss3: Ss3Codec, props: seq<PropSchema>, row: seq<Byte>, i: nat)
    requires i < |props| && props[i].End() <= |row|
  {
    Canonical(ss3, props[i], Slice(props[i], row))
  }

  /** Which properties differ, a row too short for one counting as different. */
  function ChangedMask(props: seq<PropSchema>, a: seq<Byte>, b: seq<Byte>): (mask: seq<bool>)
    ensures |mask| == |props|
  {
    seq(|props|, i requires 0 <= i < |props| => Differs(props[i], a, b))
  }

  predicate Differs(prop: PropSchema, a: seq<Byte>, b: seq<Byte>) {
    prop.End() > |a| || prop.End() > |b| || Slice(prop, a) != Slice(prop, b)
  }

  /** A property is sent exactly when a byte of it differs, or one of the rows is too short to have it. */
  lemma SentIffChanged(props: seq<PropSchema>, a: seq<Byte>, b: seq<Byte>, i: nat)
    requires i < |props|
    ensures ChangedMask(props, a, b)[i]
       <==> (|a| < props[i].End() || |b| < props[i].End()
             || exists k :: props[i].offset <= k < props[i].End() && a[k] != b[k])
  {
    var prop := props[i];
    if prop.End() <= |a| && prop.End() <= |b| {
      if Slice(prop, a) != Slice(prop, b) {
        var j :| 0 <= j < prop.kind.Stride() && Slice(prop, a)[j] != Slice(prop, b)[j];
        assert a[prop.offset + j] != b[prop.offset + j];
      } else {
        forall k | prop.offset <= k < prop.End() ensures a[k] == b[k] {
          assert Slice(prop, a)[k - prop.offset] == a[k] && Slice(prop, b)[k - prop.offset] == b[k];
        }
      }
    }
  }

  function Everything(props: seq<PropSchema>): (mask: seq<bool>)
    ensures |mask| == |props|
  {
    seq(|props|, _ => true)
  }

  /** The masked properties from index `i` on, wire-encoded in schema order. */
  function MaskedWire(ss3: Ss3Codec, props: seq<PropSchema>, mask: seq<bool>, row: seq<Byte>, i: nat): seq<Byte>
    requires |mask| == |props| && i <= |props|
    requires forall k :: 0 <= k < |props| ==> props[k].End() <= |row|
    decreases |props| - i
  {
    if i == |props| then []
    else
      var field := if mask[i] then EncodeProp(ss3, props[i], Slice(props[i], row)) else [];
      field + MaskedWire(ss3, props, mask, row, i + 1)
  }

  function Overwritten(row: seq<Byte>, offset: nat, bytes: seq<Byte>): (r: seq<Byte>)
    requires offset + |bytes| <= |row|
    ensures |r| == |row|
  {
    row[..offset] + bytes + row[offset + |bytes|..]
  }

  /** Overwrite the masked properties from index `i` on out of a payload: the row, and the payload left over. */
  function Applied(ss3: Ss3Codec, props: seq<PropSchema>, mask: seq<bool>, payload: seq<Byte>, row: seq<Byte>, i: nat)
    : (r: Option<(seq<Byte>, seq<Byte>)>)
    requires ss3.Sized() && |mask| == |props| && i <= |props|
    ensures r.Some? ==> |r.value.0| == |row| && |r.value.1| <= |payload|
    decreases |props| - i
  {
    if i == |props| then Some((row, payload))
    else if !mask[i] then Applied(ss3, props, mask, payload, row, i + 1)
    else
      var width := WireStride(props[i].kind, props[i].quant);
      if props[i].End() > |row| || |payload| < width then None
      else
        NativeSize(ss3, props[i], payload[..width]);
        Applied(ss3, props, mask, payload[width..],
                Overwritten(row, props[i].offset, DecodeProp(ss3, props[i], payload[..width])), i + 1)
  }

  ghost predicate Agrees(prop: PropSchema, row: seq<Byte>, target: seq<Byte>) {
    prop.End() <= |row| && prop.End() <= |target| && Slice(prop, row) == Slice(prop, target)
  }

  /** Every property the mask leaves out already reads as in `target`. */
  ghost predicate RestAgrees(props: seq<PropSchema>, mask: seq<bool>, row: seq<Byte>, target: seq<Byte>)
    requires |mask| == |props|
  {
    forall k :: 0 <= k < |props| && !mask[k] ==> Agrees(props[k], row, target)
  }

  /** The first `count` bytes of `target`, and what `row` has after them. */
  function Blend(row: seq<Byte>, target: seq<Byte>, count: nat): (r: seq<Byte>)
    requires |row| == |target| && count <= |row|
    ensures |r| == |row|
  {
    target[..count] + row[count..]
  }

  lemma BlendWritten(row: seq<Byte>, target: seq<Byte>, prop: PropSchema)
    requires |row| == |target| && prop.End() <= |row|
    ensures Overwritten(Blend(row, target, prop.offset), prop.offset, Slice(prop, target))
         == Blend(row, target, prop.End())
  {
  }

  lemma BlendKept(row: seq<Byte>, target: seq<Byte>, prop: PropSchema)
    requires |row| == |target| && Agrees(prop, row, target)
    ensures Blend(row, target, prop.offset) == Blend(row, target, prop.End())
  {
    assert row[prop.offset..] == Slice(prop, row) + row[prop.End()..];
    assert target[..prop.End()] == target[..prop.offset] + Slice(prop, target);
  }

  lemma RowsFit(props: seq<PropSchema>, row: seq<Byte>)
    requires LaidOut(props) && |row| == RowStride(props)
    ensures forall k :: 0 <= k < |props| ==> props[k].End() <= |row|
  {
    forall k | 0 <= k < |props| ensures props[k].End() <= |row| {
      EndIsNextOffset(props, k);
    }
  }

  /** A property the mask leaves out is neither written nor read. */
  lemma OneKept(ss3: Ss3Codec, props: seq<PropSchema>, mask: seq<bool>, row: seq<Byte>, target: seq<Byte>,
                rest: seq<Byte>, i: nat)
    requires ss3.Sized() && |mask| == |props| && i < |props| && !mask[i]
    requires forall k :: 0 <= k < |props| ==> props[k].End() <= |target|
    ensures Applied(ss3, props, mask, MaskedWire(ss3, props, mask, target, i) + rest, row, i)
         == Applied(ss3, props, mask, MaskedWire(ss3, props, mask, target, i + 1) + rest, row, i + 1)
  {
    assert [] + MaskedWire(ss3, props, mask, target, i + 1) == MaskedWire(ss3, props, mask, target, i + 1);
  }

  /** One masked property read back is the target's slice, in place. */
  lemma OneWritten(ss3: Ss3Codec, props: seq<PropSchema>, mask: seq<bool>, row: seq<Byte>, target: seq<Byte>,
                   rest: seq<Byte>, i: nat)
    requires ss3.Sized() && |mask| == |props| && i < |props| && mask[i]
    requires |row| == |target| && CanonicalRow(ss3, props, target)
    ensures Applied(ss3, props, mask, MaskedWire(ss3, props, mask, target, i) + rest, row, i)
         == Applied(ss3, props, mask, MaskedWire(ss3, props, mask, target, i + 1) + rest,
                    Overwritten(row, props[i].offset, Slice(props[i], target)), i + 1)
  {
    var native := Slice(props[i], target);
    var head := EncodeProp(ss3, props[i], native);
    assert CanonicalAt(ss3, props, target, i);
    WireSizes(ss3, props[i], native);
    SplitsAt(head, MaskedWire(ss3, props, mask, target, i + 1), rest);
  }

  lemma SplitsAt(head: seq<Byte>, middle: seq<Byte>, rest: seq<Byte>)
    ensures (head + middle + rest)[..|head|] == head && (head + middle + rest)[|head|..] == middle + rest
  {
  }

  /** With the first properties of a canonical row in place, applying what the mask writes of the rest completes it. */
  lemma {:induction false} AppliedCompletes(ss3: Ss3Codec, props: seq<PropSchema>, mask: seq<bool>, row: seq<Byte>,
                                            target: seq<Byte>, rest: seq<Byte>, i: nat)
    requires ss3.Sized() && LaidOut(props) && |mask| == |props| && i <= |props|
    requires |row| == |target| == RowStride(props) && CanonicalRow(ss3, props, target)
    requires RestAgrees(props, mask, row, target)
    ensures StrideOf(props, i) <= |row|
    ensures Applied(ss3, props, mask, MaskedWire(ss3, props, mask, target, i) + rest,
                    Blend(row, target, StrideOf(props, i)), i)
         == Some((target, rest))
    decreases |props| - i
  {
    if i == |props| {
      assert [] + rest == rest && Blend(row, target, |row|) == target;
    } else {
      AppliedCompletes(ss3, props, mask, row, target, rest, i + 1);
      OneCompleted(ss3, props, mask, row, target, rest, i);
    }
  }

  /** Property `i`, masked or not, is in place once it has been seen to. */
  lemma OneCompleted(ss3: Ss3Codec, props: seq<PropSchema>, mask: seq<bool>, row: seq<Byte>, target: seq<Byte>,
                     rest: seq<Byte>, i: nat)
    requires ss3.Sized() && LaidOut(props) && |mask| == |props| && i < |props|
    requires |row| == |target| == RowStride(props) && CanonicalRow(ss3, props, target)
    requires mask[i] || Agrees(props[i], row, target)
    ensures StrideOf(props, i) <= StrideOf(props, i + 1) <= |row|
    ensures Applied(ss3, props, mask, MaskedWire(ss3, props, mask, target, i) + rest,
                    Blend(row, target, StrideOf(props, i)), i)
         == Applied(ss3, props, mask, MaskedWire(ss3, props, mask, target, i + 1) + rest,
                    Blend(row, target, StrideOf(props, i + 1)), i + 1)
  {
    EndIsNextOffset(props, i);
    assert Placed(props, i);
    var before := Blend(row, target, props[i].offset);
    if mask[i] {
      OneWritten(ss3, props, mask, before, target, rest, i);
      BlendWritten(row, target, props[i]);
    } else {
      OneKept(ss3, props, mask, before, target, rest, i);
      BlendKept(row, target, props[i]);
    }
  }

  /**
   * Applying what a mask wrote of a canonical row, onto any row that agrees elsewhere, gives back that row
   * exactly, and consumes exactly those bytes.
   */
  lemma AppliedRestores(ss3: Ss3Codec, props: seq<PropSchema>, mask: seq<bool>, row: seq<Byte>, target: seq<Byte>,
                        rest: seq<Byte>)
    requires ss3.Sized() && LaidOut(props) && |mask| == |props|
    requires |row| == |target| == RowStride(props) && CanonicalRow(ss3, props, target)
    requires RestAgrees(props, mask, row, target)
    ensures Applied(ss3, props, mask, MaskedWire(ss3, props, mask, target, 0) + rest, row, 0) == Some((target, rest))
  {
    AppliedCompletes(ss3, props, mask, row, target, rest, 0);
    assert Blend(row, target, 0) == row;
  }

  /** A masked delta against any base of the row's length gives back the row. */
  lemma DeltaRestores(ss3: Ss3Codec, props: seq<PropSchema>, base: seq<Byte>, row: seq<Byte>, rest: seq<Byte>)
    requires ss3.Sized() && LaidOut(props) && |base| == |row| == RowStride(props) && CanonicalRow(ss3, props, row)
    ensures var mask := ChangedMask(props, base, row);
            Applied(ss3, props, mask, MaskedWire(ss3, props, mask, row, 0) + rest, base, 0) == Some((row, rest))
  {
    RowsFit(props, row);
    AppliedRestores(ss3, props, ChangedMask(props, base, row), base, row, rest);
  }

  /** A full row over any row of its length gives back the row. */
  lemma FullRestores(ss3: Ss3Codec, props: seq<PropSchema>, was: seq<Byte>, row: seq<Byte>, rest: seq<Byte>)
    requires ss3.Sized() && LaidOut(props) && |was| == |row| == RowStride(props) && CanonicalRow(ss3, props, row)
    ensures Applied(ss3, props, Everything(props), MaskedWire(ss3, props, Everything(props), row, 0) + rest, was, 0)
         == Some((row, rest))
  {
    AppliedRestores(ss3, props, Everything(props), was, row, rest);
  }

  /** Wire bytes the masked properties from `i` on occupy. */
  function MaskedSize(props: seq<PropSchema>, mask: seq<bool>, i: nat): nat
    requires |mask| == |props| && i <= |props|
    decreases |props| - i
  {
    if i == |props| then 0
    else (if mask[i] then WireStride(props[i].kind, props[i].quant) else 0) + MaskedSize(props, mask, i + 1)
  }

  /** Wire bytes a whole row occupies. */
  function WireRowStride(props: seq<PropSchema>): nat {
    MaskedSize(props, Everything(props), 0)
  }

  /** The size is known from the mask alone. */
  lemma {:induction false} MaskedWireSize(ss3: Ss3Codec, props: seq<PropSchema>, mask: seq<bool>, row: seq<Byte>,
                                          i: nat)
    requires ss3.Sized() && |mask| == |props| && i <= |props|
    requires forall k :: 0 <= k < |props| ==> props[k].End() <= |row|
    ensures |MaskedWire(ss3, props, mask, row, i)| == MaskedSize(props, mask, i)
    decreases |props| - i
  {
    if i < |props| {
      WireSizes(ss3, props[i], Slice(props[i], row));
      MaskedWireSize(ss3, props, mask, row, i + 1);
    }
  }

  /** Applying consumes exactly the masked size, or refuses. */
  lemma {:induction false} AppliedConsumes(ss3: Ss3Codec, props: seq<PropSchema>, mask: seq<bool>, payload: seq<Byte>,
                                           row: seq<Byte>, i: nat)
    requires ss3.Sized() && |mask| == |props| && i <= |props|
    ensures var r := Applied(ss3, props, mask, payload, row, i);
            r.Some? ==> |payload| == MaskedSize(props, mask, i) + |r.value.1|
    decreases |props| - i
  {
    if i < |props| {
      if !mask[i] {
        AppliedConsumes(ss3, props, mask, payload, row, i + 1);
      } else {
        var width := WireStride(props[i].kind, props[i].quant);
        if props[i].End() <= |row| && |payload| >= width {
          NativeSize(ss3, props[i], payload[..width]);
          AppliedConsumes(ss3, props, mask, payload[width..],
                          Overwritten(row, props[i].offset, DecodeProp(ss3, props[i], payload[..width])), i + 1);
        }
      }
    }
  }

  // ------------------------------------------------------------------ the row coders

  method WriteMaskedWire(ss3: Ss3Codec, props: seq<PropSchema>, mask: seq<bool>, row: seq<Byte>)
    returns (out: seq<Byte>)
    requires |mask| == |props| && forall k :: 0 <= k < |props| ==> props[k].End() <= |row|
    ensures out == MaskedWire(ss3, props, mask, row, 0)
  {
    out := [];
    for i := 0 to |props|
      invariant out + MaskedWire(ss3, props, mask, row, i) == MaskedWire(ss3, props, mask, row, 0)
    {
      var field := if mask[i] then EncodeProp(ss3, props[i], Slice(props[i], row)) else [];
      Associate(out, field, MaskedWire(ss3, props, mask, row, i + 1));
      out := out + field;
    }
    assert out + [] == out;
  }

  /** Overwrite `row` in place; a short payload or row leaves it half written and answers none. */
  method ApplyMaskedWire(ss3: Ss3Codec, props: seq<PropSchema>, mask: seq<bool>, payload: seq<Byte>, row: array<Byte>)
    returns (consumed: Option<nat>)
    requires ss3.Sized() && |mask| == |props|
    modifies row
    ensures var r := Applied(ss3, props, mask, payload, old(row[..]), 0);
            && (consumed.Some? <==> r.Some?)
            && (r.Some? ==> row[..] == r.value.0 && consumed.value == |payload| - |r.value.1|)
  {
    ghost var whole := Applied(ss3, props, mask, payload, row[..], 0);
    var cursor := 0;
    for i := 0 to |props|
      invariant cursor <= |payload|
      invariant whole == Applied(ss3, props, mask, payload[cursor..], row[..], i)
    {
      if mask[i] {
        var width := WireStride(props[i].kind, props[i].quant);
        if props[i].End() > row.Length || |payload| - cursor < width {
          return None;
        }
        var field := payload[cursor..cursor + width];
        assert payload[cursor..][..width] == field && payload[cursor..][width..] == payload[cursor + width..];
        NativeSize(ss3, props[i], field);
        Overwrite(row, props[i].offset, DecodeProp(ss3, props[i], field));
        cursor := cursor + width;
      }
    }
    return Some(cursor);
  }

  method Overwrite(row: array<Byte>, offset: nat, bytes: seq<Byte>)
    requires offset + |bytes| <= row.Length
    modifies row
    ensures row[..] == Overwritten(old(row[..]), offset, bytes)
  {
    forall k | 0 <= k < |bytes| {
      row[offset + k] := bytes[k];
    }
    assert row[..] == Overwritten(old(row[..]), offset, bytes);
  }

  method ComputeChangedMask(props: seq<PropSchema>, a: seq<Byte>, b: seq<Byte>) returns (out: seq<bool>)
    ensures out == ChangedMask(props, a, b)
  {
    out := [];
    for i := 0 to |props|
      invariant out == ChangedMask(props, a, b)[..i]
    {
      var prop := props[i];
      if prop.End() > |a| || prop.End() > |b| {
        out := out + [true];
      } else {
        out := out + [a[prop.offset..prop.End()] != b[prop.offset..prop.End()]];
      }
    }
    assert ChangedMask(props, a, b)[..|props|] == ChangedMask(props, a, b);
  }
}

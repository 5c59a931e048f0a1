/** Manifest frames as bytes. */
module ManifestCodec {
  import opened Bytes
  import opened Wire
  import opened Sequences
  import opened Manifest
  import opened ManifestProtocol

  const I32_MAX: nat := 0x7fff_ffff

  predicate EntryFits(e: ManifestEntry) {
    e.slot < U16 && e.id < U64 && e.stateHash < U32 && e.inputHash < U32 && e.owner <= I32_MAX && e.seat < U16
  }

  /** The row a receiver ends with: an owner below zero is published as nobody. */
  function AsPublished(e: ManifestEntry): ManifestEntry {
    if e.owner < 0 then e.(owner := 0) else e
  }

  function EntryBytes(e: ManifestEntry): seq<Byte> {
    LeBytes(e.slot, SLOT_WIDTH) + (VarintBytes(e.id) + (LeBytes(e.stateHash, 4) + (LeBytes(e.inputHash, 4)
      + (VarintBytes(AsPublished(e).owner) + LeBytes(e.seat, 2)))))
  }

  /** A peer id no transport can mint reads as unowned. */
  function OwnerOf(raw: nat): nat {
    if raw <= I32_MAX then raw else 0
  }

  function EntryOf(bs: seq<Byte>): (r: Parsed<ManifestEntry>)
    ensures r.Ok? ==> EntryFits(r.value.0) && r.value.0.owner >= 0
  {
    Pow2Of64();
    var (slot, r0) :- UintOf(bs, SLOT_WIDTH);
    var (id, r1) :- VarintOf(r0);
    var (stateHash, r2) :- UintOf(r1, 4);
    var (inputHash, r3) :- UintOf(r2, 4);
    var (owner, r4) :- VarintOf(r3);
    var (seat, r5) :- UintOf(r4, 2);
    Ok((ManifestEntry(slot, id, stateHash, inputHash, OwnerOf(owner), seat), r5))
  }

  /** A row's bytes with any owner a varint can carry: one past every peer id reads as nobody. */
  lemma EntryReads(slot: nat, id: nat, stateHash: nat, inputHash: nat, owner: nat, seat: nat, rest: seq<Byte>)
    requires slot < U16 && id < U64 && stateHash < U32 && inputHash < U32 && owner < U64 && seat < U16
    ensures EntryOf(LeBytes(slot, SLOT_WIDTH) + (VarintBytes(id) + (LeBytes(stateHash, 4) + (LeBytes(inputHash, 4)
              + (VarintBytes(owner) + (LeBytes(seat, 2) + rest))))))
         == Ok((ManifestEntry(slot, id, stateHash, inputHash, if owner > 0x7fff_ffff then 0 else owner, seat), rest))
  {
    Pow2Of64();
    var r4 := LeBytes(seat, 2) + rest;
    var r3 := VarintBytes(owner) + r4;
    var r2 := LeBytes(inputHash, 4) + r3;
    var r1 := LeBytes(stateHash, 4) + r2;
    UintRoundTrip(slot, SLOT_WIDTH, VarintBytes(id) + r1);
    VarintRoundTrip(id, r1);
    UintRoundTrip(stateHash, 4, r2);
    UintRoundTrip(inputHash, 4, r3);
    VarintRoundTrip(owner, r4);
    UintRoundTrip(seat, 2, rest);
  }

  lemma EntryRoundTrip(e: ManifestEntry, rest: seq<Byte>)
    requires EntryFits(e)
    ensures EntryOf(EntryBytes(e) + rest) == Ok((e.(owner := if e.owner < 0 then 0 else e.owner), rest))
    ensures EntryOf(EntryBytes(e) + rest) == Ok((AsPublished(e), rest))
  {
    var owner := AsPublished(e).owner;
    EntryReads(e.slot, e.id, e.stateHash, e.inputHash, owner, e.seat, rest);
    EntryOnto(LeBytes(e.slot, SLOT_WIDTH), VarintBytes(e.id), LeBytes(e.stateHash, 4), LeBytes(e.inputHash, 4),
              VarintBytes(owner), LeBytes(e.seat, 2), rest);
  }

  lemma EntryOnto(a: seq<Byte>, b: seq<Byte>, c: seq<Byte>, d: seq<Byte>, e: seq<Byte>, f: seq<Byte>, rest: seq<Byte>)
    ensures a + (b + (c + (d + (e + f)))) + rest == a + (b + (c + (d + (e + (f + rest)))))
  {
    Associate(a, b + (c + (d + (e + f))), rest);
    Associate(b, c + (d + (e + f)), rest);
    Associate(c, d + (e + f), rest);
    Associate(d, e + f, rest);
    Associate(e, f, rest);
  }

  // ------------------------------------------------------------------ counted runs

  function RunBytes(entries: seq<ManifestEntry>): seq<Byte> {
    if entries == [] then [] else EntryBytes(entries[0]) + RunBytes(entries[1..])
  }

  function RunOf(bs: seq<Byte>, count: nat): (r: Parsed<seq<ManifestEntry>>)
    ensures r.Ok? ==> |r.value.0| == count
    decreases count
  {
    if count == 0 then Ok(([], bs))
    else
      var (e, r0) :- EntryOf(bs);
      var (more, r1) :- RunOf(r0, count - 1);
      Ok(([e] + more, r1))
  }

  function SlotsBytes(slots: seq<nat>): seq<Byte> {
    if slots == [] then [] else LeBytes(slots[0], SLOT_WIDTH) + SlotsBytes(slots[1..])
  }

  function SlotRunOf(bs: seq<Byte>, count: nat): (r: Parsed<seq<nat>>)
    ensures r.Ok? ==> |r.value.0| == count
    decreases count
  {
    if count == 0 then Ok(([], bs))
    else
      var (slot, r0) :- UintOf(bs, SLOT_WIDTH);
      var (more, r1) :- SlotRunOf(r0, count - 1);
      Ok(([slot] + more, r1))
  }

  function EntriesBytes(entries: seq<ManifestEntry>): seq<Byte> {
    VarintBytes(|entries|) + RunBytes(entries)
  }

  function EntriesOf(bs: seq<Byte>): Parsed<seq<ManifestEntry>> {
    var (count, rest) :- VarintOf(bs);
    RunOf(rest, count)
  }

  function AllPublished(entries: seq<ManifestEntry>): seq<ManifestEntry> {
    seq(|entries|, i requires 0 <= i < |entries| => AsPublished(entries[i]))
  }

  lemma RunOnto(entries: seq<ManifestEntry>, rest: seq<Byte>)
    requires entries != []
    ensures RunBytes(entries) + rest == EntryBytes(entries[0]) + (RunBytes(entries[1..]) + rest)
    ensures AllPublished(entries) == [AsPublished(entries[0])] + AllPublished(entries[1..])
  {
    Associate(EntryBytes(entries[0]), RunBytes(entries[1..]), rest);
  }

  /** A row that reads, then whatever run follows it. */
  lemma OneEntry(bs: seq<Byte>, e: ManifestEntry, later: seq<Byte>, count: nat, more: seq<ManifestEntry>,
                 rest: seq<Byte>)
    requires EntryOf(bs) == Ok((e, later)) && RunOf(later, count) == Ok((more, rest))
    ensures RunOf(bs, count + 1) == Ok(([e] + more, rest))
  {
  }

  lemma {:induction false} RunRoundTrip(entries: seq<ManifestEntry>, rest: seq<Byte>)
    requires forall e :: e in entries ==> EntryFits(e)
    ensures RunOf(RunBytes(entries) + rest, |entries|) == Ok((AllPublished(entries), rest))
  {
    if entries == [] {
      assert RunBytes(entries) + rest == rest && AllPublished(entries) == [];
    } else {
      var later := RunBytes(entries[1..]) + rest;
      RunOnto(entries, rest);
      EntryRoundTrip(entries[0], later);
      RunRoundTrip(entries[1..], rest);
      OneEntry(EntryBytes(entries[0]) + later, AsPublished(entries[0]), later, |entries| - 1,
               AllPublished(entries[1..]), rest);
    }
  }

  lemma {:induction false} SlotRunRoundTrip(slots: seq<nat>, rest: seq<Byte>)
    requires forall i :: 0 <= i < |slots| ==> slots[i] < U16
    ensures SlotRunOf(SlotsBytes(slots) + rest, |slots|) == Ok((slots, rest))
  {
    if slots == [] {
      assert SlotsBytes(slots) + rest == rest;
    } else {
      var later := SlotsBytes(slots[1..]) + rest;
      Associate(LeBytes(slots[0], SLOT_WIDTH), SlotsBytes(slots[1..]), rest);
      SlotBack(slots[0], later);
      SlotRunRoundTrip(slots[1..], rest);
      OneSlot(LeBytes(slots[0], SLOT_WIDTH) + later, slots[0], later, |slots| - 1, slots[1..], rest);
      assert [slots[0]] + slots[1..] == slots;
    }
  }

  lemma OneSlot(bs: seq<Byte>, slot: nat, later: seq<Byte>, count: nat, more: seq<nat>, rest: seq<Byte>)
    requires UintOf(bs, SLOT_WIDTH) == Ok((slot, later)) && SlotRunOf(later, count) == Ok((more, rest))
    ensures SlotRunOf(bs, count + 1) == Ok(([slot] + more, rest))
  {
  }

  /** A whole table survives the wire, owners below zero read as nobody. */
  lemma EntriesRoundTrip(entries: seq<ManifestEntry>, rest: seq<Byte>)
    requires |entries| < U64 && forall e :: e in entries ==> EntryFits(e)
    ensures EntriesOf(EntriesBytes(entries) + rest) == Ok((AllPublished(entries), rest))
    ensures AllPublished(entries) == entries <==> forall e :: e in entries ==> e.owner >= 0
  {
    assert EntriesBytes(entries) + rest == VarintBytes(|entries|) + (RunBytes(entries) + rest);
    VarintRoundTrip(|entries|, RunBytes(entries) + rest);
    RunRoundTrip(entries, rest);
    if AllPublished(entries) == entries {
      forall i | 0 <= i < |entries| ensures entries[i].owner >= 0 {
        assert AllPublished(entries)[i] == entries[i];
      }
    }
  }

  // ------------------------------------------------------------------ deltas

  predicate DeltaFits(delta: ManifestDelta) {
    && delta.baseGeneration < U64 && delta.generation < U64 && |delta.removed| < U64 && |delta.added| < U64
    && (forall i :: 0 <= i < |delta.removed| ==> delta.removed[i] < U16)
    && (forall e :: e in delta.added ==> EntryFits(e) && e.owner >= 0)
  }

  function DeltaBytes(delta: ManifestDelta): seq<Byte> {
    VarintBytes(delta.baseGeneration) + (VarintBytes(delta.generation) + (VarintBytes(|delta.removed|)
      + (SlotsBytes(delta.removed) + EntriesBytes(delta.added))))
  }

  function DeltaOf(bs: seq<Byte>): Parsed<ManifestDelta> {
    var (base, r0) :- VarintOf(bs);
    var (generation, r1) :- VarintOf(r0);
    var (count, r2) :- VarintOf(r1);
    var (removed, r3) :- SlotRunOf(r2, count);
    var (added, r4) :- EntriesOf(r3);
    Ok((ManifestDelta(base, generation, removed, added), r4))
  }

  /** A delta survives the wire whole. */
  lemma DeltaRoundTrip(delta: ManifestDelta, rest: seq<Byte>)
    requires DeltaFits(delta)
    ensures DeltaOf(DeltaBytes(delta) + rest) == Ok((delta, rest))
  {
    var r3 := EntriesBytes(delta.added) + rest;
    var r2 := SlotsBytes(delta.removed) + r3;
    var r1 := VarintBytes(|delta.removed|) + r2;
    var r0 := VarintBytes(delta.generation) + r1;
    assert DeltaBytes(delta) + rest == VarintBytes(delta.baseGeneration) + r0;
    VarintRoundTrip(delta.baseGeneration, r0);
    VarintRoundTrip(delta.generation, r1);
    VarintRoundTrip(|delta.removed|, r2);
    SlotRunRoundTrip(delta.removed, r3);
    EntriesRoundTrip(delta.added, rest);
  }

  // ------------------------------------------------------------------ published frames survive the wire

  /** Every row within its widths and driven by a peer or by nobody. */
  ghost predicate TableFits(table: Table) {
    Filed(table) && forall slot :: slot in table ==> EntryFits(table[slot]) && table[slot].owner >= 0
  }

  lemma AscendingIndex(s: seq<nat>, i: nat)
    requires StrictlyAscending(s) && i < |s|
    ensures s[i] >= i
  {
    if i > 0 {
      AscendingIndex(s, i - 1);
    }
  }

  /** Sixteen-bit slots make a table, or a list of them, no longer than sixteen bits can count. */
  lemma SlotsAreFew(slots: set<nat>)
    requires forall slot :: slot in slots ==> slot < U16
    ensures |Ascending(slots)| <= U16
    ensures forall i :: 0 <= i < |Ascending(slots)| ==> Ascending(slots)[i] < U16
  {
    var s := Ascending(slots);
    forall i | 0 <= i < |s| ensures s[i] < U16 {
      assert s[i] in Elements(s);
    }
    if s != [] { AscendingIndex(s, |s| - 1); }
  }

  lemma RowsFit(table: Table)
    requires TableFits(table)
    ensures |RowsOf(table)| <= U16 && forall e :: e in RowsOf(table) ==> EntryFits(e) && e.owner >= 0
  {
    RowsOfAscending(table);
    forall slot | slot in table.Keys ensures slot < U16 {
      assert table[slot].slot == slot;
    }
    SlotsAreFew(table.Keys);
  }

  /** The delta a server publishes reaches a peer as it was, whatever else is on the channel. */
  lemma PublishedDeltaSurvives(before: Table, after: Table, base: nat, generation: nat, rest: seq<Byte>)
    requires TableFits(before) && TableFits(after) && base < U64 && generation < U64
    ensures var delta := DeltaBetween(before, after, base, generation);
            DeltaOf(DeltaBytes(delta) + rest) == Ok((delta, rest))
  {
    assert TableFits(Stated(before, after));
    RowsFit(Stated(before, after));
    forall slot | slot in Retired(before, after) ensures slot < U16 {
      assert before[slot].slot == slot;
    }
    SlotsAreFew(Retired(before, after));
    DeltaRoundTrip(DeltaBetween(before, after, base, generation), rest);
  }

  /** And so does the whole table. */
  lemma PublishedTableSurvives(table: Table, rest: seq<Byte>)
    requires TableFits(table)
    ensures EntriesOf(EntriesBytes(RowsOf(table)) + rest) == Ok((RowsOf(table), rest))
  {
    RowsFit(table);
    EntriesRoundTrip(RowsOf(table), rest);
  }

  // ------------------------------------------------------------------ the coders

  method WriteEntry(e: ManifestEntry, writer: Writer)
    requires EntryFits(e)
    modifies writer
    ensures writer.buf == old(writer.buf) + EntryBytes(e)
  {
    ghost var start := writer.buf;
    WriteNames(e, writer);
    ghost var named := writer.buf;
    WriteDriver(e, writer);
    Associate(start, NameBytes(e), DriverBytes(e));
    EntryInTwo(e);
  }

  /** The half of a row that says what the slot names. */
  function NameBytes(e: ManifestEntry): seq<Byte> {
    LeBytes(e.slot, SLOT_WIDTH) + VarintBytes(e.id) + LeBytes(e.stateHash, 4)
  }

  /** The half that says who drives it. */
  function DriverBytes(e: ManifestEntry): seq<Byte> {
    LeBytes(e.inputHash, 4) + VarintBytes(AsPublished(e).owner) + LeBytes(e.seat, 2)
  }

  lemma EntryInTwo(e: ManifestEntry)
    ensures EntryBytes(e) == NameBytes(e) + DriverBytes(e)
  {
  }

  lemma ThreeOnto(start: seq<Byte>, a: seq<Byte>, b: seq<Byte>, c: seq<Byte>)
    ensures start + a + b + c == start + (a + b + c)
  {
    Associate(start, a, b);
    Associate(start, a + b, c);
  }

  method WriteNames(e: ManifestEntry, writer: Writer)
    requires EntryFits(e)
    modifies writer
    ensures writer.buf == old(writer.buf) + NameBytes(e)
  {
    FieldsFit(e);
    ThreeOnto(writer.buf, LeBytes(e.slot, SLOT_WIDTH), VarintBytes(e.id), LeBytes(e.stateHash, 4));
    writer.Uint(e.slot, SLOT_WIDTH);
    writer.Varint(e.id);
    writer.Uint(e.stateHash, 4);
  }

  method WriteDriver(e: ManifestEntry, writer: Writer)
    requires EntryFits(e)
    modifies writer
    ensures writer.buf == old(writer.buf) + DriverBytes(e)
  {
    FieldsFit(e);
    ThreeOnto(writer.buf, LeBytes(e.inputHash, 4), VarintBytes(AsPublished(e).owner), LeBytes(e.seat, 2));
    writer.Uint(e.inputHash, 4);
    writer.Varint(AsPublished(e).owner);
    writer.Uint(e.seat, 2);
  }

  lemma FieldsFit(e: ManifestEntry)
    requires EntryFits(e)
    ensures e.slot < Pow2(8 * SLOT_WIDTH) && e.seat < Pow2(8 * 2) && e.stateHash < Pow2(8 * 4)
            && e.inputHash < Pow2(8 * 4)
    ensures AsPublished(e).owner < U64
  {
    Pow2Of64();
  }

  method WriteEntries(entries: seq<ManifestEntry>, writer: Writer)
    requires |entries| < U64 && forall e :: e in entries ==> EntryFits(e)
    modifies writer
    ensures writer.buf == old(writer.buf) + EntriesBytes(entries)
  {
    ghost var start := writer.buf;
    writer.Varint(|entries|);
    ghost var counted := writer.buf;
    for i := 0 to |entries|
      invariant writer.buf + RunBytes(entries[i..]) == counted + RunBytes(entries)
    {
      ghost var before := writer.buf;
      WriteEntry(entries[i], writer);
      assert entries[i..][1..] == entries[i + 1..];
      Associate(before, EntryBytes(entries[i]), RunBytes(entries[i + 1..]));
    }
    assert entries[|entries|..] == [] && writer.buf + [] == writer.buf;
    Associate(start, VarintBytes(|entries|), RunBytes(entries));
  }

  method ReadEntry(reader: Reader) returns (r: Result<ManifestEntry>)
    requires reader.Valid()
    modifies reader
    ensures reader.Valid() && old(reader.pos) <= reader.pos
    ensures reader.Answers(r, EntryOf(old(reader.Rest())))
  {
    var slot :- reader.Uint(SLOT_WIDTH);
    var id :- reader.Varint();
    var stateHash :- reader.Uint(4);
    var inputHash :- reader.Uint(4);
    var owner :- reader.Varint();
    var seat :- reader.Uint(2);
    return Ok(ManifestEntry(slot, id, stateHash, inputHash, OwnerOf(owner), seat));
  }

  method ReadEntries(reader: Reader) returns (r: Result<seq<ManifestEntry>>)
    requires reader.Valid()
    modifies reader
    ensures reader.Valid() && old(reader.pos) <= reader.pos
    ensures reader.Answers(r, EntriesOf(old(reader.Rest())))
  {
    var count :- reader.Varint();
    ghost var start := reader.Rest();
    var entries: seq<ManifestEntry> := [];
    NothingBefore(RunOf(start, count));
    for i := 0 to count
      invariant reader.Valid() && old(reader.pos) <= reader.pos
      invariant RunOf(start, count) == Prepend(entries, RunOf(reader.Rest(), count - i))
    {
      ghost var here := reader.Rest();
      var e :- ReadEntry(reader);
      OneMoreEntry(entries, here, count - i);
      entries := entries + [e];
    }
    assert entries + [] == entries;
    return Ok(entries);
  }

  function Prepend(entries: seq<ManifestEntry>, parsed: Parsed<seq<ManifestEntry>>): Parsed<seq<ManifestEntry>> {
    if parsed.Ok? then Ok((entries + parsed.value.0, parsed.value.1)) else parsed
  }

  lemma NothingBefore(parsed: Parsed<seq<ManifestEntry>>)
    ensures Prepend([], parsed) == parsed
  {
    if parsed.Ok? { assert [] + parsed.value.0 == parsed.value.0; }
  }

  lemma OneMoreEntry(entries: seq<ManifestEntry>, bs: seq<Byte>, count: nat)
    requires count > 0 && EntryOf(bs).Ok?
    ensures var (e, rest) := EntryOf(bs).value;
            Prepend(entries, RunOf(bs, count)) == Prepend(entries + [e], RunOf(rest, count - 1))
  {
    var (e, rest) := EntryOf(bs).value;
    var more := RunOf(rest, count - 1);
    if more.Ok? { assert entries + ([e] + more.value.0) == entries + [e] + more.value.0; }
  }
}

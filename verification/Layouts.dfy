/** The wire byte by byte: one of each frame and field, written out. */
module Layouts {
  import opened Bytes
  import opened Options
  import opened Schema
  import opened Wire
  import opened Frames
  import opened Manifest
  import Quant
  import MC = ManifestCodec
  import SB = StateBlock
  import IB = InputBlock
  import Session

  /** Fixed-width fields are little-endian. */
  lemma TwoBytes(a: Byte, b: Byte)
    ensures LeBytes(a + 0x100 * b, 2) == [a, b]
  {
    var v := a + 0x100 * b;
    assert v / 256 == b && v % 256 == a;
    assert LeBytes(b, 1) == [b] + LeBytes(0, 0);
  }

  lemma FourBytes(a: Byte, b: Byte, c: Byte, d: Byte)
    ensures LeBytes(a + 0x100 * b + 0x1_0000 * c + 0x100_0000 * d, 4) == [a, b, c, d]
  {
    var v := a + 0x100 * b + 0x1_0000 * c + 0x100_0000 * d;
    var w := c + 0x100 * d;
    assert v / 256 == b + 0x100 * w && v % 256 == a;
    assert (v / 256) / 256 == w && (v / 256) % 256 == b;
    TwoBytes(c, d);
    assert LeBytes(v / 256, 3) == [b] + LeBytes(w, 2);
  }

  lemma EightBytes()
    ensures LeBytes(0x0807_0605_0403_0201, 8) == [1, 2, 3, 4, 5, 6, 7, 8]
  {
    FourBytes(5, 6, 7, 8);
    assert LeBytes(0x0807_0605_04, 5) == [4] + LeBytes(0x0807_0605, 4);
    assert LeBytes(0x0807_0605_0403, 6) == [3] + LeBytes(0x0807_0605_04, 5);
    assert LeBytes(0x0807_0605_0403_02, 7) == [2] + LeBytes(0x0807_0605_0403, 6);
  }

  /** A varint carries seven bits a byte, low bits first, every byte but the last with its top bit set. */
  lemma VarintOfOneTwoThree(a: nat, b: nat, c: nat)
    requires a < 128 && 0 < b < 128 && 0 < c < 128
    ensures VarintBytes(a) == [a]
    ensures VarintBytes(a + 128 * b) == [a + 128, b]
    ensures VarintBytes(a + 128 * b + 128 * 128 * c) == [a + 128, b + 128, c]
  {
    Quotients(a, b);
    Quotients(a, b + 128 * c);
    Quotients(b, c);
    assert VarintBytes(b) == [b] && VarintBytes(c) == [c];
    assert VarintBytes(b + 128 * c) == [b + 128] + VarintBytes(c);
  }

  lemma Quotients(low: nat, high: nat)
    requires low < 128
    ensures (low + 128 * high) / 128 == high && (low + 128 * high) % 128 == low
  {
  }

  /**
   * A header: kind, tick, how far the acknowledged tick trails it, the bits and the token, the margin in two's
   * complement, the flags, the count.
   */
  lemma AHeader()
    ensures HeaderBytes(FrameHeader(ClientInput, 5, 3, 0x0403_0201, 0x0807_0605, -2, 9, 7))
         == [0x02, 5, 4, 1, 2, 3, 4, 5, 6, 7, 8, 254, 9, 7]
  {
    ZigzagInterleaves(2);
    FourBytes(1, 2, 3, 4);
    FourBytes(5, 6, 7, 8);
  }

  /** A manifest row: slot, id, the two hashes, owner, seat. */
  lemma AManifestRow()
    ensures MC.EntryBytes(ManifestEntry(0x0201, 100, 0x0605_0403, 0x0a09_0807, 11, 0x0d0c))
         == [1, 2] + [100] + [3, 4, 5, 6] + [7, 8, 9, 10] + [11] + [12, 13]
  {
    TwoBytes(1, 2);
    FourBytes(3, 4, 5, 6);
    FourBytes(7, 8, 9, 10);
    TwoBytes(12, 13);
    RowIs(ManifestEntry(0x0201, 100, 0x0605_0403, 0x0a09_0807, 11, 0x0d0c),
          [1, 2], [100], [3, 4, 5, 6], [7, 8, 9, 10], [11], [12, 13]);
  }

  lemma RowIs(row: ManifestEntry, a: seq<Byte>, b: seq<Byte>, c: seq<Byte>, d: seq<Byte>, e: seq<Byte>, f: seq<Byte>)
    requires row.owner >= 0 && LeBytes(row.slot, SLOT_WIDTH) == a && VarintBytes(row.id) == b
    requires LeBytes(row.stateHash, 4) == c && LeBytes(row.inputHash, 4) == d
    requires VarintBytes(row.owner) == e && LeBytes(row.seat, 2) == f
    ensures MC.EntryBytes(row) == a + b + c + d + e + f
  {
    SixFields(a, b, c, d, e, f);
  }

  lemma SixFields(a: seq<Byte>, b: seq<Byte>, c: seq<Byte>, d: seq<Byte>, e: seq<Byte>, f: seq<Byte>)
    ensures a + (b + (c + (d + (e + f)))) == a + b + c + d + e + f
  {
  }

  /** A manifest delta: the two generations, the retired slots behind their count, the rows behind theirs. */
  lemma AManifestDelta()
    ensures MC.DeltaBytes(ManifestDelta(6, 7, [0x0201, 0x0403], [])) == [6, 7, 2, 1, 2, 3, 4, 0]
  {
    TwoBytes(1, 2);
    TwoBytes(3, 4);
    var slots := [0x0201, 0x0403];
    assert slots[1..] == [0x0403] && [0x0403][1..] == [];
    assert MC.SlotsBytes([0x0403]) == [3, 4];
  }

  const TWO_FLAGS: seq<PropSchema> :=
    [PropSchema("a", Bool, State, 0, Lossless), PropSchema("b", Bool, State, 1, Lossless)]

  /** What was sent of a changed second flag. */
  lemma SecondFlag(ss3: Quant.Ss3Codec)
    ensures Quant.ChangedMask(TWO_FLAGS, [1, 0], [1, 1]) == [false, true]
    ensures Quant.MaskedWire(ss3, TWO_FLAGS, [false, true], [1, 1], 0) == [1]
    ensures Quant.MaskedWire(ss3, TWO_FLAGS, Quant.Everything(TWO_FLAGS), [1, 0], 0) == [1, 0]
  {
    assert Quant.MaskedWire(ss3, TWO_FLAGS, [false, true], [1, 1], 2) == [];
    assert Quant.MaskedWire(ss3, TWO_FLAGS, [false, true], [1, 1], 1) == [1];
    assert Quant.MaskedWire(ss3, TWO_FLAGS, Quant.Everything(TWO_FLAGS), [1, 0], 2) == [];
    assert Quant.MaskedWire(ss3, TWO_FLAGS, Quant.Everything(TWO_FLAGS), [1, 0], 1) == [0];
  }

  /**
   * State blocks: slot, ticks behind the frame, body length; then for a delta its flags, ticks back to the base, the
   * mask and what changed, and for a full row its flags and the row.
   */
  lemma StateBlocks(ss3: Quant.Ss3Codec)
    ensures var delta := SB.Block(TWO_FLAGS, 0x0201, 90, Some((87, [1, 0])), [1, 1], true);
            SB.BlockBytes(ss3, delta, 100) == [1, 2, 10, 4, 0x02, 3, 0x02, 1]
    ensures var full := SB.Block(TWO_FLAGS, 0x0201, 90, Some((90, [1, 0])), [1, 0], false);
            SB.BlockBytes(ss3, full, 100) == [1, 2, 10, 3, 0x01, 1, 0]
  {
    TwoBytes(1, 2);
    SecondFlag(ss3);
    assert MaskBytes([false, true]) == [2] by {
      assert [false, true][..2] == [false, true] && [false, true][1..] == [true] && [true][1..] == [];
    }
  }

  /** An input block: slot, ticks from it to the frame, length and one, count, and the rows newest first. */
  lemma AnInputBlock(ss3: Quant.Ss3Codec)
    ensures IB.BlockBytes(ss3, TWO_FLAGS, 0x0201, 100, 103, [[1, 0], [1, 1]])
         == [1, 2, 5, 5, 2, 1, 0, 1, 1]
  {
    TwoBytes(1, 2);
    ZigzagInterleaves(-3);
    TwoRows(ss3);
    var rows := [[1, 0], [1, 1]];
    assert rows[..2] == rows;
  }

  lemma TwoRows(ss3: Quant.Ss3Codec)
    ensures Quant.WireRowStride(TWO_FLAGS) == 2
    ensures IB.RowsFill(TWO_FLAGS, [[1, 0], [1, 1]])
    ensures IB.RowsBytes(ss3, TWO_FLAGS, [[1, 0], [1, 1]]) == [1, 0, 1, 1]
  {
    var all := Quant.Everything(TWO_FLAGS);
    assert Quant.MaskedSize(TWO_FLAGS, all, 2) == 0 && Quant.MaskedSize(TWO_FLAGS, all, 1) == 1;
    SecondFlag(ss3);
    assert Quant.MaskedWire(ss3, TWO_FLAGS, all, [1, 1], 2) == [];
    assert Quant.MaskedWire(ss3, TWO_FLAGS, all, [1, 1], 1) == [1];
    var rows := [[1, 0], [1, 1]];
    assert rows[..1] == [[1, 0]] && [[1, 0]][..0] == [];
    assert IB.RowsBytes(ss3, TWO_FLAGS, [[1, 0]]) == [1, 0];
  }

  /** A clear datagram: the payload, its number, the tag over both and the direction. */
  lemma AClearDatagram(mac: seq<Byte> -> bv64, payload: seq<Byte>)
    requires mac(payload + [1, 2, 3, 4] + [1]) == 0x0807_0605_0403_0201
    ensures Session.Datagram(Session.Clear(mac), Session.Record(Session.ToServer, 0x0403_0201, payload))
         == Some(payload + [1, 2, 3, 4] + [1, 2, 3, 4, 5, 6, 7, 8])
  {
    FourBytes(1, 2, 3, 4);
    EightBytes();
    var tag: bv64 := 0x0807_0605_0403_0201;
    assert tag as nat == 0x0807_0605_0403_0201;
  }

  /** The associated data of a sealed datagram: the number, then the direction. */
  lemma AssociatedData()
    ensures Session.Aad(Session.ToClient, 0x0201) == [1, 2, 0, 0, 2]
  {
    FourBytes(1, 2, 0, 0);
  }

  /** Its nonce: the direction, then the number, then zeros. */
  lemma ANonce()
    ensures Session.Nonce(Session.ToClient, 0x0403_0201) == [2, 1, 2, 3, 4, 0, 0, 0, 0, 0, 0, 0]
  {
    FourBytes(1, 2, 3, 4);
  }
}

/**
 * The reference implementation's own test corpus: message `n` is the bytes 0 up to `n`, under the key of the bytes 0
 * to 15.
 */
module SipVectors {
  import opened Bytes
  import opened SipHash

  function Counting(first: nat, count: nat): (bs: seq<Byte>)
    requires first + count <= 256
    ensures |bs| == count
  {
    seq(count, i requires 0 <= i < count => first + i)
  }

  /** The little-endian value of such a run. */
  function CountingValue(first: nat, count: nat): nat
    decreases count
  {
    if count == 0 then 0 else first + 256 * CountingValue(first + 1, count - 1)
  }

  lemma {:induction false} CountingIsLe(first: nat, count: nat)
    requires first + count <= 256
    ensures LeValue(Counting(first, count)) == CountingValue(first, count)
    decreases count
  {
    if count > 0 {
      CountingIsLe(first + 1, count - 1);
      assert Counting(first, count)[1..] == Counting(first + 1, count - 1);
    }
  }

  lemma WordIs(ops: WordOps<bv64>, n: nat, x: bv64)
    requires IsU64(ops) && ValueOf(x) == n
    ensures ops.of(n) == x
  {
  }

  const REF_KEY: Key := Counting(0, 16)

  /** The lanes after no word. */
  const LANES_0: Lanes<bv64> :=
    Lanes(0x7469_6861_7371_6475, 0x6b61_7f6d_656e_6665,
          0x6b7f_6261_6d67_7361, 0x7b6b_696e_727e_6c7b)

  /** The lanes after one word. */
  const LANES_1: Lanes<bv64> :=
    Lanes(0x4a01_7198_de0a_59e0, 0x0d52_f6f6_2a4f_59a4,
          0x634c_b357_7b01_fd3d, 0xa522_4d6f_55c7_d9c8)

  lemma Seeded(ops: WordOps<bv64>)
    requires IsU64(ops)
    ensures Init(ops, REF_KEY) == LANES_0
  {
    assert REF_KEY[0..8] == Counting(0, 8) && REF_KEY[8..16] == Counting(8, 8);
    CountingIsLe(0, 8);
    CountingIsLe(8, 8);
    WordIs(ops, CountingValue(0, 8), 0x0706_0504_0302_0100);
    WordIs(ops, CountingValue(8, 8), 0x0f0e_0d0c_0b0a_0908);
    WordIs(ops, 0x736f_6d65_7073_6575, 0x736f_6d65_7073_6575);
    WordIs(ops, 0x646f_7261_6e64_6f6d, 0x646f_7261_6e64_6f6d);
    WordIs(ops, 0x6c79_6765_6e65_7261, 0x6c79_6765_6e65_7261);
    WordIs(ops, 0x7465_6462_7974_6573, 0x7465_6462_7974_6573);
  }

  /** One more word of the corpus, whatever the arithmetic. */
  lemma NextWord<W>(ops: WordOps<W>, seed: Lanes<W>, at: nat)
    requires at + 8 <= 256
    ensures Compressed(ops, seed, Counting(0, at + 8))
         == Absorbed(ops, Compressed(ops, seed, Counting(0, at)), ops.of(CountingValue(at, 8)))
  {
    CountingIsLe(at, 8);
    assert Counting(0, at + 8) == Counting(0, at) + Counting(at, 8);
    OneMoreWord(ops, seed, Counting(0, at), Counting(at, 8));
  }

  lemma AbsorbOne(ops: WordOps<bv64>)
    requires IsU64(ops)
    ensures Absorbed(ops, LANES_0, 0x0706_0504_0302_0100) == LANES_1
  {
  }

  lemma AfterOne(ops: WordOps<bv64>)
    requires IsU64(ops)
    ensures Compressed(ops, LANES_0, Counting(0, 8)) == LANES_1
  {
    NextWord(ops, LANES_0, 0);
    WordIs(ops, CountingValue(0, 8), 0x0706_0504_0302_0100);
    AbsorbOne(ops);
  }

  /** Where a message of the corpus splits, and its last word. */
  lemma CountingSplits(count: nat, whole: nat)
    requires whole <= count < whole + 8 && whole % 8 == 0 && count <= 255
    ensures Counting(0, count)[..WholeOf(Counting(0, count))] == Counting(0, whole)
    ensures LastWord(Counting(0, count)) == CountingValue(whole, count - whole) + count * TOP_BYTE
  {
    var msg := Counting(0, count);
    CountingIsLe(whole, count - whole);
    WholeIs(count, whole);
    assert msg[..whole] == Counting(0, whole) && msg[whole..] == Counting(whole, count - whole);
  }

  lemma TagIs<W>(ops: WordOps<W>, key: Key, msg: seq<Byte>, lanes: Lanes<W>, last: W)
    requires Compressed(ops, Init(ops, key), msg[..WholeOf(msg)]) == lanes && ops.of(LastWord(msg)) == last
    ensures SipTag(ops, key, msg) == Finalized(ops, Absorbed(ops, lanes, last))
  {
  }

  lemma WholeIs(count: nat, whole: nat)
    requires whole <= count < whole + 8 && whole % 8 == 0
    ensures count - count % 8 == whole && (count <= 255 ==> count % 256 == count)
  {
  }

  lemma FinishNothing(ops: WordOps<bv64>)
    requires IsU64(ops)
    ensures Finalized(ops, Absorbed(ops, LANES_0, 0x0000_0000_0000_0000)) == 0x726f_db47_dd0e_0e31
  {
    WordIs(ops, 0xff, 0xff);
    var absorbed := Lanes(0x7512_6fd4_4af1_90b6, 0x0842_3516_4f06_142b,
                          0x37b0_4f9f_8026_831d, 0x1b46_78cd_e825_3231);
    assert Absorbed(ops, LANES_0, 0x0000_0000_0000_0000) == absorbed;
    var half := Lanes(0x3abf_d962_3238_d0a7, 0xb935_4b58_07b0_cd1e,
                      0xae10_9fa2_ba56_082a, 0x58dc_f8f2_cf5b_8028);
    assert Round(ops, Round(ops, absorbed.(v2 := ops.xor(absorbed.v2, ops.of(0xff))))) == half;
  }

  lemma LastNothing(ops: WordOps<bv64>)
    requires IsU64(ops)
    ensures Counting(0, 0)[..WholeOf(Counting(0, 0))] == Counting(0, 0)
    ensures ops.of(LastWord(Counting(0, 0))) == 0x0000_0000_0000_0000
  {
    CountingSplits(0, 0);
    WordIs(ops, CountingValue(0, 0) + 0 * TOP_BYTE, 0x0000_0000_0000_0000);
  }

  lemma TagOfNothing(ops: WordOps<bv64>)
    requires IsU64(ops)
    ensures SipTag(ops, REF_KEY, Counting(0, 0)) == 0x726f_db47_dd0e_0e31
  {
    Seeded(ops);
    LastNothing(ops);
    TagIs(ops, REF_KEY, Counting(0, 0), LANES_0, 0x0000_0000_0000_0000);
    FinishNothing(ops);
  }

  lemma FinishEight(ops: WordOps<bv64>)
    requires IsU64(ops)
    ensures Finalized(ops, Absorbed(ops, LANES_1, 0x0800_0000_0000_0000)) == 0x93f5_f579_9a93_2462
  {
    WordIs(ops, 0xff, 0xff);
    var absorbed := Lanes(0x89d9_1240_23d9_a50f, 0xb1d6_1ba5_fb18_7052,
                          0x923c_25db_a476_bcad, 0x2db6_9326_a593_860d);
    assert Absorbed(ops, LANES_1, 0x0800_0000_0000_0000) == absorbed;
    var half := Lanes(0x6988_de27_9db8_2796, 0x567e_096e_bb86_3cbf,
                      0xff4e_f537_99c6_9eb5, 0xe0de_5b96_f828_a40f);
    assert Round(ops, Round(ops, absorbed.(v2 := ops.xor(absorbed.v2, ops.of(0xff))))) == half;
  }

  lemma LastEight(ops: WordOps<bv64>)
    requires IsU64(ops)
    ensures Counting(0, 8)[..WholeOf(Counting(0, 8))] == Counting(0, 8)
    ensures ops.of(LastWord(Counting(0, 8))) == 0x0800_0000_0000_0000
  {
    CountingSplits(8, 8);
    WordIs(ops, CountingValue(8, 0) + 8 * TOP_BYTE, 0x0800_0000_0000_0000);
  }

  lemma TagOfEight(ops: WordOps<bv64>)
    requires IsU64(ops)
    ensures SipTag(ops, REF_KEY, Counting(0, 8)) == 0x93f5_f579_9a93_2462
  {
    Seeded(ops);
    AfterOne(ops);
    LastEight(ops);
    TagIs(ops, REF_KEY, Counting(0, 8), LANES_1, 0x0800_0000_0000_0000);
    FinishEight(ops);
  }

  lemma FinishFifteen(ops: WordOps<bv64>)
    requires IsU64(ops)
    ensures Finalized(ops, Absorbed(ops, LANES_1, 0x0f0e_0d0c_0b0a_0908)) == 0xa129_ca61_49be_45e5
  {
    WordIs(ops, 0xff, 0xff);
    var absorbed := Lanes(0x3c85_b3ab_6f55_be51, 0x414f_c3fb_98ef_e374,
                          0xccf1_3ea5_27b9_f4bd, 0x5293_f5da_8400_8f82);
    assert Absorbed(ops, LANES_1, 0x0f0e_0d0c_0b0a_0908) == absorbed;
    var half := Lanes(0xb6c3_fbde_cc2a_e4b4, 0x1638_c86a_dc6b_3cf0,
                      0x28b8_b6ab_6255_3d46, 0xc946_5e86_ec43_eb95);
    assert Round(ops, Round(ops, absorbed.(v2 := ops.xor(absorbed.v2, ops.of(0xff))))) == half;
  }

  lemma LastFifteen(ops: WordOps<bv64>)
    requires IsU64(ops)
    ensures Counting(0, 15)[..WholeOf(Counting(0, 15))] == Counting(0, 8)
    ensures ops.of(LastWord(Counting(0, 15))) == 0x0f0e_0d0c_0b0a_0908
  {
    CountingSplits(15, 8);
    WordIs(ops, CountingValue(8, 7) + 15 * TOP_BYTE, 0x0f0e_0d0c_0b0a_0908);
  }

  lemma TagOfFifteen(ops: WordOps<bv64>)
    requires IsU64(ops)
    ensures SipTag(ops, REF_KEY, Counting(0, 15)) == 0xa129_ca61_49be_45e5
  {
    Seeded(ops);
    AfterOne(ops);
    LastFifteen(ops);
    TagIs(ops, REF_KEY, Counting(0, 15), LANES_1, 0x0f0e_0d0c_0b0a_0908);
    FinishFifteen(ops);
  }
}

/**
 * SipHash-2-4, streamed: for every way of splitting a message into writes, the hasher reaches the
 * state and the tag the reference construction gives the whole message.
 */
module SipHash {
  import opened Bytes

  const KEY_LEN: nat := 16

  /** The place of a word's top byte. */
  const TOP_BYTE: nat := 0x100_0000_0000_0000

  type Key = k: seq<Byte> | |k| == KEY_LEN witness seq(KEY_LEN, _ => 0)

  /**
   * The words and arithmetic the rounds are made of. Streaming does not depend on them, so everything below
   * holds for every choice; `U64_OPS` is the construction's own.
   */
  datatype WordOps<!W> = WordOps(of: nat -> W, add: (W, W) -> W, xor: (W, W) -> W, rotl: (W, nat) -> W)

  const U64_OPS: WordOps<bv64> := WordOps(WordOf, Added, Xored, RotatedLeft)

  function WordOf(n: nat): bv64 {
    if n < U64 then n as bv64 else (n % U64) as bv64
  }

  function Added(a: bv64, b: bv64): bv64 {
    a + b
  }

  function Xored(a: bv64, b: bv64): bv64 {
    a ^ b
  }

  function RotatedLeft(a: bv64, n: nat): bv64 {
    if n <= 64 then a.RotateLeft(n) else a
  }

  function ValueOf(x: bv64): nat {
    x as nat
  }

  /** The arithmetic of 64-bit words. */
  ghost predicate IsU64(ops: WordOps<bv64>) {
    && (forall x :: ops.of(ValueOf(x)) == x)
    && (forall a, b :: ops.add(a, b) == a + b)
    && (forall a, b :: ops.xor(a, b) == a ^ b)
    && (forall a, n: nat :: n <= 64 ==> ops.rotl(a, n) == a.RotateLeft(n))
  }

  lemma OpsAreU64()
    ensures IsU64(U64_OPS)
  {
    forall x ensures U64_OPS.of(ValueOf(x)) == x { OfValue(x); }
    forall a, b ensures U64_OPS.add(a, b) == a + b { AddIs(a, b); }
    forall a, b ensures U64_OPS.xor(a, b) == a ^ b { XorIs(a, b); }
  }

  lemma OfValue(x: bv64)
    ensures U64_OPS.of(ValueOf(x)) == x
  {
  }

  lemma AddIs(a: bv64, b: bv64)
    ensures U64_OPS.add(a, b) == a + b
  {
  }

  lemma XorIs(a: bv64, b: bv64)
    ensures U64_OPS.xor(a, b) == a ^ b
  {
  }

  datatype Lanes<W> = Lanes(v0: W, v1: W, v2: W, v3: W)

  function Init<W>(ops: WordOps<W>, key: Key): Lanes<W> {
    var k0, k1 := ops.of(LeValue(key[0..8])), ops.of(LeValue(key[8..16]));
    Lanes(ops.xor(ops.of(0x736f_6d65_7073_6575), k0), ops.xor(ops.of(0x646f_7261_6e64_6f6d), k1),
          ops.xor(ops.of(0x6c79_6765_6e65_7261), k0), ops.xor(ops.of(0x7465_6462_7974_6573), k1))
  }

  function Round<W>(ops: WordOps<W>, s: Lanes<W>): Lanes<W> {
    var a0 := ops.add(s.v0, s.v1);
    var a1 := ops.xor(ops.rotl(s.v1, 13), a0);
    var b0 := ops.rotl(a0, 32);
    var a2 := ops.add(s.v2, s.v3);
    var a3 := ops.xor(ops.rotl(s.v3, 16), a2);
    var c0 := ops.add(b0, a3);
    var b3 := ops.xor(ops.rotl(a3, 21), c0);
    var b2 := ops.add(a2, a1);
    var b1 := ops.xor(ops.rotl(a1, 17), b2);
    Lanes(c0, b1, ops.rotl(b2, 32), b3)
  }

  function Absorbed<W>(ops: WordOps<W>, s: Lanes<W>, word: W): Lanes<W> {
    var r := Round(ops, Round(ops, s.(v3 := ops.xor(s.v3, word))));
    r.(v0 := ops.xor(r.v0, word))
  }

  /** The state after a run of whole words. */
  function Compressed<W>(ops: WordOps<W>, s: Lanes<W>, blocks: seq<Byte>): Lanes<W> {
    if |blocks| < 8 then s
    else
      var n := |blocks| - 8;
      Absorbed(ops, Compressed(ops, s, blocks[..n]), ops.of(LeValue(blocks[n..])))
  }

  function Finalized<W>(ops: WordOps<W>, s: Lanes<W>): W {
    var r := Round(ops, Round(ops, Round(ops, Round(ops, s.(v2 := ops.xor(s.v2, ops.of(0xff)))))));
    ops.xor(ops.xor(ops.xor(r.v0, r.v1), r.v2), r.v3)
  }

  /**
   * The reference construction on a whole message: every full word, then the trailing bytes under the
   * message length modulo 256, then four rounds.
   */
  function SipTag<W>(ops: WordOps<W>, key: Key, msg: seq<Byte>): W {
    Finalized(ops, Absorbed(ops, Compressed(ops, Init(ops, key), msg[..WholeOf(msg)]), ops.of(LastWord(msg))))
  }

  /** Where the last full word ends. */
  function WholeOf(msg: seq<Byte>): (whole: nat)
    ensures whole <= |msg|
  {
    |msg| - |msg| % 8
  }

  function LastWord(msg: seq<Byte>): nat {
    LeValue(msg[WholeOf(msg)..]) + (|msg| % 256) * TOP_BYTE
  }

  lemma OneMoreWord<W>(ops: WordOps<W>, s: Lanes<W>, blocks: seq<Byte>, word: seq<Byte>)
    requires |word| == 8
    ensures Compressed(ops, s, blocks + word) == Absorbed(ops, Compressed(ops, s, blocks), ops.of(LeValue(word)))
  {
    assert (blocks + word)[..|blocks|] == blocks && (blocks + word)[|blocks|..] == word;
  }

  /** Regrouping what has been written does not change it. */
  lemma Regroup(blocks: seq<Byte>, pending: seq<Byte>, bytes: seq<Byte>, take: nat)
    requires take <= |bytes|
    ensures blocks + (pending + bytes[..take]) + bytes[take..] == blocks + pending + bytes
  {
    assert bytes == bytes[..take] + bytes[take..];
  }

  lemma MoveWord(blocks: seq<Byte>, rest: seq<Byte>, n: nat)
    requires n <= |rest|
    ensures blocks + rest[..n] + rest[n..] == blocks + rest
  {
    assert rest == rest[..n] + rest[n..];
  }

  lemma SplitOfWhole(blocks: seq<Byte>, pending: seq<Byte>)
    requires |blocks| % 8 == 0 && |pending| < 8
    ensures var message := blocks + pending;
            message[..WholeOf(message)] == blocks && message[WholeOf(message)..] == pending
  {
    var message := blocks + pending;
    assert |message| % 8 == |pending|;
  }

  lemma WholeWords(blocks: seq<Byte>, word: seq<Byte>)
    requires |blocks| % 8 == 0 && |word| == 8
    ensures |blocks + word| % 8 == 0
  {
  }

  function Flatten(pieces: seq<seq<Byte>>): seq<Byte> {
    if pieces == [] then [] else Flatten(pieces[..|pieces| - 1]) + pieces[|pieces| - 1]
  }

  class SipHasher<W> {
    var v0: W
    var v1: W
    var v2: W
    var v3: W
    var tail: nat
    var ntail: nat
    var length: nat

    const ops: WordOps<W>
    ghost const key: Key
    /** The lanes as the key seeds them. */
    ghost const seed: Lanes<W>
    /** Everything written so far: the whole words in the lanes, then the bytes in the tail. */
    ghost var blocks: seq<Byte>
    ghost var pending: seq<Byte>
    ghost var message: seq<Byte>

    ghost function State(): Lanes<W>
      reads `v0, `v1, `v2, `v3
    {
      Lanes(v0, v1, v2, v3)
    }

    /** Whole words are in the lanes, the rest in the tail. */
    ghost predicate Packed()
      reads `v0, `v1, `v2, `v3, `tail, `ntail, `blocks, `pending
    {
      && |blocks| % 8 == 0 && |pending| < 8
      && State() == Compressed(ops, seed, blocks)
      && ntail == |pending| && tail == LeValue(pending)
    }

    /** ... which together are the message, its length kept modulo the word size. */
    ghost predicate Valid()
      reads this
    {
      Packed() && message == blocks + pending && length == |message| % U64
    }

    constructor (ops: WordOps<W>, key: Key)
      ensures Valid() && message == [] && this.key == key && this.ops == ops && seed == Init(ops, key)
    {
      var s := Init(ops, key);
      v0, v1, v2, v3 := s.v0, s.v1, s.v2, s.v3;
      tail, ntail, length := 0, 0, 0;
      this.ops, this.key, seed := ops, key, s;
      message, blocks, pending := [], [], [];
    }

    /** One SipRound, every step wrapping. */
    method RoundStep()
      modifies `v0, `v1, `v2, `v3
      ensures State() == Round(ops, old(State()))
    {
      v0 := ops.add(v0, v1);
      v1 := ops.rotl(v1, 13);
      v1 := ops.xor(v1, v0);
      v0 := ops.rotl(v0, 32);
      v2 := ops.add(v2, v3);
      v3 := ops.rotl(v3, 16);
      v3 := ops.xor(v3, v2);
      v0 := ops.add(v0, v3);
      v3 := ops.rotl(v3, 21);
      v3 := ops.xor(v3, v0);
      v2 := ops.add(v2, v1);
      v1 := ops.rotl(v1, 17);
      v1 := ops.xor(v1, v2);
      v2 := ops.rotl(v2, 32);
    }

    /** Compress one complete little-endian word. */
    method Absorb(word: W)
      modifies `v0, `v1, `v2, `v3
      ensures State() == Absorbed(ops, old(State()), word)
    {
      v3 := ops.xor(v3, word);
      RoundStep();
      RoundStep();
      v0 := ops.xor(v0, word);
    }

    static lemma OneMoreByte(held: seq<Byte>, bytes: seq<Byte>, index: nat)
      requires index < |bytes|
      ensures held + bytes[..index + 1] == held + bytes[..index] + [bytes[index]]
    {
      assert bytes[..index + 1] == bytes[..index] + [bytes[index]];
    }

    /** Pack one byte above those the tail holds. */
    method PushByte(b: Byte, at: nat)
      requires at == |pending| && tail == LeValue(pending)
      modifies `tail, `pending
      ensures pending == old(pending) + [b] && tail == LeValue(pending)
    {
      LeOr(pending, b);
      tail := Or(tail, b * Pow2(8 * at));
      pending := pending + [b];
    }

    /** Pack `bytes` above the bytes the tail already holds. */
    method FillTail(bytes: seq<Byte>)
      requires |pending| + |bytes| <= 8 && tail == LeValue(pending) && ntail == |pending|
      modifies `tail, `ntail, `pending
      ensures pending == old(pending) + bytes && tail == LeValue(pending) && ntail == |pending|
    {
      ghost var held := pending;
      for index := 0 to |bytes|
        invariant ntail == |held| && pending == held + bytes[..index] && tail == LeValue(pending)
      {
        OneMoreByte(held, bytes, index);
        PushByte(bytes[index], ntail + index);
      }
      ntail := ntail + |bytes|;
    }

    /** Absorb every whole word of `bytes`, leaving what is over in the tail. */
    method AbsorbWords(bytes: seq<Byte>)
      requires Packed() && pending == []
      modifies `v0, `v1, `v2, `v3, `tail, `ntail, `blocks, `pending
      ensures Packed() && blocks + pending == old(blocks) + bytes
    {
      var rest := bytes;
      while |rest| >= 8
        invariant Packed() && pending == []
        invariant blocks + rest == old(blocks) + bytes
      {
        var word := rest[..8];
        OneMoreWord(ops, seed, blocks, word);
        WholeWords(blocks, word);
        MoveWord(blocks, rest, 8);
        Absorb(ops.of(LeValue(word)));
        blocks := blocks + word;
        rest := rest[8..];
      }
      assert [] + rest == rest;
      FillTail(rest);
    }

    /** Top up the pending word, absorbing it once it is whole. */
    method TopUp(bytes: seq<Byte>) returns (rest: seq<Byte>)
      requires Packed() && pending != []
      modifies `v0, `v1, `v2, `v3, `tail, `ntail, `blocks, `pending
      ensures Packed() && (pending == [] || rest == [])
      ensures blocks + pending + rest == old(blocks + pending) + bytes
    {
      var want := 8 - ntail;
      var take := if want < |bytes| then want else |bytes|;
      Regroup(blocks, pending, bytes, take);
      FillTail(bytes[..take]);
      rest := bytes[take..];
      if ntail < 8 {
        return;
      }
      ghost var grown := blocks + pending;
      WholeWords(blocks, pending);
      OneMoreWord(ops, seed, blocks, pending);
      var word := tail;
      tail, ntail := 0, 0;
      Absorb(ops.of(word));
      blocks, pending := grown, [];
      assert grown + [] == grown;
    }

    /** Add `bytes` to the whole words and the tail. */
    method Pack(bytes: seq<Byte>)
      requires Packed()
      modifies `v0, `v1, `v2, `v3, `tail, `ntail, `blocks, `pending
      ensures Packed() && blocks + pending == old(blocks + pending) + bytes
    {
      var rest := bytes;
      if ntail > 0 {
        rest := TopUp(bytes);
        if ntail > 0 {
          assert blocks + pending + [] == blocks + pending;
          return;
        }
      }
      assert blocks + pending == blocks;
      AbsorbWords(rest);
    }

    /** Feed `bytes`: the message grows by exactly them, however they are cut. */
    method Write(bytes: seq<Byte>)
      requires Valid()
      modifies this
      ensures Valid() && message == old(message) + bytes
    {
      Pack(bytes);
      Lengthen(bytes);
    }

    /** Count `bytes` into the length, which wraps. */
    method Lengthen(bytes: seq<Byte>)
      requires length == |message| % U64
      modifies `length, `message
      ensures message == old(message) + bytes && length == |message| % U64
    {
      AddLength(message, bytes, length);
      length := (length + |bytes|) % U64;
      message := message + bytes;
    }

    static lemma AddLength(message: seq<Byte>, bytes: seq<Byte>, length: nat)
      requires length == |message| % U64
      ensures (length + |bytes|) % U64 == |message + bytes| % U64
    {
    }

    /** The tag of everything written, leaving the hasher as it was. */
    method Finish() returns (tag: W)
      requires Valid() && seed == Init(ops, key)
      ensures tag == SipTag(ops, key, message)
    {
      FinalParts(message, blocks, pending);
      var word := Or(tail, length % 256 * TOP_BYTE);
      tag := Finalized(ops, Absorbed(ops, Lanes(v0, v1, v2, v3), ops.of(word)));
    }

    /** The lanes and the tail hold what the reference construction splits the message into. */
    static lemma FinalParts(message: seq<Byte>, blocks: seq<Byte>, pending: seq<Byte>)
      requires message == blocks + pending && |blocks| % 8 == 0 && |pending| < 8
      ensures message[..WholeOf(message)] == blocks
      ensures Or(LeValue(pending), |message| % U64 % 256 * TOP_BYTE) == LastWord(message)
    {
      FinalWord(message, blocks, pending);
      SplitOfWhole(blocks, pending);
    }

    static lemma FinalWord(message: seq<Byte>, blocks: seq<Byte>, pending: seq<Byte>)
      requires message == blocks + pending && |blocks| % 8 == 0 && |pending| < 8
      ensures Or(LeValue(pending), |message| % U64 % 256 * TOP_BYTE) == LeValue(pending) + |message| % 256 * TOP_BYTE
    {
      LengthByte(|message|);
      LeBounded(pending);
      Pow2Monotone(8 * |pending|, 56);
      TopByteIsPow2();
      OrDisjoint(LeValue(pending), |message| % 256, 56);
    }

    static lemma TopByteIsPow2()
      ensures Pow2(56) == TOP_BYTE
    {
      Pow2Of64();
      Pow2Add(32, 24);
      Pow2Add(16, 8);
    }

    static lemma LengthByte(n: nat)
      ensures n % U64 % 256 == n % 256
    {
    }
  }

  /** Any split of a message into writes gives the tag of the message. */
  method HashPieces<W>(ops: WordOps<W>, key: Key, pieces: seq<seq<Byte>>) returns (tag: W)
    ensures tag == SipTag(ops, key, Flatten(pieces))
  {
    var hasher := new SipHasher(ops, key);
    for i := 0 to |pieces|
      invariant fresh(hasher) && hasher.Valid() && hasher.key == key && hasher.ops == ops
                && hasher.seed == Init(ops, key)
      invariant hasher.message == Flatten(pieces[..i])
    {
      assert pieces[..i + 1][..i] == pieces[..i];
      hasher.Write(pieces[i]);
    }
    assert pieces[..|pieces|] == pieces;
    tag := hasher.Finish();
  }

  /** A datagram's tag covers its signed bytes and then its direction, fed separately. */
  method TagOver<W>(ops: WordOps<W>, key: Key, signed: seq<Byte>, direction: Byte) returns (tag: W)
    ensures tag == SipTag(ops, key, signed + [direction])
  {
    var hasher := new SipHasher(ops, key);
    hasher.Write(signed);
    assert [] + signed == signed;
    hasher.Write([direction]);
    tag := hasher.Finish();
  }
}

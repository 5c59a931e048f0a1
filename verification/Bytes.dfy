/** Bytes, powers of two, single bits, and little-endian integers. */
module Bytes {
  type Byte = b: nat | b < 256

  const U16: nat := 0x1_0000
  const U32: nat := 0x1_0000_0000
  const U64: nat := 0x1_0000_0000_0000_0000

  function Pow2(n: nat): (p: nat)
    ensures p > 0
  {
    if n == 0 then 1 else 2 * Pow2(n - 1)
  }

  lemma {:induction false} Pow2Add(a: nat, b: nat)
    ensures Pow2(a + b) == Pow2(a) * Pow2(b)
  {
    if a > 0 {
      Pow2Add(a - 1, b);
      assert Pow2(a + b) == 2 * Pow2(a - 1 + b);
      assert 2 * (Pow2(a - 1) * Pow2(b)) == (2 * Pow2(a - 1)) * Pow2(b);
    }
  }

  lemma {:induction false} Pow2Monotone(a: nat, b: nat)
    requires a <= b
    ensures Pow2(a) <= Pow2(b)
  {
    if a < b {
      Pow2Monotone(a, b - 1);
    }
  }

  /** `value << shift`, with no bit lost. */
  function Shl(value: nat, shift: nat): nat {
    value * Pow2(shift)
  }

  lemma Pow2Of64()
    ensures Pow2(8) == 256 && Pow2(16) == U16 && Pow2(32) == U32 && Pow2(64) == U64
  {
    assert Pow2(8) == 256;
    Pow2Add(8, 8);
    Pow2Add(16, 16);
    Pow2Add(32, 32);
  }

  lemma Associate(a: seq<Byte>, b: seq<Byte>, c: seq<Byte>)
    ensures (a + b) + c == a + (b + c)
  {
  }

  /** Four fields appended one by one are the four of them appended. */
  lemma FieldsOnto(start: seq<Byte>, a: seq<Byte>, b: seq<Byte>, c: seq<Byte>, d: seq<Byte>)
    ensures start + a + b + c + d == start + (a + (b + (c + d)))
  {
    Associate(start + a + b, c, d);
    Associate(start + a, b, c + d);
    Associate(start, a, b + (c + d));
  }

  // ------------------------------------------------------------------ single bits of a word

  function Bit(word: nat, k: nat): bool {
    if k == 0 then word % 2 == 1 else Bit(word / 2, k - 1)
  }

  /** `word | 1 << k`. */
  function WithBit(word: nat, k: nat): nat {
    if Bit(word, k) then word else word + Pow2(k)
  }

  lemma {:induction false} BitOfWithBit(word: nat, k: nat, j: nat)
    ensures Bit(WithBit(word, k), j) <==> j == k || Bit(word, j)
    decreases k
  {
    if !Bit(word, k) {
      if k == 0 {
        assert (word + 1) / 2 == word / 2;
      } else {
        assert (word + Pow2(k)) / 2 == word / 2 + Pow2(k - 1);
        assert (word + Pow2(k)) % 2 == word % 2;
        if j > 0 {
          BitOfWithBit(word / 2, k - 1, j - 1);
        }
      }
    }
  }

  lemma {:induction false} BitOfProduct(word: nat, s: nat, k: nat)
    ensures Bit(word * Pow2(s), k) <==> k >= s && Bit(word, k - s)
    decreases s
  {
    if s > 0 {
      var half := word * Pow2(s - 1);
      assert word * Pow2(s) == 2 * half;
      if k > 0 {
        BitOfProduct(word, s - 1, k - 1);
      }
    }
  }

  lemma {:induction false} BitOfRemainder(word: nat, n: nat, k: nat)
    ensures Bit(word % Pow2(n), k) <==> k < n && Bit(word, k)
    decreases n
  {
    if n == 0 {
      BitOfZero(k);
    } else {
      HalfOfRemainder(word, Pow2(n - 1));
      if k > 0 {
        BitOfRemainder(word / 2, n - 1, k - 1);
      }
    }
  }

  lemma {:induction false} BitOfZero(k: nat)
    ensures !Bit(0, k)
  {
    if k > 0 { BitOfZero(k - 1); }
  }

  lemma HalfOfRemainder(word: nat, m: nat)
    requires m > 0
    ensures word % (2 * m) / 2 == word / 2 % m
    ensures word % (2 * m) % 2 == word % 2
  {
    var q, r := word / (2 * m), word % (2 * m);
    QuotientFits(word, 2 * m);
    var p := m * q;
    assert (2 * m) * q == 2 * p;
    DivModUnique(word / 2, m, q, r / 2);
  }

  lemma QuotientFits(a: nat, m: nat)
    requires m > 0
    ensures a / m >= 0 && a == m * (a / m) + a % m
  {
  }

  /** A quotient and a remainder are the only ones that fit. */
  lemma DivModUnique(a: nat, m: nat, q: nat, r: nat)
    requires m > 0 && a == m * q + r && r < m
    ensures a / m == q && a % m == r
  {
    var d := a / m - q;
    assert a == m * (a / m) + a % m;
    assert m * d == r - a % m by {
      assert m * (a / m) - m * q == m * d;
    }
    MulSign(m, d);
  }

  lemma MulSign(m: int, d: int)
    requires m > 0
    ensures d >= 1 ==> m * d >= m
    ensures d <= -1 ==> m * d <= -m
  {
    assert m * (d - 1) == m * d - m;
    assert m * (d + 1) == m * d + m;
  }

  /** Two places of one remainder are a whole number of capacities apart. */
  lemma SameSlot(a: nat, b: nat, capacity: nat)
    requires capacity > 0 && a < b && a % capacity == b % capacity
    ensures a + capacity <= b
  {
    var q := b / capacity - a / capacity;
    assert a == capacity * (a / capacity) + a % capacity;
    assert b == capacity * (b / capacity) + b % capacity;
    assert b - a == capacity * q by {
      assert capacity * (b / capacity) - capacity * (a / capacity) == capacity * q;
    }
    MulSign(capacity, q);
  }

  function Xor(a: nat, b: nat): nat {
    if a == 0 && b == 0 then 0 else 2 * Xor(a / 2, b / 2) + (a + b) % 2
  }

  function Or(a: nat, b: nat): nat {
    if a == 0 && b == 0 then 0 else 2 * Or(a / 2, b / 2) + if a % 2 == 1 || b % 2 == 1 then 1 else 0
  }

  lemma {:induction false} OrZero(b: nat)
    ensures Or(0, b) == b
  {
    if b > 0 { OrZero(b / 2); }
  }

  /** Or-ing a field in above the bits already held adds it. */
  lemma {:induction false} OrDisjoint(a: nat, b: nat, k: nat)
    requires a < Pow2(k)
    ensures Or(a, b * Pow2(k)) == a + b * Pow2(k)
    decreases k
  {
    if k == 0 {
      OrZero(b);
    } else {
      var half := b * Pow2(k - 1);
      assert b * Pow2(k) == 2 * half;
      OrDisjoint(a / 2, b, k - 1);
    }
  }

  // ------------------------------------------------------------------ little-endian integers

  function LeBytes(value: nat, width: nat): (bs: seq<Byte>)
    ensures |bs| == width
  {
    if width == 0 then [] else [value % 256] + LeBytes(value / 256, width - 1)
  }

  function LeValue(bs: seq<Byte>): nat {
    if bs == [] then 0 else bs[0] + 256 * LeValue(bs[1..])
  }

  lemma {:induction false} LeRoundTrip(value: nat, width: nat)
    requires value < Pow2(8 * width)
    ensures LeValue(LeBytes(value, width)) == value
  {
    if width > 0 {
      Pow2Add(8, 8 * (width - 1));
      assert Pow2(8) == 256;
      var bs := LeBytes(value, width);
      assert bs[1..] == LeBytes(value / 256, width - 1);
      LeRoundTrip(value / 256, width - 1);
    }
  }

  lemma {:induction false} LeBounded(bs: seq<Byte>)
    ensures LeValue(bs) < Pow2(8 * |bs|)
  {
    if bs != [] {
      LeBounded(bs[1..]);
      Pow2Add(8, 8 * (|bs| - 1));
      assert Pow2(8) == 256;
    }
  }

  lemma {:induction false} LeInverse(bs: seq<Byte>)
    ensures LeBytes(LeValue(bs), |bs|) == bs
  {
    if bs != [] {
      LeInverse(bs[1..]);
      var v := LeValue(bs);
      assert v % 256 == bs[0] && v / 256 == LeValue(bs[1..]);
      assert bs == [bs[0]] + bs[1..];
    }
  }

  lemma {:induction false} LeAppend(bs: seq<Byte>, b: Byte)
    ensures LeValue(bs + [b]) == LeValue(bs) + b * Pow2(8 * |bs|)
  {
    if bs == [] {
      assert LeValue([b]) == b;
    } else {
      LeAppend(bs[1..], b);
      assert (bs + [b])[1..] == bs[1..] + [b];
      Pow2Of64();
      Pow2Add(8, 8 * (|bs| - 1));
      Distribute(256, LeValue(bs[1..]), b, Pow2(8 * (|bs| - 1)));
    }
  }

  lemma Distribute(c: nat, v: nat, b: nat, p: nat)
    ensures c * (v + b * p) == c * v + b * (c * p)
  {
  }

  /** Or-ing the next byte in above `bs` packs it there. */
  lemma LeOr(bs: seq<Byte>, b: Byte)
    ensures Or(LeValue(bs), b * Pow2(8 * |bs|)) == LeValue(bs + [b])
  {
    LeBounded(bs);
    OrDisjoint(LeValue(bs), b, 8 * |bs|);
    LeAppend(bs, b);
  }
}

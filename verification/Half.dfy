/**
 * Software binary16 (IEEE 754-2019 sections 3.6 and 4.3.1). Floats are their bit fields; magnitudes are exact
 * integers, a single's in units of 2^-149 and a half's in units of 2^-24.
 */
module Half {
  import opened Bytes

  const HIDDEN: nat := 0x80_0000

  /** A single's fields. */
  datatype Single = Single(negative: bool, exponent: nat, mantissa: nat) {
    predicate WellFormed() {
      exponent < 256 && mantissa < HIDDEN
    }

    predicate IsFinite() {
      exponent < 255
    }

    ghost function Magnitude(): nat {
      if exponent == 0 then mantissa else Shl(HIDDEN + mantissa, exponent - 1)
    }

    /** Further from zero than `other`. */
    predicate Exceeds(other: Single) {
      exponent > other.exponent || (exponent == other.exponent && mantissa > other.mantissa)
    }

    function Bits(): (bits: nat)
      requires WellFormed()
      ensures bits < U32
    {
      (if negative then 0x8000_0000 else 0) + exponent * HIDDEN + mantissa
    }
  }

  function SingleOf(bits: nat): (f: Single)
    requires bits < U32
    ensures f.WellFormed()
  {
    Single(bits >= 0x8000_0000, bits / HIDDEN % 256, bits % HIDDEN)
  }

  lemma SingleRoundTrip(f: Single)
    requires f.WellFormed()
    ensures SingleOf(f.Bits()) == f
  {
  }

  const ZERO: Single := Single(false, 0, 0)

  /** 65504, the largest finite half. */
  const LARGEST: Single := Single(false, 142, 0x7f_e000)

  // ------------------------------------------------------------------ a half's fields

  function SignOf(bits: nat): bool {
    bits >= 0x8000
  }

  function ExponentOf(bits: nat): nat {
    bits / 1024 % 32
  }

  function MantissaOf(bits: nat): nat {
    bits % 1024
  }

  function HalfBits(negative: bool, exponent: nat, mantissa: nat): nat {
    (if negative then 0x8000 else 0) + exponent * 1024 + mantissa
  }

  ghost function MagnitudeOf(exponent: nat, mantissa: nat): nat {
    if exponent == 0 then mantissa else Shl(1024 + mantissa, exponent - 1)
  }

  /** In units of 2^-24, for the patterns that are not infinities or NaNs. */
  ghost function Magnitude(bits: nat): nat {
    MagnitudeOf(ExponentOf(bits), MantissaOf(bits))
  }

  lemma Fields(negative: bool, exponent: nat, mantissa: nat)
    requires exponent < 32 && mantissa < 1024
    ensures var bits := HalfBits(negative, exponent, mantissa);
            bits < U16 && SignOf(bits) == negative && ExponentOf(bits) == exponent && MantissaOf(bits) == mantissa
  {
  }

  lemma FieldsExact(bits: nat)
    requires bits < U16
    ensures HalfBits(SignOf(bits), ExponentOf(bits), MantissaOf(bits)) == bits
  {
  }

  // ------------------------------------------------------------------ encoding

  /** `value / step` to the nearest integer, ties to even. */
  function Rounded(value: nat, step: nat): nat
    requires step > 0
  {
    var q, rem := value / step, value % step;
    if rem > step / 2 || (rem == step / 2 && q % 2 == 1) then q + 1 else q
  }

  function Clamped(f: Single): Single {
    if f.Exceeds(LARGEST) then LARGEST.(negative := f.negative) else f
  }

  /** Quantize: non-finite is zero, too large is the largest, and otherwise the significand is rounded. */
  function Encode(value: Single): nat {
    if !value.IsFinite() then 0
    else
      var f := Clamped(value);
      if f.exponent < 103 then HalfBits(f.negative, 0, 0)
      else if f.exponent < 113 then
        HalfBits(f.negative, 0, Rounded(HIDDEN + f.mantissa, Pow2(126 - f.exponent)))
      else
        var exponent, mantissa := f.exponent - 112, f.mantissa / 0x2000;
        var rem := f.mantissa % 0x2000;
        var up := rem > 0x1000 || (rem == 0x1000 && mantissa % 2 == 1);
        var carried := up && mantissa + 1 == 0x400;
        var e := if carried then exponent + 1 else exponent;
        var m := if carried then 0 else if up then mantissa + 1 else mantissa;
        if e >= 31 then HalfBits(f.negative, 30, 1023) else HalfBits(f.negative, e, m)
  }

  /** The position of the top set bit. */
  function TopBit(value: nat): (k: nat)
    requires value > 0
    ensures Pow2(k) <= value < 2 * Pow2(k)
  {
    if value == 1 then 0 else TopBit(value / 2) + 1
  }

  // ------------------------------------------------------------------ decoding is finite and exact

  lemma TopBitBelow(m: nat, n: nat)
    requires 0 < m < Pow2(n)
    ensures TopBit(m) < n
  {
    if TopBit(m) >= n { Pow2Monotone(n, TopBit(m)); }
  }

  lemma SubnormalSignificand(m: nat, k: nat)
    requires k <= 9 && Pow2(k) <= m < 2 * Pow2(k)
    ensures Shl(m - Pow2(k), 23 - k) < HIDDEN
    ensures HIDDEN + Shl(m - Pow2(k), 23 - k) == Shl(m, 23 - k)
  {
    Pow2Add(k, 23 - k);
    TwentyThree();
    SplitOff(m, Pow2(k), Pow2(23 - k));
  }

  lemma SplitOff(m: int, p: int, q: int)
    requires p <= m < 2 * p && q > 0
    ensures m * q == (m - p) * q + p * q
    ensures 0 <= (m - p) * q < p * q
  {
  }

  lemma TwentyThree()
    ensures Pow2(23) == HIDDEN && Pow2(10) == 1024 && Pow2(13) == 0x2000
  {
  }

  lemma ShlTwice(a: nat, s: nat, t: nat)
    ensures Shl(Shl(a, s), t) == Shl(a, s + t)
  {
    Pow2Add(s, t);
    Reassociate(a, Pow2(s), Pow2(t));
  }

  lemma Reassociate(a: nat, b: nat, c: nat)
    ensures (a * b) * c == a * (b * c)
  {
  }

  function DecodeFields(negative: bool, e: nat, m: nat): Single {
    if e == 31 then ZERO
    else if e == 0 then
      if m == 0 then Single(negative, 0, 0)
      else
        var k := TopBit(m);
        Single(negative, 103 + k, Shl(m - Pow2(k), if k <= 23 then 23 - k else 0))
    else Single(negative, e + 112, m * 0x2000)
  }

  /** Widen: exact, with every infinity and NaN pattern read as zero. */
  function Decode(bits: nat): Single {
    DecodeFields(SignOf(bits), ExponentOf(bits), MantissaOf(bits))
  }

  lemma DecodeSubnormal(negative: bool, m: nat)
    requires 0 < m < 1024
    ensures var f := DecodeFields(negative, 0, m);
            f.WellFormed() && 103 <= f.exponent <= 112 && HIDDEN + f.mantissa == Shl(m, 126 - f.exponent)
  {
    TwentyThree();
    TopBitBelow(m, 10);
    SubnormalSignificand(m, TopBit(m));
  }

  lemma DecodeNormal(negative: bool, e: nat, m: nat)
    requires 0 < e < 31 && m < 1024
    ensures var f := DecodeFields(negative, e, m);
            f.WellFormed() && f.exponent == e + 112 && HIDDEN + f.mantissa == Shl(1024 + m, 13)
  {
    TwentyThree();
  }

  /** Every pattern, even a hostile one, decodes to a finite single, and exactly to what it stands for. */
  lemma DecodeIsFiniteAndExact(bits: nat)
    requires bits < U16
    ensures Decode(bits).WellFormed() && Decode(bits).IsFinite()
    ensures ExponentOf(bits) != 31 ==> Decode(bits).Magnitude() == Shl(Magnitude(bits), 125)
  {
    var e, m := ExponentOf(bits), MantissaOf(bits);
    if e == 0 && m > 0 {
      SubnormalExact(SignOf(bits), m);
    } else if 0 < e < 31 {
      NormalExact(SignOf(bits), e, m);
    }
  }

  lemma SubnormalExact(negative: bool, m: nat)
    requires 0 < m < 1024
    ensures var f := DecodeFields(negative, 0, m);
            f.WellFormed() && f.IsFinite() && f.Magnitude() == Shl(m, 125)
  {
    DecodeSubnormal(negative, m);
    var f := DecodeFields(negative, 0, m);
    ShlTwice(m, 126 - f.exponent, f.exponent - 1);
  }

  lemma NormalExact(negative: bool, e: nat, m: nat)
    requires 0 < e < 31 && m < 1024
    ensures var f := DecodeFields(negative, e, m);
            f.WellFormed() && f.IsFinite() && f.Magnitude() == Shl(MagnitudeOf(e, m), 125)
  {
    DecodeNormal(negative, e, m);
    ShlTwice(1024 + m, 13, e + 111);
    ShlTwice(1024 + m, e - 1, 125);
  }

  // ------------------------------------------------------------------ re-encoding is the identity

  lemma RoundedExact(q: nat, shift: nat)
    requires shift > 0
    ensures Rounded(Shl(q, shift), Pow2(shift)) == q
  {
    Pow2Even(shift);
    DivModUnique(Shl(q, shift), Pow2(shift), q, 0);
  }

  /** A decoded half encodes back to the same bits; the infinities and NaNs, decoded as zero, do not. */
  lemma ReencodeIsIdentity(bits: nat)
    requires bits < U16
    ensures Encode(Decode(bits)) == if ExponentOf(bits) == 31 then 0 else bits
  {
    var e, m := ExponentOf(bits), MantissaOf(bits);
    FieldsExact(bits);
    if e == 0 && m > 0 {
      ReencodeSubnormal(SignOf(bits), m);
    } else if 0 < e < 31 {
      ReencodeNormal(SignOf(bits), e, m);
    }
  }

  lemma ReencodeSubnormal(negative: bool, m: nat)
    requires 0 < m < 1024
    ensures Encode(DecodeFields(negative, 0, m)) == HalfBits(negative, 0, m)
  {
    DecodeSubnormal(negative, m);
    RoundedExact(m, 126 - DecodeFields(negative, 0, m).exponent);
  }

  lemma ReencodeNormal(negative: bool, e: nat, m: nat)
    requires 0 < e < 31 && m < 1024
    ensures Encode(DecodeFields(negative, e, m)) == HalfBits(negative, e, m)
  {
  }

  // ------------------------------------------------------------------ what encoding yields

  ghost function Distance(a: int, b: int): nat {
    if a <= b then b - a else a - b
  }

  lemma RoundedNear(value: nat, step: nat)
    requires step > 1 && step % 2 == 0
    ensures 2 * Distance(value, Rounded(value, step) * step) <= step
  {
  }

  lemma {:induction false} Pow2Even(n: nat)
    requires n > 0
    ensures Pow2(n) % 2 == 0 && Pow2(n) > 1
  {
  }

  /** The exponent of the half a finite single in range lands under, its subnormals under 1. */
  function Binade(f: Single): (e: nat)
    ensures e >= 1
  {
    if f.exponent < 113 then 1 else f.exponent - 112
  }

  /** The low significand bits rounding drops. */
  function Dropped(f: Single): nat {
    if f.exponent < 113 then 126 - f.exponent else 13
  }

  predicate InRange(f: Single) {
    f.WellFormed() && f.exponent >= 103 && !f.Exceeds(LARGEST)
  }

  lemma RoundedWithin(value: nat, step: nat, q: nat)
    requires step > 1 && value < q * step
    ensures Rounded(value, step) <= q
  {
    var d := value / step;
    assert value == step * d + value % step;
    MulSign(step, d - q);
    assert step * (d - q) == step * d - q * step;
  }

  lemma SubnormalResult(f: Single)
    requires InRange(f) && f.exponent < 113
    ensures var r := Rounded(HIDDEN + f.mantissa, Pow2(126 - f.exponent));
            r <= 1024 && Encode(f) == HalfBits(f.negative, 0, r)
            && Encode(f) < U16 && SignOf(Encode(f)) == f.negative && ExponentOf(Encode(f)) != 31
               && Magnitude(Encode(f)) == r
  {
    SubnormalFits(HIDDEN + f.mantissa, 126 - f.exponent);
    SmallHalf(f.negative, Rounded(HIDDEN + f.mantissa, Pow2(126 - f.exponent)));
  }

  /** Fourteen bits dropped or more, a significand rounds to 1024 at most. */
  lemma SubnormalFits(full: nat, d: nat)
    requires full < 2 * HIDDEN && d >= 14
    ensures Rounded(full, Pow2(d)) <= 1024
  {
    TwentyThree();
    Pow2Monotone(14, d);
    Pow2Add(13, 1);
    assert Pow2(1) == 2;
    assert Pow2(d) >= 0x4000;
    assert 1024 * Pow2(d) >= 2 * HIDDEN;
    RoundedWithin(full, Pow2(d), 1024);
  }

  /** Up to 1024, the half of that many units: a carry past 1023 is the first normal one. */
  lemma SmallHalf(negative: bool, r: nat)
    requires r <= 1024
    ensures var bits := HalfBits(negative, 0, r);
            bits < U16 && SignOf(bits) == negative && ExponentOf(bits) != 31 && Magnitude(bits) == r
  {
    if r < 1024 {
      Fields(negative, 0, r);
    } else {
      Fields(negative, 1, 0);
      assert Pow2(0) == 1;
    }
  }

  lemma NormalResult(f: Single)
    requires InRange(f) && f.exponent >= 113
    ensures var r := Rounded(HIDDEN + f.mantissa, 0x2000);
            && Encode(f) < U16 && SignOf(Encode(f)) == f.negative && ExponentOf(Encode(f)) != 31
            && Magnitude(Encode(f)) == Shl(r, f.exponent - 113)
  {
    var e, man := f.exponent - 112, f.mantissa / 0x2000;
    assert (HIDDEN + f.mantissa) / 0x2000 == 1024 + man && (HIDDEN + f.mantissa) % 0x2000 == f.mantissa % 0x2000;
    var r := Rounded(HIDDEN + f.mantissa, 0x2000);
    if r == 2048 {
      assert Encode(f) == HalfBits(f.negative, e + 1, 0);
      Fields(f.negative, e + 1, 0);
      ShlTwice(1024, 1, e - 1);
      assert Shl(1024, 1) == 2048;
    } else {
      assert Encode(f) == HalfBits(f.negative, e, r - 1024);
      Fields(f.negative, e, r - 1024);
    }
  }

  /**
   * In range, the half's magnitude is the significand rounded on the grid of its binade: a half steps by
   * `Pow2(Binade - 1)`, and the bits dropped below that step decide the rounding.
   */
  lemma EncodeRounds(f: Single)
    requires InRange(f)
    ensures Encode(f) < U16 && SignOf(Encode(f)) == f.negative && ExponentOf(Encode(f)) != 31
    ensures Magnitude(Encode(f)) == Shl(Rounded(HIDDEN + f.mantissa, Pow2(Dropped(f))), Binade(f) - 1)
  {
    TwentyThree();
    if f.exponent < 113 {
      SubnormalResult(f);
      assert Pow2(0) == 1;
    } else {
      NormalResult(f);
    }
  }

  /** No input at all, in or out of range, yields an infinity or a NaN. */
  lemma EncodeIsFinite(f: Single)
    requires f.WellFormed()
    ensures Encode(f) < U16 && ExponentOf(Encode(f)) != 31
  {
    if f.IsFinite() {
      var c := Clamped(f);
      if c.exponent >= 103 {
        EncodeRounds(c);
        assert Encode(c) == Encode(f);
      } else {
        Fields(c.negative, 0, 0);
      }
    }
  }

  /** One trip through the wire is enough: what it yields, every later trip yields again. */
  lemma OneTripIsCanonical(f: Single)
    requires f.WellFormed()
    ensures Decode(Encode(Decode(Encode(f)))) == Decode(Encode(f))
  {
    EncodeIsFinite(f);
    ReencodeIsIdentity(Encode(f));
  }

  /** A significand halfway between two halves goes to the even one. */
  lemma TiesGoToEven(f: Single)
    requires InRange(f) && 2 * ((HIDDEN + f.mantissa) % Pow2(Dropped(f))) == Pow2(Dropped(f))
    ensures Encode(f) % 2 == 0
  {
    TwentyThree();
    if f.exponent < 113 {
      SubnormalResult(f);
      TieIsEven(HIDDEN + f.mantissa, Pow2(126 - f.exponent));
      HalfBitsParity(f.negative, 0, Rounded(HIDDEN + f.mantissa, Pow2(126 - f.exponent)));
    } else {
      NormalTie(f);
    }
  }

  lemma TieIsEven(value: nat, step: nat)
    requires step > 0 && 2 * (value % step) == step
    ensures Rounded(value, step) % 2 == 0
  {
  }

  lemma HalfBitsParity(negative: bool, exponent: nat, mantissa: nat)
    ensures HalfBits(negative, exponent, mantissa) % 2 == mantissa % 2
  {
  }

  lemma NormalTie(f: Single)
    requires InRange(f) && f.exponent >= 113 && (HIDDEN + f.mantissa) % 0x2000 == 0x1000
    ensures Encode(f) % 2 == 0
  {
  }

  /** Where a single keeps its fields. */
  lemma KnownSingles()
    ensures SingleOf(0x3f80_0000) == Single(false, 127, 0) && SingleOf(0xc000_0000) == Single(true, 128, 0)
    ensures SingleOf(0x4500_1000) == Single(false, 138, 0x1000) && SingleOf(0x7f80_0000) == Single(false, 255, 0)
  {
  }

  /** One, minus two, and 2049 and 2051, ties that go down and up to even. */
  lemma KnownHalves()
    ensures Encode(Single(false, 127, 0)) == 0x3c00 && Encode(Single(true, 128, 0)) == 0xc000
    ensures Encode(Single(false, 138, 0x1000)) == 0x6800 && Encode(Single(false, 138, 0x3000)) == 0x6802
  {
  }

  /** 2^-24, the least half. */
  lemma LeastHalf()
    ensures Encode(Single(false, 103, 0)) == 1
  {
    TwentyThree();
  }

  /** The largest half, what is clamped to it, and an infinity. */
  lemma KnownLimits()
    ensures Encode(LARGEST) == 0x7bff && Encode(Single(true, 254, 0)) == 0xfbff && Encode(Single(false, 255, 0)) == 0
  {
  }

  // ------------------------------------------------------------------ how far off, and whether nearest

  /** What a finite single becomes on the other side of the wire, in its own units. */
  ghost function Arrived(f: Single): nat {
    Decode(Encode(f)).Magnitude()
  }

  ghost function Error(f: Single): nat {
    Distance(f.Magnitude(), Arrived(f))
  }

  lemma DistanceScales(a: nat, b: nat, s: nat)
    ensures Distance(Shl(a, s), Shl(b, s)) == Shl(Distance(a, b), s)
  {
  }

  lemma ShlMonotone(a: nat, b: nat, s: nat)
    requires a <= b
    ensures Shl(a, s) <= Shl(b, s)
  {
    ScaleUp(a, b, Pow2(s));
  }

  lemma ScaleUp(a: int, b: int, p: nat)
    requires a <= b
    ensures a * p <= b * p
  {
    assert (b - a) * p == b * p - a * p;
  }

  /** In range, both ends sit on one grid: the significand's, scaled. */
  lemma ArrivedOnGrid(f: Single)
    requires InRange(f)
    ensures Arrived(f) == Shl(Shl(Rounded(HIDDEN + f.mantissa, Pow2(Dropped(f))), Dropped(f)), f.exponent - 1)
  {
    var r := Rounded(HIDDEN + f.mantissa, Pow2(Dropped(f)));
    EncodeRounds(f);
    DecodeIsFiniteAndExact(Encode(f));
    ShlTwice(r, Binade(f) - 1, 125);
    ShlTwice(r, Dropped(f), f.exponent - 1);
  }

  lemma ErrorOnGrid(f: Single)
    requires InRange(f)
    ensures Error(f)
         == Shl(Distance(HIDDEN + f.mantissa, Shl(Rounded(HIDDEN + f.mantissa, Pow2(Dropped(f))), Dropped(f))),
                f.exponent - 1)
    ensures 2 * Error(f) <= Pow2(Dropped(f) + f.exponent - 1)
  {
    var full, step := HIDDEN + f.mantissa, Pow2(Dropped(f));
    var on := Shl(Rounded(full, step), Dropped(f));
    ArrivedOnGrid(f);
    DistanceScales(full, on, f.exponent - 1);
    Pow2Even(Dropped(f));
    RoundedNear(full, step);
    Pow2Add(Dropped(f), f.exponent - 1);
    ScaleUp(2 * Distance(full, on), step, Pow2(f.exponent - 1));
    Reassociate(2, Distance(full, on), Pow2(f.exponent - 1));
  }

  lemma Doubled(n: nat)
    ensures Pow2(n + 1) == 2 * Pow2(n)
  {
  }

  /** From 2^-14 up to 65504, the error is within 2^-11 of the value. */
  lemma NormalError(f: Single)
    requires InRange(f) && f.exponent >= 113
    ensures Shl(Error(f), 11) <= f.Magnitude()
  {
    ErrorOnGrid(f);
    var s := f.exponent - 1;
    Pow2Add(12, s);
    assert Pow2(13 + s) == 2 * Pow2(12 + s);
    ScaleUp(Error(f), Pow2(12 + s), Pow2(11));
    Pow2Add(12 + s, 11);
    Pow2Add(23, s);
    TwentyThree();
    ScaleUp(HIDDEN, HIDDEN + f.mantissa, Pow2(s));
  }

  /** From 2^-24 up to 2^-14, the error is within 2^-25. */
  lemma SubnormalError(f: Single)
    requires InRange(f) && f.exponent < 113
    ensures Error(f) <= Pow2(124)
  {
    ErrorOnGrid(f);
    Doubled(124);
  }

  /** A single of exponent e lies from 2^(e - 1) significands up to twice that. */
  lemma BinadeBounds(f: Single)
    requires f.WellFormed() && f.exponent > 0
    ensures Pow2(22 + f.exponent) <= f.Magnitude() < Pow2(23 + f.exponent)
    ensures f.Magnitude() == Pow2(22 + f.exponent) <==> f.mantissa == 0
  {
    TwentyThree();
    var p := Pow2(f.exponent - 1);
    Pow2Add(23, f.exponent - 1);
    MulSign(p, HIDDEN - f.mantissa);
    MulSign(p, f.mantissa);
    assert p * (HIDDEN - f.mantissa) == 2 * (HIDDEN * p) - (HIDDEN + f.mantissa) * p;
    assert p * f.mantissa == (HIDDEN + f.mantissa) * p - HIDDEN * p;
  }

  lemma ExponentZero(f: Single)
    requires f.WellFormed() && f.exponent == 0
    ensures f.Magnitude() < Pow2(24)
  {
    TwentyThree();
    assert Pow2(24) == 2 * Pow2(23);
  }

  lemma BelowOneUnit(f: Single, n: nat)
    requires f.WellFormed() && 24 <= n && 23 + f.exponent <= n
    ensures f.Magnitude() < Pow2(n)
  {
    if f.exponent == 0 {
      ExponentZero(f);
      Pow2Monotone(24, n);
    } else {
      BinadeBounds(f);
      Pow2Monotone(23 + f.exponent, n);
    }
  }

  /** Below 2^-24 everything is flushed to zero, so the error is the value, under 2^-24. */
  lemma FlushedError(f: Single)
    requires f.WellFormed() && f.exponent < 103
    ensures Arrived(f) == 0 && Error(f) == f.Magnitude() < Pow2(125)
  {
    FlushedArrives(f);
    BelowOneUnit(f, 125);
  }

  lemma FlushedArrives(f: Single)
    requires f.WellFormed() && f.exponent < 103
    ensures Arrived(f) == 0
  {
    Fields(f.negative, 0, 0);
  }

  /** No half of its sign is closer to `f` than the one it is encoded as. */
  ghost predicate IsNearest(f: Single) {
    forall bits :: 0 <= bits < U16 && ExponentOf(bits) != 31 ==>
      Distance(f.Magnitude(), Shl(Magnitude(bits), 125)) >= Error(f)
  }

  /** A multiple of the step is no closer than the rounded one. */
  lemma RoundedNearest(value: nat, step: nat, q: nat)
    requires step > 1 && step % 2 == 0
    ensures Distance(value, q * step) >= Distance(value, Rounded(value, step) * step)
  {
    var r := Rounded(value, step);
    RoundedNear(value, step);
    MulSign(step, q - r);
    assert step * (q - r) == q * step - r * step;
  }

  lemma GridCandidate(f: Single, q: nat)
    requires InRange(f)
    ensures Distance(f.Magnitude(), Shl(Shl(q, Binade(f) - 1), 125)) >= Error(f)
  {
    var d, s := Dropped(f), f.exponent - 1;
    ErrorOnGrid(f);
    SameGrid(q, Binade(f) - 1, 125, d, s);
    GridIsNoNearer(HIDDEN + f.mantissa, d, s, q);
  }

  lemma SameGrid(q: nat, b: nat, w: nat, d: nat, s: nat)
    requires b + w == d + s
    ensures Shl(Shl(q, b), w) == Shl(Shl(q, d), s)
  {
    ShlTwice(q, b, w);
    ShlTwice(q, d, s);
  }

  /** On a grid of `d` dropped bits, scaled, no multiple is nearer than the rounded one. */
  lemma GridIsNoNearer(full: nat, d: nat, s: nat, q: nat)
    requires d > 0
    ensures Distance(Shl(full, s), Shl(Shl(q, d), s)) >= Shl(Distance(full, Shl(Rounded(full, Pow2(d)), d)), s)
  {
    Pow2Even(d);
    RoundedNearest(full, Pow2(d), q);
    DistanceScales(full, Shl(q, d), s);
    ShlMonotone(Distance(full, Shl(Rounded(full, Pow2(d)), d)), Distance(full, Shl(q, d)), s);
  }

  /** A half of a lower binade lies below the whole of this one. */
  lemma LowerBinade(exponent: nat, mantissa: nat, e: nat)
    requires exponent < e && 2 <= e && mantissa < 1024
    ensures MagnitudeOf(exponent, mantissa) <= Shl(1024, e - 1)
  {
    if exponent == 0 {
      ScaleUp(1, Pow2(e - 1), 1024);
    } else {
      ShlMonotone(1024 + mantissa, 2048, exponent - 1);
      ShlTwice(1024, 1, exponent - 1);
      assert Shl(1024, 1) == 2048;
      Pow2Monotone(exponent, e - 1);
      ScaleUp(Pow2(exponent), Pow2(e - 1), 1024);
    }
  }

  /** A half of this binade or a higher one is on this binade's grid. */
  lemma HigherBinade(exponent: nat, mantissa: nat, e: nat) returns (q: nat)
    requires e >= 1 && (exponent >= e || e == 1)
    ensures MagnitudeOf(exponent, mantissa) == Shl(q, e - 1)
  {
    if exponent == 0 {
      q := mantissa;
      assert Pow2(0) == 1;
    } else {
      q := Shl(1024 + mantissa, exponent - e);
      ShlTwice(1024 + mantissa, exponent - e, e - 1);
    }
  }

  lemma InRangeIsNearest(f: Single)
    requires InRange(f)
    ensures IsNearest(f)
  {
    var e := Binade(f);
    forall bits | 0 <= bits < U16 && ExponentOf(bits) != 31
      ensures Distance(f.Magnitude(), Shl(Magnitude(bits), 125)) >= Error(f)
    {
      if ExponentOf(bits) >= e || e == 1 {
        var q := HigherBinade(ExponentOf(bits), MantissaOf(bits), e);
        GridCandidate(f, q);
      } else {
        LowerBinade(ExponentOf(bits), MantissaOf(bits), e);
        GridCandidate(f, 1024);
        ShlMonotone(Magnitude(bits), Shl(1024, e - 1), 125);
        BinadeBottom(f);
      }
    }
  }

  lemma BinadeBottom(f: Single)
    requires InRange(f) && f.exponent >= 113
    ensures Shl(Shl(1024, Binade(f) - 1), 125) <= f.Magnitude()
  {
    ShlTwice(1024, Binade(f) - 1, 125);
    ShlTwice(1024, 13, f.exponent - 1);
    TwentyThree();
    ShlMonotone(HIDDEN, HIDDEN + f.mantissa, f.exponent - 1);
  }

  lemma BeyondLargest(f: Single)
    requires f.WellFormed() && f.IsFinite() && f.Exceeds(LARGEST)
    ensures IsNearest(f)
  {
    var top := HalfBits(f.negative, 30, 1023);
    assert Encode(f) == top;
    Fields(f.negative, 30, 1023);
    DecodeIsFiniteAndExact(top);
    assert Arrived(f) == Shl(Shl(2047, 29), 125);
    LargestBelow(f);
    forall bits | 0 <= bits < U16 && ExponentOf(bits) != 31
      ensures Distance(f.Magnitude(), Shl(Magnitude(bits), 125)) >= Error(f)
    {
      LargestHalf(ExponentOf(bits), MantissaOf(bits));
      ShlMonotone(Magnitude(bits), Shl(2047, 29), 125);
    }
  }

  lemma LargestHalf(exponent: nat, mantissa: nat)
    requires exponent < 31 && mantissa < 1024
    ensures MagnitudeOf(exponent, mantissa) <= Shl(2047, 29)
  {
    if exponent < 30 {
      LowerBinade(exponent, mantissa, 30);
    }
    ShlMonotone(1024, 2047, 29);
    ShlMonotone(1024 + mantissa, 2047, 29);
  }

  lemma LargestBelow(f: Single)
    requires f.WellFormed() && f.Exceeds(LARGEST)
    ensures Shl(Shl(2047, 29), 125) <= f.Magnitude()
  {
    BeyondSignificand(f, 29, 125, 141);
  }

  lemma BeyondSignificand(f: Single, s: nat, t: nat, u: nat)
    requires s + t == 13 + u
    requires f.exponent > u + 1 || (f.exponent == u + 1 && f.mantissa >= 0x7f_e000)
    ensures Shl(Shl(2047, s), t) <= f.Magnitude()
  {
    LargestShifted(s, t, u);
    if f.exponent == u + 1 {
      ShlMonotone(HIDDEN + 0x7f_e000, HIDDEN + f.mantissa, u);
    } else {
      HigherSignificand(u + 1, f.exponent - 1, f.mantissa);
    }
  }

  /** The largest half's significand, widened, lies below the next binade. */
  lemma LargestShifted(s: nat, t: nat, u: nat)
    requires s + t == 13 + u
    ensures Shl(Shl(2047, s), t) == Shl(HIDDEN + 0x7f_e000, u) <= Shl(HIDDEN, u + 1)
  {
    TwentyThree();
    ShlTwice(2047, s, t);
    ShlTwice(2047, 13, u);
    assert Shl(2047, 13) == HIDDEN + 0x7f_e000;
    ShlMonotone(HIDDEN + 0x7f_e000, 2 * HIDDEN, u);
    ShlTwice(HIDDEN, 1, u);
    assert Shl(HIDDEN, 1) == 2 * HIDDEN;
  }

  lemma HigherSignificand(s: nat, t: nat, mantissa: nat)
    requires s <= t
    ensures Shl(HIDDEN, s) <= Shl(HIDDEN + mantissa, t)
  {
    Pow2Monotone(s, t);
    ScaleUp(Pow2(s), Pow2(t), HIDDEN);
    ShlMonotone(HIDDEN, HIDDEN + mantissa, t);
  }

  /** Under 2^-25, and at it, zero is the nearest half. */
  lemma TinyIsNearest(f: Single)
    requires f.WellFormed() && f.exponent < 103 && f.Magnitude() <= Pow2(124)
    ensures IsNearest(f)
  {
    FlushedError(f);
    forall bits | 0 <= bits < U16 && ExponentOf(bits) != 31
      ensures Distance(f.Magnitude(), Shl(Magnitude(bits), 125)) >= Error(f)
    {
      ZeroIsNearer(f.Magnitude(), Magnitude(bits), 124);
    }
  }

  /** At most half a unit, a value is no nearer any multiple of the unit than zero. */
  lemma ZeroIsNearer(value: nat, q: nat, k: nat)
    requires value <= Pow2(k)
    ensures Distance(value, Shl(q, k + 1)) >= value
  {
    Doubled(k);
    if q > 0 { ShlMonotone(1, q, k + 1); }
  }

  lemma FlushedTooFar(f: Single)
    requires f.WellFormed() && f.exponent < 103 && f.Magnitude() > Pow2(124)
    ensures !IsNearest(f)
  {
    FlushedError(f);
    var smallest := HalfBits(false, 0, 1);
    Fields(false, 0, 1);
    assert Magnitude(smallest) == 1;
    Doubled(124);
    assert Distance(f.Magnitude(), Shl(1, 125)) < Error(f);
  }

  /** Exponent 102 is the binade from 2^-25 up to 2^-24. */
  lemma HalfStepBinade(f: Single)
    requires f.WellFormed() && f.exponent < 103
    ensures f.Magnitude() > Pow2(124) <==> f.exponent == 102 && f.mantissa > 0
  {
    if f.exponent == 102 { BinadeBounds(f); } else { BelowOneUnit(f, 124); }
  }

  /**
   * The encoder is documented as rounding to nearest. It does for every finite single, except that the binade
   * from 2^-25 up to 2^-24, its lowest value aside, is flushed to zero although 2^-24 is nearer.
   */
  lemma NearestExceptOneBinade(f: Single)
    requires f.WellFormed() && f.IsFinite()
    ensures IsNearest(f) <==> !(f.exponent == 102 && f.mantissa > 0)
  {
    if f.Exceeds(LARGEST) {
      BeyondLargest(f);
    } else if f.exponent >= 103 {
      InRangeIsNearest(f);
    } else {
      HalfStepBinade(f);
      if f.Magnitude() > Pow2(124) { FlushedTooFar(f); } else { TinyIsNearest(f); }
    }
  }
}

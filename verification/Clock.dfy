/**
 * Remote clock discipline: the filtered offset, the bounded stretch that closes it, and the loop the two make.
 * Times are exact reals, with the three non-finite values where a caller can pass them.
 */
module Clock {
  import opened Bytes
  import opened Numbers

  datatype Sample = Sample(rtt: real, offset: real)

  // ------------------------------------------------------------------ the lowest-rtt half

  /** Place a sample after every one no slower than it. */
  function Inserted(sorted: seq<Sample>, x: Sample): (r: seq<Sample>)
    ensures |r| == |sorted| + 1
  {
    if sorted == [] then [x]
    else
      var n := |sorted| - 1;
      if sorted[n].rtt <= x.rtt then sorted + [x] else Inserted(sorted[..n], x) + [sorted[n]]
  }

  /** The stable sort by round trip. */
  function ByRtt(samples: seq<Sample>): (r: seq<Sample>)
    ensures |r| == |samples|
  {
    if samples == [] then [] else Inserted(ByRtt(samples[..|samples| - 1]), samples[|samples| - 1])
  }

  ghost predicate RttsAscend(s: seq<Sample>) {
    forall i, j :: 0 <= i < j < |s| ==> s[i].rtt <= s[j].rtt
  }

  /** The samples of one round trip, in order. */
  ghost function OfRtt(s: seq<Sample>, rtt: real): seq<Sample> {
    if s == [] then []
    else OfRtt(s[..|s| - 1], rtt) + if s[|s| - 1].rtt == rtt then [s[|s| - 1]] else []
  }

  lemma {:induction false} InsertedAscends(sorted: seq<Sample>, x: Sample)
    requires RttsAscend(sorted)
    ensures RttsAscend(Inserted(sorted, x))
    ensures forall y :: y in Inserted(sorted, x) <==> y == x || y in sorted
  {
    if sorted != [] {
      var n := |sorted| - 1;
      assert sorted == sorted[..n] + [sorted[n]];
      if sorted[n].rtt > x.rtt {
        InsertedAscends(sorted[..n], x);
        var r := Inserted(sorted[..n], x);
        forall i | 0 <= i < |r| ensures r[i].rtt <= sorted[n].rtt {
          assert r[i] in r;
        }
      }
    }
  }

  lemma {:induction false} InsertedIsStable(sorted: seq<Sample>, x: Sample, rtt: real)
    requires RttsAscend(sorted)
    ensures OfRtt(Inserted(sorted, x), rtt) == OfRtt(sorted, rtt) + if x.rtt == rtt then [x] else []
  {
    if sorted == [] {
      assert [x][..0] == [];
    } else {
      var n := |sorted| - 1;
      if sorted[n].rtt <= x.rtt {
        assert (sorted + [x])[..|sorted|] == sorted;
      } else {
        var r := Inserted(sorted[..n], x);
        assert (r + [sorted[n]])[..|r|] == r;
        InsertedIsStable(sorted[..n], x, rtt);
      }
    }
  }

  /** Sorting orders the round trips and keeps, of each, its samples in the order they came. */
  lemma {:induction false} ByRttIsTheStableSort(samples: seq<Sample>, rtt: real)
    ensures RttsAscend(ByRtt(samples)) && OfRtt(ByRtt(samples), rtt) == OfRtt(samples, rtt)
  {
    if samples != [] {
      var before := samples[..|samples| - 1];
      ByRttIsTheStableSort(before, rtt);
      InsertedAscends(ByRtt(before), samples[|samples| - 1]);
      InsertedIsStable(ByRtt(before), samples[|samples| - 1], rtt);
    }
  }

  function OffsetSum(s: seq<Sample>): real {
    if s == [] then 0.0 else OffsetSum(s[..|s| - 1]) + s[|s| - 1].offset
  }

  function RttSum(s: seq<Sample>): real {
    if s == [] then 0.0 else RttSum(s[..|s| - 1]) + s[|s| - 1].rtt
  }

  function HalfOf(n: nat): nat {
    (n + 1) / 2
  }

  function Mean(sum: real, n: nat): real
    requires n > 0
  {
    sum / n as real
  }

  /** The mean offset of the lowest-rtt half. */
  function OffsetOf(samples: seq<Sample>): real {
    if samples == [] then 0.0
    else
      var keep := HalfOf(|samples|);
      Mean(OffsetSum(ByRtt(samples)[..keep]), keep)
  }

  /** Only the `k` fastest samples count, `k` being half of them rounded up: the offset is their mean. */
  lemma OnlyTheFastHalfCounts(samples: seq<Sample>, k: nat)
    requires samples != [] && |samples| <= 2 * k <= |samples| + 1
    ensures k > 0 && OffsetOf(samples) == OffsetSum(ByRtt(samples)[..k]) / k as real
  {
    HalfRoundsUp(|samples|, k);
  }

  lemma HalfRoundsUp(n: nat, k: nat)
    requires n <= 2 * k <= n + 1
    ensures HalfOf(n) == k
  {
  }

  function RttOf(samples: seq<Sample>): real {
    if samples == [] then 0.0 else Mean(RttSum(samples), |samples|)
  }

  // ------------------------------------------------------------------ a correction shifts the offset

  function Shifted(s: seq<Sample>, seconds: real): (r: seq<Sample>)
    ensures |r| == |s|
  {
    seq(|s|, i requires 0 <= i < |s| => s[i].(offset := s[i].offset - seconds))
  }

  lemma {:induction false} InsertedShifts(sorted: seq<Sample>, x: Sample, seconds: real)
    ensures Inserted(Shifted(sorted, seconds), x.(offset := x.offset - seconds))
         == Shifted(Inserted(sorted, x), seconds)
  {
    if sorted != [] {
      var n := |sorted| - 1;
      assert Shifted(sorted, seconds)[..n] == Shifted(sorted[..n], seconds);
      if sorted[n].rtt > x.rtt {
        InsertedShifts(sorted[..n], x, seconds);
      }
    }
  }

  lemma ShiftedTake(s: seq<Sample>, seconds: real)
    requires s != []
    ensures var n := |s| - 1;
            Shifted(s, seconds)[..n] == Shifted(s[..n], seconds)
              && Shifted(s, seconds)[n] == s[n].(offset := s[n].offset - seconds)
  {
  }

  lemma {:induction false} ByRttShifts(samples: seq<Sample>, seconds: real)
    ensures ByRtt(Shifted(samples, seconds)) == Shifted(ByRtt(samples), seconds)
  {
    if samples != [] {
      var n := |samples| - 1;
      ShiftedTake(samples, seconds);
      ByRttShifts(samples[..n], seconds);
      InsertedShifts(ByRtt(samples[..n]), samples[n], seconds);
    }
  }

  lemma {:induction false} SumsShift(s: seq<Sample>, seconds: real)
    ensures OffsetSum(Shifted(s, seconds)) == OffsetSum(s) - |s| as real * seconds
    ensures RttSum(Shifted(s, seconds)) == RttSum(s)
  {
    if s != [] {
      var n := |s| - 1;
      assert Shifted(s, seconds)[..n] == Shifted(s[..n], seconds);
      SumsShift(s[..n], seconds);
      assert |s| as real * seconds == n as real * seconds + seconds;
    }
  }

  lemma MeanShift(sum: real, n: nat, seconds: real)
    requires n > 0
    ensures Mean(sum - n as real * seconds, n) == Mean(sum, n) - seconds
  {
    var d := n as real;
    assert d * seconds / d == seconds;
  }

  lemma MeanOfEqual(n: nat, offset: real)
    requires n > 0
    ensures Mean(n as real * offset, n) == offset
  {
  }

  lemma KeptSumShifts(samples: seq<Sample>, seconds: real, keep: nat)
    requires keep <= |samples|
    ensures OffsetSum(ByRtt(Shifted(samples, seconds))[..keep])
         == OffsetSum(ByRtt(samples)[..keep]) - keep as real * seconds
  {
    ByRttShifts(samples, seconds);
    TakenSumShifts(ByRtt(samples), seconds, keep);
  }

  lemma TakenSumShifts(s: seq<Sample>, seconds: real, keep: nat)
    requires keep <= |s|
    ensures OffsetSum(Shifted(s, seconds)[..keep]) == OffsetSum(s[..keep]) - keep as real * seconds
  {
    assert Shifted(s, seconds)[..keep] == Shifted(s[..keep], seconds);
    SumsShift(s[..keep], seconds);
  }

  /** Moving every sample by a correction lowers the offset by exactly that, and leaves the round trip alone. */
  lemma CorrectionShiftsTheOffset(samples: seq<Sample>, seconds: real)
    requires samples != []
    ensures OffsetOf(Shifted(samples, seconds)) == OffsetOf(samples) - seconds
    ensures RttOf(Shifted(samples, seconds)) == RttOf(samples)
  {
    var keep := HalfOf(|samples|);
    KeptSumShifts(samples, seconds, keep);
    MeanShift(OffsetSum(ByRtt(samples)[..keep]), keep, seconds);
    SumsShift(samples, seconds);
  }

  lemma {:induction false} SumOfEqual(s: seq<Sample>, offset: real)
    requires forall i :: 0 <= i < |s| ==> s[i].offset == offset
    ensures OffsetSum(s) == |s| as real * offset
  {
    if s != [] {
      SumOfEqual(s[..|s| - 1], offset);
      assert |s| as real * offset == (|s| - 1) as real * offset + offset;
    }
  }

  lemma {:induction false} ByRttMembers(samples: seq<Sample>)
    ensures RttsAscend(ByRtt(samples))
    ensures forall y :: y in ByRtt(samples) <==> y in samples
  {
    if samples != [] {
      var n := |samples| - 1;
      ByRttMembers(samples[..n]);
      InsertedAscends(ByRtt(samples[..n]), samples[n]);
      assert samples == samples[..n] + [samples[n]];
    }
  }

  lemma AllTaken(s: seq<Sample>, keep: nat, offset: real)
    requires keep <= |s| && forall y :: y in s ==> y.offset == offset
    ensures forall i :: 0 <= i < keep ==> s[..keep][i].offset == offset
  {
  }

  /** Samples that agree give what they agree on, whichever half is kept. */
  lemma AgreedOffset(samples: seq<Sample>, offset: real)
    requires samples != [] && forall y :: y in samples ==> y.offset == offset
    ensures OffsetOf(samples) == offset
  {
    var keep := HalfOf(|samples|);
    ByRttMembers(samples);
    AgreedSum(ByRtt(samples), keep, offset);
    MeanOfEqual(keep, offset);
  }

  lemma AgreedSum(s: seq<Sample>, keep: nat, offset: real)
    requires keep <= |s| && forall y :: y in s ==> y.offset == offset
    ensures OffsetSum(s[..keep]) == keep as real * offset
  {
    AllTaken(s, keep, offset);
    SumOfEqual(s[..keep], offset);
  }

  // ------------------------------------------------------------------ the stretch

  function Clamp(value: real, low: real, high: real): real {
    if value < low then low else if value > high then high else value
  }

  /** How fast local time should run to close `offset` over `window`. */
  function StretchFor(offset: real, maxStretch: Num, window: Num): real {
    if !maxStretch.Fin? || maxStretch.v <= 1.0 then 1.0
    else if !window.Fin? || window.v <= 0.0 then 1.0
    else Clamp(1.0 + offset / window.v, 1.0 / maxStretch.v, maxStretch.v)
  }

  /** Both limits are set: the stretch corrects. */
  predicate Corrects(maxStretch: Num, window: Num) {
    maxStretch.Fin? && maxStretch.v > 1.0 && window.Fin? && window.v > 0.0
  }

  /** The true offset after a frame of `wall` seconds at that stretch. */
  function AfterFrame(offset: real, wall: real, maxStretch: Num, window: Num): real {
    offset - (StretchFor(offset, maxStretch, window) - 1.0) * wall
  }

  lemma Reciprocal(m: real)
    requires m > 1.0
    ensures 0.0 < 1.0 / m < 1.0
  {
  }

  /** Stretching is toward the remote clock, and no faster than the window asks. */
  lemma StretchIsBounded(offset: real, maxStretch: Num, window: Num)
    requires Corrects(maxStretch, window)
    ensures var rate := StretchFor(offset, maxStretch, window) - 1.0;
            && (offset >= 0.0 ==> 0.0 <= rate <= offset / window.v)
            && (offset <= 0.0 ==> offset / window.v <= rate <= 0.0)
            && (offset != 0.0 ==> rate != 0.0)
  {
    Reciprocal(maxStretch.v);
    QuotientSign(offset, window.v);
  }

  lemma QuotientSign(a: real, b: real)
    requires b > 0.0
    ensures a > 0.0 ==> a / b > 0.0
    ensures a < 0.0 ==> a / b < 0.0
  {
  }

  /** `rate * wall` is between zero and `offset` when `rate` is within `offset / window` and `wall` within `window`. */
  lemma CorrectionWithin(offset: real, rate: real, wall: real, window: real)
    requires window > 0.0 && 0.0 <= wall <= window
    requires 0.0 <= rate <= offset / window
    ensures 0.0 <= rate * wall <= offset
  {
    assert rate * wall <= rate * window;
    assert rate * window <= offset / window * window == offset;
  }

  /** A frame no longer than the window never overshoots: the sign never flips and the magnitude never grows. */
  lemma NeverOvershoots(offset: real, wall: real, maxStretch: Num, window: Num)
    requires 0.0 <= wall && (Corrects(maxStretch, window) ==> wall <= window.v)
    ensures var next := AfterFrame(offset, wall, maxStretch, window);
            && (offset >= 0.0 ==> 0.0 <= next <= offset)
            && (offset <= 0.0 ==> offset <= next <= 0.0)
  {
    if Corrects(maxStretch, window) {
      StretchIsBounded(offset, maxStretch, window);
      var rate := StretchFor(offset, maxStretch, window) - 1.0;
      if offset >= 0.0 {
        CorrectionWithin(offset, rate, wall, window.v);
      } else {
        NegatedQuotient(offset, window.v);
        CorrectionWithin(-offset, -rate, wall, window.v);
        assert (-rate) * wall == -(rate * wall);
      }
    }
  }

  lemma NegatedQuotient(a: real, b: real)
    requires b > 0.0
    ensures (-a) / b == -(a / b)
  {
  }

  /** The fastest the stretch can close an offset of that sign. */
  function TopRate(offset: real, maxStretch: Num): (rate: real)
    requires maxStretch.Fin? && maxStretch.v > 1.0
    ensures rate > 0.0
  {
    Reciprocal(maxStretch.v);
    if offset >= 0.0 then maxStretch.v - 1.0 else 1.0 - 1.0 / maxStretch.v
  }

  function Magnitude(a: real): real {
    if a >= 0.0 then a else -a
  }

  function Lesser(a: real, b: real): real {
    if a < b then a else b
  }

  /** The offset changes sign. */
  predicate Flips(was: real, now: real) {
    (was > 0.0 && now < 0.0) || (was < 0.0 && now > 0.0)
  }

  /**
   * A frame overshoots exactly when it is longer than the window and than the offset takes to close at the fastest
   * rate the bound allows, so a saturated stretch forgives a longer frame.
   */
  lemma OvershootsIffTooLong(offset: real, wall: real, maxStretch: Num, window: Num)
    ensures Flips(offset, AfterFrame(offset, wall, maxStretch, window))
            <==> offset != 0.0 && Corrects(maxStretch, window)
                 && wall > window.v && TopRate(offset, maxStretch) * wall > Magnitude(offset)
  {
    if offset != 0.0 && Corrects(maxStretch, window) {
      CorrectedFlipsIff(offset, wall, maxStretch, window);
    } else {
      LeftAlone(offset, wall, maxStretch, window);
    }
  }

  lemma LeftAlone(offset: real, wall: real, maxStretch: Num, window: Num)
    requires offset == 0.0 || !Corrects(maxStretch, window)
    ensures !Flips(offset, AfterFrame(offset, wall, maxStretch, window))
  {
  }

  lemma CorrectedFlipsIff(offset: real, wall: real, maxStretch: Num, window: Num)
    requires Corrects(maxStretch, window) && offset != 0.0
    ensures Flips(offset, AfterFrame(offset, wall, maxStretch, window))
            <==> wall > window.v && TopRate(offset, maxStretch) * wall > Magnitude(offset)
  {
    ClosesAtTheLesser(offset, wall, maxStretch, window);
    LesserPasses(Magnitude(offset), window.v, TopRate(offset, maxStretch), wall);
  }

  lemma ClosesAtTheLesser(offset: real, wall: real, maxStretch: Num, window: Num)
    requires Corrects(maxStretch, window) && offset != 0.0
    ensures Flips(offset, AfterFrame(offset, wall, maxStretch, window))
            <==> Lesser(Magnitude(offset) / window.v, TopRate(offset, maxStretch)) * wall > Magnitude(offset)
  {
    RateIsTheLesser(offset, maxStretch, window);
    FlipsIff(offset, Lesser(Magnitude(offset) / window.v, TopRate(offset, maxStretch)), wall);
  }

  lemma FlipsIff(offset: real, rate: real, wall: real)
    requires offset != 0.0
    ensures Flips(offset, offset - (if offset > 0.0 then rate else -rate) * wall) <==> rate * wall > Magnitude(offset)
  {
    assert (-rate) * wall == -(rate * wall);
  }

  /** A frame closes at what the window asks or the bound allows, whichever is less. */
  lemma RateIsTheLesser(offset: real, maxStretch: Num, window: Num)
    requires Corrects(maxStretch, window) && offset != 0.0
    ensures var rate := Lesser(Magnitude(offset) / window.v, TopRate(offset, maxStretch));
            StretchFor(offset, maxStretch, window) - 1.0 == if offset > 0.0 then rate else -rate
  {
    NegatedQuotient(offset, window.v);
  }

  /** The lesser of two rates passes `size` exactly when both do. */
  lemma LesserExceeds(size: real, asked: real, top: real, wall: real)
    requires size > 0.0 && asked > 0.0 && top > 0.0
    ensures Lesser(asked, top) * wall > size <==> asked * wall > size && top * wall > size
  {
    if wall <= 0.0 {
      Ordered(0.0, asked, wall);
      Ordered(0.0, top, wall);
    } else if asked < top {
      Ordered(asked, top, wall);
    } else {
      Ordered(top, asked, wall);
    }
  }

  /** The lesser of what the window asks and the bound passes `size` exactly past the window and past the bound. */
  lemma LesserPasses(size: real, window: real, top: real, wall: real)
    requires size > 0.0 && window > 0.0 && top > 0.0
    ensures Lesser(size / window, top) * wall > size <==> wall > window && top * wall > size
  {
    QuotientSign(size, window);
    LesserExceeds(size, size / window, top, wall);
    ExceedsIff(size, wall, window);
  }

  lemma Ordered(a: real, b: real, wall: real)
    requires a <= b
    ensures wall >= 0.0 ==> a * wall <= b * wall
    ensures wall <= 0.0 ==> b * wall <= a * wall
  {
  }

  /** Closing at `size / window` passes `size` exactly past the window. */
  lemma ExceedsIff(size: real, wall: real, window: real)
    requires size > 0.0 && window > 0.0
    ensures size / window * wall > size <==> wall > window
  {
    var asked := size / window;
    assert asked > 0.0 && asked * window == size;
    assert asked * wall - asked * window == asked * (wall - window);
  }

  // ------------------------------------------------------------------ the estimator

  /** A window holds one sample at least. */
  function CapacityOf(capacity: nat): (r: nat)
    ensures r > 0
  {
    if capacity < 1 then 1 else capacity
  }

  /** What recording one sample leaves: over the sample at the cursor once the window is full. */
  function Pushed(samples: seq<Sample>, next: nat, capacity: nat, sample: Sample): (r: seq<Sample>)
    requires |samples| <= capacity && next < capacity
    ensures |r| <= capacity
  {
    if |samples| < capacity then samples + [sample] else samples[next := sample]
  }

  /** The cursor after one sample. */
  function Advanced(next: nat, capacity: nat): (r: nat)
    requires next < capacity
    ensures r < capacity
  {
    (next + 1) % capacity
  }

  /** The window after a run of samples from an empty one, with its cursor. */
  function WindowAfter(pushes: seq<Sample>, capacity: nat): (w: (seq<Sample>, nat))
    requires capacity > 0
    ensures |w.0| <= capacity && w.1 < capacity
  {
    if pushes == [] then ([], 0)
    else
      var n := |pushes| - 1;
      var (samples, next) := WindowAfter(pushes[..n], capacity);
      (Pushed(samples, next, capacity, pushes[n]), Advanced(next, capacity))
  }

  predicate Keeps(samples: seq<Sample>, place: nat, sample: Sample) {
    place < |samples| && samples[place] == sample
  }

  /** The window is always the newest samples, as many as it holds. */
  lemma {:induction false} WindowHoldsTheNewest(pushes: seq<Sample>, capacity: nat)
    requires capacity > 0
    ensures var (samples, next) := WindowAfter(pushes, capacity);
            && |samples| == (if |pushes| < capacity then |pushes| else capacity)
            && next == |pushes| % capacity
            && forall i :: 0 <= i < |pushes| && |pushes| <= i + capacity ==> Keeps(samples, i % capacity, pushes[i])
  {
    if pushes != [] {
      var n := |pushes| - 1;
      WindowHoldsTheNewest(pushes[..n], capacity);
      NextPlace(n, capacity);
      forall i | 0 <= i < n && |pushes| <= i + capacity
        ensures i % capacity != n % capacity && (n < capacity ==> i % capacity == i)
        ensures pushes[..n][i] == pushes[i]
      {
        PlacesDiffer(i, n, capacity);
      }
    }
  }

  lemma NextPlace(n: nat, capacity: nat)
    requires capacity > 0
    ensures (n % capacity + 1) % capacity == (n + 1) % capacity && (n < capacity ==> n % capacity == n)
  {
    var q, r := n / capacity, n % capacity;
    assert n == capacity * q + r;
    OnePlaceOn(n, capacity, q, r);
    if n < capacity { DivModUnique(n, capacity, 0, n); }
  }

  lemma OnePlaceOn(n: nat, capacity: nat, q: nat, r: nat)
    requires n == capacity * q + r && r < capacity
    ensures (n + 1) % capacity == (r + 1) % capacity
  {
    if r + 1 < capacity {
      DivModUnique(n + 1, capacity, q, r + 1);
      DivModUnique(r + 1, capacity, 0, r + 1);
    } else {
      assert capacity * (q + 1) == capacity * q + capacity;
      DivModUnique(n + 1, capacity, q + 1, 0);
      DivModUnique(r + 1, capacity, 1, 0);
    }
  }

  lemma PlacesDiffer(i: nat, n: nat, capacity: nat)
    requires i < n < i + capacity
    ensures i % capacity != n % capacity && (n < capacity ==> i % capacity == i)
  {
    if i % capacity == n % capacity { SameSlot(i, n, capacity); }
    if n < capacity { DivModUnique(i, capacity, 0, i); }
  }

  class ClockEstimator {
    var samples: seq<Sample>
    const capacity: nat
    var next: nat

    ghost predicate Valid()
      reads this
    {
      capacity > 0 && |samples| <= capacity && next < capacity
    }

    constructor (capacity: nat)
      ensures Valid() && samples == [] && next == 0 && this.capacity == CapacityOf(capacity)
    {
      samples, next := [], 0;
      this.capacity := CapacityOf(capacity);
    }

    method Clear()
      requires Valid()
      modifies this
      ensures Valid() && samples == [] && next == 0
    {
      samples, next := [], 0;
    }

    /** Record one observation, over the oldest once the window is full; a non-finite one is rejected. */
    method PushSample(rtt: Num, offset: Num) returns (ok: bool)
      requires Valid()
      modifies this
      ensures Valid()
      ensures ok <==> rtt.Fin? && offset.Fin? && rtt.v >= 0.0
      ensures !ok ==> samples == old(samples) && next == old(next)
      ensures ok ==> next == Advanced(old(next), capacity)
      ensures ok ==> samples == Pushed(old(samples), old(next), capacity, Sample(rtt.v, offset.v))
    {
      if !rtt.Fin? || !offset.Fin? || rtt.v < 0.0 {
        return false;
      }
      var sample := Sample(rtt.v, offset.v);
      if |samples| < capacity {
        samples := samples + [sample];
      } else {
        samples := samples[next := sample];
      }
      next := (next + 1) % capacity;
      return true;
    }

    /** Move every stored sample by a correction the caller made to its own clock; a non-finite one is ignored. */
    method ApplyLocalCorrection(seconds: Num)
      requires Valid()
      modifies `samples
      ensures Valid()
      ensures samples == if seconds.Fin? then Shifted(old(samples), seconds.v) else old(samples)
    {
      if !seconds.Fin? {
        return;
      }
      ghost var was := samples;
      for i := 0 to |samples|
        invariant |samples| == |was|
        invariant forall k :: 0 <= k < |was| ==> samples[k] == if k < i then Shifted(was, seconds.v)[k] else was[k]
      {
        samples := samples[i := samples[i].(offset := samples[i].offset - seconds.v)];
      }
      assert samples == Shifted(was, seconds.v);
    }

    /** The mean offset of the lowest-rtt half, the sort stable. */
    method Offset() returns (offset: real)
      requires Valid()
      ensures offset == OffsetOf(samples)
    {
      if samples == [] {
        return 0.0;
      }
      var ordered := [];
      for i := 0 to |samples|
        invariant ordered == ByRtt(samples[..i])
      {
        assert samples[..i + 1][..i] == samples[..i];
        ordered := Inserted(ordered, samples[i]);
      }
      assert samples[..|samples|] == samples;
      var keep := HalfOf(|ordered|);
      var sum := 0.0;
      for i := 0 to keep
        invariant sum == OffsetSum(ordered[..i])
      {
        assert ordered[..i + 1][..i] == ordered[..i];
        sum := sum + ordered[i].offset;
      }
      offset := Mean(sum, keep);
    }

    method Stretch(maxStretch: Num, window: Num) returns (stretch: real)
      requires Valid()
      ensures stretch == StretchFor(OffsetOf(samples), maxStretch, window)
    {
      if !maxStretch.Fin? || maxStretch.v <= 1.0 {
        return 1.0;
      }
      if !window.Fin? || window.v <= 0.0 {
        return 1.0;
      }
      var offset := Offset();
      stretch := Clamp(1.0 + offset / window.v, 1.0 / maxStretch.v, maxStretch.v);
    }
  }

  // ------------------------------------------------------------------ the loop

  /** A probe answered after a queue of `rtt`, a frame of `wall` seconds, or the window dropped. */
  datatype Event = Probe(rtt: Num) | Frame(wall: real) | Drop

  /** What the estimator holds, and the true offset it cannot see. */
  datatype Loop = Loop(samples: seq<Sample>, next: nat, truth: real) {
    predicate Fits(capacity: nat) {
      |samples| <= capacity && next < capacity
    }

    /** How far a frame moves the local clock against the remote one, by the estimate. */
    function Moved(wall: real, maxStretch: Num, window: Num): real {
      (StretchFor(OffsetOf(samples), maxStretch, window) - 1.0) * wall
    }

    /** A noise-free probe reads the true offset; a frame moves the truth, and every sample with it. */
    function Step(event: Event, capacity: nat, maxStretch: Num, window: Num): (after: Loop)
      requires Fits(capacity)
      ensures after.Fits(capacity)
    {
      match event
      case Probe(rtt) =>
        if !rtt.Fin? || rtt.v < 0.0 then this
        else
          Loop(Pushed(samples, next, capacity, Sample(rtt.v, truth)), Advanced(next, capacity), truth)
      case Frame(wall) =>
        var moved := Moved(wall, maxStretch, window);
        Loop(Shifted(samples, moved), next, truth - moved)
      case Drop => Loop([], 0, truth)
    }

    ghost predicate Tracks() {
      forall y :: y in samples ==> y.offset == truth
    }
  }

  function Run(capacity: nat, start: real, events: seq<Event>, maxStretch: Num, window: Num): (after: Loop)
    ensures after.Fits(CapacityOf(capacity))
  {
    if events == [] then Loop([], 0, start)
    else
      var n := |events| - 1;
      Run(capacity, start, events[..n], maxStretch, window).Step(events[n], CapacityOf(capacity), maxStretch, window)
  }

  lemma AllShift(samples: seq<Sample>, truth: real, moved: real)
    requires forall y :: y in samples ==> y.offset == truth
    ensures forall y :: y in Shifted(samples, moved) ==> y.offset == truth - moved
  {
  }

  lemma StepTracks(loop: Loop, event: Event, capacity: nat, maxStretch: Num, window: Num)
    requires loop.Fits(capacity) && loop.Tracks()
    ensures loop.Step(event, capacity, maxStretch, window).Tracks()
  {
    if event.Frame? {
      AllShift(loop.samples, loop.truth, loop.Moved(event.wall, maxStretch, window));
    }
  }

  lemma {:induction false} RunTracks(capacity: nat, start: real, events: seq<Event>, maxStretch: Num, window: Num)
    ensures Run(capacity, start, events, maxStretch, window).Tracks()
  {
    if events != [] {
      var n := |events| - 1;
      RunTracks(capacity, start, events[..n], maxStretch, window);
      StepTracks(Run(capacity, start, events[..n], maxStretch, window), events[n], CapacityOf(capacity), maxStretch,
                 window);
    }
  }

  /** In every noise-free run, whatever its frames, the estimate is the true offset while samples are held. */
  lemma EstimateIsTheTruth(capacity: nat, start: real, events: seq<Event>, maxStretch: Num, window: Num)
    ensures var loop := Run(capacity, start, events, maxStretch, window);
            loop.samples != [] ==> OffsetOf(loop.samples) == loop.truth
  {
    RunTracks(capacity, start, events, maxStretch, window);
    var loop := Run(capacity, start, events, maxStretch, window);
    if loop.samples != [] {
      AgreedOffset(loop.samples, loop.truth);
    }
  }

  /** Frames run no longer than the correction window. */
  predicate FrameFits(event: Event, maxStretch: Num, window: Num) {
    event.Frame? ==> 0.0 <= event.wall && (Corrects(maxStretch, window) ==> event.wall <= window.v)
  }

  predicate FramesFit(events: seq<Event>, maxStretch: Num, window: Num) {
    forall i :: 0 <= i < |events| ==> FrameFits(events[i], maxStretch, window)
  }

  /** The magnitude never grows and the sign never flips. */
  ghost predicate Settles(was: real, now: real) {
    (was >= 0.0 ==> 0.0 <= now <= was) && (was <= 0.0 ==> was <= now <= 0.0)
  }

  /** With no sample held the clock runs at its own rate. */
  lemma StretchOfNothing(maxStretch: Num, window: Num)
    ensures StretchFor(0.0, maxStretch, window) == 1.0
  {
  }

  /** With samples held a frame runs at the stretch the true offset asks for, and otherwise at the clock's own rate. */
  lemma MovedByTheTruth(loop: Loop, wall: real, maxStretch: Num, window: Num)
    requires loop.Tracks()
    ensures loop.truth - loop.Moved(wall, maxStretch, window)
         == if loop.samples == [] then loop.truth else AfterFrame(loop.truth, wall, maxStretch, window)
  {
    if loop.samples == [] {
      StretchOfNothing(maxStretch, window);
    } else {
      AgreedOffset(loop.samples, loop.truth);
    }
  }

  lemma FrameSettles(loop: Loop, wall: real, maxStretch: Num, window: Num)
    requires loop.Tracks() && FrameFits(Frame(wall), maxStretch, window)
    ensures Settles(loop.truth, loop.truth - loop.Moved(wall, maxStretch, window))
  {
    MovedByTheTruth(loop, wall, maxStretch, window);
    NeverOvershoots(loop.truth, wall, maxStretch, window);
  }

  lemma StepSettles(loop: Loop, event: Event, capacity: nat, maxStretch: Num, window: Num)
    requires loop.Fits(capacity) && loop.Tracks() && FrameFits(event, maxStretch, window)
    ensures Settles(loop.truth, loop.Step(event, capacity, maxStretch, window).truth)
  {
    if event.Frame? {
      FrameSettles(loop, event.wall, maxStretch, window);
    }
  }

  /**
   * In every noise-free run of frames no longer than the window, between any two moments the true offset keeps its
   * sign and never grows.
   */
  lemma {:induction false} TruthSettles(capacity: nat, start: real, events: seq<Event>, maxStretch: Num, window: Num,
                                        i: nat)
    requires i <= |events| && FramesFit(events, maxStretch, window)
    ensures Settles(Run(capacity, start, events[..i], maxStretch, window).truth,
                    Run(capacity, start, events, maxStretch, window).truth)
  {
    if i == |events| {
      assert events[..i] == events;
    } else {
      var n := |events| - 1;
      assert events[..n][..i] == events[..i];
      TruthSettles(capacity, start, events[..n], maxStretch, window, i);
      RunTracks(capacity, start, events[..n], maxStretch, window);
      StepSettles(Run(capacity, start, events[..n], maxStretch, window), events[n], CapacityOf(capacity), maxStretch,
                  window);
    }
  }

  /** One frame: stretch local time, and tell the estimator how far that moved it. */
  method RunFrame(clock: ClockEstimator, truth: real, wall: real, maxStretch: Num, window: Num) returns (next: real)
    requires clock.Valid()
    modifies clock
    ensures clock.Valid()
    ensures Loop(clock.samples, clock.next, next)
         == Loop(old(clock.samples), old(clock.next), truth).Step(Frame(wall), clock.capacity, maxStretch, window)
  {
    ghost var loop := Loop(clock.samples, clock.next, truth);
    var stretch := clock.Stretch(maxStretch, window);
    var moved := (stretch - 1.0) * wall;
    assert moved == loop.Moved(wall, maxStretch, window);
    clock.ApplyLocalCorrection(Fin(moved));
    next := truth - moved;
  }

  /** One event of a noise-free run. */
  method RunEvent(clock: ClockEstimator, truth: real, event: Event, maxStretch: Num, window: Num) returns (next: real)
    requires clock.Valid()
    modifies clock
    ensures clock.Valid()
    ensures Loop(clock.samples, clock.next, next)
         == Loop(old(clock.samples), old(clock.next), truth).Step(event, clock.capacity, maxStretch, window)
  {
    next := truth;
    match event {
      case Probe(rtt) =>
        var _ := clock.PushSample(rtt, Fin(truth));
      case Frame(wall) =>
        next := RunFrame(clock, truth, wall, maxStretch, window);
      case Drop =>
        clock.Clear();
    }
  }

  /** Drive a whole noise-free run: the estimator and the clock it disciplines go through exactly the loop's states. */
  method Discipline(capacity: nat, start: real, events: seq<Event>, maxStretch: Num, window: Num)
    returns (clock: ClockEstimator, truth: real)
    ensures fresh(clock) && clock.Valid() && clock.capacity == CapacityOf(capacity)
    ensures Loop(clock.samples, clock.next, truth) == Run(capacity, start, events, maxStretch, window)
  {
    clock := new ClockEstimator(capacity);
    truth := start;
    for i := 0 to |events|
      invariant fresh(clock) && clock.Valid() && clock.capacity == CapacityOf(capacity)
      invariant Loop(clock.samples, clock.next, truth) == Run(capacity, start, events[..i], maxStretch, window)
    {
      assert events[..i + 1][..i] == events[..i];
      truth := RunEvent(clock, truth, events[i], maxStretch, window);
    }
    assert events[..|events|] == events;
  }
}

/** The sliding bitmap that refuses a sequence number twice, and the set it stands for. */
module ReplayWindow {
  import opened Bytes

  const REPLAY_WINDOW: nat := 64

  /** The highest member of a set of sequence numbers, or zero for none. */
  ghost predicate IsNewest(accepted: set<nat>, newest: nat) {
    (newest == 0 || newest in accepted) && forall s :: s in accepted ==> s <= newest
  }

  /**
   * What the window is for, with no window in it: a number is admissible when it was issued, was never
   * accepted, and is either ahead of everything accepted or no more than a window behind it.
   */
  ghost predicate Admissible(accepted: set<nat>, seqNo: nat) {
    && seqNo != 0 && seqNo !in accepted
    && forall s :: s in accepted ==> s <= seqNo + REPLAY_WINDOW
  }

  /** Zero and repeats never pass; the newest being `newest`, what is 64 behind it still can, and no further. */
  lemma AdmissibleEdges(newest: nat)
    requires newest > 65
    ensures !Admissible({newest}, 0) && !Admissible({newest}, newest) && Admissible({newest}, newest + 1)
    ensures Admissible({newest}, newest - 64) && !Admissible({newest}, newest - 65)
    ensures Admissible({}, 1) && !Admissible({}, 0)
  {
    assert newest in {newest};
  }

  /** The map's answer about the number `behind` steps before the newest is the set's. */
  ghost predicate Records(newest: nat, bitmap: nat, accepted: set<nat>, behind: nat)
    requires 1 <= behind
  {
    Bit(bitmap, behind - 1) <==> newest - behind in accepted
  }

  /** Bit n of the map says whether `newest - n - 1` was accepted; sequence 0 is never consulted. */
  ghost predicate Tracks(newest: nat, bitmap: nat, accepted: set<nat>) {
    && bitmap < U64 && newest < U32
    && 0 !in accepted && IsNewest(accepted, newest)
    && forall behind {:trigger Records(newest, bitmap, accepted, behind)} ::
         1 <= behind <= REPLAY_WINDOW && behind < newest ==> Records(newest, bitmap, accepted, behind)
  }

  /** `bitmap.checked_shl(shift).unwrap_or(0)`. */
  function ShiftUp(bitmap: nat, shift: nat): (r: nat)
    ensures r < U64
  {
    if shift < 64 then bitmap * Pow2(shift) % U64 else 0
  }

  lemma BitOfShiftUp(bitmap: nat, shift: nat, k: nat)
    requires k < 64
    ensures Bit(ShiftUp(bitmap, shift), k) <==> k >= shift && Bit(bitmap, k - shift)
  {
    if shift < 64 {
      Pow2Of64();
      BitOfRemainder(bitmap * Pow2(shift), 64, k);
      BitOfProduct(bitmap, shift, k);
    } else {
      BitOfZero(k);
    }
  }

  lemma {:induction false} WithBitFits(bitmap: nat, k: nat, n: nat)
    requires bitmap < Pow2(n) && k < n
    ensures WithBit(bitmap, k) < Pow2(n)
  {
    if !Bit(bitmap, k) {
      if k > 0 {
        WithBitFits(bitmap / 2, k - 1, n - 1);
      }
    }
  }

  /** A sequence ahead of the newest: the map moves up and the old newest lands at bit `shift - 1`. */
  lemma AheadTracks(newest: nat, bitmap: nat, accepted: set<nat>, seqNo: nat)
    requires Tracks(newest, bitmap, accepted) && newest < seqNo < U32
    ensures var shift := seqNo - newest;
            var moved := ShiftUp(bitmap, shift);
            var next := if shift - 1 < 64 then WithBit(moved, shift - 1) else moved;
            Tracks(seqNo, next, accepted + {seqNo})
  {
    var shift := seqNo - newest;
    var moved := ShiftUp(bitmap, shift);
    var next := if shift - 1 < 64 then WithBit(moved, shift - 1) else moved;
    Pow2Of64();
    if shift - 1 < 64 { WithBitFits(moved, shift - 1, 64); }
    var grown := accepted + {seqNo};
    forall behind | 1 <= behind <= REPLAY_WINDOW && behind < seqNo
      ensures Records(seqNo, next, grown, behind)
    {
      BitOfShiftUp(bitmap, shift, behind - 1);
      if shift - 1 < 64 { BitOfWithBit(moved, shift - 1, behind - 1); }
      if behind > shift {
        assert Records(newest, bitmap, accepted, behind - shift);
        assert seqNo - behind == newest - (behind - shift);
      }
    }
  }

  /** A sequence behind the newest fills its bit. */
  lemma BehindTracks(newest: nat, bitmap: nat, accepted: set<nat>, seqNo: nat)
    requires Tracks(newest, bitmap, accepted) && 0 < seqNo < newest && newest - seqNo <= REPLAY_WINDOW
    ensures Tracks(newest, WithBit(bitmap, newest - seqNo - 1), accepted + {seqNo})
  {
    Pow2Of64();
    var k := newest - seqNo - 1;
    WithBitFits(bitmap, k, 64);
    forall behind | 1 <= behind <= REPLAY_WINDOW && behind < newest
      ensures Records(newest, WithBit(bitmap, k), accepted + {seqNo}, behind)
    {
      assert Records(newest, bitmap, accepted, behind);
      FilledBit(newest, bitmap, accepted, k, behind);
    }
  }

  lemma FilledBit(newest: nat, bitmap: nat, accepted: set<nat>, k: nat, behind: nat)
    requires k < newest && 1 <= behind < newest && Records(newest, bitmap, accepted, behind)
    ensures Records(newest, WithBit(bitmap, k), accepted + {newest - k - 1}, behind)
  {
    BitOfWithBit(bitmap, k, behind - 1);
  }

  class ReplayWindow {
    var newest: nat
    var bitmap: nat
    /** Every number this window has accepted. */
    ghost var accepted: set<nat>

    ghost predicate Valid()
      reads this
    {
      Tracks(newest, bitmap, accepted)
    }

    constructor ()
      ensures Valid() && accepted == {}
    {
      newest, bitmap, accepted := 0, 0, {};
    }

    /** Accept `seqNo` if it is new, recording it. */
    method Accept(seqNo: nat) returns (ok: bool)
      requires Valid() && seqNo < U32
      modifies this
      ensures Valid()
      ensures ok <==> Admissible(old(accepted), seqNo)
      ensures accepted == if ok then old(accepted) + {seqNo} else old(accepted)
      ensures !ok ==> newest == old(newest) && bitmap == old(bitmap)
    {
      if seqNo == 0 {
        return false;
      }
      if seqNo > newest {
        var shift := seqNo - newest;
        AheadTracks(newest, bitmap, accepted, seqNo);
        bitmap := ShiftUp(bitmap, shift);
        if shift - 1 < 64 {
          bitmap := WithBit(bitmap, shift - 1);
        }
        newest := seqNo;
        accepted := accepted + {seqNo};
        return true;
      }
      var behind := newest - seqNo;
      if behind == 0 || behind > REPLAY_WINDOW {
        return false;
      }
      assert Records(newest, bitmap, accepted, behind);
      if Bit(bitmap, behind - 1) {
        return false;
      }
      BehindTracks(newest, bitmap, accepted, seqNo);
      bitmap := WithBit(bitmap, behind - 1);
      accepted := accepted + {seqNo};
      return true;
    }
  }

  // ------------------------------------------------------------------ whole runs

  /** What has been accepted after `arrivals`, by the rule alone. */
  ghost function AcceptedAfter(arrivals: seq<nat>): set<nat> {
    if arrivals == [] then {}
    else
      var before := AcceptedAfter(arrivals[..|arrivals| - 1]);
      var last := arrivals[|arrivals| - 1];
      if Admissible(before, last) then before + {last} else before
  }

  /** Over every run of arrivals the bitmap answers what the set of accepted numbers would. */
  method Replay(arrivals: seq<nat>) returns (verdicts: seq<bool>)
    requires forall i :: 0 <= i < |arrivals| ==> arrivals[i] < U32
    ensures |verdicts| == |arrivals|
    ensures forall i :: 0 <= i < |arrivals| ==> (verdicts[i] <==> Admissible(AcceptedAfter(arrivals[..i]), arrivals[i]))
  {
    var window := new ReplayWindow();
    verdicts := [];
    for i := 0 to |arrivals|
      invariant fresh(window) && window.Valid() && window.accepted == AcceptedAfter(arrivals[..i])
      invariant |verdicts| == i
      invariant forall k :: 0 <= k < i ==> (verdicts[k] <==> Admissible(AcceptedAfter(arrivals[..k]), arrivals[k]))
    {
      assert arrivals[..i + 1][..i] == arrivals[..i];
      var ok := window.Accept(arrivals[i]);
      verdicts := verdicts + [ok];
    }
  }

  lemma {:induction false} AcceptedGrows(arrivals: seq<nat>, i: nat, j: nat)
    requires i < j <= |arrivals| && Admissible(AcceptedAfter(arrivals[..i]), arrivals[i])
    ensures arrivals[i] in AcceptedAfter(arrivals[..j])
    decreases j
  {
    assert arrivals[..j][..j - 1] == arrivals[..j - 1];
    if i < j - 1 {
      AcceptedGrows(arrivals, i, j - 1);
    }
  }

  /** No number is accepted twice in any run. */
  lemma NeverTwice(arrivals: seq<nat>, i: nat, j: nat)
    requires i < j < |arrivals|
    requires Admissible(AcceptedAfter(arrivals[..i]), arrivals[i])
    requires Admissible(AcceptedAfter(arrivals[..j]), arrivals[j])
    ensures arrivals[i] != arrivals[j]
  {
    AcceptedGrows(arrivals, i, j);
  }
}

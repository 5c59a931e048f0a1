/**
 * Starvation freedom of the greedy rota: a bound on every entity's wait that holds in every run,
 * however the weights and the candidate sets move, by counting admissions in the second half of a wait.
 */
module Starvation {
  import opened Priority

  /** When each entity was last sent, after a run whose first tick is numbered `first`. */
  ghost function LastAfter(init: map<BodyId, nat>, run: seq<Sending>, first: nat): map<BodyId, nat> {
    if run == [] then init
    else Sent(LastAfter(init, run[..|run| - 1], first), run[|run| - 1].admitted, first + |run| - 1)
  }

  /** Every tick admits greedily on the staleness the ticks before it left behind. */
  ghost predicate GreedyRun(init: map<BodyId, nat>, run: seq<Sending>, first: nat) {
    && (forall id :: id in init ==> init[id] < first)
    && forall k {:trigger GreedyTick(init, run, first, k)} :: 0 <= k < |run| ==> GreedyTick(init, run, first, k)
  }

  ghost predicate GreedyTick(init: map<BodyId, nat>, run: seq<Sending>, first: nat, k: nat)
    requires k < |run|
  {
    Greedy(run[k], LastAfter(init, run[..k], first), first + k)
  }

  lemma EarlierTick(init: map<BodyId, nat>, run: seq<Sending>, longer: seq<Sending>, first: nat, k: nat)
    requires run <= longer && k < |run| && GreedyTick(init, run, first, k)
    ensures GreedyTick(init, longer, first, k)
  {
    assert longer[..k] == run[..k];
  }

  lemma NewestTick(init: map<BodyId, nat>, run: seq<Sending>, longer: seq<Sending>, s: Sending, first: nat)
    requires longer == run + [s] && Greedy(s, LastAfter(init, run, first), first + |run|)
    ensures GreedyTick(init, longer, first, |run|)
  {
    assert longer[..|run|] == run && longer[|run|] == s;
  }

  lemma LastAfterOneMore(init: map<BodyId, nat>, run: seq<Sending>, s: Sending, first: nat)
    ensures LastAfter(init, run + [s], first) == Sent(LastAfter(init, run, first), s.admitted, first + |run|)
  {
    var longer := run + [s];
    assert longer[..|longer| - 1] == run && longer[|longer| - 1] == s;
  }

  lemma OneMoreTick(init: map<BodyId, nat>, run: seq<Sending>, s: Sending, first: nat)
    requires GreedyRun(init, run, first) && Greedy(s, LastAfter(init, run, first), first + |run|)
    ensures GreedyRun(init, run + [s], first)
  {
    var longer := run + [s];
    NewestTick(init, run, longer, s, first);
    forall k | 0 <= k < |longer| ensures GreedyTick(init, longer, first, k) {
      if k < |run| {
        EarlierTick(init, run, longer, first, k);
      }
    }
  }

  /** One tick of the rota, added to the record of the run so far. */
  method SendTick(rota: Rota, offer: Offer, budget: nat, tick: nat, ghost init: map<BodyId, nat>,
                  ghost before: seq<Sending>, ghost first: nat)
    returns (s: Sending)
    requires ValidOffer(offer) && tick == first + |before|
    requires GreedyRun(init, before, first) && rota.lastSent == LastAfter(init, before, first)
    modifies rota
    ensures s.offer == offer && s.budget == budget
    ensures GreedyRun(init, before + [s], first) && rota.lastSent == Sent(old(rota.lastSent), s.admitted, tick)
  {
    s := rota.Tick(offer, tick, budget);
    OneMoreTick(init, before, s, first);
  }

  /** `run` is what happened when these offers and budgets came in order. */
  ghost predicate Followed(offers: seq<Offer>, budgets: seq<nat>, run: seq<Sending>) {
    && |run| == |offers| == |budgets|
    && forall k :: 0 <= k < |run| ==> run[k].offer == offers[k] && run[k].budget == budgets[k]
  }

  /** The rota itself, driven over any schedule of offers and budgets, produces such a run. */
  method RunRota(rota: Rota, offers: seq<Offer>, budgets: seq<nat>, first: nat) returns (run: seq<Sending>)
    requires |offers| == |budgets| && forall k :: 0 <= k < |offers| ==> ValidOffer(offers[k])
    requires forall id :: id in rota.lastSent ==> rota.lastSent[id] < first
    modifies rota
    ensures Followed(offers, budgets, run)
    ensures GreedyRun(old(rota.lastSent), run, first)
    ensures rota.lastSent == LastAfter(old(rota.lastSent), run, first)
    decreases |offers|
  {
    run := [];
    if offers != [] {
      var n := |offers| - 1;
      run := RunRota(rota, offers[..n], budgets[..n], first);
      var s := SendTick(rota, offers[n], budgets[n], first + n, old(rota.lastSent), run, first);
      LastAfterOneMore(old(rota.lastSent), run, s, first);
      run := run + [s];
    }
  }

  // ------------------------------------------------------------------ what staleness records

  lemma {:induction false} LastIsLatest(init: map<BodyId, nat>, run: seq<Sending>, first: nat, id: BodyId, j: nat)
    requires j < |run| && id in run[j].admitted
    requires forall k :: j < k < |run| ==> id !in run[k].admitted
    ensures id in LastAfter(init, run, first) && LastAfter(init, run, first)[id] == first + j
  {
    if j < |run| - 1 {
      LastIsLatest(init, run[..|run| - 1], first, id, j);
    }
  }

  lemma {:induction false} LastBefore(init: map<BodyId, nat>, run: seq<Sending>, first: nat, id: BodyId, from: nat)
    requires from <= |run| && forall i :: i in init ==> init[i] < first
    requires forall k :: from <= k < |run| ==> id !in run[k].admitted
    ensures id in LastAfter(init, run, first) ==> LastAfter(init, run, first)[id] < first + from
    decreases |run|
  {
    if run != [] {
      var front := run[..|run| - 1];
      LastBefore(init, front, first, id, if from < |run| then from else |run| - 1);
    }
  }

  // ------------------------------------------------------------------ one admission in the second half

  /** What out-scores an entity that has waited more than `wait` ticks has itself waited a share of that. */
  lemma AdmittedHasWaited(offer: Offer, last: map<BodyId, nat>, tick: nat, x: BodyId, a: BodyId, wait: nat)
    requires ValidOffer(offer) && x in offer && a in offer
    requires Precedes(Offered(offer, last, a, tick), Offered(offer, last, x, tick))
    requires wait < Staleness(last, x, tick) && wait < NEVER_SENT_STALENESS
    ensures Staleness(last, a, tick) * WEIGHT_RATIO > wait
  {
    var sa, sx := Staleness(last, a, tick), Staleness(last, x, tick);
    var wa, wx := offer[a], offer[x];
    assert sx * wx >= (wait + 1) * WEIGHT_FLOOR by {
      MulMonotone(wait + 1, sx, WEIGHT_FLOOR, wx);
    }
    assert Score(sx, wx) >= (wait + 1) * WEIGHT_FLOOR;
    assert sa * wa >= (wait + 1) * WEIGHT_FLOOR;
    assert sa * WEIGHT_CEILING >= sa * wa by {
      MulMonotone(sa, sa, wa, WEIGHT_CEILING);
    }
  }

  lemma MulMonotone(a: nat, b: nat, c: nat, d: nat)
    requires a <= b && c <= d
    ensures a * c <= b * d
  {
    assert (b - a) * c >= 0;
    assert b * (d - c) >= 0;
  }

  lemma MulSucc(a: nat, b: nat)
    ensures a * (b + 1) == a * b + a
  {
  }

  // ------------------------------------------------------------------ counting

  /** How often `a` is admitted in ticks `lo..hi`. */
  ghost function Sends(run: seq<Sending>, a: BodyId, lo: nat, hi: nat): nat
    requires lo <= hi <= |run|
  {
    if lo == hi then 0 else Sends(run, a, lo, hi - 1) + if a in run[hi - 1].admitted then 1 else 0
  }

  /** How many admissions of members of `s` ticks `lo..hi` make. */
  ghost function Admissions(run: seq<Sending>, s: set<BodyId>, lo: nat, hi: nat): nat
    requires lo <= hi <= |run|
  {
    if lo == hi then 0 else Admissions(run, s, lo, hi - 1) + |run[hi - 1].admitted * s|
  }

  lemma {:induction false} RemoveOne(run: seq<Sending>, s: set<BodyId>, a: BodyId, lo: nat, hi: nat)
    requires lo <= hi <= |run| && a in s
    ensures Admissions(run, s, lo, hi) == Admissions(run, s - {a}, lo, hi) + Sends(run, a, lo, hi)
  {
    if lo < hi {
      RemoveOne(run, s, a, lo, hi - 1);
      var admitted := run[hi - 1].admitted;
      if a in admitted {
        assert admitted * s == admitted * (s - {a}) + {a};
      } else {
        assert admitted * s == admitted * (s - {a});
      }
    }
  }

  lemma {:induction false} AdmissionsBounded(run: seq<Sending>, s: set<BodyId>, lo: nat, hi: nat, most: nat)
    requires lo <= hi <= |run| && forall a :: a in s ==> Sends(run, a, lo, hi) <= most
    ensures Admissions(run, s, lo, hi) <= most * |s|
    decreases |s|
  {
    if s == {} {
      NobodyIsNeverAdmitted(run, lo, hi);
    } else {
      var a :| a in s;
      AdmissionsBounded(run, s - {a}, lo, hi, most);
      RemoveOne(run, s, a, lo, hi);
      MulSucc(most, |s - {a}|);
    }
  }

  lemma {:induction false} NobodyIsNeverAdmitted(run: seq<Sending>, lo: nat, hi: nat)
    requires lo <= hi <= |run|
    ensures Admissions(run, {}, lo, hi) == 0
  {
    if lo < hi {
      NobodyIsNeverAdmitted(run, lo, hi - 1);
      assert run[hi - 1].admitted * {} == {};
    }
  }

  lemma {:induction false} AdmissionsAtLeast(run: seq<Sending>, s: set<BodyId>, lo: nat, hi: nat, least: nat)
    requires lo <= hi <= |run|
    requires forall k :: lo <= k < hi ==> run[k].admitted <= s && |run[k].admitted| >= least
    ensures Admissions(run, s, lo, hi) >= least * (hi - lo)
  {
    if lo < hi {
      AdmissionsAtLeast(run, s, lo, hi - 1, least);
      assert run[hi - 1].admitted * s == run[hi - 1].admitted;
      assert least * (hi - lo) == least * (hi - 1 - lo) + least;
    }
  }

  lemma StalenessIsDistance(init: map<BodyId, nat>, run: seq<Sending>, first: nat, a: BodyId, i: nat, k: nat)
    requires i < k < |run| && a in run[i].admitted && forall m :: i < m < k ==> a !in run[m].admitted
    ensures Staleness(LastAfter(init, run[..k], first), a, first + k) == k - i
  {
    LastIsLatest(init, run[..k], first, a, i);
  }

  lemma SpreadOneMore(c: nat, gap: nat, before: nat, more: nat)
    requires c > 0 && (c - 1) * gap <= WEIGHT_RATIO * before && gap <= WEIGHT_RATIO * more
    ensures c * gap <= WEIGHT_RATIO * (before + more)
  {
    assert c * gap == (c - 1) * gap + gap;
  }

  /**
   * Every admission of `a` costs it a wait of more than `wait / ratio`, so `c` admissions spread over
   * more than `(c - 1) * wait / ratio` ticks.
   */
  lemma {:induction false} SendsAreSpread(init: map<BodyId, nat>, run: seq<Sending>, first: nat, a: BodyId,
                                          lo: nat, hi: nat, wait: nat)
    returns (j: nat)
    requires lo <= hi <= |run| && Sends(run, a, lo, hi) > 0
    requires forall k :: lo <= k < hi && a in run[k].admitted ==>
               Staleness(LastAfter(init, run[..k], first), a, first + k) * WEIGHT_RATIO > wait
    ensures lo <= j < hi && a in run[j].admitted && forall k :: j < k < hi ==> a !in run[k].admitted
    ensures (Sends(run, a, lo, hi) - 1) * (wait + 1) <= WEIGHT_RATIO * (j - lo)
  {
    var k := hi - 1;
    if a !in run[k].admitted {
      j := SendsAreSpread(init, run, first, a, lo, k, wait);
    } else if Sends(run, a, lo, k) == 0 {
      j := k;
    } else {
      var i := SendsAreSpread(init, run, first, a, lo, k, wait);
      j := k;
      StalenessIsDistance(init, run, first, a, i, k);
      SpreadOneMore(Sends(run, a, lo, k), wait + 1, i - lo, k - i);
    }
  }

  lemma SendsBounded(init: map<BodyId, nat>, run: seq<Sending>, first: nat, a: BodyId, lo: nat, length: nat)
    requires length > 0 && lo + length <= |run|
    requires forall k :: lo <= k < lo + length && a in run[k].admitted ==>
               Staleness(LastAfter(init, run[..k], first), a, first + k) * WEIGHT_RATIO > length
    ensures Sends(run, a, lo, lo + length) <= WEIGHT_RATIO
  {
    var c := Sends(run, a, lo, lo + length);
    if c > WEIGHT_RATIO {
      var j := SendsAreSpread(init, run, first, a, lo, lo + length, length);
      MulMonotone(WEIGHT_RATIO, c - 1, length + 1, length + 1);
    }
  }

  // ------------------------------------------------------------------ the theorem

  lemma OutscoredHasWaited(init: map<BodyId, nat>, run: seq<Sending>, first: nat, x: BodyId, a: BodyId,
                           from: nat, length: nat, k: nat)
    requires GreedyRun(init, run, first) && length < NEVER_SENT_STALENESS
    requires from + length <= k < |run| && x in run[k].offer && a in run[k].admitted
    requires forall i :: from <= i <= k ==> x !in run[i].admitted
    ensures Staleness(LastAfter(init, run[..k], first), a, first + k) * WEIGHT_RATIO > length
  {
    assert GreedyTick(init, run, first, k);
    LastBefore(init, run[..k], first, x, from);
    AdmittedHasWaited(run[k].offer, LastAfter(init, run[..k], first), first + k, x, a, length);
  }

  /** An entity left out through a whole wait leaves room for only so many admissions of the others. */
  lemma WaitingCosts(init: map<BodyId, nat>, run: seq<Sending>, first: nat, x: BodyId, everyone: set<BodyId>,
                     from: nat, length: nat, budget: nat)
    requires GreedyRun(init, run, first)
    requires 0 < length < NEVER_SENT_STALENESS && from + 2 * length <= |run|
    requires forall k :: from <= k < from + 2 * length ==>
               x in run[k].offer && run[k].offer.Keys <= everyone && run[k].budget >= budget
    requires forall k :: from <= k < from + 2 * length ==> x !in run[k].admitted
    ensures budget * length <= WEIGHT_RATIO * (|everyone| - 1)
  {
    var lo, hi := from + length, from + 2 * length;
    var others := everyone - {x};
    forall k | lo <= k < hi
      ensures run[k].admitted <= others && |run[k].admitted| >= budget
    {
      assert GreedyTick(init, run, first, k);
      LeftOutMeansFull(run[k]);
    }
    forall a | a in others ensures Sends(run, a, lo, hi) <= WEIGHT_RATIO {
      forall k | lo <= k < hi && a in run[k].admitted
        ensures Staleness(LastAfter(init, run[..k], first), a, first + k) * WEIGHT_RATIO > length
      {
        OutscoredHasWaited(init, run, first, x, a, from, length, k);
      }
      SendsBounded(init, run, first, a, lo, length);
    }
    AdmissionsBounded(run, others, lo, hi, WEIGHT_RATIO);
    AdmissionsAtLeast(run, others, lo, hi, budget);
    assert x in everyone by { assert x in run[lo].offer; }
    assert |others| == |everyone| - 1;
  }

  lemma LeftOutMeansFull(s: Sending)
    requires exists x :: x in s.offer && x !in s.admitted
    requires s.admitted <= s.offer.Keys && |s.admitted| == if s.budget < |s.offer| then s.budget else |s.offer|
    ensures |s.admitted| == s.budget
  {
    var x :| x in s.offer && x !in s.admitted;
    assert s.admitted <= s.offer.Keys - {x};
    Interest.SubsetSize(s.admitted, s.offer.Keys - {x});
  }

  /**
   * No entity starves. In every run of the rota, whatever its weights did tick by tick within the
   * range `WeightFor` can produce and whoever else was offered, an entity that stays a candidate is
   * sent in every window of `2 * length` ticks once `budget * length > 64 * (n - 1)`: a wait of order
   * n times the weight ratio over the budget, and no longer.
   */
  lemma NoEntityStarves(init: map<BodyId, nat>, run: seq<Sending>, first: nat, x: BodyId, everyone: set<BodyId>,
                        from: nat, length: nat, budget: nat)
    requires GreedyRun(init, run, first)
    requires length < NEVER_SENT_STALENESS && from + 2 * length <= |run|
    requires forall k :: from <= k < from + 2 * length ==>
               x in run[k].offer && run[k].offer.Keys <= everyone && run[k].budget >= budget
    requires x in everyone && budget * length > WEIGHT_RATIO * (|everyone| - 1)
    ensures exists k :: from <= k < from + 2 * length && x in run[k].admitted
  {
    assert length > 0 by {
      assert |everyone| >= 1 by { assert everyone == (everyone - {x}) + {x}; }
    }
    if forall k :: from <= k < from + 2 * length ==> x !in run[k].admitted {
      WaitingCosts(init, run, first, x, everyone, from, length, budget);
    }
  }
}

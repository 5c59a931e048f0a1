/** Input-novelty freshness: a tick reads fresh once, on the first pass that carries its real input. */
module Freshness {
  import opened Options

  datatype Confidence = Predicted | Extrapolated | Authoritative {
    function Rank(): nat {
      match this
      case Predicted => 0
      case Extrapolated => 1
      case Authoritative => 2
    }
  }

  datatype LedgerSlot = LedgerSlot(tick: nat, confidence: Confidence, freshConsumed: bool)

  // ------------------------------------------------------------------ what a run of calls means

  datatype Event = Mark(tick: nat, confidence: Confidence) | Begin(tick: nat)

  /** Real input for `t` was recorded among the first `n` calls. */
  ghost predicate Marked(events: seq<Event>, n: nat, t: nat)
    requires n <= |events|
  {
    exists j :: 0 <= j < n && events[j] == Mark(t, Authoritative)
  }

  /** A newer tick was recorded in `t`'s slot among the first `n` calls. */
  ghost predicate Overtaken(events: seq<Event>, n: nat, t: nat, capacity: nat)
    requires n <= |events| && capacity > 0
  {
    exists j :: 0 <= j < n && events[j].Mark? && events[j].tick > t && events[j].tick % capacity == t % capacity
  }

  /** A pass over `t` was begun, real input in hand, among the first `n` calls. */
  ghost predicate Begun(events: seq<Event>, n: nat, t: nat)
    requires n <= |events|
  {
    exists k :: 0 <= k < n && events[k] == Begin(t) && Marked(events, k, t)
  }

  /**
   * The rule, with no ledger in it: after `n` calls a pass over `t` is fresh when real input for it is in, no
   * earlier pass had it, and no newer tick has taken the slot.
   */
  ghost predicate IsFresh(events: seq<Event>, n: nat, t: nat, capacity: nat)
    requires n <= |events| && capacity > 0
  {
    Marked(events, n, t) && !Begun(events, n, t) && !Overtaken(events, n, t, capacity)
  }

  /** Some confidence was recorded for `t`. */
  ghost predicate Recalled(events: seq<Event>, n: nat, t: nat)
    requires n <= |events|
  {
    exists j :: 0 <= j < n && events[j].Mark? && events[j].tick == t
  }

  /** The highest confidence recorded for `t`. */
  ghost predicate IsHighest(events: seq<Event>, n: nat, t: nat, confidence: Confidence)
    requires n <= |events|
  {
    && (exists j :: 0 <= j < n && events[j] == Mark(t, confidence))
    && (forall j :: 0 <= j < n && events[j].Mark? && events[j].tick == t ==>
        events[j].confidence.Rank() <= confidence.Rank())
  }

  /** Real input outranks an extrapolation, which outranks a prediction. */
  lemma HighestByCases(events: seq<Event>, n: nat, t: nat, confidence: Confidence)
    requires n <= |events| && IsHighest(events, n, t, confidence)
    ensures confidence.Authoritative? <==> Marked(events, n, t)
    ensures confidence.Predicted?
       <==> forall j :: 0 <= j < n && events[j].Mark? && events[j].tick == t ==> events[j].confidence.Predicted?
  {
  }

  /** What is known of `t`: the highest confidence recorded for it, unless none was or a newer tick took the slot. */
  ghost predicate IsKnown(events: seq<Event>, n: nat, t: nat, capacity: nat, confidence: Confidence)
    requires n <= |events| && capacity > 0
  {
    if Recalled(events, n, t) && !Overtaken(events, n, t, capacity) then IsHighest(events, n, t, confidence)
    else confidence == Predicted
  }

  /** The answers a run of calls gets by the rule. */
  ghost predicate FollowsTheRule(events: seq<Event>, answers: seq<bool>, capacity: nat)
    requires capacity > 0
  {
    && |answers| == |events|
    && forall i :: 0 <= i < |events| ==>
         (answers[i] <==> events[i].Begin? && IsFresh(events, i, events[i].tick, capacity))
  }

  lemma PassIsRemembered(events: seq<Event>, i: nat, j: nat)
    requires i < j <= |events| && events[i].Begin? && Marked(events, i, events[i].tick)
    ensures Begun(events, j, events[i].tick)
  {
  }

  /** Over every run no tick is answered fresh twice. */
  lemma FreshAtMostOnce(events: seq<Event>, answers: seq<bool>, capacity: nat)
    requires capacity > 0 && FollowsTheRule(events, answers, capacity)
    ensures forall i, j :: 0 <= i < j < |answers| && answers[i] && answers[j] ==> events[i].tick != events[j].tick
  {
    forall i, j | 0 <= i < j < |answers| && answers[i] && answers[j] ensures events[i].tick != events[j].tick {
      PassIsRemembered(events, i, j);
    }
  }

  /**
   * The first pass after the mark is fresh unless a newer tick took the slot, however many passes at a lower
   * confidence came before the mark.
   */
  lemma FirstRealPassIsFresh(events: seq<Event>, m: nat, i: nat, capacity: nat)
    requires m < i < |events| && capacity > 0 && events[i].Begin?
    requires events[m] == Mark(events[i].tick, Authoritative) && !Marked(events, m, events[i].tick)
    requires forall k :: m < k < i ==> events[k] != events[i]
    ensures IsFresh(events, i, events[i].tick, capacity) <==> !Overtaken(events, i, events[i].tick, capacity)
  {
  }

  // ------------------------------------------------------------------ one slot under a run of calls

  /** What one call to record confidence does to the slot it lands on. */
  function Recorded(slot: Option<LedgerSlot>, tick: nat, confidence: Confidence): Option<LedgerSlot> {
    if slot.Some? && slot.value.tick == tick then
      if confidence.Rank() > slot.value.confidence.Rank() then Some(slot.value.(confidence := confidence)) else slot
    else if slot.Some? && slot.value.tick > tick then slot
    else Some(LedgerSlot(tick, confidence, false))
  }

  /** A pass over `tick` would be fresh by this slot. */
  predicate Ready(slot: Option<LedgerSlot>, tick: nat) {
    slot.Some? && slot.value.tick == tick && slot.value.confidence == Authoritative && !slot.value.freshConsumed
  }

  /** What one call does to slot `i`. */
  function Called(slot: Option<LedgerSlot>, i: nat, event: Event, capacity: nat): Option<LedgerSlot>
    requires capacity > 0
  {
    if event.tick % capacity != i then slot
    else
      match event
      case Mark(tick, confidence) => Recorded(slot, tick, confidence)
      case Begin(tick) => if Ready(slot, tick) then Some(LedgerSlot(tick, Authoritative, true)) else slot
  }

  /** A slot, after `n` calls, holds the newest tick recorded in it and what the calls say of that tick. */
  ghost predicate Reflects(slot: Option<LedgerSlot>, i: nat, events: seq<Event>, n: nat, capacity: nat)
    requires n <= |events| && capacity > 0
  {
    match slot
    case None => forall j :: 0 <= j < n && events[j].Mark? ==> events[j].tick % capacity != i
    case Some(s) =>
      && s.tick % capacity == i && IsHighest(events, n, s.tick, s.confidence)
      && (forall j :: 0 <= j < n && events[j].Mark? && events[j].tick % capacity == i ==> events[j].tick <= s.tick)
      && (s.freshConsumed <==> Begun(events, n, s.tick))
  }

  /** Recording keeps a slot true to the calls. */
  lemma RecordingReflects(slot: Option<LedgerSlot>, i: nat, events: seq<Event>, n: nat, capacity: nat)
    requires n < |events| && capacity > 0 && events[n].Mark? && Reflects(slot, i, events, n, capacity)
    ensures Reflects(Called(slot, i, events[n], capacity), i, events, n + 1, capacity)
  {
  }

  /** Beginning keeps a slot true to the calls, and is fresh by the rule. */
  lemma BeginningReflects(slot: Option<LedgerSlot>, i: nat, events: seq<Event>, n: nat, capacity: nat)
    requires n < |events| && capacity > 0 && events[n].Begin? && Reflects(slot, i, events, n, capacity)
    ensures Reflects(Called(slot, i, events[n], capacity), i, events, n + 1, capacity)
    ensures events[n].tick % capacity == i ==>
              (Ready(slot, events[n].tick) <==> IsFresh(events, n, events[n].tick, capacity))
  {
  }

  /** What a slot true to the calls says of a tick is what is known of it. */
  lemma SlotIsKnown(slot: Option<LedgerSlot>, tick: nat, events: seq<Event>, capacity: nat)
    requires capacity > 0 && Reflects(slot, tick % capacity, events, |events|, capacity)
    ensures IsKnown(events, |events|, tick, capacity,
                    if slot.Some? && slot.value.tick == tick then slot.value.confidence else Predicted)
  {
  }

  // Later calls do not change what the first `n` said.

  lemma PrefixMarked(events: seq<Event>, later: seq<Event>, n: nat, t: nat)
    requires n <= |events|
    ensures Marked(events, n, t) <==> Marked(events + later, n, t)
  {
    var all := events + later;
    assert forall j {:trigger events[j]} {:trigger all[j]} :: 0 <= j < n ==> events[j] == all[j];
  }

  lemma PrefixBegun(events: seq<Event>, later: seq<Event>, t: nat)
    ensures Begun(events, |events|, t) <==> Begun(events + later, |events|, t)
  {
    var all := events + later;
    forall k | 0 <= k < |events|
      ensures events[k] == all[k] && (Marked(events, k, t) <==> Marked(all, k, t))
    {
      PrefixMarked(events, later, k, t);
    }
  }

  lemma PrefixReflects(slot: Option<LedgerSlot>, i: nat, events: seq<Event>, later: seq<Event>, capacity: nat)
    requires capacity > 0
    ensures Reflects(slot, i, events, |events|, capacity) <==> Reflects(slot, i, events + later, |events|, capacity)
  {
    var all := events + later;
    assert forall j {:trigger events[j]} {:trigger all[j]} :: 0 <= j < |events| ==> events[j] == all[j];
    if slot.Some? {
      PrefixBegun(events, later, slot.value.tick);
    }
  }

  lemma PrefixIsFresh(events: seq<Event>, later: seq<Event>, t: nat, capacity: nat)
    requires capacity > 0
    ensures IsFresh(events, |events|, t, capacity) <==> IsFresh(events + later, |events|, t, capacity)
  {
    var all := events + later;
    assert forall j {:trigger events[j]} {:trigger all[j]} :: 0 <= j < |events| ==> events[j] == all[j];
    PrefixBegun(events, later, t);
  }

  // ------------------------------------------------------------------ the ledger

  class FreshnessLedger {
    const slots: array<Option<LedgerSlot>>
    /** Every call since the ledger was last cleared. */
    ghost var calls: seq<Event>

    ghost predicate Valid()
      reads this, slots
    {
      slots.Length > 0 && forall i :: 0 <= i < slots.Length ==> Reflects(slots[i], i, calls, |calls|, slots.Length)
    }

    constructor (capacity: nat)
      ensures Valid() && fresh(slots) && slots.Length == (if capacity < 1 then 1 else capacity) && calls == []
    {
      slots := new Option<LedgerSlot>[if capacity < 1 then 1 else capacity](_ => None);
      calls := [];
    }

    /** One call, made on the slot it lands on, leaves every slot true to the calls. */
    twostate lemma CallKeeps(event: Event)
      requires old(Valid()) && calls == old(calls) + [event]
      requires slots[..] == old(slots[..])[event.tick % slots.Length :=
                 Called(old(slots[event.tick % slots.Length]), event.tick % slots.Length, event, slots.Length)]
      ensures Valid()
    {
      forall i | 0 <= i < slots.Length ensures Reflects(slots[i], i, calls, |calls|, slots.Length) {
        var was := old(slots[..])[i];
        PrefixReflects(was, i, old(calls), [event], slots.Length);
        if event.Mark? {
          RecordingReflects(was, i, calls, |old(calls)|, slots.Length);
        } else {
          BeginningReflects(was, i, calls, |old(calls)|, slots.Length);
        }
        assert slots[i] == slots[..][i] == Called(was, i, event, slots.Length);
      }
    }

    /** Record what is known of a tick's input: upgrades only, and never over a newer tick. */
    method SetConfidence(tick: nat, confidence: Confidence)
      requires Valid()
      modifies this, slots
      ensures Valid() && calls == old(calls) + [Mark(tick, confidence)]
      ensures slots[..]
           == old(slots[..])[tick % slots.Length := Recorded(old(slots[tick % slots.Length]), tick, confidence)]
    {
      var index := tick % slots.Length;
      match slots[index] {
        case Some(slot) =>
          if slot.tick == tick {
            if confidence.Rank() > slot.confidence.Rank() {
              slots[index] := Some(slot.(confidence := confidence));
            }
          } else if slot.tick < tick {
            slots[index] := Some(LedgerSlot(tick, confidence, false));
          }
        case None => slots[index] := Some(LedgerSlot(tick, confidence, false));
      }
      calls := calls + [Mark(tick, confidence)];
      CallKeeps(Mark(tick, confidence));
    }

    /**
     * The highest confidence recorded for a tick by every call so far; predicted when there was none, or a newer
     * tick has taken the slot.
     */
    method ConfidenceOf(tick: nat) returns (confidence: Confidence)
      requires Valid()
      ensures IsKnown(calls, |calls|, tick, slots.Length, confidence)
    {
      SlotIsKnown(slots[tick % slots.Length], tick, calls, slots.Length);
      match slots[tick % slots.Length]
      case Some(slot) => return if slot.tick == tick then slot.confidence else Predicted;
      case None => return Predicted;
    }

    /** Begin a pass: fresh by the rule over every call so far, which consumes it. */
    method BeginSim(tick: nat) returns (isFresh: bool)
      requires Valid()
      modifies this, slots
      ensures Valid() && calls == old(calls) + [Begin(tick)]
      ensures isFresh <==> IsFresh(old(calls), |old(calls)|, tick, slots.Length)
      ensures slots[..] == if !isFresh then old(slots[..])
                           else old(slots[..])[tick % slots.Length := Some(LedgerSlot(tick, Authoritative, true))]
    {
      var index := tick % slots.Length;
      isFresh := Ready(slots[index], tick);
      calls := calls + [Begin(tick)];
      PrefixReflects(slots[index], index, old(calls), [Begin(tick)], slots.Length);
      PrefixIsFresh(old(calls), [Begin(tick)], tick, slots.Length);
      BeginningReflects(slots[index], index, calls, |old(calls)|, slots.Length);
      if isFresh {
        slots[index] := Some(slots[index].value.(freshConsumed := true));
      }
      CallKeeps(Begin(tick));
    }

    method Clear()
      requires Valid()
      modifies this, slots
      ensures Valid() && calls == []
    {
      forall i | 0 <= i < slots.Length {
        slots[i] := None;
      }
      calls := [];
    }
  }

  /** Over every run of calls the ledger answers the rule, and so no tick fresh twice. */
  method Drive(capacity: nat, events: seq<Event>) returns (answers: seq<bool>)
    requires capacity > 0
    ensures FollowsTheRule(events, answers, capacity)
    ensures forall i, j :: 0 <= i < j < |answers| && answers[i] && answers[j] ==> events[i].tick != events[j].tick
  {
    var ledger := new FreshnessLedger(capacity);
    answers := [];
    for n := 0 to |events|
      invariant fresh(ledger) && fresh(ledger.slots) && ledger.Valid() && ledger.slots.Length == capacity
      invariant ledger.calls == events[..n] && |answers| == n
      invariant forall i :: 0 <= i < n ==>
                  (answers[i] <==> events[i].Begin? && IsFresh(events, i, events[i].tick, capacity))
    {
      var answer := false;
      match events[n] {
        case Mark(tick, confidence) =>
          ledger.SetConfidence(tick, confidence);
        case Begin(tick) =>
          assert events == events[..n] + events[n..];
          PrefixIsFresh(events[..n], events[n..], tick, capacity);
          answer := ledger.BeginSim(tick);
      }
      answers := answers + [answer];
    }
    FreshAtMostOnce(events, answers, capacity);
  }

  // ------------------------------------------------------------------ memos

  datatype MemoSlot = MemoSlot(tick: Option<nat>, pairs: seq<(int, int)>)

  ghost predicate DistinctKeys(pairs: seq<(int, int)>) {
    forall i, j :: 0 <= i < j < |pairs| ==> pairs[i].0 != pairs[j].0
  }

  function Find(pairs: seq<(int, int)>, key: int): Option<int> {
    if pairs == [] then None
    else if pairs[0].0 == key then Some(pairs[0].1)
    else Find(pairs[1..], key)
  }

  lemma {:induction false} FindUpdated(pairs: seq<(int, int)>, i: nat, value: int, key: int)
    requires i < |pairs| && DistinctKeys(pairs)
    ensures Find(pairs[i := (pairs[i].0, value)], key) == if key == pairs[i].0 then Some(value) else Find(pairs, key)
  {
    var next := pairs[i := (pairs[i].0, value)];
    if i > 0 {
      assert next[1..] == pairs[1..][i - 1 := (pairs[i].0, value)];
      FindUpdated(pairs[1..], i - 1, value, key);
    }
  }

  lemma {:induction false} FindPushed(pairs: seq<(int, int)>, pair: (int, int), key: int)
    requires forall i :: 0 <= i < |pairs| ==> pairs[i].0 != pair.0
    ensures Find(pairs + [pair], key) == if key == pair.0 then Some(pair.1) else Find(pairs, key)
  {
    if pairs == [] {
      assert [pair][1..] == [];
    } else {
      assert (pairs + [pair])[1..] == pairs[1..] + [pair];
      FindPushed(pairs[1..], pair, key);
    }
  }

  class MemoRing {
    const slots: array<MemoSlot>

    ghost predicate Valid()
      reads slots
    {
      && slots.Length > 0
      && forall i :: 0 <= i < slots.Length ==> DistinctKeys(slots[i].pairs)
    }

    constructor (capacity: nat)
      ensures Valid() && fresh(slots) && slots.Length == (if capacity < 1 then 1 else capacity)
      ensures forall tick: nat, key :: Memo(tick, key) == None
    {
      slots := new MemoSlot[if capacity < 1 then 1 else capacity](_ => MemoSlot(None, []));
    }

    /** What is memoed for a key at a tick. */
    function Memo(tick: nat, key: int): Option<int>
      requires slots.Length > 0
      reads slots
    {
      var slot := slots[tick % slots.Length];
      if slot.tick == Some(tick) then Find(slot.pairs, key) else None
    }

    /** Store a memo, evicting an older tick's memos and refusing over a newer tick's. */
    method Set(tick: nat, key: int, value: int) returns (stored: bool)
      requires Valid()
      modifies slots
      ensures Valid()
      ensures stored <==>
                !(old(slots[tick % slots.Length]).tick.Some? && old(slots[tick % slots.Length]).tick.value > tick)
      ensures !stored ==> slots[..] == old(slots[..])
      ensures stored ==> Memo(tick, key) == Some(value)
      ensures stored ==> forall k :: k != key ==> Memo(tick, k) == old(Memo(tick, k))
      ensures stored ==> forall t: nat, k :: t % slots.Length != tick % slots.Length ==> Memo(t, k) == old(Memo(t, k))
      ensures stored ==> forall t: nat, k :: t % slots.Length == tick % slots.Length && t != tick ==> Memo(t, k) == None
    {
      var index := tick % slots.Length;
      var slot := slots[index];
      if slot.tick.Some? && slot.tick.value > tick {
        return false;
      }
      var pairs := if slot.tick == Some(tick) then slot.pairs else [];
      var next := Upserted(pairs, key, value);
      slots[index] := MemoSlot(Some(tick), next);
      return true;
    }

    /** Overwrite a key's pair where it is, or push a new one. */
    static method Upserted(pairs: seq<(int, int)>, key: int, value: int) returns (next: seq<(int, int)>)
      requires DistinctKeys(pairs)
      ensures DistinctKeys(next)
      ensures forall k :: Find(next, k) == if k == key then Some(value) else Find(pairs, k)
    {
      for i := 0 to |pairs|
        invariant forall j :: 0 <= j < i ==> pairs[j].0 != key
      {
        if pairs[i].0 == key {
          next := pairs[i := (pairs[i].0, value)];
          forall k ensures Find(next, k) == if k == key then Some(value) else Find(pairs, k) {
            FindUpdated(pairs, i, value, k);
          }
          return;
        }
      }
      next := pairs + [(key, value)];
      forall k ensures Find(next, k) == if k == key then Some(value) else Find(pairs, k) {
        FindPushed(pairs, (key, value), k);
      }
    }
  }
}

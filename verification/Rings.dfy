/** What tick-addressed rings share: slots, staleness, and the look-back search, over the ticks they hold. */
module Rings {
  import opened Bytes
  import opened Options

  const MAX_TICK: nat := U64 - 1

  function SaturatingAdd(a: nat, b: nat): nat {
    if a + b > MAX_TICK then MAX_TICK else a + b
  }

  /** A write for `tick` is refused: it has fallen out of the window. */
  predicate IsStale(latest: Option<nat>, tick: nat, capacity: nat) {
    latest.Some? && SaturatingAdd(tick, capacity) <= latest.value
  }

  /** Out of the window, with no arithmetic to saturate. */
  predicate HasLeft(latest: Option<nat>, tick: nat, capacity: nat) {
    latest.Some? && tick + capacity <= latest.value
  }

  /**
   * The refusal is exactly the window's edge, except that a ring whose newest tick is the last there is also
   * refuses every live tick within a capacity of it.
   */
  lemma StaleIsTheWindowBelowTheTop(latest: Option<nat>, tick: nat, capacity: nat)
    requires latest.Some? ==> latest.value <= MAX_TICK
    ensures (IsStale(latest, tick, capacity) <==> HasLeft(latest, tick, capacity))
       <==> !(latest == Some(MAX_TICK) && tick + capacity > MAX_TICK)
  {
  }

  function Newer(latest: Option<nat>, tick: nat): nat {
    if latest.Some? && latest.value > tick then latest.value else tick
  }

  /** A live write never lands on a newer tick's slot. */
  lemma NeverEvictsNewer(latest: Option<nat>, tick: nat, held: nat, capacity: nat)
    requires capacity > 0 && latest.Some? && held <= latest.value <= MAX_TICK && !IsStale(latest, tick, capacity)
    requires held % capacity == tick % capacity
    ensures held <= tick
  {
    if tick < held { SameSlot(tick, held, capacity); }
  }

  // ------------------------------------------------------------------ the look-back search

  /** The greatest held tick at or before `tick`, however old. */
  ghost predicate IsNewestUpTo(held: set<nat>, tick: nat, r: Option<nat>) {
    match r
    case None => forall t :: t in held ==> t > tick
    case Some(at) => at in held && at <= tick && forall t :: t in held && t <= tick ==> t <= at
  }

  /** The greatest held tick among the `span` ending at `tick`. */
  ghost predicate IsLookBack(held: set<nat>, tick: nat, span: nat, r: Option<nat>) {
    match r
    case None => forall t :: t in held ==> t > tick || t + span <= tick
    case Some(at) => at in held && at <= tick < at + span && forall t :: t in held && t <= tick ==> t <= at
  }

  /** The search answers the newest held tick exactly when that tick is within its span, or there is none. */
  lemma LookBackIsNewestIffNear(held: set<nat>, tick: nat, span: nat, found: Option<nat>, newest: Option<nat>)
    requires IsLookBack(held, tick, span, found) && IsNewestUpTo(held, tick, newest)
    ensures found == newest <==> newest.None? || tick < newest.value + span
  {
  }
}

/** Fixed-capacity, tick-addressed history of whole values. */
module TickRings {
  import opened Bytes
  import opened Options
  import opened Rings

  class TickRing<T> {
    const slots: array<Option<(nat, T)>>
    var latest: Option<nat>
    /** The last value accepted for every tick ever accepted since the ring was last cleared. */
    ghost var written: map<nat, T>

    ghost predicate Valid()
      reads this, slots
    {
      && slots.Length > 0
      && (latest.Some? ==> latest.value <= MAX_TICK && latest.value in written)
      && (forall t :: t in written ==> latest.Some? && t <= latest.value)
      && (forall i :: 0 <= i < slots.Length && slots[i].Some? ==> Filed(i))
      && (forall t :: t in written && !HasLeft(latest, t, slots.Length) ==> Kept(t))
    }

    /** A full slot holds the last value written for a tick that belongs there. */
    ghost predicate Filed(i: nat)
      requires i < slots.Length && slots[i].Some?
      reads this, slots
    {
      var (tick, value) := slots[i].value;
      tick % slots.Length == i && tick in written && written[tick] == value
    }

    ghost predicate Kept(t: nat)
      requires t in written && slots.Length > 0
      reads this, slots
    {
      slots[t % slots.Length] == Some((t, written[t]))
    }

    /** The ticks a read answers. */
    ghost function Held(): set<nat>
      requires slots.Length > 0
      reads this, slots
    {
      set t | t in written && Resident(t)
    }

    predicate Resident(tick: nat)
      requires slots.Length > 0
      reads slots
    {
      var slot := slots[tick % slots.Length];
      slot.Some? && slot.value.0 == tick
    }

    constructor (capacity: nat)
      ensures Valid() && fresh(slots) && written == map[] && latest == None
      ensures slots.Length == if capacity < 1 then 1 else capacity
    {
      var size := if capacity < 1 then 1 else capacity;
      slots := new Option<(nat, T)>[size](_ => None);
      latest, written := None, map[];
    }

    /** Store a value, unless its tick has fallen out of the window. */
    method Set(tick: nat, value: T) returns (stored: bool)
      requires Valid() && tick <= MAX_TICK
      modifies this, slots
      ensures Valid()
      ensures stored <==> !IsStale(old(latest), tick, slots.Length)
      ensures written == if stored then old(written)[tick := value] else old(written)
      ensures latest == if stored then Some(Newer(old(latest), tick)) else old(latest)
    {
      if IsStale(latest, tick, slots.Length) {
        return false;
      }
      var index := tick % slots.Length;
      KeepsOthers(tick);
      slots[index] := Some((tick, value));
      latest := Some(Newer(latest, tick));
      written := written[tick := value];
      return true;
    }

    /** Any other tick that stays in the window is in another slot. */
    lemma KeepsOthers(tick: nat)
      requires Valid() && tick <= MAX_TICK && !IsStale(latest, tick, slots.Length)
      ensures forall t :: t in written && t != tick && !HasLeft(Some(Newer(latest, tick)), t, slots.Length)
                ==> t % slots.Length != tick % slots.Length
    {
      forall t | t in written && t != tick && t % slots.Length == tick % slots.Length
        ensures HasLeft(Some(Newer(latest, tick)), t, slots.Length)
      {
        NeverEvictsNewer(latest, tick, t, slots.Length);
        SameSlot(t, tick, slots.Length);
      }
    }

    /** A read answers only the truth, and always answers for a tick still in the window. */
    method Get(tick: nat) returns (r: Option<T>)
      requires Valid()
      ensures r.Some? <==> tick in Held()
      ensures r.Some? ==> r.value == written[tick]
      ensures tick in written && !HasLeft(latest, tick, slots.Length) ==> r == Some(written[tick])
    {
      assert tick in written && !HasLeft(latest, tick, slots.Length) ==> Kept(tick);
      var slot := slots[tick % slots.Length];
      if slot.Some? && slot.value.0 == tick {
        assert Filed(tick % slots.Length);
        return Some(slot.value.1);
      }
      return None;
    }

    /** The newest tick is always readable, and no tick held is newer. */
    lemma LatestIsHeld()
      requires Valid()
      ensures latest.Some? ==> latest.value in Held() && forall t :: t in Held() ==> t <= latest.value
    {
      assert latest.Some? ==> Kept(latest.value);
    }

    /** Every tick accepted and still in the window is readable. */
    lemma LiveAreHeld()
      requires Valid()
      ensures forall t :: t in written && !HasLeft(latest, t, slots.Length) ==> t in Held()
    {
      forall t | t in written && !HasLeft(latest, t, slots.Length) ensures t in Held() {
        assert Kept(t);
      }
    }

    /**
     * What a search answers by the ticks accepted. Asked at or after the newest, that one exactly when fewer than a
     * capacity of ticks have passed since; asked before it, none that is still in the window is passed over.
     */
    ghost predicate Reaches(tick: nat, found: Option<nat>)
      requires Valid()
      reads this, slots
    {
      latest.Some? ==>
        if tick >= latest.value then found == if tick < latest.value + slots.Length then latest else None
        else forall t :: t in written && t <= tick && !HasLeft(latest, t, slots.Length) ==>
            found.Some? && t <= found.value
    }

    lemma SearchReaches(tick: nat, found: Option<nat>)
      requires Valid() && IsLookBack(Held(), tick, slots.Length, found)
      ensures Reaches(tick, found)
    {
      LatestIsHeld();
      LiveAreHeld();
    }

    /** Probe down from `tick`, a capacity at most. */
    method ClosestAtOrBefore(tick: nat) returns (r: Option<(nat, T)>)
      requires Valid()
      ensures IsLookBack(Held(), tick, slots.Length, if r.Some? then Some(r.value.0) else None)
      ensures r.Some? ==> r.value.1 == written[r.value.0]
      ensures Reaches(tick, if r.Some? then Some(r.value.0) else None)
    {
      var span := slots.Length;
      var floor := if tick < span - 1 then 0 else tick - (span - 1);
      var probe := tick;
      while true
        invariant floor <= probe <= tick
        invariant forall t :: t in Held() && t <= tick ==> t <= probe
        decreases probe
      {
        var value := Get(probe);
        if value.Some? {
          SearchReaches(tick, Some(probe));
          return Some((probe, value.value));
        }
        if probe == floor {
          SearchReaches(tick, None);
          return None;
        }
        probe := probe - 1;
      }
    }

    method Clear()
      requires Valid()
      modifies this, slots
      ensures Valid() && written == map[] && latest == None
    {
      forall i | 0 <= i < slots.Length {
        slots[i] := None;
      }
      latest, written := None, map[];
    }
  }

  /** A ring of two holding only tick 0 answers nothing at tick 5, though tick 0 is the newest stored before it. */
  method OldTickIsNotFound<T>(value: T) returns (ring: TickRing<T>, found: Option<(nat, T)>)
    ensures ring.Valid() && ring.slots.Length == 2 && ring.written == map[0 := value] && ring.Held() == {0}
    ensures IsNewestUpTo(ring.Held(), 5, Some(0)) && found == None
  {
    ring := new TickRing<T>(2);
    var _ := ring.Set(0, value);
    ring.LatestIsHeld();
    found := ring.ClosestAtOrBefore(5);
  }
}

/** The same window over fixed-stride rows packed in one flat byte array. */
module Columnar {
  import opened Bytes
  import opened Options
  import opened Rings

  /** Where slot `i` starts. */
  function StartOf(i: nat, stride: nat): nat {
    i * stride
  }

  lemma SlotsDisjoint(i: nat, j: nat, stride: nat)
    requires i < j
    ensures StartOf(i, stride) + stride <= StartOf(j, stride)
  {
    if stride > 0 {
      MulSign(stride, j - i);
      assert stride * (j - i) == j * stride - i * stride;
    }
  }

  class ColumnarHistory {
    const stride: nat
    const rows: array<Byte>
    const ticks: array<Option<nat>>
    var latest: Option<nat>
    /** The last row accepted for every tick accepted since the history was last cleared. */
    ghost var written: map<nat, seq<Byte>>

    ghost predicate Shaped() {
      ticks.Length > 0 && rows.Length == StartOf(ticks.Length, stride)
    }

    ghost predicate Valid()
      reads this, rows, ticks
    {
      && Shaped()
      && (latest.Some? ==> latest.value <= MAX_TICK && latest.value in written)
      && (forall t :: t in written ==> latest.Some? && t <= latest.value)
      && (forall i :: 0 <= i < ticks.Length && ticks[i].Some? ==> Filed(i))
      && (forall t :: t in written && !HasLeft(latest, t, ticks.Length) ==> ticks[t % ticks.Length] == Some(t))
    }

    lemma SlotFits(i: nat)
      requires Shaped() && i < ticks.Length
      ensures StartOf(i, stride) + stride <= rows.Length
    {
      SlotsDisjoint(i, ticks.Length, stride);
    }

    /** Slot `i`'s bytes. */
    ghost function Bytes(i: nat): (row: seq<Byte>)
      requires Shaped() && i < ticks.Length
      reads rows
      ensures |row| == stride
    {
      SlotFits(i);
      rows[StartOf(i, stride)..StartOf(i, stride) + stride]
    }

    ghost predicate Filed(i: nat)
      requires Shaped() && i < ticks.Length && ticks[i].Some?
      reads this, rows, ticks
    {
      var tick := ticks[i].value;
      tick % ticks.Length == i && tick in written && written[tick] == Bytes(i)
    }

    ghost function Held(): set<nat>
      requires Shaped()
      reads this, ticks
    {
      set t | t in written && ticks[t % ticks.Length] == Some(t)
    }

    constructor (stride: nat, capacity: nat)
      ensures Valid() && fresh(rows) && fresh(ticks) && written == map[] && latest == None && this.stride == stride
      ensures ticks.Length == if capacity < 1 then 1 else capacity
    {
      var size := if capacity < 1 then 1 else capacity;
      this.stride := stride;
      rows := new Byte[StartOf(size, stride)](_ => 0);
      ticks := new Option<nat>[size](_ => None);
      latest, written := None, map[];
    }

    /** Fill slot `i`, disturbing no other slot's bytes. */
    method FillSlot(i: nat, src: seq<Byte>)
      requires Shaped() && i < ticks.Length && |src| == stride
      modifies rows
      ensures Bytes(i) == src
      ensures forall k :: 0 <= k < ticks.Length && k != i ==> Bytes(k) == old(Bytes(k))
    {
      var start := StartOf(i, stride);
      SlotFits(i);
      forall at | 0 <= at < stride {
        rows[start + at] := src[at];
      }
      forall k | 0 <= k < ticks.Length && k != i ensures Bytes(k) == old(Bytes(k)) {
        SlotFits(k);
        if k < i { SlotsDisjoint(k, i, stride); } else { SlotsDisjoint(i, k, stride); }
      }
    }

    /**
     * Start or overwrite the row for `tick`, refusing one that has left the window. A tick already held keeps
     * its bytes; one that evicts another starts as zeros.
     */
    method BeginRow(tick: nat) returns (slot: Option<nat>)
      requires Valid() && tick <= MAX_TICK
      modifies this, rows, ticks
      ensures Valid()
      ensures slot.None? <==> IsStale(old(latest), tick, ticks.Length)
      ensures slot.None? ==> written == old(written) && latest == old(latest)
      ensures slot.Some? ==> slot.value == tick % ticks.Length && ticks[slot.value] == Some(tick)
      ensures slot.Some? ==> latest == Some(Newer(old(latest), tick))
      ensures slot.Some? && tick !in old(Held()) ==> forall k :: 0 <= k < stride ==> Bytes(slot.value)[k] == 0
      ensures slot.Some? ==>
                written == old(written)[tick := if tick in old(Held()) then old(written)[tick] else Zeros()]
    {
      if IsStale(latest, tick, ticks.Length) {
        return None;
      }
      var index := tick % ticks.Length;
      KeepsOthers(tick);
      if ticks[index] != Some(tick) {
        FillSlot(index, seq(stride, _ => 0));
        ticks[index] := Some(tick);
        written := written[tick := Zeros()];
      }
      latest := Some(Newer(latest, tick));
      return Some(index);
    }

    ghost function Zeros(): seq<Byte> {
      seq(stride, _ => 0)
    }

    lemma KeepsOthers(tick: nat)
      requires Valid() && tick <= MAX_TICK && !IsStale(latest, tick, ticks.Length)
      ensures forall t :: t in written && t != tick && !HasLeft(Some(Newer(latest, tick)), t, ticks.Length)
                ==> t % ticks.Length != tick % ticks.Length
    {
      forall t | t in written && t != tick && t % ticks.Length == tick % ticks.Length
        ensures HasLeft(Some(Newer(latest, tick)), t, ticks.Length)
      {
        NeverEvictsNewer(latest, tick, t, ticks.Length);
        SameSlot(t, tick, ticks.Length);
      }
    }

    /** Copy in a whole row; a wrong length or a stale tick stores nothing. */
    method WriteRow(tick: nat, src: seq<Byte>) returns (stored: bool)
      requires Valid() && tick <= MAX_TICK
      modifies this, rows, ticks
      ensures Valid()
      ensures stored <==> |src| == stride && !IsStale(old(latest), tick, ticks.Length)
      ensures written == if stored then old(written)[tick := src] else old(written)
      ensures latest == if stored then Some(Newer(old(latest), tick)) else old(latest)
    {
      if |src| != stride {
        return false;
      }
      var slot := BeginRow(tick);
      if slot.None? {
        return false;
      }
      FillSlot(slot.value, src);
      written := written[tick := src];
      return true;
    }

    /** A read answers only what was last written, and always answers within the window. */
    method Row(tick: nat) returns (r: Option<seq<Byte>>)
      requires Valid()
      ensures r.Some? <==> tick in Held()
      ensures r.Some? ==> r.value == written[tick]
      ensures tick in written && !HasLeft(latest, tick, ticks.Length) ==> r == Some(written[tick])
    {
      var slot := tick % ticks.Length;
      if ticks[slot] == Some(tick) {
        assert Filed(slot);
        SlotFits(slot);
        var start := StartOf(slot, stride);
        return Some(rows[start..start + stride]);
      }
      return None;
    }

    lemma LatestIsHeld()
      requires Valid()
      ensures latest.Some? ==> latest.value in Held() && forall t :: t in Held() ==> t <= latest.value
    {
    }

    lemma LiveAreHeld()
      requires Valid()
      ensures forall t :: t in written && !HasLeft(latest, t, ticks.Length) ==> t in Held()
    {
    }

    /**
     * What a search answers by the ticks accepted. Asked at or after the newest, that one exactly when fewer than a
     * capacity of ticks have passed since; asked before it, none that is still in the window is passed over.
     */
    ghost predicate Reaches(tick: nat, found: Option<nat>)
      requires Valid()
      reads this, rows, ticks
    {
      latest.Some? ==>
        if tick >= latest.value then found == if tick < latest.value + ticks.Length then latest else None
        else forall t :: t in written && t <= tick && !HasLeft(latest, t, ticks.Length) ==>
            found.Some? && t <= found.value
    }

    lemma SearchReaches(tick: nat, found: Option<nat>)
      requires Valid() && IsLookBack(Held(), tick, ticks.Length, found)
      ensures Reaches(tick, found)
    {
      LatestIsHeld();
      LiveAreHeld();
    }

    /** The newest held row within a capacity back of `tick`. */
    method ClosestAtOrBefore(tick: nat) returns (r: Option<(nat, seq<Byte>)>)
      requires Valid()
      ensures IsLookBack(Held(), tick, ticks.Length, if r.Some? then Some(r.value.0) else None)
      ensures r.Some? ==> r.value.1 == written[r.value.0]
      ensures Reaches(tick, if r.Some? then Some(r.value.0) else None)
    {
      var span := ticks.Length;
      var floor := if tick < span - 1 then 0 else tick - (span - 1);
      var probe := tick;
      while true
        invariant floor <= probe <= tick
        invariant forall t :: t in Held() && t <= tick ==> t <= probe
        decreases probe
      {
        var row := Row(probe);
        if row.Some? {
          SearchReaches(tick, Some(probe));
          return Some((probe, row.value));
        }
        if probe == floor {
          SearchReaches(tick, None);
          return None;
        }
        probe := probe - 1;
      }
    }

    method Clear()
      requires Valid()
      modifies this, rows, ticks
      ensures Valid() && written == map[] && latest == None
    {
      forall i | 0 <= i < ticks.Length {
        ticks[i] := None;
      }
      forall i | 0 <= i < rows.Length {
        rows[i] := 0;
      }
      latest, written := None, map[];
    }
  }
}

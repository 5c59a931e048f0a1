/** Per-body resimulation windows, and the one global window they replace. */
module Resim {
  import opened Options
  import opened Sequences

  /** Ticks to replay: `from` inclusive, `to` exclusive. */
  datatype ResimRange = ResimRange(from: nat, to: nat) {
    function Length(): nat {
      if to <= from then 0 else to - from
    }
  }

  datatype BodyResim = BodyResim(body: nat, range: ResimRange)

  /** The oldest tick a history of `limit` can replay from. */
  function FloorOf(current: nat, limit: nat): nat {
    if current < limit then 0 else current - limit
  }

  function Max(a: nat, b: nat): nat {
    if a < b then b else a
  }

  /** What a window asks to replay: none when it is clean, or its tick is not in the past. */
  function RangeFor(earliest: Option<nat>, current: nat, limit: nat): Option<ResimRange> {
    if earliest.None? || Max(earliest.value, FloorOf(current, limit)) >= current then None
    else Some(ResimRange(Max(earliest.value, FloorOf(current, limit)), current))
  }

  /** The earliest tick a body must be replayed from. */
  datatype DirtyWindow = DirtyWindow(earliest: Option<nat>) {
    function Marked(tick: nat): DirtyWindow {
      DirtyWindow(Some(if earliest.Some? && earliest.value < tick then earliest.value else tick))
    }
  }

  type Bodies = map<nat, DirtyWindow>

  // ------------------------------------------------------------------ plans

  /** The entries for some bodies, in the order given. */
  function PlanFor(bodies: Bodies, ids: seq<nat>, current: nat, limit: nat): seq<BodyResim>
    requires forall k :: 0 <= k < |ids| ==> ids[k] in bodies
  {
    if ids == [] then []
    else
      var id := ids[|ids| - 1];
      var range := RangeFor(bodies[id].earliest, current, limit);
      PlanFor(bodies, ids[..|ids| - 1], current, limit) + if range.Some? then [BodyResim(id, range.value)] else []
  }

  lemma IdsBound(bodies: Bodies)
    ensures forall k :: 0 <= k < |Ascending(bodies.Keys)| ==> Ascending(bodies.Keys)[k] in bodies
  {
  }

  ghost function PlanOf(bodies: Bodies, current: nat, limit: nat): seq<BodyResim> {
    IdsBound(bodies);
    PlanFor(bodies, Ascending(bodies.Keys), current, limit)
  }

  lemma {:induction false} PlanForEntries(bodies: Bodies, ids: seq<nat>, current: nat, limit: nat)
    requires forall k :: 0 <= k < |ids| ==> ids[k] in bodies
    ensures forall e :: e in PlanFor(bodies, ids, current, limit) <==>
              e.body in ids && RangeFor(bodies[e.body].earliest, current, limit) == Some(e.range)
  {
    if ids != [] {
      var n := |ids| - 1;
      PlanForEntries(bodies, ids[..n], current, limit);
      assert ids == ids[..n] + [ids[n]];
    }
  }

  ghost predicate BodiesAscend(plan: seq<BodyResim>) {
    forall i, j :: 0 <= i < j < |plan| ==> plan[i].body < plan[j].body
  }

  lemma {:induction false} PlanForAscends(bodies: Bodies, ids: seq<nat>, current: nat, limit: nat)
    requires StrictlyAscending(ids) && forall k :: 0 <= k < |ids| ==> ids[k] in bodies
    ensures BodiesAscend(PlanFor(bodies, ids, current, limit))
  {
    if ids != [] {
      var n := |ids| - 1;
      PlanForAscends(bodies, ids[..n], current, limit);
      PlanForEntries(bodies, ids[..n], current, limit);
      var before := PlanFor(bodies, ids[..n], current, limit);
      forall i | 0 <= i < |before| ensures before[i].body < ids[n] {
        assert before[i] in before;
        var k :| 0 <= k < n && ids[k] == before[i].body;
      }
    }
  }

  /** A plan names, in ascending order, exactly the bodies whose window is in the past, each with its range. */
  lemma PlanIsExact(bodies: Bodies, current: nat, limit: nat)
    ensures BodiesAscend(PlanOf(bodies, current, limit))
    ensures forall e :: e in PlanOf(bodies, current, limit) <==>
              e.body in bodies && RangeFor(bodies[e.body].earliest, current, limit) == Some(e.range)
  {
    IdsBound(bodies);
    var ids := Ascending(bodies.Keys);
    PlanForAscends(bodies, ids, current, limit);
    PlanForEntries(bodies, ids, current, limit);
    forall id: nat ensures id in ids <==> id in bodies {
      assert id in ids <==> id in Elements(ids);
    }
  }

  /** A plan ends at the current tick, reaches back no further than history, and never replays more than its limit. */
  lemma ReplaysWithinHistory(bodies: Bodies, current: nat, limit: nat, e: BodyResim)
    requires e in PlanOf(bodies, current, limit)
    ensures e.range.from < e.range.to == current <= e.range.from + limit
    ensures e.body in bodies && bodies[e.body].earliest.Some?
    ensures bodies[e.body].earliest.value + limit >= current ==> e.range.from == bodies[e.body].earliest.value
    ensures bodies[e.body].earliest.value + limit < current ==> e.range.from + limit == current
  {
    PlanIsExact(bodies, current, limit);
  }

  // ------------------------------------------------------------------ the global window

  /** The earliest tick over every dirty body. */
  ghost predicate IsEarliest(bodies: Bodies, earliest: Option<nat>) {
    match earliest
    case None => forall id :: id in bodies ==> bodies[id].earliest.None?
    case Some(t) =>
      && (exists id :: id in bodies && bodies[id].earliest == Some(t))
      && (forall id :: id in bodies && bodies[id].earliest.Some? ==> t <= bodies[id].earliest.value)
  }

  /** The smallest range holding every planned one. */
  ghost predicate IsHull(plan: seq<BodyResim>, hull: Option<ResimRange>) {
    match hull
    case None => plan == []
    case Some(range) =>
      && (exists e :: e in plan && e.range.from == range.from)
      && (forall e :: e in plan ==> range.from <= e.range.from && e.range.to == range.to)
  }

  /** The plan's hull is the global window: planning per body never reaches past it, and always reaches it. */
  lemma HullIsTheGlobalWindow(bodies: Bodies, earliest: Option<nat>, current: nat, limit: nat)
    requires IsEarliest(bodies, earliest)
    ensures IsHull(PlanOf(bodies, current, limit), RangeFor(earliest, current, limit))
  {
    PlanIsExact(bodies, current, limit);
    var plan, hull := PlanOf(bodies, current, limit), RangeFor(earliest, current, limit);
    if hull.Some? {
      var id :| id in bodies && bodies[id].earliest == earliest;
      assert BodyResim(id, hull.value) in plan;
    }
    assert plan != [] ==> plan[0] in plan;
  }

  function CostOf(plan: seq<BodyResim>): nat {
    if plan == [] then 0 else CostOf(plan[..|plan| - 1]) + plan[|plan| - 1].range.Length()
  }

  /** A plan replays a body's tick. */
  ghost predicate Replays(plan: seq<BodyResim>, body: nat, tick: nat) {
    exists e :: e in plan && e.body == body && e.range.from <= tick < e.range.to
  }

  /** Every body-tick a plan replays. */
  ghost function Replayed(plan: seq<BodyResim>): set<(nat, nat)> {
    if plan == [] then {}
    else
      var e := plan[|plan| - 1];
      Replayed(plan[..|plan| - 1]) + set t | e.range.from <= t < e.range.to :: (e.body, t)
  }

  lemma {:induction false} TicksOf(body: nat, first: nat, end: nat)
    requires first <= end
    ensures |set t | first <= t < end :: (body, t)| == end - first
    decreases end
  {
    if first < end {
      TicksOf(body, first, end - 1);
      assert (set t | first <= t < end :: (body, t)) == (set t | first <= t < end - 1 :: (body, t)) + {(body, end - 1)};
    } else {
      assert (set t | first <= t < end :: (body, t)) == {};
    }
  }

  lemma {:induction false} ReplayedMeans(plan: seq<BodyResim>, body: nat, tick: nat)
    ensures (body, tick) in Replayed(plan) <==> Replays(plan, body, tick)
  {
    if plan != [] {
      var n := |plan| - 1;
      ReplayedMeans(plan[..n], body, tick);
      assert plan == plan[..n] + [plan[n]];
    }
  }

  /** The cost is the number of body-ticks replayed, none counted twice. */
  lemma {:induction false} CostCountsReplays(plan: seq<BodyResim>)
    requires BodiesAscend(plan)
    ensures CostOf(plan) == |Replayed(plan)|
  {
    if plan != [] {
      var n := |plan| - 1;
      var e := plan[n];
      var now := set t | e.range.from <= t < e.range.to :: (e.body, t);
      CostCountsReplays(plan[..n]);
      if e.range.from <= e.range.to { TicksOf(e.body, e.range.from, e.range.to); } else { assert now == {}; }
      forall tick: nat ensures (e.body, tick) !in Replayed(plan[..n]) {
        ReplayedMeans(plan[..n], e.body, tick);
      }
      assert Replayed(plan[..n]) * now == {};
    }
  }

  lemma {:induction false} CostAtMost(plan: seq<BodyResim>, length: nat)
    requires forall e :: e in plan ==> e.range.Length() <= length
    ensures CostOf(plan) <= length * |plan|
  {
    if plan != [] {
      var n := |plan| - 1;
      assert plan[n] in plan;
      CostAtMost(plan[..n], length);
      assert length * |plan| == length * n + length;
    }
  }

  /** A plan never costs more than replaying its bodies over the global window. */
  lemma CostsAtMostTheGlobalWindow(bodies: Bodies, earliest: Option<nat>, current: nat, limit: nat)
    requires IsEarliest(bodies, earliest)
    ensures var window := RangeFor(earliest, current, limit);
            CostOf(PlanOf(bodies, current, limit))
            <= (if window.Some? then window.value.Length() else 0) * |PlanOf(bodies, current, limit)|
  {
    HullIsTheGlobalWindow(bodies, earliest, current, limit);
    var window := RangeFor(earliest, current, limit);
    CostAtMost(PlanOf(bodies, current, limit), if window.Some? then window.value.Length() else 0);
  }

  // ------------------------------------------------------------------ the planner

  lemma AllListed(bodies: Bodies, ids: seq<nat>)
    requires ids == Ascending(bodies.Keys)
    ensures forall id :: id in bodies ==> exists k :: 0 <= k < |ids| && ids[k] == id
  {
  }

  /** Each body's window holds its earliest pending mark. */
  ghost predicate Holds(bodies: Bodies, marks: set<(nat, nat)>) {
    forall m :: m in marks ==> m.0 in bodies && bodies[m.0].earliest.Some? && bodies[m.0].earliest.value <= m.1
  }

  /**
   * A pending mark is replayed exactly when it is in the past and history reaches it: one still in the future, or
   * older than history, is not.
   */
  lemma MarkIsReplayedIff(bodies: Bodies, marks: set<(nat, nat)>, body: nat, tick: nat, current: nat, limit: nat)
    requires Holds(bodies, marks) && (body, tick) in marks
    ensures Replays(PlanOf(bodies, current, limit), body, tick) <==> tick < current <= tick + limit
  {
    PlanIsExact(bodies, current, limit);
    var plan, range := PlanOf(bodies, current, limit), RangeFor(bodies[body].earliest, current, limit);
    if tick < current <= tick + limit {
      assert BodyResim(body, range.value) in plan;
    }
  }

  /** No window is dirty. */
  ghost predicate Clean(bodies: Bodies) {
    forall id :: id in bodies ==> bodies[id].earliest.None?
  }

  /** Clean windows plan nothing, at any tick: what a plan consumed, replayed or not, no later plan replays. */
  lemma CleanPlansNothing(bodies: Bodies, current: nat, limit: nat)
    requires Clean(bodies)
    ensures PlanOf(bodies, current, limit) == []
  {
    var plan := PlanOf(bodies, current, limit);
    assert plan != [] ==> plan[0] in plan;
    PlanIsExact(bodies, current, limit);
  }

  /** Every mark in the past is replayed, from it or from as far back as history goes. */
  ghost predicate Covers(plan: seq<BodyResim>, marks: set<(nat, nat)>, current: nat, limit: nat) {
    forall m :: m in marks && m.1 < current && limit > 0 ==>
      exists e :: e in plan && e.body == m.0 && e.range.from <= Max(m.1, FloorOf(current, limit))
        && e.range.to == current
  }

  lemma PlanCovers(bodies: Bodies, marks: set<(nat, nat)>, current: nat, limit: nat)
    requires Holds(bodies, marks)
    ensures Covers(PlanOf(bodies, current, limit), marks, current, limit)
  {
    PlanIsExact(bodies, current, limit);
    var plan := PlanOf(bodies, current, limit);
    forall m | m in marks && m.1 < current && limit > 0
      ensures exists e :: e in plan && e.body == m.0 && e.range.from <= Max(m.1, FloorOf(current, limit))
                && e.range.to == current
    {
      var range := RangeFor(bodies[m.0].earliest, current, limit);
      assert BodyResim(m.0, range.value) in plan;
    }
  }

  class ResimPlanner {
    var bodies: Bodies
    /** Every mark made since the last plan that consumed it. */
    ghost var marks: set<(nat, nat)>

    /** Each window's earliest tick is its body's earliest pending mark. */
    ghost predicate Valid()
      reads this
    {
      && Holds(bodies, marks)
      && (forall id :: id in bodies && bodies[id].earliest.Some? ==> (id, bodies[id].earliest.value) in marks)
    }

    constructor ()
      ensures Valid() && marks == {}
    {
      bodies, marks := map[], {};
    }

    method Mark(body: nat, tick: nat)
      requires Valid()
      modifies this
      ensures Valid() && marks == old(marks) + {(body, tick)}
    {
      var window := if body in bodies then bodies[body] else DirtyWindow(None);
      bodies := bodies[body := window.Marked(tick)];
      marks := marks + {(body, tick)};
    }

    method Remove(body: nat)
      requires Valid()
      modifies this
      ensures Valid() && body !in bodies && marks == set m | m in old(marks) && m.0 != body
    {
      bodies := bodies - {body};
      marks := set m | m in marks && m.0 != body;
    }

    /** The window covering every dirty body, consuming nothing. */
    method GlobalWindow(current: nat, limit: nat) returns (window: Option<ResimRange>)
      requires Valid()
      ensures IsHull(PlanOf(bodies, current, limit), window)
    {
      var ids := ListOf(bodies.Keys);
      var earliest: Option<nat> := None;
      for i := 0 to |ids|
        invariant earliest.Some? ==> exists id :: id in bodies && bodies[id].earliest == earliest
        invariant forall k :: 0 <= k < i && ids[k] in bodies && bodies[ids[k]].earliest.Some? ==>
                    earliest.Some? && earliest.value <= bodies[ids[k]].earliest.value
      {
        assert ids[i] in Elements(ids);
        var at := bodies[ids[i]].earliest;
        if at.Some? && (earliest.None? || at.value < earliest.value) {
          earliest := at;
        }
      }
      forall id | id in bodies ensures exists k :: 0 <= k < |ids| && ids[k] == id {
        assert id in Elements(ids);
      }
      HullIsTheGlobalWindow(bodies, earliest, current, limit);
      window := RangeFor(earliest, current, limit);
    }

    /** Consume every window - those not yet in the past as well - into a plan ascending by body. */
    method Plan(current: nat, limit: nat) returns (out: seq<BodyResim>)
      requires Valid()
      modifies this
      ensures Valid() && marks == {} && bodies.Keys == old(bodies).Keys && Clean(bodies)
      ensures out == PlanOf(old(bodies), current, limit)
      ensures Covers(out, old(marks), current, limit)
      ensures forall m :: m in old(marks) ==> (Replays(out, m.0, m.1) <==> m.1 < current <= m.1 + limit)
    {
      ghost var was := bodies;
      IdsBound(bodies);
      var ids := SortedKeys(bodies.Keys);
      out := TakeEach(ids, current, limit);
      AllListed(was, ids);
      PlanCovers(was, marks, current, limit);
      forall m | m in marks ensures Replays(out, m.0, m.1) <==> m.1 < current <= m.1 + limit {
        MarkIsReplayedIff(was, marks, m.0, m.1, current, limit);
      }
      marks := {};
    }

    /** Take each window in turn. */
    method TakeEach(ids: seq<nat>, current: nat, limit: nat) returns (out: seq<BodyResim>)
      requires StrictlyAscending(ids) && forall k :: 0 <= k < |ids| ==> ids[k] in bodies
      modifies `bodies
      ensures bodies.Keys == old(bodies).Keys
      ensures out == PlanFor(old(bodies), ids, current, limit)
      ensures forall k :: 0 <= k < |ids| ==> bodies[ids[k]] == DirtyWindow(None)
    {
      ghost var was := bodies;
      out := [];
      for i := 0 to |ids|
        invariant bodies.Keys == was.Keys
        invariant out == PlanFor(was, ids[..i], current, limit)
        invariant forall k :: 0 <= k < i ==> bodies[ids[k]] == DirtyWindow(None)
        invariant forall k :: i <= k < |ids| ==> bodies[ids[k]] == was[ids[k]]
      {
        assert ids[..i + 1][..i] == ids[..i];
        var range := RangeFor(bodies[ids[i]].earliest, current, limit);
        bodies := bodies[ids[i] := DirtyWindow(None)];
        if range.Some? {
          out := out + [BodyResim(ids[i], range.value)];
        }
      }
      assert ids[..|ids|] == ids;
    }
  }
}

/**
 * The uniform XZ grid: candidates binned by world and cell, and the query that reads them back.
 *
 * `Indexes` says what a rebuilt grid holds; `QueryWithin` is proved to return exactly the candidates
 * a flat scan would, whichever branch of the occupancy guard each world takes.
 */
module InterestGrid {
  import opened Numbers
  import opened Sequences
  import opened Interest

  const I32_MIN: int := -0x8000_0000
  const I32_MAX: int := 0x7fff_ffff

  datatype Cell = Cell(x: int, z: int)

  /** One cell occupant: the id, and the position retained for the distance check. */
  datatype Slot = Slot(id: BodyId, pos: Vec3)

  datatype Placed = Placed(id: BodyId, membership: MembershipId)

  /** The cell a coordinate falls in; the cast saturates at the 32-bit range. */
  function CellCoord(value: real, size: real): int
    requires size > 0.0
  {
    var floor := (value / size).Floor;
    if floor < I32_MIN then I32_MIN else if floor > I32_MAX then I32_MAX else floor
  }

  /** The cell an edge of a query falls in: an edge past the float range is an infinity, and the cast saturates. */
  function EdgeCoord(value: real, size: real): int
    requires size > 0.0
  {
    if value > F32_MAX then I32_MAX else if value < -F32_MAX then I32_MIN else CellCoord(value, size)
  }

  function CellOf(pos: Vec3, size: real): Cell
    requires pos.IsFinite() && size > 0.0
  {
    Cell(CellCoord(pos.x.v, size), CellCoord(pos.z.v, size))
  }

  // ------------------------------------------------------------------ what the grid holds

  predicate InBucket(c: Candidate, m: MembershipId, k: Cell, size: real)
    requires size > 0.0
  {
    c.Binnable() && c.membership == m && CellOf(c.pos, size) == k
  }

  /** The occupants of one cell of one world, in candidate order. */
  ghost function BucketOf(cs: seq<Candidate>, m: MembershipId, k: Cell, size: real): seq<Slot>
    requires size > 0.0
  {
    if cs == [] then []
    else
      var c := cs[|cs| - 1];
      var front := BucketOf(cs[..|cs| - 1], m, k, size);
      if InBucket(c, m, k, size) then front + [Slot(c.id, c.pos)] else front
  }

  ghost function UncullableOf(cs: seq<Candidate>): seq<Placed> {
    if cs == [] then []
    else
      var c := cs[|cs| - 1];
      var front := UncullableOf(cs[..|cs| - 1]);
      if c.Binnable() then front else front + [Placed(c.id, c.membership)]
  }

  lemma {:induction false} BucketHolds(cs: seq<Candidate>, m: MembershipId, k: Cell, size: real)
    requires size > 0.0
    ensures forall s :: s in BucketOf(cs, m, k, size) <==>
              exists c :: c in cs && InBucket(c, m, k, size) && s == Slot(c.id, c.pos)
  {
    if cs != [] {
      var front, last := cs[..|cs| - 1], cs[|cs| - 1];
      BucketHolds(front, m, k, size);
      assert forall c :: c in cs <==> c in front || c == last;
    }
  }

  ghost predicate DistinctSlots(b: seq<Slot>) {
    forall i, j :: 0 <= i < j < |b| ==> b[i].id != b[j].id
  }

  ghost predicate DistinctPlaced(u: seq<Placed>) {
    forall i, j :: 0 <= i < j < |u| ==> u[i].id != u[j].id
  }

  lemma LastIdIsNew(cs: seq<Candidate>, c: Candidate)
    requires DistinctIds(cs) && cs != [] && c in cs[..|cs| - 1]
    ensures c.id != cs[|cs| - 1].id
  {
    var j :| 0 <= j < |cs| - 1 && cs[j] == c;
  }

  lemma {:induction false} BucketDistinct(cs: seq<Candidate>, m: MembershipId, k: Cell, size: real)
    requires size > 0.0 && DistinctIds(cs)
    ensures DistinctSlots(BucketOf(cs, m, k, size))
  {
    if cs != [] {
      var front, last := cs[..|cs| - 1], cs[|cs| - 1];
      BucketDistinct(front, m, k, size);
      BucketHolds(front, m, k, size);
      var b := BucketOf(front, m, k, size);
      forall i | 0 <= i < |b| ensures b[i].id != last.id {
        assert b[i] in b;
        var c :| c in front && InBucket(c, m, k, size) && b[i] == Slot(c.id, c.pos);
        LastIdIsNew(cs, c);
      }
    }
  }

  lemma {:induction false} UncullableHolds(cs: seq<Candidate>)
    ensures forall p :: p in UncullableOf(cs) <==>
              exists c :: c in cs && !c.Binnable() && p == Placed(c.id, c.membership)
  {
    if cs != [] {
      var front, last := cs[..|cs| - 1], cs[|cs| - 1];
      UncullableHolds(front);
      assert forall c :: c in cs <==> c in front || c == last;
    }
  }

  lemma {:induction false} UncullableDistinct(cs: seq<Candidate>)
    requires DistinctIds(cs)
    ensures DistinctPlaced(UncullableOf(cs))
  {
    if cs != [] {
      var front, last := cs[..|cs| - 1], cs[|cs| - 1];
      UncullableDistinct(front);
      UncullableHolds(front);
      var u := UncullableOf(front);
      forall i | 0 <= i < |u| ensures u[i].id != last.id {
        assert u[i] in u;
        var c :| c in front && !c.Binnable() && u[i] == Placed(c.id, c.membership);
        LastIdIsNew(cs, c);
      }
    }
  }

  // ------------------------------------------------------------------ the cell-rectangle cover

  lemma DivMonotone(a: real, b: real, size: real)
    requires a <= b && size > 0.0
    ensures a / size <= b / size
  {
    assert b / size - a / size == (b - a) / size;
  }

  lemma CellMonotone(a: real, b: real, size: real)
    requires a <= b && size > 0.0
    ensures CellCoord(a, size) <= CellCoord(b, size)
  {
    DivMonotone(a, b, size);
  }

  lemma SquareGrows(a: real, b: real)
    requires 0.0 <= b < a
    ensures b * b < a * a
  {
    assert a * (a - b) > 0.0;
    assert b * (a - b) >= 0.0;
  }

  lemma WithinRadius(delta: real, rest: real, radius: real)
    requires radius >= 0.0 && rest >= 0.0 && delta * delta + rest <= radius * radius
    ensures -radius <= delta <= radius
  {
    if delta > radius { SquareGrows(delta, radius); }
    if delta < -radius { SquareGrows(-delta, radius); }
  }

  ghost predicate InReach(c: Candidate, o: SeatObserver, bound: Bound)
    requires o.center.IsFinite()
  {
    && c.Binnable()
    && MembershipMatches(o.membership, c.membership)
    && bound.Admits(DistSq(c.pos, o.center))
  }

  /** On one axis, a coordinate within the radius falls between the edges' cells. */
  lemma AxisCovers(center: real, at: real, radius: real, size: real)
    requires size > 0.0 && -F32_MAX <= at <= F32_MAX && center - radius <= at <= center + radius
    ensures EdgeCoord(center - radius, size) <= CellCoord(at, size) <= EdgeCoord(center + radius, size)
  {
    CellMonotone(center - radius, at, size);
    CellMonotone(at, center + radius, size);
  }

  /** How many cells a query spans on one axis. */
  function Span(center: real, radius: real, size: real): int
    requires size > 0.0
  {
    EdgeCoord(center + radius, size) - EdgeCoord(center - radius, size) + 1
  }

  lemma SpanIsPositive(center: real, radius: real, size: real)
    requires size > 0.0 && radius >= 0.0
    ensures Span(center, radius, size) >= 1
  {
    CellMonotone(center - radius, center + radius, size);
  }

  /** A radius clamped to the float range, from anywhere but the origin, spans more cells than a world can hold. */
  lemma ClampedSpanIsHuge(center: real, size: real)
    requires size > 0.0 && center != 0.0 && -F32_MAX <= center <= F32_MAX
    ensures Span(center, F32_MAX, size) > I32_MAX
  {
    CellMonotone(center - F32_MAX, 0.0, size);
    CellMonotone(0.0, center + F32_MAX, size);
    assert 0.0 / size == 0.0;
  }

  lemma ProductAtLeast(a: int, b: int)
    requires a >= 1 && b >= 1
    ensures a * b >= a && a * b >= b
  {
    assert a * b - a == a * (b - 1);
    assert a * b - b == b * (a - 1);
  }

  /**
   * When a rectangle is scanned at all - it has no more cells than the world - every candidate within the radius
   * lies in one of its cells.
   */
  lemma RectangleCovers(c: Candidate, o: SeatObserver, radius: real, size: real)
    requires o.center.IsFinite() && 0.0 <= radius <= F32_MAX && size > 0.0 && InReach(c, o, Square(radius))
    requires Span(o.center.x.v, radius, size) * Span(o.center.z.v, radius, size) <= I32_MAX
    ensures var k := CellOf(c.pos, size);
            && EdgeCoord(o.center.x.v - radius, size) <= k.x <= EdgeCoord(o.center.x.v + radius, size)
            && EdgeCoord(o.center.z.v - radius, size) <= k.z <= EdgeCoord(o.center.z.v + radius, size)
  {
    if radius < F32_MAX {
      CloseOnEachAxis(c, o, radius);
    } else {
      ClampedFromTheOrigin(o.center.x.v, o.center.z.v, size);
    }
    AxisCovers(o.center.x.v, c.pos.x.v, radius, size);
    AxisCovers(o.center.z.v, c.pos.z.v, radius, size);
  }

  lemma CloseOnEachAxis(c: Candidate, o: SeatObserver, radius: real)
    requires o.center.IsFinite() && 0.0 <= radius < F32_MAX && InReach(c, o, Square(radius))
    ensures -radius <= c.pos.x.v - o.center.x.v <= radius && -radius <= c.pos.z.v - o.center.z.v <= radius
  {
    var dx, dy, dz := c.pos.x.v - o.center.x.v, c.pos.y.v - o.center.y.v, c.pos.z.v - o.center.z.v;
    WithinRadius(dx, dy * dy + dz * dz, radius);
    WithinRadius(dz, dx * dx + dy * dy, radius);
  }

  lemma ClampedFromTheOrigin(x: real, z: real, size: real)
    requires -F32_MAX <= x <= F32_MAX && -F32_MAX <= z <= F32_MAX && size > 0.0
    requires Span(x, F32_MAX, size) * Span(z, F32_MAX, size) <= I32_MAX
    ensures x == 0.0 && z == 0.0
  {
    SpanIsPositive(x, F32_MAX, size);
    SpanIsPositive(z, F32_MAX, size);
    ProductAtLeast(Span(x, F32_MAX, size), Span(z, F32_MAX, size));
    if x != 0.0 { ClampedSpanIsHuge(x, size); }
    if z != 0.0 { ClampedSpanIsHuge(z, size); }
  }

  // ------------------------------------------------------------------ a world has no more cells than candidates

  ghost function CellsOf(cs: seq<Candidate>, size: real): (cells: set<Cell>)
    requires size > 0.0
    ensures |cells| <= |cs|
  {
    if cs == [] then {}
    else
      var c := cs[|cs| - 1];
      CellsOf(cs[..|cs| - 1], size) + if c.Binnable() then {CellOf(c.pos, size)} else {}
  }

  lemma {:induction false} CellsOfHolds(cs: seq<Candidate>, size: real, c: Candidate)
    requires size > 0.0 && c in cs && c.Binnable()
    ensures CellOf(c.pos, size) in CellsOf(cs, size)
  {
    if c != cs[|cs| - 1] {
      CellsOfHolds(cs[..|cs| - 1], size, c);
    }
  }

  // ------------------------------------------------------------------ the grid

  /** What a query returns: the candidates in reach, each with its squared distance. */
  ghost function Hits(cs: seq<Candidate>, o: SeatObserver, bound: Bound): set<Entry>
    requires o.center.IsFinite()
  {
    set c | c in cs && InReach(c, o, bound) :: Entry(c.id, At(DistSq(c.pos, o.center)))
  }

  function HitsIn(bucket: seq<Slot>, center: Vec3, bound: Bound): (r: seq<Entry>)
    requires center.IsFinite() && forall s :: s in bucket ==> s.pos.IsFinite()
  {
    if bucket == [] then []
    else
      var s := bucket[|bucket| - 1];
      var d := DistSq(s.pos, center);
      var front := HitsIn(bucket[..|bucket| - 1], center, bound);
      if bound.Admits(d) then front + [Entry(s.id, At(d))] else front
  }

  lemma {:induction false} HitsInHolds(bucket: seq<Slot>, center: Vec3, bound: Bound)
    requires center.IsFinite() && forall s :: s in bucket ==> s.pos.IsFinite()
    ensures forall e :: e in HitsIn(bucket, center, bound) <==>
              exists s :: s in bucket && bound.Admits(DistSq(s.pos, center))
                && e == Entry(s.id, At(DistSq(s.pos, center)))
  {
    if bucket != [] {
      var front, last := bucket[..|bucket| - 1], bucket[|bucket| - 1];
      HitsInHolds(front, center, bound);
      assert forall s :: s in bucket <==> s in front || s == last;
    }
  }

  lemma {:induction false} HitsInDistinct(bucket: seq<Slot>, center: Vec3, bound: Bound)
    requires center.IsFinite() && forall s :: s in bucket ==> s.pos.IsFinite()
    requires DistinctSlots(bucket)
    ensures DistinctEntryIds(HitsIn(bucket, center, bound))
  {
    if bucket != [] {
      var front, last := bucket[..|bucket| - 1], bucket[|bucket| - 1];
      HitsInDistinct(front, center, bound);
      HitsInHolds(front, center, bound);
      var h := HitsIn(front, center, bound);
      forall i | 0 <= i < |h| ensures h[i].id != last.id {
        assert h[i] in h;
      }
    }
  }

  /** The part of the hits whose cell has been scanned. */
  ghost predicate Scanned(out: seq<Entry>, cs: seq<Candidate>, o: SeatObserver, bound: Bound,
                          done: set<(MembershipId, Cell)>, size: real)
    requires o.center.IsFinite() && size > 0.0
  {
    && DistinctEntryIds(out)
    && (forall e :: e in out <==>
          exists c :: c in cs && InReach(c, o, bound) && (c.membership, CellOf(c.pos, size)) in done
                      && e == Entry(c.id, At(DistSq(c.pos, o.center))))
  }

  /** Scanning one more cell adds exactly that cell's hits, and no id twice. */
  lemma ScanCell(out: seq<Entry>, cs: seq<Candidate>, o: SeatObserver, bound: Bound,
                 done: set<(MembershipId, Cell)>, size: real, m: MembershipId, k: Cell)
    requires o.center.IsFinite() && size > 0.0 && DistinctIds(cs)
    requires MembershipMatches(o.membership, m) && (m, k) !in done
    requires forall s :: s in BucketOf(cs, m, k, size) ==> s.pos.IsFinite()
    requires Scanned(out, cs, o, bound, done, size)
    ensures Scanned(out + HitsIn(BucketOf(cs, m, k, size), o.center, bound), cs, o, bound, done + {(m, k)}, size)
  {
    var bucket := BucketOf(cs, m, k, size);
    var more := HitsIn(bucket, o.center, bound);
    BucketHolds(cs, m, k, size);
    BucketDistinct(cs, m, k, size);
    HitsInHolds(bucket, o.center, bound);
    HitsInDistinct(bucket, o.center, bound);
    var r := out + more;
    forall i, j | 0 <= i < |out| && 0 <= j < |more| ensures out[i].id != more[j].id {
      assert out[i] in out && more[j] in more;
    }
    var all := done + {(m, k)};
    forall e
      ensures e in r <==> exists c :: c in cs && InReach(c, o, bound) && (c.membership, CellOf(c.pos, size)) in all
                                   && e == Entry(c.id, At(DistSq(c.pos, o.center)))
    {
      if e in more {
        var s :| s in bucket && bound.Admits(DistSq(s.pos, o.center)) && e == Entry(s.id, At(DistSq(s.pos, o.center)));
        var c :| c in cs && InBucket(c, m, k, size) && s == Slot(c.id, c.pos);
        assert (c.membership, CellOf(c.pos, size)) in all;
      }
      if c :| c in cs && InReach(c, o, bound) && (c.membership, CellOf(c.pos, size)) in all
              && e == Entry(c.id, At(DistSq(c.pos, o.center)))
      {
        if (c.membership, CellOf(c.pos, size)) !in done {
          assert Slot(c.id, c.pos) in bucket;
        }
      }
    }
  }

  class InterestGrid {
    var worlds: map<MembershipId, map<Cell, seq<Slot>>>
    var uncullable: seq<Placed>

    constructor ()
      ensures worlds == map[] && uncullable == []
    {
      worlds, uncullable := map[], [];
    }

    ghost predicate Indexes(cs: seq<Candidate>, size: real)
      requires size > 0.0
      reads this
    {
      && (forall m, k :: (m in worlds && k in worlds[m]) <==> BucketOf(cs, m, k, size) != [])
      && (forall m, k :: m in worlds && k in worlds[m] ==> worlds[m][k] == BucketOf(cs, m, k, size))
      && uncullable == UncullableOf(cs)
    }

    method Rebuild(cfg: AoiConfig, candidates: seq<Candidate>)
      modifies this
      ensures Indexes(candidates, cfg.EffectiveCellSize())
    {
      var size := cfg.EffectiveCellSize();
      worlds, uncullable := map[], [];
      for i := 0 to |candidates|
        invariant Indexes(candidates[..i], size)
      {
        var c := candidates[i];
        ghost var upTo := candidates[..i + 1];
        assert upTo[..|upTo| - 1] == candidates[..i] && upTo[|upTo| - 1] == c;
        assert UncullableOf(upTo) ==
          if c.Binnable() then UncullableOf(candidates[..i])
          else UncullableOf(candidates[..i]) + [Placed(c.id, c.membership)];
        if !c.Binnable() {
          uncullable := uncullable + [Placed(c.id, c.membership)];
        } else {
          var key := CellOf(c.pos, size);
          var world := if c.membership in worlds then worlds[c.membership] else map[];
          var bucket := if key in world then world[key] else [];
          assert bucket == BucketOf(candidates[..i], c.membership, key, size);
          worlds := worlds[c.membership := world[key := bucket + [Slot(c.id, c.pos)]]];
        }
      }
      assert candidates[..|candidates|] == candidates;
    }

    lemma BucketIsPlaced(cs: seq<Candidate>, size: real, m: MembershipId, k: Cell)
      requires size > 0.0 && Indexes(cs, size) && m in worlds && k in worlds[m]
      ensures worlds[m][k] == BucketOf(cs, m, k, size)
      ensures forall s :: s in worlds[m][k] ==> s.pos.IsFinite()
    {
      BucketHolds(cs, m, k, size);
    }

    lemma WorldFits(cs: seq<Candidate>, size: real, m: MembershipId)
      requires size > 0.0 && Indexes(cs, size) && m in worlds
      ensures |worlds[m]| <= |cs|
    {
      forall k | k in worlds[m] ensures k in CellsOf(cs, size) {
        BucketHolds(cs, m, k, size);
        var s := BucketOf(cs, m, k, size)[0];
        assert s in BucketOf(cs, m, k, size);
        var c :| c in cs && InBucket(c, m, k, size) && s == Slot(c.id, c.pos);
        CellsOfHolds(cs, size, c);
      }
      SubsetSize(worlds[m].Keys, CellsOf(cs, size));
    }

    lemma PlacedIsIndexed(cs: seq<Candidate>, size: real, c: Candidate)
      requires size > 0.0 && Indexes(cs, size) && c in cs && c.Binnable()
      ensures c.membership in worlds && CellOf(c.pos, size) in worlds[c.membership]
    {
      var k := CellOf(c.pos, size);
      BucketHolds(cs, c.membership, k, size);
      assert Slot(c.id, c.pos) in BucketOf(cs, c.membership, k, size);
    }

    /** Distance-check one bucket's occupants against `center`, appending the hits. */
    static method AppendWithin(bucket: seq<Slot>, center: Vec3, bound: Bound, out: seq<Entry>) returns (r: seq<Entry>)
      requires center.IsFinite() && forall s :: s in bucket ==> s.pos.IsFinite()
      ensures r == out + HitsIn(bucket, center, bound)
    {
      r := out;
      for i := 0 to |bucket|
        invariant r == out + HitsIn(bucket[..i], center, bound)
      {
        assert bucket[..i + 1][..i] == bucket[..i];
        var d := DistSq(bucket[i].pos, center);
        if bound.Admits(d) {
          r := r + [Entry(bucket[i].id, At(d))];
        }
      }
      assert bucket[..|bucket|] == bucket;
    }

    /** One world read through every occupied cell, in whatever order the table yields them. */
    method ScanWorld(m: MembershipId, o: SeatObserver, bound: Bound, out: seq<Entry>, size: real,
                     ghost cs: seq<Candidate>, ghost done: set<(MembershipId, Cell)>)
      returns (r: seq<Entry>, ghost done': set<(MembershipId, Cell)>)
      requires o.center.IsFinite() && size > 0.0 && DistinctIds(cs) && Indexes(cs, size)
      requires m in worlds && MembershipMatches(o.membership, m) && forall k :: (m, k) !in done
      requires Scanned(out, cs, o, bound, done, size)
      ensures Scanned(r, cs, o, bound, done', size)
      ensures forall n, k :: (n, k) in done' <==> (n, k) in done || (n == m && k in worlds[m])
    {
      var cells := ListOf(worlds[m].Keys);
      r, done' := out, done;
      for i := 0 to |cells|
        invariant Scanned(r, cs, o, bound, done', size)
        invariant forall n, k :: (n, k) in done' <==> (n, k) in done || (n == m && k in cells[..i])
      {
        assert cells[i] in Elements(cells);
        BucketIsPlaced(cs, size, m, cells[i]);
        ScanCell(r, cs, o, bound, done', size, m, cells[i]);
        r := AppendWithin(worlds[m][cells[i]], o.center, bound, r);
        done' := done' + {(m, cells[i])};
      }
      assert forall k :: k in cells[..|cells|] <==> k in Elements(cells);
    }

    /** One world read through the cells of a rectangle, column by column. */
    method ScanRectangle(m: MembershipId, o: SeatObserver, bound: Bound, out: seq<Entry>, size: real,
                         minX: int, maxX: int, minZ: int, maxZ: int,
                         ghost cs: seq<Candidate>, ghost done: set<(MembershipId, Cell)>)
      returns (r: seq<Entry>, ghost done': set<(MembershipId, Cell)>)
      requires o.center.IsFinite() && size > 0.0 && DistinctIds(cs) && Indexes(cs, size)
      requires m in worlds && MembershipMatches(o.membership, m) && forall k :: (m, k) !in done
      requires minX <= maxX + 1 && minZ <= maxZ + 1
      requires Scanned(out, cs, o, bound, done, size)
      ensures Scanned(r, cs, o, bound, done', size)
      ensures forall n, k :: (n, k) in done' <==>
                (n, k) in done || (n == m && k in worlds[m] && minX <= k.x <= maxX && minZ <= k.z <= maxZ)
    {
      r, done' := out, done;
      for cx := minX to maxX + 1
        invariant Scanned(r, cs, o, bound, done', size)
        invariant forall n, k :: (n, k) in done' <==>
                    (n, k) in done || (n == m && k in worlds[m] && minX <= k.x < cx && minZ <= k.z <= maxZ)
      {
        for cz := minZ to maxZ + 1
          invariant Scanned(r, cs, o, bound, done', size)
          invariant forall n, k :: (n, k) in done' <==>
                      (n, k) in done || (n == m && k in worlds[m] && minZ <= k.z <= maxZ
                                         && minX <= k.x <= cx && (k.x == cx ==> k.z < cz))
        {
          var key := Cell(cx, cz);
          if key in worlds[m] {
            BucketIsPlaced(cs, size, m, key);
            ScanCell(r, cs, o, bound, done', size, m, key);
            r := AppendWithin(worlds[m][key], o.center, bound, r);
            done' := done' + {(m, key)};
          }
        }
      }
    }

    /**
     * Every candidate the observer may see within `radius` of `center`, found through the index: the
     * same set a flat scan finds, each id once.
     */
    method QueryWithin(cfg: AoiConfig, observer: MembershipId, center: Vec3, radius: Num, ghost cs: seq<Candidate>)
      returns (out: seq<Entry>)
      requires DistinctIds(cs) && Indexes(cs, cfg.EffectiveCellSize())
      requires |cs| <= I32_MAX && (radius.Fin? ==> radius.v <= F32_MAX)
      ensures !radius.Fin? || radius.v < 0.0 || !center.IsFinite() ==> out == []
      ensures radius.Fin? && radius.v >= 0.0 && center.IsFinite() ==>
                && DistinctEntryIds(out)
                && Elements(out) == Hits(cs, SeatObserver(center, observer), Square(radius.v))
    {
      out := [];
      if !radius.Fin? || radius.v < 0.0 || !center.IsFinite() {
        return;
      }
      var size, bound, o := cfg.EffectiveCellSize(), Square(radius.v), SeatObserver(center, observer);
      var names := ListOf(worlds.Keys);
      ghost var done: set<(MembershipId, Cell)> := {};
      for i := 0 to |names|
        invariant Scanned(out, cs, o, bound, done, size)
        invariant forall n, k :: (n, k) in done ==> n in names[..i]
        invariant forall c :: c in cs && InReach(c, o, bound) && c.membership in names[..i] ==>
                    (c.membership, CellOf(c.pos, size)) in done
      {
        assert names[i] in Elements(names);
        assert names[..i + 1] == names[..i] + [names[i]];
        if MembershipMatches(observer, names[i]) {
          out, done := QueryWorld(names[i], o, radius.v, out, size, cs, done);
        }
      }
      AllReached(out, names, o, bound, done, cs, size);
    }

    lemma AllReached(out: seq<Entry>, names: seq<MembershipId>, o: SeatObserver, bound: Bound,
                     done: set<(MembershipId, Cell)>, cs: seq<Candidate>, size: real)
      requires o.center.IsFinite() && size > 0.0 && Indexes(cs, size) && Elements(names) == worlds.Keys
      requires Scanned(out, cs, o, bound, done, size)
      requires forall c :: c in cs && InReach(c, o, bound) && c.membership in names ==>
                 (c.membership, CellOf(c.pos, size)) in done
      ensures Elements(out) == Hits(cs, o, bound)
    {
      forall e ensures e in out <==> e in Hits(cs, o, bound) {
        if c :| c in cs && InReach(c, o, bound) && e == Entry(c.id, At(DistSq(c.pos, o.center))) {
          PlacedIsIndexed(cs, size, c);
          assert c.membership in Elements(names);
        }
      }
    }

    /** One world's share of a query: its occupied cells, or the cells the radius overlaps if those are fewer. */
    method QueryWorld(m: MembershipId, o: SeatObserver, radius: real, out: seq<Entry>, size: real,
                      ghost cs: seq<Candidate>, ghost done: set<(MembershipId, Cell)>)
      returns (r: seq<Entry>, ghost done': set<(MembershipId, Cell)>)
      requires o.center.IsFinite() && size > 0.0 && 0.0 <= radius <= F32_MAX && DistinctIds(cs) && Indexes(cs, size)
      requires m in worlds && MembershipMatches(o.membership, m) && forall k :: (m, k) !in done
      requires |cs| <= I32_MAX
      requires Scanned(out, cs, o, Square(radius), done, size)
      ensures Scanned(r, cs, o, Square(radius), done', size)
      ensures forall n, k :: (n, k) in done ==> (n, k) in done'
      ensures forall n, k :: (n, k) in done' ==> (n, k) in done || n == m
      ensures forall c :: c in cs && InReach(c, o, Square(radius)) && c.membership == m ==>
                (m, CellOf(c.pos, size)) in done'
    {
      var minX, maxX := EdgeCoord(o.center.x.v - radius, size), EdgeCoord(o.center.x.v + radius, size);
      var minZ, maxZ := EdgeCoord(o.center.z.v - radius, size), EdgeCoord(o.center.z.v + radius, size);
      SpanIsPositive(o.center.x.v, radius, size);
      SpanIsPositive(o.center.z.v, radius, size);
      var spanX, spanZ := maxX - minX + 1, maxZ - minZ + 1;
      WorldFits(cs, size, m);
      if spanX * spanZ > |worlds[m]| {
        r, done' := ScanWorld(m, o, Square(radius), out, size, cs, done);
      } else {
        r, done' := ScanRectangle(m, o, Square(radius), out, size, minX, maxX, minZ, maxZ, cs, done);
      }
      forall c | c in cs && InReach(c, o, Square(radius)) && c.membership == m
        ensures (m, CellOf(c.pos, size)) in done'
      {
        PlacedIsIndexed(cs, size, c);
        if spanX * spanZ <= |worlds[m]| {
          RectangleCovers(c, o, radius, size);
        }
      }
    }

    /** Every candidate the observer may see that the grid could not place, at any distance. */
    method UncullableFor(observer: MembershipId, ghost cs: seq<Candidate>, size: real) returns (ids: seq<BodyId>)
      requires size > 0.0 && DistinctIds(cs) && Indexes(cs, size)
      ensures NoDup(ids)
      ensures forall id :: id in ids <==>
                exists c :: c in cs && !c.Binnable() && MembershipMatches(observer, c.membership) && c.id == id
    {
      UncullableHolds(cs);
      UncullableDistinct(cs);
      ids := [];
      for i := 0 to |uncullable|
        invariant NoDup(ids)
        invariant forall id :: id in ids <==>
                    exists j :: 0 <= j < i && MembershipMatches(observer, uncullable[j].membership)
                      && uncullable[j].id == id
      {
        if MembershipMatches(observer, uncullable[i].membership) {
          forall x | 0 <= x < |ids| ensures ids[x] != uncullable[i].id {
            assert ids[x] in ids;
          }
          ids := ids + [uncullable[i].id];
        }
      }
      forall id
        ensures id in ids <==>
                exists c :: c in cs && !c.Binnable() && MembershipMatches(observer, c.membership) && c.id == id
      {
        if c :| c in cs && !c.Binnable() && MembershipMatches(observer, c.membership) && c.id == id {
          assert Placed(c.id, c.membership) in uncullable;
        }
        if id in ids {
          var j :| 0 <= j < |uncullable| && MembershipMatches(observer, uncullable[j].membership)
              && uncullable[j].id == id;
          assert uncullable[j] in uncullable;
        }
      }
    }

    /** Every occupant of one world, by id. */
    method WalkWorld(m: MembershipId, ids: seq<BodyId>, ghost o: SeatObserver, ghost out: seq<Entry>, ghost size: real,
                     ghost cs: seq<Candidate>, ghost done: set<(MembershipId, Cell)>)
      returns (r: seq<BodyId>, ghost out': seq<Entry>, ghost done': set<(MembershipId, Cell)>)
      requires o.center.IsFinite() && size > 0.0 && DistinctIds(cs) && Indexes(cs, size)
      requires m in worlds && MembershipMatches(o.membership, m) && forall k :: (m, k) !in done
      requires Scanned(out, cs, o, Unbounded, done, size) && SameIds(ids, out)
      ensures Scanned(out', cs, o, Unbounded, done', size) && SameIds(r, out')
      ensures forall n, k :: (n, k) in done' <==> (n, k) in done || (n == m && k in worlds[m])
    {
      var cells := ListOf(worlds[m].Keys);
      r, out', done' := ids, out, done;
      for j := 0 to |cells|
        invariant Scanned(out', cs, o, Unbounded, done', size) && SameIds(r, out')
        invariant forall n, k :: (n, k) in done' <==> (n, k) in done || (n == m && k in cells[..j])
      {
        assert cells[j] in Elements(cells);
        BucketIsPlaced(cs, size, m, cells[j]);
        ScanCell(out', cs, o, Unbounded, done', size, m, cells[j]);
        var bucket := worlds[m][cells[j]];
        UnboundedHits(bucket, o.center);
        r := r + SlotIds(bucket);
        out' := out' + HitsIn(bucket, o.center, Unbounded);
        done' := done' + {(m, cells[j])};
      }
      assert forall k :: k in cells[..|cells|] <==> k in Elements(cells);
    }

    /** Every candidate the observer may see at all: what an observer with no usable center sees. */
    method VisibleTo(observer: MembershipId, ghost cs: seq<Candidate>, size: real) returns (ids: seq<BodyId>)
      requires size > 0.0 && DistinctIds(cs) && Indexes(cs, size)
      ensures NoDup(ids)
      ensures forall id :: id in ids <==>
                exists c :: c in cs && MembershipMatches(observer, c.membership) && c.id == id
    {
      // The ids walked are those of a scan that admits every distance.
      ghost var o := SeatObserver(Vec3(Fin(0.0), Fin(0.0), Fin(0.0)), observer);
      ghost var out: seq<Entry> := [];
      ghost var done: set<(MembershipId, Cell)> := {};
      ids := [];
      var names := ListOf(worlds.Keys);
      for i := 0 to |names|
        invariant Scanned(out, cs, o, Unbounded, done, size) && SameIds(ids, out)
        invariant forall n, k :: (n, k) in done <==>
                    n in names[..i] && n in worlds && k in worlds[n] && MembershipMatches(observer, n)
      {
        var m := names[i];
        assert m in Elements(names);
        if MembershipMatches(observer, m) {
          ids, out, done := WalkWorld(m, ids, o, out, size, cs, done);
        }
        assert forall n :: n in names[..i + 1] <==> n in names[..i] || n == m;
      }
      assert forall n :: n in names[..|names|] <==> n in Elements(names);
      AllVisited(ids, out, o, done, cs, size);
      var rest := UncullableFor(observer, cs, size);
      forall i, j | 0 <= i < |ids| && 0 <= j < |rest| ensures ids[i] != rest[j] {
        assert ids[i] in ids && rest[j] in rest;
        DistinctMeansUnique(cs);
        var c :| c in cs && c.Binnable() && c.id == ids[i];
        var d :| d in cs && !d.Binnable() && d.id == rest[j];
        assert c in Elements(cs) && d in Elements(cs);
      }
      ids := ids + rest;
    }

    lemma AllVisited(ids: seq<BodyId>, out: seq<Entry>, o: SeatObserver, done: set<(MembershipId, Cell)>,
                     cs: seq<Candidate>, size: real)
      requires o.center.IsFinite() && size > 0.0 && Indexes(cs, size)
      requires Scanned(out, cs, o, Unbounded, done, size) && SameIds(ids, out)
      requires forall n, k :: (n, k) in done <==> n in worlds && k in worlds[n] && MembershipMatches(o.membership, n)
      ensures NoDup(ids)
      ensures forall id :: id in ids <==>
                exists c :: c in cs && c.Binnable() && MembershipMatches(o.membership, c.membership) && c.id == id
    {
      SameIdsMembers(ids, out);
      forall id
        ensures id in ids <==>
                exists c :: c in cs && c.Binnable() && MembershipMatches(o.membership, c.membership) && c.id == id
      {
        if id in ids {
          var e :| e in out && e.id == id;
        }
        if c :| c in cs && c.Binnable() && MembershipMatches(o.membership, c.membership) && c.id == id {
          PlacedIsIndexed(cs, size, c);
          assert Entry(c.id, At(DistSq(c.pos, o.center))) in out;
        }
      }
    }
  }

  function SlotIds(bucket: seq<Slot>): seq<BodyId> {
    seq(|bucket|, b requires 0 <= b < |bucket| => bucket[b].id)
  }

  ghost predicate SameIds(ids: seq<BodyId>, es: seq<Entry>) {
    |ids| == |es| && forall i :: 0 <= i < |ids| ==> ids[i] == es[i].id
  }

  lemma SameIdsMembers(ids: seq<BodyId>, es: seq<Entry>)
    requires SameIds(ids, es) && DistinctEntryIds(es)
    ensures NoDup(ids)
    ensures forall id :: id in ids <==> exists e :: e in es && e.id == id
  {
  }

  lemma {:induction false} UnboundedHits(bucket: seq<Slot>, center: Vec3)
    requires center.IsFinite() && forall s :: s in bucket ==> s.pos.IsFinite()
    ensures SameIds(SlotIds(bucket), HitsIn(bucket, center, Unbounded))
  {
    if bucket != [] {
      UnboundedHits(bucket[..|bucket| - 1], center);
    }
  }
}

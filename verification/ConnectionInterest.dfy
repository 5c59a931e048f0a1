/** The connection object: one `PeerInterest` per seat, both update paths, and the union they share. */
module ConnectionInterest {
  import opened Sequences
  import opened Interest
  import opened InterestGrid
  import opened PeerInterest
  import opened Connection

  /** One seat's claim on an id, as it is merged into the union. */
  datatype Row = Row(id: BodyId, distSq: real)

  predicate RowOrder(a: Row, b: Row) {
    a.id < b.id || (a.id == b.id && a.distSq <= b.distSq)
  }

  ghost predicate AscendingRows(rows: seq<Row>) {
    forall i, j :: 0 <= i < j < |rows| ==> rows[i].id < rows[j].id
  }

  ghost function RowIds(rows: seq<Row>): set<BodyId> {
    set r | r in rows :: r.id
  }

  /** `r` is among the rows, and no row of the same id is nearer. */
  ghost predicate LeastRow(rows: seq<Row>, r: Row) {
    r in rows && forall s :: s in rows && s.id == r.id ==> r.distSq <= s.distSq
  }

  lemma FirstOfRunIsLeast(rows: seq<Row>, i: nat)
    requires SortedBy(rows, RowOrder) && i < |rows|
    requires i > 0 ==> rows[i - 1].id != rows[i].id
    ensures LeastRow(rows, rows[i])
    ensures forall j :: 0 <= j < i ==> rows[j].id < rows[i].id
  {
  }

  lemma RowIdsAppend(rows: seq<Row>, r: Row)
    ensures RowIds(rows + [r]) == RowIds(rows) + {r.id}
  {
  }

  /** The first row of every run of one id. */
  ghost function FirstOfRuns(rows: seq<Row>): seq<Row> {
    if rows == [] then []
    else
      var n := |rows| - 1;
      var front := FirstOfRuns(rows[..n]);
      if n == 0 || rows[n - 1].id != rows[n].id then front + [rows[n]] else front
  }

  lemma {:induction false} FirstsAreRows(rows: seq<Row>)
    ensures forall r :: r in FirstOfRuns(rows) ==> r in rows
  {
    if rows != [] {
      FirstsAreRows(rows[..|rows| - 1]);
    }
  }

  lemma {:induction false} FirstsCoverIds(rows: seq<Row>)
    ensures RowIds(FirstOfRuns(rows)) == RowIds(rows)
  {
    if rows != [] {
      var n := |rows| - 1;
      FirstsCoverIds(rows[..n]);
      assert rows == rows[..n] + [rows[n]];
      RowIdsAppend(rows[..n], rows[n]);
      RowIdsAppend(FirstOfRuns(rows[..n]), rows[n]);
      assert n > 0 ==> rows[n - 1] in rows[..n];
    }
  }

  lemma {:induction false} FirstsAreLeast(rows: seq<Row>, all: seq<Row>)
    requires SortedBy(all, RowOrder) && rows <= all
    ensures forall r :: r in FirstOfRuns(rows) ==> LeastRow(all, r)
  {
    if rows != [] {
      var n := |rows| - 1;
      FirstsAreLeast(rows[..n], all);
      if n == 0 || rows[n - 1].id != rows[n].id {
        FirstOfRunIsLeast(all, n);
      }
    }
  }

  lemma {:induction false} FirstsAscend(rows: seq<Row>)
    requires SortedBy(rows, RowOrder)
    ensures AscendingRows(FirstOfRuns(rows))
  {
    if rows != [] {
      var n := |rows| - 1;
      var front := rows[..n];
      FirstsAscend(front);
      if n == 0 || rows[n - 1].id != rows[n].id {
        FirstOfRunIsLeast(rows, n);
        FirstsAreRows(front);
        var kept := FirstOfRuns(front);
        forall k | 0 <= k < |kept| ensures kept[k].id < rows[n].id {
          assert kept[k] in kept;
          var j :| 0 <= j < n && front[j] == kept[k];
        }
      }
    }
  }

  /** Keep the first row of every run of one id. */
  method DedupById(rows: seq<Row>) returns (kept: seq<Row>)
    ensures kept == FirstOfRuns(rows)
  {
    kept := [];
    for i := 0 to |rows|
      invariant kept == FirstOfRuns(rows[..i])
    {
      assert rows[..i + 1][..i] == rows[..i];
      if i == 0 || rows[i - 1].id != rows[i].id {
        kept := kept + [rows[i]];
      }
    }
    assert rows[..|rows|] == rows;
  }

  function IdList(rows: seq<Row>): (ids: seq<BodyId>)
    ensures |ids| == |rows| && forall i :: 0 <= i < |rows| ==> ids[i] == rows[i].id
  {
    seq(|rows|, i requires 0 <= i < |rows| => rows[i].id)
  }

  lemma IdListMembers(rows: seq<Row>)
    ensures Elements(IdList(rows)) == RowIds(rows)
  {
  }

  /** Appending the next id of one walk that the other walk has passed. */
  lemma AppendNext(out: seq<BodyId>, walk: seq<BodyId>, i: nat, other: seq<BodyId>)
    requires StrictlyAscending(walk) && i < |walk| && walk[i] !in other
    requires StrictlyAscending(out) && forall x :: x in out <==> x in walk[..i] && x !in other
    ensures StrictlyAscending(out + [walk[i]])
    ensures forall x :: x in out + [walk[i]] <==> x in walk[..i + 1] && x !in other
  {
    assert walk[..i + 1] == walk[..i] + [walk[i]];
    forall k | 0 <= k < |out| ensures out[k] < walk[i] {
      assert out[k] in out;
      var a :| 0 <= a < i && walk[a] == out[k];
    }
  }

  /** Both halves of the diff from one merge of two ascending walks. */
  method PushDelta(held: seq<BodyId>, now: seq<BodyId>) returns (delta: Delta)
    requires StrictlyAscending(held) && StrictlyAscending(now)
    ensures delta == Delta(Ascending(Elements(held) - Elements(now)), Ascending(Elements(now) - Elements(held)))
  {
    var leaves: seq<BodyId>, enters: seq<BodyId> := [], [];
    var i, j := 0, 0;
    while i < |held| || j < |now|
      invariant 0 <= i <= |held| && 0 <= j <= |now|
      invariant i > 0 && j < |now| ==> held[i - 1] < now[j]
      invariant j > 0 && i < |held| ==> now[j - 1] < held[i]
      invariant StrictlyAscending(leaves) && forall x :: x in leaves <==> x in held[..i] && x !in now
      invariant StrictlyAscending(enters) && forall x :: x in enters <==> x in now[..j] && x !in held
      decreases |held| - i + |now| - j
    {
      if i < |held| && (j == |now| || held[i] < now[j]) {
        NotInWalk(now, j, held[i]);
        AppendNext(leaves, held, i, now);
        leaves := leaves + [held[i]];
        i := i + 1;
      } else if j < |now| && (i == |held| || now[j] < held[i]) {
        NotInWalk(held, i, now[j]);
        AppendNext(enters, now, j, held);
        enters := enters + [now[j]];
        j := j + 1;
      } else {
        assert held[..i + 1] == held[..i] + [held[i]];
        assert now[..j + 1] == now[..j] + [now[j]];
        i, j := i + 1, j + 1;
      }
    }
    assert held[..|held|] == held && now[..|now|] == now;
    assert Elements(leaves) == Elements(held) - Elements(now);
    assert Elements(enters) == Elements(now) - Elements(held);
    AscendingIs(leaves);
    AscendingIs(enters);
    delta := Delta(leaves, enters);
  }

  lemma NotInWalk(walk: seq<BodyId>, j: nat, x: BodyId)
    requires StrictlyAscending(walk) && j <= |walk|
    requires j > 0 ==> walk[j - 1] < x
    requires j < |walk| ==> x < walk[j]
    ensures x !in walk
  {
  }

  /** The rows the first `count` seats contribute to the union. */
  ghost predicate Contributed(rows: seq<Row>, seats: seq<Seat>) {
    forall r :: r in rows <==>
      exists i :: 0 <= i < |seats| && r.id in seats[i].members && r.distSq == seats[i].members[r.id]
  }

  lemma ContributedUnion(rows: seq<Row>, kept: seq<Row>, seats: seq<Seat>)
    requires Contributed(rows, seats)
    requires AscendingRows(kept) && RowIds(kept) == RowIds(rows)
    requires forall r :: r in kept ==> LeastRow(rows, r)
    ensures RowIds(kept) == Union(seats).Keys
    ensures forall r :: r in kept ==> Union(seats)[r.id] == r.distSq
  {
    forall id ensures id in RowIds(kept) <==> id in AllIds(seats) {
      if id in AllIds(seats) {
        var i :| 0 <= i < |seats| && id in seats[i].members;
        assert Row(id, seats[i].members[id]) in rows;
      }
    }
    forall r | r in kept ensures Union(seats)[r.id] == r.distSq {
      var d := Nearest(seats, r.id);
      assert Row(r.id, d) in rows;
      assert r.distSq <= d;
    }
  }

  /** Ascending by id with the nearest seat's distance first, one row per id. */
  method MergeRows(merged: seq<Row>, ghost seats: seq<Seat>) returns (kept: seq<Row>)
    requires Contributed(merged, seats)
    ensures AscendingRows(kept) && RowIds(kept) == Union(seats).Keys
    ensures forall r :: r in kept ==> Union(seats)[r.id] == r.distSq
  {
    var sorted := Sort(merged, RowOrder);
    PermutationElements(merged, sorted);
    assert forall r :: r in sorted <==> r in Elements(merged);
    kept := DedupById(sorted);
    FirstsAscend(sorted);
    FirstsCoverIds(sorted);
    FirstsAreLeast(sorted, sorted);
    ContributedUnion(sorted, kept, seats);
  }

  method TableOf(rows: seq<Row>) returns (table: map<BodyId, real>)
    requires AscendingRows(rows)
    ensures table.Keys == RowIds(rows)
    ensures forall r :: r in rows ==> table[r.id] == r.distSq
  {
    table := map[];
    for i := 0 to |rows|
      invariant table.Keys == RowIds(rows[..i])
      invariant forall r :: r in rows[..i] ==> table[r.id] == r.distSq
    {
      assert rows[..i + 1] == rows[..i] + [rows[i]];
      forall r | r in rows[..i] ensures r.id != rows[i].id {
        var k :| 0 <= k < i && rows[k] == r;
      }
      table := table[rows[i].id := rows[i].distSq];
    }
    assert rows[..|rows|] == rows;
  }

  method Publish(was: map<BodyId, real>, merged: seq<Row>, ghost seats: seq<Seat>)
    returns (delta: Delta, now: map<BodyId, real>)
    requires merged == RowsOf(seats)
    ensures now == Union(seats) && delta == DeltaOf(was, now)
  {
    RowsAreContributed(seats);
    var kept := MergeRows(merged, seats);
    var held := SortedKeys(was.Keys);
    IdListMembers(kept);
    delta := PushDelta(held, IdList(kept));
    now := TableOf(kept);
    assert now == Union(seats);
  }

  /** A set's members in the order of `ids`, each with the distance recorded for it. */
  ghost function RowsFor(members: map<BodyId, real>, ids: seq<BodyId>): seq<Row>
    requires forall id :: id in ids ==> id in members
  {
    if ids == [] then []
    else
      var last := ids[|ids| - 1];
      RowsFor(members, ids[..|ids| - 1]) + [Row(last, members[last])]
  }

  lemma {:induction false} RowsForHolds(members: map<BodyId, real>, ids: seq<BodyId>)
    requires forall id :: id in ids ==> id in members
    ensures forall x :: x in RowsFor(members, ids) <==> x.id in ids && x.distSq == members[x.id]
  {
    if ids != [] {
      RowsForHolds(members, ids[..|ids| - 1]);
    }
  }

  ghost function SeatRows(seat: Seat): (rows: seq<Row>)
    ensures forall x :: x in rows <==> x.id in seat.members && x.distSq == seat.members[x.id]
  {
    var ids := Ascending(seat.members.Keys);
    assert forall id :: id in ids <==> id in Elements(ids);
    RowsForHolds(seat.members, ids);
    RowsFor(seat.members, ids)
  }

  method ListRows(members: map<BodyId, real>) returns (rows: seq<Row>)
    ensures rows == SeatRows(Seat(members, {}))
  {
    var ids := SortedKeys(members.Keys);
    assert forall id :: id in ids <==> id in Elements(ids);
    rows := [];
    for i := 0 to |ids|
      invariant rows == RowsFor(members, ids[..i])
    {
      assert ids[..i + 1][..i] == ids[..i];
      rows := rows + [Row(ids[i], members[ids[i]])];
    }
    assert ids[..|ids|] == ids;
  }

  /** What the seats contribute, one after another. */
  ghost function RowsOf(seats: seq<Seat>): seq<Row> {
    if seats == [] then [] else RowsOf(seats[..|seats| - 1]) + SeatRows(seats[|seats| - 1])
  }

  ghost predicate Holds(seat: Seat, x: Row) {
    x.id in seat.members && x.distSq == seat.members[x.id]
  }

  lemma {:induction false} SeatOf(seats: seq<Seat>, x: Row) returns (i: nat)
    requires x in RowsOf(seats)
    ensures i < |seats| && Holds(seats[i], x)
  {
    var n := |seats| - 1;
    if x in RowsOf(seats[..n]) {
      i := SeatOf(seats[..n], x);
    } else {
      assert x in SeatRows(seats[n]);
      i := n;
    }
  }

  lemma {:induction false} SeatListed(seats: seq<Seat>, x: Row, i: nat)
    requires i < |seats| && Holds(seats[i], x)
    ensures x in RowsOf(seats)
  {
    var n := |seats| - 1;
    if i < n {
      SeatListed(seats[..n], x, i);
    } else {
      assert x in SeatRows(seats[n]);
    }
  }

  lemma RowsAreContributed(seats: seq<Seat>)
    ensures Contributed(RowsOf(seats), seats)
  {
  }

  class ConnectionInterest {
    var seats: seq<PeerInterest>
    var members: map<BodyId, real>
    var hidden: set<BodyId>

    /** The seats are separate objects, none of them shared. */
    ghost predicate Valid()
      reads this
    {
      forall i, j :: 0 <= i < j < |seats| ==> seats[i] != seats[j]
    }

    ghost function View(): Conn
      reads this, seats
    {
      Conn(seq(|seats|, i requires 0 <= i < |seats| reads this, seats => seats[i].View()), members, hidden)
    }

    constructor ()
      ensures Valid() && View() == EMPTY
    {
      seats, members, hidden := [], map[], {};
    }

    /** Match the per-seat sets to `count` seats; a new seat inherits the standing vetoes. */
    method FitSeats(count: nat)
      requires Valid()
      modifies this`seats
      ensures Valid()
      ensures forall i :: 0 <= i < |seats| ==> (i < |old(seats)| && seats[i] == old(seats)[i]) || fresh(seats[i])
      ensures View() == Conn(Fit(old(View()).seats, count, hidden), members, hidden)
    {
      if count <= |seats| {
        seats := seats[..count];
        return;
      }
      while |seats| < count
        invariant Valid() && |old(seats)| <= |seats| <= count
        invariant forall i :: 0 <= i < |old(seats)| ==> seats[i] == old(seats[i])
        invariant forall i :: |old(seats)| <= i < |seats| ==> fresh(seats[i]) && seats[i].View() == Seat(map[], hidden)
        decreases count - |seats|
      {
        var seat := NewSeat(hidden);
        seats := seats + [seat];
      }
    }

    static method NewSeat(vetoed: set<BodyId>) returns (seat: PeerInterest)
      ensures fresh(seat) && seat.View() == Seat(map[], vetoed)
    {
      seat := new PeerInterest();
      var vetoes := ListOf(vetoed);
      for i := 0 to |vetoes|
        invariant fresh(seat) && seat.members == map[]
        invariant seat.hidden == Elements(vetoes[..i])
      {
        assert vetoes[..i + 1] == vetoes[..i] + [vetoes[i]];
        seat.SetHidden(vetoes[i], true);
      }
      assert vetoes[..|vetoes|] == vetoes;
    }

    /** Merge the per-seat sets into the union, report its diff, then overwrite it. */
    method CommitUnion(merged: seq<Row>) returns (delta: Delta)
      requires Valid() && merged == RowsOf(View().seats)
      modifies this`members
      ensures View() == Conn(old(View()).seats, Union(old(View()).seats), hidden)
      ensures delta == DeltaOf(old(members), members)
    {
      ghost var views := View().seats;
      delta, members := Publish(members, merged, views);
      assert View().seats == views;
    }

    /** The rows one refreshed seat adds to the merge. */
    static method Contribute(seat: PeerInterest, merged: seq<Row>) returns (r: seq<Row>)
      ensures r == merged + SeatRows(seat.View())
    {
      var own := ListRows(seat.members);
      r := merged + own;
    }

    static method RefreshSeat(seat: PeerInterest, cfg: AoiConfig, o: SeatObserver, candidates: seq<Candidate>,
                              merged: seq<Row>, ghost target: Seat)
      returns (r: seq<Row>)
      requires DistinctIds(candidates) && UniqueCandidates(Elements(candidates))
      requires target == Updated(seat.View(), Elements(candidates), o, cfg)
      modifies seat
      ensures seat.View() == target && r == merged + SeatRows(target)
    {
      var leaves := seat.UpdateLinear(cfg, o, candidates);
      r := Contribute(seat, merged);
    }

    static method RefreshSeatByGrid(seat: PeerInterest, grid: InterestGrid, cfg: AoiConfig, o: SeatObserver,
                                    also: seq<Candidate>, merged: seq<Row>, ghost shared: seq<Candidate>,
                                    ghost cs: set<Candidate>, ghost target: Seat)
      returns (r: seq<Row>)
      requires DistinctIds(shared) && DistinctIds(also) && grid.Indexes(shared, cfg.EffectiveCellSize())
      requires |shared| <= I32_MAX
      requires UniqueCandidates(cs) && cs == Substituted(Elements(shared), Elements(also))
      requires target == Updated(seat.View(), cs, o, cfg)
      modifies seat
      ensures seat.View() == target && r == merged + SeatRows(target)
    {
      var leaves := seat.UpdateGrid(grid, cfg, o, also, shared);
      r := Contribute(seat, merged);
    }

    /** Filter every seat over the flat slice, collecting what each contributes. */
    static method RefreshLinear(list: seq<PeerInterest>, cfg: AoiConfig, observers: seq<SeatObserver>,
                                candidates: seq<Candidate>, ghost target: seq<Seat>)
      returns (merged: seq<Row>)
      requires forall i, j :: 0 <= i < j < |list| ==> list[i] != list[j]
      requires DistinctIds(candidates) && UniqueCandidates(Elements(candidates))
      requires |list| == |observers| == |target|
      requires forall k {:trigger target[k], observers[k]} :: 0 <= k < |list| ==>
                 target[k] == Updated(list[k].View(), Elements(candidates), observers[k], cfg)
      modifies list
      ensures merged == RowsOf(target)
      ensures forall k :: 0 <= k < |list| ==> list[k].View() == target[k]
    {
      merged := [];
      for i := 0 to |observers|
        invariant merged == RowsOf(target[..i])
        invariant forall k :: 0 <= k < i ==> list[k].View() == target[k]
        invariant forall k :: i <= k < |list| ==> list[k].View() == old(list[k].View())
      {
        merged := RefreshSeat(list[i], cfg, observers[i], candidates, merged, target[i]);
        forall k | 0 <= k < i + 1 ensures list[k].View() == target[k] {
          if k < i { assert list[k] != list[i]; }
        }
        assert target[..i + 1][..i] == target[..i];
      }
      assert target[..|observers|] == target;
    }

    /** Filter every seat through the index, collecting what each contributes. */
    static method RefreshGrid(list: seq<PeerInterest>, grid: InterestGrid, cfg: AoiConfig, observers: seq<SeatObserver>,
                              also: seq<Candidate>, ghost shared: seq<Candidate>, ghost cs: set<Candidate>,
                              ghost target: seq<Seat>)
      returns (merged: seq<Row>)
      requires forall i, j :: 0 <= i < j < |list| ==> list[i] != list[j]
      requires DistinctIds(shared) && DistinctIds(also) && grid.Indexes(shared, cfg.EffectiveCellSize())
      requires |shared| <= I32_MAX
      requires UniqueCandidates(cs) && cs == Substituted(Elements(shared), Elements(also))
      requires |list| == |observers| == |target|
      requires forall k {:trigger target[k], observers[k]} :: 0 <= k < |list| ==>
                 target[k] == Updated(list[k].View(), cs, observers[k], cfg)
      modifies list
      ensures merged == RowsOf(target)
      ensures forall k :: 0 <= k < |list| ==> list[k].View() == target[k]
    {
      merged := [];
      for i := 0 to |observers|
        invariant grid.Indexes(shared, cfg.EffectiveCellSize())
        invariant merged == RowsOf(target[..i])
        invariant forall k :: 0 <= k < i ==> list[k].View() == target[k]
        invariant forall k :: i <= k < |list| ==> list[k].View() == old(list[k].View())
      {
        merged := RefreshSeatByGrid(list[i], grid, cfg, observers[i], also, merged, shared, cs, target[i]);
        forall k | 0 <= k < i + 1 ensures list[k].View() == target[k] {
          if k < i { assert list[k] != list[i]; }
        }
        assert target[..i + 1][..i] == target[..i];
      }
      assert target[..|observers|] == target;
    }

    /** Recompute every seat from the flat candidate slice, then publish the union. */
    method UpdateLinear(cfg: AoiConfig, observers: seq<SeatObserver>, candidates: seq<Candidate>) returns (delta: Delta)
      requires Valid() && DistinctIds(candidates)
      modifies this, seats
      ensures Valid() && forall i :: 0 <= i < |seats| ==>
                (i < |old(seats)| && seats[i] == old(seats)[i]) || fresh(seats[i])
      ensures UniqueCandidates(Elements(candidates))
      ensures View() == ConnUpdated(old(View()), observers, Elements(candidates), cfg)
      ensures delta == DeltaOf(old(members), members)
    {
      DistinctMeansUnique(candidates);
      FitSeats(|observers|);
      ghost var target := Refreshed(View().seats, observers, Elements(candidates), cfg);
      var merged := RefreshLinear(seats, cfg, observers, candidates, target);
      assert View().seats == target;
      delta := CommitUnion(merged);
    }

    /** Recompute every seat through the index, then publish the union. */
    method UpdateGrid(grid: InterestGrid, cfg: AoiConfig, observers: seq<SeatObserver>, also: seq<Candidate>,
                      ghost shared: seq<Candidate>)
      returns (delta: Delta)
      requires Valid() && DistinctIds(shared) && DistinctIds(also) && grid.Indexes(shared, cfg.EffectiveCellSize())
      requires |shared| <= I32_MAX
      modifies this, seats
      ensures Valid() && forall i :: 0 <= i < |seats| ==>
                (i < |old(seats)| && seats[i] == old(seats)[i]) || fresh(seats[i])
      ensures UniqueCandidates(Substituted(Elements(shared), Elements(also)))
      ensures View() == ConnUpdated(old(View()), observers, Substituted(Elements(shared), Elements(also)), cfg)
      ensures delta == DeltaOf(old(members), members)
    {
      DistinctMeansUnique(shared);
      DistinctMeansUnique(also);
      SubstitutedIsUnique(Elements(shared), Elements(also));
      ghost var cs := Substituted(Elements(shared), Elements(also));
      FitSeats(|observers|);
      ghost var target := Refreshed(View().seats, observers, cs, cfg);
      var merged := RefreshGrid(seats, grid, cfg, observers, also, shared, cs, target);
      assert View().seats == target;
      delta := CommitUnion(merged);
    }

    /** Drop `id` from the union and from every seat. */
    method Remove(id: BodyId)
      requires Valid()
      modifies this`members, seats
      ensures Valid() && View() == ConnDropped(old(View()), id)
    {
      members := members - {id};
      for i := 0 to |seats|
        invariant members == old(members) - {id}
        invariant forall k :: 0 <= k < i ==> seats[k].View() == Dropped(old(seats[k].View()), id)
        invariant forall k :: i <= k < |seats| ==> seats[k].View() == old(seats[k].View())
      {
        seats[i].Remove(id);
      }
    }

    /** Start or stop withholding `id` from the connection, mirrored onto every seat. */
    method SetHidden(id: BodyId, veto: bool)
      requires Valid()
      modifies this`members, this`hidden, seats
      ensures Valid() && View() == ConnVetoed(old(View()), id, veto)
    {
      if veto {
        hidden := hidden + {id};
        members := members - {id};
      } else {
        hidden := hidden - {id};
      }
      for i := 0 to |seats|
        invariant hidden == ConnVetoed(old(View()), id, veto).hidden
        invariant members == ConnVetoed(old(View()), id, veto).members
        invariant forall k :: 0 <= k < i ==> seats[k].View() == Vetoed(old(seats[k].View()), id, veto)
        invariant forall k :: i <= k < |seats| ==> seats[k].View() == old(seats[k].View())
      {
        seats[i].SetHidden(id, veto);
      }
    }
  }

  /** The flat list a linear tick filters: this connection's own row stands in for the row it names. */
  method Substitute(shared: seq<Candidate>, also: seq<Candidate>) returns (flat: seq<Candidate>)
    requires DistinctIds(shared) && DistinctIds(also)
    ensures DistinctIds(flat) && Elements(flat) == Substituted(Elements(shared), Elements(also))
  {
    flat := also;
    for i := 0 to |shared|
      invariant DistinctIds(flat)
      invariant forall c :: c in flat <==> c in also || (c in shared[..i] && !Overridden(c.id, also))
    {
      if !Overridden(shared[i].id, also) {
        forall c | c in flat ensures c.id != shared[i].id {
          if c in also {
            var k :| 0 <= k < |also| && also[k] == c;
          } else {
            var k :| 0 <= k < i && shared[k] == c;
          }
        }
        flat := flat + [shared[i]];
      }
    }
    forall c | c in shared
      ensures !Overridden(c.id, also) <==> c in NotOverridden(Elements(shared), Elements(also))
    {
      OverriddenMeans(c, shared, also);
    }
  }

  /**
   * One session step, by the path the step names: the linear pass over the substituted list, or a
   * rebuild and the index. The state and the delta do not depend on which.
   */
  method Apply(conn: ConnectionInterest, grid: InterestGrid, op: Op) returns (delta: Delta)
    requires conn.Valid() && Legal(op)
    modifies conn, conn.seats, grid
    ensures conn.Valid()
    ensures forall i :: 0 <= i < |conn.seats| ==>
              (i < |old(conn.seats)| && conn.seats[i] == old(conn.seats)[i]) || fresh(conn.seats[i])
    ensures conn.View() == Step(old(conn.View()), op)
    ensures delta == if op.Update? then DeltaOf(old(conn.members), conn.members) else Delta([], [])
  {
    delta := Delta([], []);
    match op {
      case Update(cfg, observers, shared, also, byGrid) =>
        if byGrid {
          grid.Rebuild(cfg, shared);
          delta := conn.UpdateGrid(grid, cfg, observers, also, shared);
        } else {
          var flat := Substitute(shared, also);
          delta := conn.UpdateLinear(cfg, observers, flat);
        }
      case Veto(id, veto) =>
        conn.SetHidden(id, veto);
      case Despawn(id) =>
        conn.Remove(id);
    }
  }

  /** One step, and what a set fed only the reported halves does with it. */
  method Tick(conn: ConnectionInterest, grid: InterestGrid, op: Op, held: set<BodyId>)
    returns (delta: Delta, mirror: set<BodyId>)
    requires conn.Valid() && Legal(op)
    modifies conn, conn.seats, grid
    ensures conn.Valid()
    ensures forall i :: 0 <= i < |conn.seats| ==>
              (i < |old(conn.seats)| && conn.seats[i] == old(conn.seats)[i]) || fresh(conn.seats[i])
    ensures conn.View() == Step(old(conn.View()), op)
    ensures delta == if op.Update? then DeltaOf(old(conn.members), conn.members) else Delta([], [])
    ensures mirror == Mirrored(held, old(conn.View()), op)
  {
    delta := Apply(conn, grid, op);
    match op {
      case Update(_, _, _, _, _) =>
        mirror := (held - (set x | x in delta.leaves)) + (set x | x in delta.enters);
      case Veto(id, veto) =>
        mirror := if veto then held - {id} else held;
      case Despawn(id) =>
        mirror := held - {id};
    }
  }

  /** A whole session from an empty connection, beside the set a consumer of its deltas holds. */
  method Drive(ops: seq<Op>)
    returns (conn: ConnectionInterest, grid: InterestGrid, deltas: seq<Delta>, mirror: set<BodyId>)
    requires forall op :: op in ops ==> Legal(op)
    ensures fresh(conn) && fresh(grid) && conn.Valid()
    ensures forall i :: 0 <= i < |conn.seats| ==> fresh(conn.seats[i])
    ensures conn.View() == Run(EMPTY, ops) && deltas == DeltasOf(ops)
    ensures mirror == conn.members.Keys
    decreases |ops|
  {
    if ops == [] {
      conn := new ConnectionInterest();
      grid := new InterestGrid();
      deltas, mirror := [], {};
    } else {
      var delta: Delta;
      conn, grid, deltas, mirror := Drive(ops[..|ops| - 1]);
      delta, mirror := Tick(conn, grid, ops[|ops| - 1], mirror);
      deltas := deltas + [delta];
      MirrorTracksUnion(ops[..|ops| - 1]);
      MirrorTracksUnion(ops);
    }
  }

  /**
   * Two sessions alike but for the path each update takes, each driven through its own objects, end in the same
   * state having reported the same deltas.
   */
  method DriveByEitherPath(ops: seq<Op>, other: seq<Op>)
    returns (conn: ConnectionInterest, deltas: seq<Delta>, conn': ConnectionInterest, deltas': seq<Delta>)
    requires |ops| == |other| && forall i :: 0 <= i < |ops| ==> SameButForPath(ops[i], other[i])
    requires forall op :: op in ops ==> Legal(op)
    ensures conn.View() == conn'.View() == Run(EMPTY, ops) && deltas == deltas' == DeltasOf(ops)
  {
    PathScheduleIsInvisible(EMPTY, ops, other);
    var grid, grid', mirror, mirror';
    conn, grid, deltas, mirror := Drive(ops);
    conn', grid', deltas', mirror' := Drive(other);
  }
}

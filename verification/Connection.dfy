/**
 * The rules of one connection's interest: a set per seat, the union the datagram carries, and what
 * every run of updates, vetoes and despawns keeps true of them.
 */
module Connection {
  import opened Sequences
  import opened Interest
  import opened InterestGrid

  /** A connection: its seats, the union with the nearest seat's distance, and the standing vetoes. */
  datatype Conn = Conn(seats: seq<Seat>, members: map<BodyId, real>, hidden: set<BodyId>)

  const EMPTY: Conn := Conn([], map[], {})

  /** What the union lost and gained between two updates, each half ascending. */
  datatype Delta = Delta(leaves: seq<BodyId>, enters: seq<BodyId>)

  ghost function AllIds(seats: seq<Seat>): set<BodyId> {
    set i, id | 0 <= i < |seats| && id in seats[i].members :: id
  }

  /** `d` is the distance some seat holding `id` recorded, and no other seat recorded a smaller one. */
  ghost predicate IsNearest(seats: seq<Seat>, id: BodyId, d: real) {
    && (exists i :: 0 <= i < |seats| && id in seats[i].members && seats[i].members[id] == d)
    && (forall i :: 0 <= i < |seats| && id in seats[i].members ==> d <= seats[i].members[id])
  }

  ghost function Nearest(seats: seq<Seat>, id: BodyId): (d: real)
    requires id in AllIds(seats)
    ensures IsNearest(seats, id, d)
  {
    var front, last := seats[..|seats| - 1], seats[|seats| - 1];
    if id !in AllIds(front) then last.members[id]
    else
      var d := Nearest(front, id);
      assert forall i :: 0 <= i < |front| ==> front[i] == seats[i];
      if id in last.members && last.members[id] < d then last.members[id] else d
  }

  ghost function Union(seats: seq<Seat>): map<BodyId, real> {
    map id | id in AllIds(seats) :: Nearest(seats, id)
  }

  /** Positional resize: a departed seat is truncated, a new one starts under the standing vetoes. */
  function Fit(seats: seq<Seat>, count: nat, hidden: set<BodyId>): (r: seq<Seat>)
    ensures |r| == count
  {
    if count <= |seats| then seats[..count]
    else seats + seq(count - |seats|, _ => Seat(map[], hidden))
  }

  ghost function Refreshed(seats: seq<Seat>, observers: seq<SeatObserver>, cs: set<Candidate>,
                           cfg: AoiConfig): seq<Seat>
    requires |seats| == |observers| && UniqueCandidates(cs)
  {
    seq(|seats|, i requires 0 <= i < |seats| => Updated(seats[i], cs, observers[i], cfg))
  }

  ghost function ConnUpdated(conn: Conn, observers: seq<SeatObserver>, cs: set<Candidate>, cfg: AoiConfig): Conn
    requires UniqueCandidates(cs)
  {
    var seats := Refreshed(Fit(conn.seats, |observers|, conn.hidden), observers, cs, cfg);
    Conn(seats, Union(seats), conn.hidden)
  }

  ghost function DeltaOf(was: map<BodyId, real>, now: map<BodyId, real>): Delta {
    Delta(Ascending(was.Keys - now.Keys), Ascending(now.Keys - was.Keys))
  }

  function Vetoed(seat: Seat, id: BodyId, veto: bool): Seat {
    if veto then Seat(seat.members - {id}, seat.hidden + {id}) else Seat(seat.members, seat.hidden - {id})
  }

  function Dropped(seat: Seat, id: BodyId): Seat {
    Seat(seat.members - {id}, seat.hidden)
  }

  function ConnVetoed(conn: Conn, id: BodyId, veto: bool): Conn {
    Conn(seq(|conn.seats|, i requires 0 <= i < |conn.seats| => Vetoed(conn.seats[i], id, veto)),
         if veto then conn.members - {id} else conn.members,
         if veto then conn.hidden + {id} else conn.hidden - {id})
  }

  function ConnDropped(conn: Conn, id: BodyId): Conn {
    Conn(seq(|conn.seats|, i requires 0 <= i < |conn.seats| => Dropped(conn.seats[i], id)),
         conn.members - {id}, conn.hidden)
  }

  // ------------------------------------------------------------------ runs

  /** One thing a session does to a connection; an update names the path it runs by. */
  datatype Op =
    | Update(cfg: AoiConfig, observers: seq<SeatObserver>, shared: seq<Candidate>, also: seq<Candidate>, byGrid: bool)
    | Veto(id: BodyId, veto: bool)
    | Despawn(id: BodyId)

  ghost predicate Legal(op: Op) {
    op.Update? ==>
      && DistinctIds(op.shared) && DistinctIds(op.also)
      && |op.shared| <= I32_MAX
  }

  ghost function Offered(op: Op): (cs: set<Candidate>)
    requires op.Update? && Legal(op)
    ensures UniqueCandidates(cs)
  {
    DistinctMeansUnique(op.shared);
    DistinctMeansUnique(op.also);
    SubstitutedIsUnique(Elements(op.shared), Elements(op.also));
    Substituted(Elements(op.shared), Elements(op.also))
  }

  ghost function Step(conn: Conn, op: Op): Conn
    requires Legal(op)
  {
    match op
    case Update(cfg, observers, _, _, _) => ConnUpdated(conn, observers, Offered(op), cfg)
    case Veto(id, veto) => ConnVetoed(conn, id, veto)
    case Despawn(id) => ConnDropped(conn, id)
  }

  ghost function Run(conn: Conn, ops: seq<Op>): Conn
    requires forall op :: op in ops ==> Legal(op)
  {
    if ops == [] then conn else Step(Run(conn, ops[..|ops| - 1]), ops[|ops| - 1])
  }

  /** The union is the union of the seats, the vetoes are the same everywhere, and no veto is held. */
  ghost predicate Coherent(conn: Conn) {
    && conn.members == Union(conn.seats)
    && forall i :: 0 <= i < |conn.seats| ==>
         conn.seats[i].hidden == conn.hidden && conn.seats[i].members.Keys !! conn.hidden
  }

  lemma UnionWithout(seats: seq<Seat>, seats': seq<Seat>, id: BodyId)
    requires |seats'| == |seats| && forall i :: 0 <= i < |seats| ==> seats'[i].members == seats[i].members - {id}
    ensures Union(seats') == Union(seats) - {id}
  {
    forall x ensures x in AllIds(seats') <==> x in AllIds(seats) && x != id {
      if x in AllIds(seats) && x != id {
        var i :| 0 <= i < |seats| && x in seats[i].members;
        assert x in seats'[i].members;
      }
    }
    forall x | x in AllIds(seats') ensures Nearest(seats', x) == Nearest(seats, x) {
      NearestIsUnique(seats, seats', x, Nearest(seats, x), Nearest(seats', x));
    }
  }

  lemma NearestIsUnique(a: seq<Seat>, b: seq<Seat>, id: BodyId, d: real, e: real)
    requires |a| == |b| && IsNearest(a, id, d) && IsNearest(b, id, e)
    requires forall i :: 0 <= i < |a| ==> (id in a[i].members <==> id in b[i].members)
    requires forall i :: 0 <= i < |a| && id in a[i].members ==> a[i].members[id] == b[i].members[id]
    ensures d == e
  {
  }

  lemma SameMembersSameUnion(seats: seq<Seat>, seats': seq<Seat>)
    requires |seats'| == |seats| && forall i :: 0 <= i < |seats| ==> seats'[i].members == seats[i].members
    ensures Union(seats') == Union(seats)
  {
    forall x ensures x in AllIds(seats') <==> x in AllIds(seats) {
      if x in AllIds(seats) {
        var i :| 0 <= i < |seats| && x in seats[i].members;
        assert x in seats'[i].members;
      }
    }
    forall x | x in AllIds(seats') ensures Nearest(seats', x) == Nearest(seats, x) {
      NearestIsUnique(seats, seats', x, Nearest(seats, x), Nearest(seats', x));
    }
  }

  lemma UpdatedObeysVeto(seat: Seat, cs: set<Candidate>, o: SeatObserver, cfg: AoiConfig)
    requires UniqueCandidates(cs)
    ensures Updated(seat, cs, o, cfg).members.Keys !! seat.hidden
  {
  }

  lemma StepIsCoherent(conn: Conn, op: Op)
    requires Legal(op) && Coherent(conn)
    ensures Coherent(Step(conn, op))
  {
    var next := Step(conn, op);
    match op {
      case Update(cfg, observers, _, _, _) =>
        var fitted := Fit(conn.seats, |observers|, conn.hidden);
        forall i | 0 <= i < |next.seats|
          ensures next.seats[i].hidden == next.hidden && next.seats[i].members.Keys !! next.hidden
        {
          assert fitted[i].hidden == conn.hidden;
          UpdatedObeysVeto(fitted[i], Offered(op), observers[i], cfg);
        }
      case Veto(id, veto) =>
        if veto {
          UnionWithout(conn.seats, next.seats, id);
        } else {
          SameMembersSameUnion(conn.seats, next.seats);
        }
      case Despawn(id) =>
        UnionWithout(conn.seats, next.seats, id);
    }
  }

  /** Every reachable connection is coherent, seats that joined late included. */
  lemma {:induction false} RunIsCoherent(ops: seq<Op>)
    requires forall op :: op in ops ==> Legal(op)
    ensures Coherent(Run(EMPTY, ops))
  {
    if ops != [] {
      RunIsCoherent(ops[..|ops| - 1]);
      StepIsCoherent(Run(EMPTY, ops[..|ops| - 1]), ops[|ops| - 1]);
    } else {
      assert AllIds([]) == {};
    }
  }

  /** The operations vetoed `id`, and have not retracted it since. */
  ghost predicate Withheld(ops: seq<Op>, id: BodyId) {
    exists i :: 0 <= i < |ops| && ops[i] == Veto(id, true) && forall j :: i < j < |ops| ==> ops[j] != Veto(id, false)
  }

  /** The standing vetoes are exactly those made and not retracted since. */
  lemma {:induction false} HiddenIffWithheld(ops: seq<Op>, id: BodyId)
    requires forall op :: op in ops ==> Legal(op)
    ensures id in Run(EMPTY, ops).hidden <==> Withheld(ops, id)
  {
    if ops != [] {
      var n := |ops| - 1;
      HiddenIffWithheld(ops[..n], id);
      if Withheld(ops[..n], id) && ops[n] != Veto(id, false) {
        var i :| 0 <= i < n && ops[..n][i] == Veto(id, true)
                 && forall j :: i < j < n ==> ops[..n][j] != Veto(id, false);
        assert forall j :: i < j < n ==> ops[j] == ops[..n][j];
        assert ops[i] == Veto(id, true);
      }
      if Withheld(ops, id) && ops[n] != Veto(id, true) {
        var i :| 0 <= i <= n && ops[i] == Veto(id, true) && forall j :: i < j <= n ==> ops[j] != Veto(id, false);
        assert ops[..n][i] == Veto(id, true) && forall j :: i < j < n ==> ops[..n][j] == ops[j];
      }
    }
  }

  /** No id vetoed and not retracted since is in the union a datagram is built from, or in any seat. */
  lemma VetoedIsNeverSent(ops: seq<Op>, id: BodyId)
    requires forall op :: op in ops ==> Legal(op)
    requires Withheld(ops, id)
    ensures id !in Run(EMPTY, ops).members
    ensures forall i :: 0 <= i < |Run(EMPTY, ops).seats| ==> id !in Run(EMPTY, ops).seats[i].members
  {
    RunIsCoherent(ops);
    HiddenIffWithheld(ops, id);
    var conn := Run(EMPTY, ops);
    forall i | 0 <= i < |conn.seats| ensures id !in conn.seats[i].members {
      assert conn.seats[i].members.Keys !! conn.hidden;
    }
  }

  /** A veto or a removal takes one id out of the union and of every seat, and leaves every other where it was. */
  lemma OneIdLeaves(conn: Conn, op: Op, id: BodyId)
    requires op == Veto(id, true) || op == Despawn(id)
    ensures var next := Step(conn, op);
            && |next.seats| == |conn.seats| && id !in next.members
            && (forall x :: x != id ==> (x in next.members <==> x in conn.members))
            && (forall x :: x != id && x in conn.members ==> next.members[x] == conn.members[x])
            && forall i :: 0 <= i < |conn.seats| ==>
                 && id !in next.seats[i].members
                 && (forall x :: x != id ==> (x in next.seats[i].members <==> x in conn.seats[i].members))
                 && forall x :: x != id && x in conn.seats[i].members ==>
                      next.seats[i].members[x] == conn.seats[i].members[x]
  {
  }

  /** An update keeps the seats that remain, refreshed from their own sets, and starts the rest empty. */
  lemma SeatsAreKept(conn: Conn, op: Op, i: nat)
    requires Legal(op) && op.Update? && i < |op.observers|
    ensures |Step(conn, op).seats| == |op.observers|
    ensures Step(conn, op).seats[i]
         == Updated(if i < |conn.seats| then conn.seats[i] else Seat(map[], conn.hidden),
                    Offered(op), op.observers[i], op.cfg)
  {
  }

  /**
   * A leave is a leave from the union: an id an update reports as left is one no remaining seat
   * holds, and one it reports as entered is one no seat of the connection held before.
   */
  lemma LeaveMeansEverySeatLetGo(conn: Conn, op: Op, id: BodyId)
    requires Legal(op) && op.Update? && Coherent(conn)
    ensures var next := Step(conn, op); var delta := DeltaOf(conn.members, next.members);
            && (id in delta.leaves <==>
                  (exists i :: 0 <= i < |conn.seats| && id in conn.seats[i].members)
                  && forall i :: 0 <= i < |next.seats| ==> id !in next.seats[i].members)
            && (id in delta.enters <==>
                  (forall i :: 0 <= i < |conn.seats| ==> id !in conn.seats[i].members)
                  && exists i :: 0 <= i < |next.seats| && id in next.seats[i].members)
            && !(id in delta.leaves && id in delta.enters)
  {
    var next := Step(conn, op);
    StepIsCoherent(conn, op);
    var delta := DeltaOf(conn.members, next.members);
    assert id in delta.leaves <==> id in Elements(delta.leaves);
    assert id in delta.enters <==> id in Elements(delta.enters);
    assert id in conn.members <==> id in AllIds(conn.seats);
    assert id in next.members <==> id in AllIds(next.seats);
  }

  // ------------------------------------------------------------------ the path never matters

  ghost predicate SameButForPath(a: Op, b: Op) {
    match a
    case Update(cfg, observers, shared, also, _) =>
      b.Update? && b.cfg == cfg && b.observers == observers && b.shared == shared && b.also == also
    case _ => a == b
  }

  /** What each operation of a run reports: an update its delta, a veto or a removal nothing. */
  ghost function DeltasOf(ops: seq<Op>): (deltas: seq<Delta>)
    requires forall op :: op in ops ==> Legal(op)
    ensures |deltas| == |ops|
  {
    if ops == [] then []
    else
      var front, op := ops[..|ops| - 1], ops[|ops| - 1];
      var was := Run(EMPTY, front);
      DeltasOf(front) + [if op.Update? then DeltaOf(was.members, Step(was, op).members) else Delta([], [])]
  }

  /** By these rules a schedule of paths is invisible: every other schedule reaches the same state and deltas. */
  lemma {:induction false} PathScheduleIsInvisible(conn: Conn, ops: seq<Op>, other: seq<Op>)
    requires |ops| == |other| && forall i :: 0 <= i < |ops| ==> SameButForPath(ops[i], other[i])
    requires forall op :: op in ops ==> Legal(op)
    ensures forall op :: op in other ==> Legal(op)
    ensures Run(conn, ops) == Run(conn, other)
    ensures DeltasOf(ops) == DeltasOf(other)
    decreases |ops|
  {
    forall op | op in other ensures Legal(op) {
      var i :| 0 <= i < |other| && other[i] == op;
      assert Legal(ops[i]);
    }
    if ops != [] {
      PathScheduleIsInvisible(conn, ops[..|ops| - 1], other[..|other| - 1]);
      PathScheduleIsInvisible(EMPTY, ops[..|ops| - 1], other[..|other| - 1]);
      assert SameButForPath(ops[|ops| - 1], other[|ops| - 1]);
    }
  }

  // ------------------------------------------------------------------ settled ticks are silent

  /**
   * Running the same update again, by either path, leaves every seat, the union and every stored
   * distance as they are and reports neither half of a delta.
   */
  lemma SettledTickIsSilent(conn: Conn, op: Op, again: Op)
    requires Legal(op) && op.Update? && SameButForPath(op, again)
    ensures Legal(again)
    ensures Step(Step(conn, op), again) == Step(conn, op)
    ensures DeltaOf(Step(conn, op).members, Step(Step(conn, op), again).members) == Delta([], [])
  {
    var once := Step(conn, op);
    var fitted := Fit(conn.seats, |op.observers|, conn.hidden);
    var refit := Fit(once.seats, |op.observers|, once.hidden);
    assert refit == once.seats;
    forall i | 0 <= i < |once.seats|
      ensures Updated(once.seats[i], Offered(op), op.observers[i], op.cfg) == once.seats[i]
    {
      SettledUpdateIsIdentity(fitted[i], Offered(op), op.observers[i], op.cfg);
    }
    var twice := Step(once, again);
    assert twice.seats == once.seats;
    assert once.members.Keys - once.members.Keys == {};
    AscendingOfNone();
  }

  // ------------------------------------------------------------------ a mirror fed only the deltas

  /** What a consumer holding only a set does with a delta, a veto or a despawn it caused. */
  ghost function Mirrored(mirror: set<BodyId>, was: Conn, op: Op): set<BodyId>
    requires Legal(op)
  {
    match op
    case Update(_, _, _, _, _) =>
      var delta := DeltaOf(was.members, Step(was, op).members);
      (mirror - Elements(delta.leaves)) + Elements(delta.enters)
    case Veto(id, veto) => if veto then mirror - {id} else mirror
    case Despawn(id) => mirror - {id}
  }

  ghost function MirrorRun(ops: seq<Op>): set<BodyId>
    requires forall op :: op in ops ==> Legal(op)
  {
    if ops == [] then {}
    else
      var front := ops[..|ops| - 1];
      Mirrored(MirrorRun(front), Run(EMPTY, front), ops[|ops| - 1])
  }

  /** A set fed nothing but the reported halves is the union at every state of every run. */
  lemma {:induction false} MirrorTracksUnion(ops: seq<Op>)
    requires forall op :: op in ops ==> Legal(op)
    ensures MirrorRun(ops) == Run(EMPTY, ops).members.Keys
  {
    if ops != [] {
      MirrorTracksUnion(ops[..|ops| - 1]);
    }
  }
}

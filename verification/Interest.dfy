/**
 * The rules of the interest filter, as functions of the state they are applied to.
 *
 * Coordinates and radii are exact reals with the three non-finite values of a float beside them. A
 * sum that leaves the float range is an infinity; rounding inside it is not modelled. The spatial index,
 * the flat scan and the per-connection union are all proved against this file.
 */
module Interest {
  import opened Numbers
  import opened Options
  import opened Sequences

  type BodyId = nat
  type MembershipId = nat

  const MEMBERSHIP_GLOBAL: MembershipId := 0

  /** The largest finite 32-bit float. Its square is an infinity. */
  const F32_MAX: real := 340282346638528859811704183484516925440.0

  /** Whether a number is one a 32-bit float holds, and finite. */
  predicate IsFloat(n: Num) {
    n.Fin? && -F32_MAX <= n.v <= F32_MAX
  }

  datatype Vec3 = Vec3(x: Num, y: Num, z: Num) {
    predicate IsFinite() { IsFloat(x) && IsFloat(y) && IsFloat(z) }
  }

  /** A squared radius as a comparison sees it: a NaN admits nothing, an overflow everything. */
  datatype Bound = Never | AtMost(sq: real) | Unbounded {
    predicate Admits(distSq: real) {
      match this
      case Never => false
      case AtMost(sq) => distSq <= sq
      case Unbounded => true
    }
  }

  function Square(radius: real): Bound {
    if radius >= F32_MAX then Unbounded else AtMost(radius * radius)
  }

  datatype AoiConfig = AoiConfig(cellSize: Num, enterRadius: Num, exitFactor: Num, maxEntities: nat) {
    function EffectiveCellSize(): (size: real)
      ensures size > 0.0
      ensures cellSize == Fin(size) || (size == 32.0 && !(cellSize.Fin? && cellSize.v > 0.0))
    {
      if cellSize.Fin? && cellSize.v > 0.0 then cellSize.v else 32.0
    }

    function EffectiveEnterRadius(): (radius: Num)
      ensures !radius.NegInf? && (radius.Fin? ==> radius.v >= 0.0)
      ensures radius == enterRadius
           || (radius == Fin(0.0) && (enterRadius.NegInf? || (enterRadius.Fin? && enterRadius.v < 0.0)))
    {
      if enterRadius.NegInf? || (enterRadius.Fin? && enterRadius.v < 0.0) then Fin(0.0) else enterRadius
    }

    function EffectiveExitFactor(): (factor: real)
      ensures factor >= 1.0
      ensures exitFactor == Fin(factor) || (factor == 1.0 && !(exitFactor.Fin? && exitFactor.v >= 1.0))
    {
      if exitFactor.Fin? && exitFactor.v >= 1.0 then exitFactor.v else 1.0
    }

    /** The exit radius, clamped to the float range; a clamped NaN is the clamp itself. */
    function ExitRadius(): (radius: real)
      ensures 0.0 <= radius <= F32_MAX
    {
      match EffectiveEnterRadius()
      case Fin(v) => if v * EffectiveExitFactor() < F32_MAX then v * EffectiveExitFactor() else F32_MAX
      case _ => F32_MAX
    }

    function EnterBound(): Bound {
      match EffectiveEnterRadius()
      case Fin(v) => Square(v)
      case PosInf => Unbounded
      case _ => Never
    }

    function ExitBound(): Bound { Square(ExitRadius()) }
  }

  datatype Candidate = Candidate(id: BodyId, pos: Vec3, always: bool, membership: MembershipId) {
    /** Whether the grid can place this candidate in a cell. */
    predicate Binnable() { !always && pos.IsFinite() }
  }

  datatype SeatObserver = SeatObserver(center: Vec3, membership: MembershipId)

  predicate MembershipMatches(observer: MembershipId, candidate: MembershipId) {
    observer == MEMBERSHIP_GLOBAL || candidate == MEMBERSHIP_GLOBAL || observer == candidate
  }

  function DistSq(pos: Vec3, center: Vec3): (d: real)
    requires pos.IsFinite() && center.IsFinite()
    ensures d >= 0.0
  {
    var dx, dy, dz := pos.x.v - center.x.v, pos.y.v - center.y.v, pos.z.v - center.z.v;
    dx * dx + dy * dy + dz * dz
  }

  /** One seat's set: every member with the squared distance last recorded, and the standing vetoes. */
  datatype Seat = Seat(members: map<BodyId, real>, hidden: set<BodyId>)

  /** What an admitted candidate carries into the cap: nothing to measure, or its squared distance. */
  datatype Key = Uncullable | At(distSq: real)

  datatype Entry = Entry(id: BodyId, key: Key)

  function Classify(seat: Seat, c: Candidate, o: SeatObserver, cfg: AoiConfig): Option<Key> {
    if c.id in seat.hidden then None
    else if !MembershipMatches(o.membership, c.membership) then None
    else if c.always || !(o.center.IsFinite() && c.pos.IsFinite()) then Some(Uncullable)
    else
      var d := DistSq(c.pos, o.center);
      var keep := if c.id in seat.members then cfg.ExitBound().Admits(d) else cfg.EnterBound().Admits(d);
      if keep then Some(At(d)) else None
  }

  // ------------------------------------------------------------------ the specification of an update

  ghost predicate UniqueCandidates(cs: set<Candidate>) {
    forall a, b :: a in cs && b in cs && a.id == b.id ==> a == b
  }

  ghost predicate DistinctIds(cs: seq<Candidate>) {
    forall i, j :: 0 <= i < j < |cs| ==> cs[i].id != cs[j].id
  }

  ghost predicate UniqueIds(es: set<Entry>) {
    forall a, b :: a in es && b in es && a.id == b.id ==> a == b
  }

  ghost predicate DistinctEntryIds(es: seq<Entry>) {
    forall i, j :: 0 <= i < j < |es| ==> es[i].id != es[j].id
  }

  ghost function Admitted(seat: Seat, cs: set<Candidate>, o: SeatObserver, cfg: AoiConfig): set<Entry> {
    set c | c in cs && Classify(seat, c, o, cfg).Some? :: Entry(c.id, Classify(seat, c, o, cfg).value)
  }

  /** The cap's order on measured entries: nearer, then members before newcomers, then lower ids. */
  predicate Before(a: Entry, b: Entry, members: set<BodyId>)
    requires a.key.At? && b.key.At?
  {
    || a.key.distSq < b.key.distSq
    || (a.key.distSq == b.key.distSq &&
        (if (a.id in members) == (b.id in members) then a.id < b.id else a.id in members))
  }

  ghost function Ahead(es: set<Entry>, e: Entry, members: set<BodyId>): set<Entry>
    requires e.key.At?
  {
    set x | x in es && x.key.At? && Before(x, e, members)
  }

  /** The cap, stated without any order of iteration: fewer than `cap` entries stand ahead. */
  ghost predicate Survives(es: set<Entry>, e: Entry, cap: nat, members: set<BodyId>) {
    cap == 0 || e.key.Uncullable? || |Ahead(es, e, members)| < cap
  }

  ghost function Capped(es: set<Entry>, cap: nat, members: set<BodyId>): set<Entry> {
    set e | e in es && Survives(es, e, cap, members)
  }

  /** What is stored for an entry: an entity with no meaningful distance is stored at zero. */
  function Stored(key: Key): real {
    match key
    case Uncullable => 0.0
    case At(d) => d
  }

  ghost function Committed(es: set<Entry>): map<BodyId, real>
    requires UniqueIds(es)
  {
    map e | e in es :: e.id := Stored(e.key)
  }

  ghost function Kept(seat: Seat, cs: set<Candidate>, o: SeatObserver, cfg: AoiConfig): (r: set<Entry>)
    requires UniqueCandidates(cs)
    ensures UniqueIds(r)
  {
    Capped(Admitted(seat, cs, o, cfg), cfg.maxEntities, seat.members.Keys)
  }

  ghost function Updated(seat: Seat, cs: set<Candidate>, o: SeatObserver, cfg: AoiConfig): Seat
    requires UniqueCandidates(cs)
  {
    Seat(Committed(Kept(seat, cs, o, cfg)), seat.hidden)
  }

  /** The candidate list one connection is filtered on: its own rows stand in for the rows they name. */
  ghost function Substituted(cs: set<Candidate>, also: set<Candidate>): set<Candidate> {
    (set c | c in cs && forall a :: a in also ==> a.id != c.id) + also
  }

  lemma SubstitutedIsUnique(cs: set<Candidate>, also: set<Candidate>)
    requires UniqueCandidates(cs) && UniqueCandidates(also)
    ensures UniqueCandidates(Substituted(cs, also))
  {
  }

  lemma DistinctMeansUnique(cs: seq<Candidate>)
    requires DistinctIds(cs)
    ensures UniqueCandidates(Elements(cs))
  {
  }

  // ------------------------------------------------------------------ what one update guarantees

  /** A newcomer's radius never reaches past a member's: the band is never inverted. */
  lemma EnterWithinExit(cfg: AoiConfig, d: real)
    ensures cfg.EnterBound().Admits(d) ==> cfg.ExitBound().Admits(d)
  {
    var r := cfg.EffectiveEnterRadius();
    if r.Fin? && r.v < F32_MAX {
      var f := cfg.EffectiveExitFactor();
      MulAtLeast(r.v, f);
      var x := if r.v * f < F32_MAX then r.v * f else F32_MAX;
      assert cfg.ExitRadius() == x;
      SquareMonotone(r.v, x);
    }
  }

  lemma MulAtLeast(a: real, f: real)
    requires a >= 0.0 && f >= 1.0
    ensures a * f >= a
  {
    assert a * (f - 1.0) >= 0.0;
  }

  lemma SquareMonotone(a: real, b: real)
    requires 0.0 <= a <= b
    ensures a * a <= b * b
  {
    assert a * (b - a) >= 0.0;
    assert b * (b - a) >= 0.0;
  }

  /** With usable radii the bands are the radii squared, the exit radius being the enter radius times its factor. */
  lemma BandsAreTheRadii(cfg: AoiConfig, d: real)
    requires cfg.enterRadius.Fin? && cfg.exitFactor.Fin? && 0.0 <= cfg.enterRadius.v && 1.0 <= cfg.exitFactor.v
    requires cfg.enterRadius.v * cfg.exitFactor.v < F32_MAX
    ensures var enter, exit := cfg.enterRadius.v, cfg.enterRadius.v * cfg.exitFactor.v;
            && (cfg.EnterBound().Admits(d) <==> d <= enter * enter)
            && (cfg.ExitBound().Admits(d) <==> d <= exit * exit)
  {
    MulAtLeast(cfg.enterRadius.v, cfg.exitFactor.v);
  }

  /**
   * What decides a measured candidate when nothing is capped: a member stays within the exit radius and a newcomer
   * enters within the enter radius, each recorded at its squared distance.
   */
  lemma RadiiDecideTheMeasured(seat: Seat, cs: set<Candidate>, o: SeatObserver, cfg: AoiConfig, c: Candidate)
    requires UniqueCandidates(cs) && c in cs && cfg.maxEntities == 0
    requires c.id !in seat.hidden && (c.membership == o.membership || c.membership == 0 || o.membership == 0)
    requires !c.always && o.center.IsFinite() && c.pos.IsFinite()
    requires cfg.enterRadius.Fin? && cfg.exitFactor.Fin? && 0.0 <= cfg.enterRadius.v && 1.0 <= cfg.exitFactor.v
    requires cfg.enterRadius.v * cfg.exitFactor.v < F32_MAX
    ensures var d, now := DistSq(c.pos, o.center), Updated(seat, cs, o, cfg).members;
            var enter, exit := cfg.enterRadius.v, cfg.enterRadius.v * cfg.exitFactor.v;
            && (c.id in now <==> d <= if c.id in seat.members then exit * exit else enter * enter)
            && (c.id in now ==> now[c.id] == d)
  {
    BandsAreTheRadii(cfg, DistSq(c.pos, o.center));
    var key := Classify(seat, c, o, cfg);
    var es := Admitted(seat, cs, o, cfg);
    assert key.Some? ==> Entry(c.id, key.value) in Kept(seat, cs, o, cfg);
    forall e | e in es && e.id == c.id ensures key.Some? && e.key == key.value {
    }
  }

  /**
   * Radii that are not numbers: a NaN enter radius lets no measured newcomer in and no measured member out, an
   * infinite one lets everybody in, and a negative one only who stands at the center.
   */
  lemma UnusableRadii(seat: Seat, cs: set<Candidate>, o: SeatObserver, cfg: AoiConfig, c: Candidate)
    requires UniqueCandidates(cs) && c in cs && cfg.maxEntities == 0
    requires c.id !in seat.hidden && MembershipMatches(o.membership, c.membership)
    requires !c.always && o.center.IsFinite() && c.pos.IsFinite()
    ensures var now := Updated(seat, cs, o, cfg).members;
            && (cfg.enterRadius.NaN? ==> (c.id in now <==> c.id in seat.members))
            && (cfg.enterRadius.PosInf? ==> c.id in now)
            && (cfg.enterRadius.NegInf? || (cfg.enterRadius.Fin? && cfg.enterRadius.v < 0.0) ==>
                  (c.id in now <==> DistSq(c.pos, o.center) == 0.0))
  {
    var key := Classify(seat, c, o, cfg);
    assert key.Some? ==> Entry(c.id, key.value) in Kept(seat, cs, o, cfg);
    forall e | e in Admitted(seat, cs, o, cfg) && e.id == c.id ensures key.Some? {
    }
  }

  /** Capped or not, a measured candidate that is a member is recorded at its squared distance. */
  lemma MembersCarryTheirDistance(seat: Seat, cs: set<Candidate>, o: SeatObserver, cfg: AoiConfig, c: Candidate)
    requires UniqueCandidates(cs) && c in cs && !c.always && o.center.IsFinite() && c.pos.IsFinite()
    requires c.id in Updated(seat, cs, o, cfg).members
    ensures Updated(seat, cs, o, cfg).members[c.id] == DistSq(c.pos, o.center)
  {
    forall e | e in Admitted(seat, cs, o, cfg) && e.id == c.id ensures e.key == At(DistSq(c.pos, o.center)) {
    }
  }

  /** One connection's own row stands in for the row it names; every other row is as shared, and nothing else is. */
  lemma OwnRowsStandIn(cs: set<Candidate>, also: set<Candidate>, c: Candidate)
    ensures c in also ==> c in Substituted(cs, also)
    ensures c in cs && c !in also ==> (c in Substituted(cs, also) <==> forall a :: a in also ==> a.id != c.id)
    ensures c !in cs && c !in also ==> c !in Substituted(cs, also)
  {
  }

  /** Distances add up by Pythagoras, and along one axis are the difference. */
  lemma DistanceIsEuclidean(p: Vec3, q: Vec3)
    requires p.IsFinite() && q.IsFinite()
    ensures DistSq(p, q) == DistSq(q, p)
    ensures DistSq(p, q) == DistSq(p, q.(x := p.x)) + DistSq(p, p.(x := q.x))
    ensures DistSq(p, q.(x := p.x)) == DistSq(p, p.(y := q.y)) + DistSq(p, p.(z := q.z))
    ensures DistSq(p, p.(x := q.x)) == (p.x.v - q.x.v) * (p.x.v - q.x.v)
    ensures DistSq(p, p.(y := q.y)) == (p.y.v - q.y.v) * (p.y.v - q.y.v)
    ensures DistSq(p, p.(z := q.z)) == (p.z.v - q.z.v) * (p.z.v - q.z.v)
  {
  }

  /** A veto, another world or an unmeasured position decide alone, whatever the distance says. */
  lemma MembersObeyVetoAndWorld(seat: Seat, cs: set<Candidate>, o: SeatObserver, cfg: AoiConfig, c: Candidate)
    requires UniqueCandidates(cs) && c in cs
    ensures c.id in seat.hidden || !MembershipMatches(o.membership, c.membership) ==>
              c.id !in Updated(seat, cs, o, cfg).members
    ensures c.id !in seat.hidden && MembershipMatches(o.membership, c.membership)
            && (c.always || !o.center.IsFinite() || !c.pos.IsFinite()) ==>
              c.id in Updated(seat, cs, o, cfg).members && Updated(seat, cs, o, cfg).members[c.id] == 0.0
  {
    var es := Admitted(seat, cs, o, cfg);
    forall e | e in es && e.id == c.id
      ensures Classify(seat, c, o, cfg).Some? && e == Entry(c.id, Classify(seat, c, o, cfg).value)
    {
    }
    if Classify(seat, c, o, cfg) == Some(Uncullable) {
      assert Entry(c.id, Uncullable) in es;
      assert Entry(c.id, Uncullable) in Kept(seat, cs, o, cfg);
    }
  }

  // ------------------------------------------------------------------ settled ticks are silent

  /**
   * Repeating an update changes nothing at all: not the members, not one stored distance. The
   * survivors of the first pass are members in the second, so hysteresis keeps the ones that were
   * admitted inside the enter radius and ties break in their favour.
   */
  lemma SettledUpdateIsIdentity(seat: Seat, cs: set<Candidate>, o: SeatObserver, cfg: AoiConfig)
    requires UniqueCandidates(cs)
    ensures Updated(Updated(seat, cs, o, cfg), cs, o, cfg) == Updated(seat, cs, o, cfg)
  {
    var once := Updated(seat, cs, o, cfg);
    var first, second := Admitted(seat, cs, o, cfg), Admitted(once, cs, o, cfg);
    var kept := Kept(seat, cs, o, cfg);
    SurvivorsAreReadmitted(seat, cs, o, cfg);
    var cap := cfg.maxEntities;
    forall e | e in second
      ensures e in kept <==> Survives(second, e, cap, once.members.Keys)
    {
      SurvivalIsStable(first, second, kept, seat.members.Keys, once.members.Keys, cap, e);
    }
    assert Kept(once, cs, o, cfg) == kept;
  }

  lemma SurvivorsAreReadmitted(seat: Seat, cs: set<Candidate>, o: SeatObserver, cfg: AoiConfig)
    requires UniqueCandidates(cs)
    ensures var once := Updated(seat, cs, o, cfg);
            Kept(seat, cs, o, cfg) <= Admitted(once, cs, o, cfg) <= Admitted(seat, cs, o, cfg)
  {
    var once := Updated(seat, cs, o, cfg);
    var kept := Kept(seat, cs, o, cfg);
    forall c | c in cs && Classify(seat, c, o, cfg).Some? && Entry(c.id, Classify(seat, c, o, cfg).value) in kept
      ensures Classify(once, c, o, cfg) == Classify(seat, c, o, cfg)
    {
      assert c.id in once.members;
      if Classify(seat, c, o, cfg).value.At? {
        EnterWithinExit(cfg, DistSq(c.pos, o.center));
      }
    }
    forall c | c in cs && Classify(once, c, o, cfg).Some?
      ensures Classify(seat, c, o, cfg) == Classify(once, c, o, cfg)
    {
      if Classify(once, c, o, cfg).value.At? {
        EnterWithinExit(cfg, DistSq(c.pos, o.center));
        if c.id in once.members {
          var e :| e in kept && e.id == c.id;
        }
      }
    }
  }

  /** An entry ahead of a survivor is itself a survivor, so the second pass counts the same entries. */
  lemma SurvivalIsStable(first: set<Entry>, second: set<Entry>, kept: set<Entry>,
                         before: set<BodyId>, after: set<BodyId>, cap: nat, e: Entry)
    requires UniqueIds(first) && kept <= second <= first
    requires kept == Capped(first, cap, before)
    requires forall x :: x in second ==> (x in kept <==> x.id in after)
    requires e in second
    ensures e in kept <==> Survives(second, e, cap, after)
  {
    if cap > 0 && e.key.At? {
      var ahead1, ahead2 := Ahead(first, e, before), Ahead(second, e, after);
      if e in kept {
        var measured := Measured(kept);
        forall x | x in ahead2 ensures x in measured - {e} {
          if x in ahead1 {
            AheadSurvives(first, e, x, before, cap);
          }
        }
        SubsetSize(ahead2, measured - {e});
        CapBoundsMeasured(first, before, cap);
      } else {
        // The `cap` nearest survivors all stand ahead of an entry the first pass evicted.
        var nearest := FirstSurvivors(first, e, before, cap);
        forall x | x in nearest ensures x in ahead2 {
        }
        SubsetSize(nearest, ahead2);
      }
    }
  }

  /** Whatever stands ahead of a survivor in the cap's order survives with it. */
  lemma AheadSurvives(es: set<Entry>, e: Entry, x: Entry, members: set<BodyId>, cap: nat)
    requires e in es && e.key.At? && |Ahead(es, e, members)| < cap
    requires x in Ahead(es, e, members)
    ensures |Ahead(es, x, members)| < cap
  {
    SubsetSize(Ahead(es, x, members), Ahead(es, e, members));
  }

  ghost function Measured(es: set<Entry>): set<Entry> {
    set e | e in es && e.key.At?
  }

  /** The cap admits at most `cap` measured entries; what bypasses the distance test is not counted. */
  lemma CapBoundsMeasured(es: set<Entry>, members: set<BodyId>, cap: nat)
    requires UniqueIds(es) && cap > 0
    ensures |Measured(Capped(es, cap, members))| <= cap
  {
    var measured := Measured(Capped(es, cap, members));
    if measured != {} {
      var last := LastOf(measured, members);
      SubsetSize(measured - {last}, Ahead(es, last, members));
    }
  }

  /** A full cap is filled: as many measured entries survive as it allows. */
  lemma CapIsFilled(es: set<Entry>, members: set<BodyId>, cap: nat)
    requires UniqueIds(es)
    ensures |Measured(Capped(es, cap, members))| == if cap == 0 || |Measured(es)| <= cap then |Measured(es)| else cap
  {
    var kept := Measured(Capped(es, cap, members));
    if e :| e in Measured(es) && e !in kept {
      CapBoundsMeasured(es, members, cap);
      var nearest := FirstSurvivors(es, e, members, cap);
      SubsetSize(nearest, kept);
      SubsetSize(Ahead(es, e, members), Measured(es));
    } else {
      assert kept == Measured(es);
      if cap > 0 { CapBoundsMeasured(es, members, cap); }
    }
  }

  /**
   * What evicted an entry: a kept measured one no further away, at the same distance a member if the evicted one
   * was, and failing that of lower id. Nothing unmeasured is evicted.
   */
  ghost predicate KeepsTheNearest(kept: set<Entry>, es: set<Entry>, members: set<BodyId>) {
    && kept <= es
    && (forall x :: x in es && x !in kept ==> x.key.At?)
    && forall e, x :: e in kept && e.key.At? && x in es && x !in kept ==> NoFurther(e, x, members)
  }

  ghost predicate NoFurther(e: Entry, x: Entry, members: set<BodyId>)
    requires e.key.At?
  {
    && x.key.At? && e.key.distSq <= x.key.distSq
    && (e.key.distSq == x.key.distSq && x.id in members ==> e.id in members)
    && (e.key.distSq == x.key.distSq && (e.id in members <==> x.id in members) ==> e.id < x.id)
  }

  lemma CapKeepsTheNearest(es: set<Entry>, members: set<BodyId>, cap: nat)
    requires UniqueIds(es)
    ensures KeepsTheNearest(Capped(es, cap, members), es, members)
  {
    var kept := Capped(es, cap, members);
    forall e, x | e in kept && e.key.At? && x in es && x !in kept ensures NoFurther(e, x, members) {
      if !Before(e, x, members) {
        SubsetSize(Ahead(es, x, members), Ahead(es, e, members));
      }
    }
  }

  lemma SubsetSize<T>(a: set<T>, b: set<T>)
    requires a <= b
    ensures |a| <= |b|
  {
    assert b == a + (b - a);
    assert |b| == |a| + |b - a|;
  }

  /** When an entry is evicted, some `cap` survivors stand ahead of it. */
  lemma {:induction false} FirstSurvivors(es: set<Entry>, e: Entry, members: set<BodyId>, cap: nat)
    returns (nearest: set<Entry>)
    requires UniqueIds(es) && e.key.At? && cap > 0 && |Ahead(es, e, members)| >= cap
    ensures nearest <= Ahead(es, e, members) && |nearest| == cap
    ensures forall x :: x in nearest ==> |Ahead(es, x, members)| < cap
    decreases |Ahead(es, e, members)|
  {
    var ahead := Ahead(es, e, members);
    var last := LastOf(ahead, members);
    assert Ahead(es, last, members) == ahead - {last};
    assert |ahead - {last}| == |ahead| - 1;
    if |ahead| == cap {
      nearest := ahead;
      forall x | x in nearest ensures |Ahead(es, x, members)| < cap {
        SubsetSize(Ahead(es, x, members), ahead - {x});
      }
    } else {
      nearest := FirstSurvivors(es, last, members, cap);
    }
  }

  lemma {:induction false} LastOf(es: set<Entry>, members: set<BodyId>) returns (last: Entry)
    requires UniqueIds(es) && es != {} && forall x :: x in es ==> x.key.At?
    ensures last in es && forall x :: x in es && x != last ==> Before(x, last, members)
    decreases |es|
  {
    var pick :| pick in es;
    last := pick;
    var rest := es - {pick};
    if rest != {} {
      var other := LastOf(rest, members);
      if Before(pick, other, members) { last := other; }
      forall x | x in es && x != last ensures Before(x, last, members) {
        assert x == pick || x in rest;
      }
    } else {
      assert es == {pick};
    }
  }
}

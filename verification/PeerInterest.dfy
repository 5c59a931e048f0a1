/** One seat's hysteretic interest set, and the two ways of updating it. */
module PeerInterest {
  import opened Numbers
  import opened Options
  import opened Sequences
  import opened Interest
  import opened InterestGrid

  // ------------------------------------------------------------------ the nearest-N cap

  /** The order the cap sorts by: unmeasured first, then `Before`. */
  predicate CapOrder(a: Entry, b: Entry, members: set<BodyId>) {
    if a.key.Uncullable? != b.key.Uncullable? then a.key.Uncullable?
    else if a.key.At? && a.key.distSq != b.key.distSq then a.key.distSq < b.key.distSq
    else if (a.id in members) != (b.id in members) then a.id in members
    else a.id <= b.id
  }

  lemma CapOrderIsTotal(members: set<BodyId>)
    ensures TotalPreorder((a: Entry, b: Entry) => CapOrder(a, b, members))
  {
  }

  lemma DistinctIdsNoDup(es: seq<Entry>)
    requires DistinctEntryIds(es)
    ensures NoDup(es) && UniqueIds(Elements(es))
  {
  }

  lemma PermutationKeepsIds(s: seq<Entry>, t: seq<Entry>)
    requires multiset(s) == multiset(t) && DistinctEntryIds(s)
    ensures DistinctEntryIds(t)
  {
    DistinctIdsNoDup(s);
    PermutationNoDup(s, t);
    PermutationElements(s, t);
    forall i, j | 0 <= i < j < |t| ensures t[i].id != t[j].id {
      assert t[i] in Elements(t) && t[j] in Elements(t);
    }
  }

  lemma {:induction false} MeasuredSuffix(s: seq<Entry>, members: set<BodyId>) returns (p: nat)
    requires SortedBy(s, (a: Entry, b: Entry) => CapOrder(a, b, members))
    ensures p <= |s|
    ensures forall i :: 0 <= i < p ==> s[i].key.Uncullable?
    ensures forall i :: p <= i < |s| ==> s[i].key.At?
  {
    if s == [] {
      p := 0;
    } else {
      var front := s[..|s| - 1];
      assert SortedBy(front, (a: Entry, b: Entry) => CapOrder(a, b, members));
      p := MeasuredSuffix(front, members);
      if s[|s| - 1].key.Uncullable? {
        if p < |front| {
          assert CapOrder(s[p], s[|s| - 1], members);
        }
        p := |s|;
      }
    }
  }

  lemma MeasuredAreTheSuffix(s: seq<Entry>, p: nat)
    requires DistinctEntryIds(s) && p <= |s|
    requires forall i :: 0 <= i < p ==> s[i].key.Uncullable?
    requires forall i :: p <= i < |s| ==> s[i].key.At?
    ensures |Measured(Elements(s))| == |s| - p
  {
    assert Measured(Elements(s)) == Elements(s[p..]);
    NoDupLength(s[p..]);
  }

  /** Truncating the sorted list keeps exactly the entries with fewer than `cap` measured ones ahead. */
  lemma TruncationIsTheCap(s: seq<Entry>, members: set<BodyId>, p: nat, cap: nat)
    requires DistinctEntryIds(s) && SortedBy(s, (a: Entry, b: Entry) => CapOrder(a, b, members))
    requires cap > 0 && p + cap <= |s|
    requires forall i :: 0 <= i < p ==> s[i].key.Uncullable?
    requires forall i :: p <= i < |s| ==> s[i].key.At?
    ensures Elements(s[..p + cap]) == Capped(Elements(s), cap, members)
  {
    forall i, k | p <= i < k < |s|
      ensures Before(s[i], s[k], members) && !Before(s[k], s[i], members)
    {
      assert CapOrder(s[i], s[k], members) && s[i].id != s[k].id;
    }
    forall i | p <= i < |s| ensures |Ahead(Elements(s), s[i], members)| == i - p {
      var ahead := Ahead(Elements(s), s[i], members);
      forall x ensures x in ahead <==> x in s[p..i] {
        if x in ahead {
          var k :| 0 <= k < |s| && s[k] == x;
          assert p <= k < i;
        }
      }
      assert ahead == Elements(s[p..i]);
      NoDupLength(s[p..i]);
    }
    forall e ensures e in Elements(s[..p + cap]) <==> e in Capped(Elements(s), cap, members) {
      if e in s {
        var k :| 0 <= k < |s| && s[k] == e;
        assert e in s[..p + cap] <==> k < p + cap by {
          if e in s[..p + cap] {
            var j :| 0 <= j < p + cap && s[j] == e;
          }
        }
      }
    }
  }

  method ApplyCap(cfg: AoiConfig, members: map<BodyId, real>, cullable: nat, scratch: seq<Entry>)
    returns (r: seq<Entry>)
    requires DistinctEntryIds(scratch) && cullable == |Measured(Elements(scratch))|
    ensures DistinctEntryIds(r)
    ensures Elements(r) == Capped(Elements(scratch), cfg.maxEntities, members.Keys)
    ensures KeepsTheNearest(Elements(r), Elements(scratch), members.Keys)
    ensures |Measured(Elements(r))|
         == if cfg.maxEntities == 0 || cullable <= cfg.maxEntities then cullable else cfg.maxEntities
  {
    var cap := cfg.maxEntities;
    DistinctIdsNoDup(scratch);
    CapKeepsTheNearest(Elements(scratch), members.Keys, cap);
    CapIsFilled(Elements(scratch), members.Keys, cap);
    if cap == 0 || cullable <= cap {
      r := scratch;
      forall e | e in Elements(scratch) && e.key.At? && cap > 0
        ensures |Ahead(Elements(scratch), e, members.Keys)| < cap
      {
        SubsetSize(Ahead(Elements(scratch), e, members.Keys), Measured(Elements(scratch)) - {e});
      }
      return;
    }
    CapOrderIsTotal(members.Keys);
    var sorted := Sort(scratch, (a: Entry, b: Entry) => CapOrder(a, b, members.Keys));
    PermutationKeepsIds(scratch, sorted);
    PermutationElements(scratch, sorted);
    ghost var p := MeasuredSuffix(sorted, members.Keys);
    MeasuredAreTheSuffix(sorted, p);
    TruncationIsTheCap(sorted, members.Keys, p, cap);
    var uncullable := |sorted| - cullable;
    r := sorted[..uncullable + cap];
  }

  // ------------------------------------------------------------------ the leave diff

  ghost predicate AscendingIds(es: seq<Entry>) {
    forall i, j :: 0 <= i < j < |es| ==> es[i].id < es[j].id
  }

  ghost function IdsOf(es: seq<Entry>): set<BodyId> {
    set e | e in es :: e.id
  }

  /** One linear merge of two ascending walks: everything `held` names that `current` does not. */
  method PushLeaves(held: seq<BodyId>, current: seq<Entry>) returns (leaves: seq<BodyId>)
    requires StrictlyAscending(held) && AscendingIds(current)
    ensures leaves == Ascending(Elements(held) - IdsOf(current))
  {
    leaves := [];
    var j := 0;
    for i := 0 to |held|
      invariant 0 <= j <= |current|
      invariant i < |held| ==> forall k :: 0 <= k < j ==> current[k].id < held[i]
      invariant StrictlyAscending(leaves)
      invariant forall x :: x in leaves <==> x in held[..i] && x !in IdsOf(current)
    {
      while j < |current| && current[j].id < held[i]
        invariant 0 <= j <= |current|
        invariant forall k :: 0 <= k < j ==> current[k].id < held[i]
      {
        j := j + 1;
      }
      assert forall x :: x in held[..i + 1] <==> x in held[..i] || x == held[i];
      if j == |current| || current[j].id != held[i] {
        forall k | 0 <= k < |current| ensures current[k].id != held[i] {
          if k > j { assert current[j].id < current[k].id; }
        }
        forall k | 0 <= k < |leaves| ensures leaves[k] < held[i] {
          assert leaves[k] in leaves;
          var x :| 0 <= x < i && held[x] == leaves[k];
        }
        leaves := leaves + [held[i]];
      } else {
        assert current[j] in current;
      }
    }
    assert held[..|held|] == held;
    assert Elements(leaves) == Elements(held) - IdsOf(current);
    AscendingIs(leaves);
  }

  // ------------------------------------------------------------------ admission

  lemma NewIdIsNew(more: seq<Candidate>, i: nat, seen: set<Candidate>, d: Candidate)
    requires DistinctIds(more) && i < |more|
    requires UniqueCandidates(seen + Elements(more)) && seen !! Elements(more)
    requires d in seen + Elements(more[..i])
    ensures d.id != more[i].id
  {
  }

  lemma AdmitOne(seat: Seat, seen: set<Candidate>, c: Candidate, o: SeatObserver, cfg: AoiConfig)
    ensures var verdict := Classify(seat, c, o, cfg);
            Admitted(seat, seen + {c}, o, cfg) ==
              Admitted(seat, seen, o, cfg) + if verdict.Some? then {Entry(c.id, verdict.value)} else {}
  {
  }

  lemma AppendEntry(es: seq<Entry>, e: Entry)
    requires DistinctEntryIds(es) && forall x :: x in es ==> x.id != e.id
    ensures DistinctEntryIds(es + [e])
    ensures Elements(es + [e]) == Elements(es) + {e}
    ensures |Measured(Elements(es + [e]))| == |Measured(Elements(es))| + if e.key.At? then 1 else 0
  {
    assert e !in es;
    assert Elements(es + [e]) == Elements(es) + {e};
    if e.key.At? {
      assert Measured(Elements(es + [e])) == Measured(Elements(es)) + {e};
    } else {
      assert Measured(Elements(es + [e])) == Measured(Elements(es));
    }
  }

  /** Classify `more`, appending what is kept to the entries already admitted from `seen`. */
  method ClassifyInto(seat: Seat, cfg: AoiConfig, o: SeatObserver, more: seq<Candidate>,
                      admitted: seq<Entry>, measured: nat, ghost seen: set<Candidate>)
    returns (scratch: seq<Entry>, cullable: nat)
    requires DistinctIds(more) && UniqueCandidates(seen + Elements(more)) && seen !! Elements(more)
    requires DistinctEntryIds(admitted) && Elements(admitted) == Admitted(seat, seen, o, cfg)
    requires measured == |Measured(Elements(admitted))|
    ensures DistinctEntryIds(scratch)
    ensures Elements(scratch) == Admitted(seat, seen + Elements(more), o, cfg)
    ensures cullable == |Measured(Elements(scratch))|
  {
    scratch, cullable := admitted, measured;
    assert seen + Elements(more[..0]) == seen;
    for i := 0 to |more|
      invariant DistinctEntryIds(scratch)
      invariant Elements(scratch) == Admitted(seat, seen + Elements(more[..i]), o, cfg)
      invariant cullable == |Measured(Elements(scratch))|
    {
      var c := more[i];
      ghost var before := seen + Elements(more[..i]);
      assert seen + Elements(more[..i + 1]) == before + {c};
      AdmitOne(seat, before, c, o, cfg);
      var verdict := Classify(seat, c, o, cfg);
      if verdict.Some? {
        forall x | x in scratch ensures x.id != c.id {
          assert x in Elements(scratch);
          var d :| d in before && d.id == x.id;
          NewIdIsNew(more, i, seen, d);
        }
        AppendEntry(scratch, Entry(c.id, verdict.value));
        scratch := scratch + [Entry(c.id, verdict.value)];
        cullable := cullable + if verdict.value.At? then 1 else 0;
      }
    }
    assert more[..|more|] == more;
  }

  // ------------------------------------------------------------------ admission through the index

  ghost function NotOverridden(cs: set<Candidate>, also: set<Candidate>): set<Candidate> {
    set c | c in cs && forall a :: a in also ==> a.id != c.id
  }

  predicate Overridden(id: BodyId, also: seq<Candidate>) {
    exists i :: 0 <= i < |also| && also[i].id == id
  }

  method Retain(es: seq<Entry>, keep: Entry -> bool) returns (r: seq<Entry>)
    requires DistinctEntryIds(es)
    ensures DistinctEntryIds(r)
    ensures forall e :: e in r <==> e in es && keep(e)
  {
    r := [];
    for i := 0 to |es|
      invariant DistinctEntryIds(r)
      invariant forall e :: e in r <==> e in es[..i] && keep(e)
    {
      if keep(es[i]) {
        forall x | x in r ensures x.id != es[i].id {
          var k :| 0 <= k < i && es[k] == x;
        }
        r := r + [es[i]];
      }
    }
  }

  /** Append one unmeasured entry per id. */
  method PushUncullable(es: seq<Entry>, ids: seq<BodyId>, keep: BodyId -> bool) returns (r: seq<Entry>)
    requires DistinctEntryIds(es) && NoDup(ids)
    requires forall e, id :: e in es && id in ids ==> e.id != id
    ensures DistinctEntryIds(r)
    ensures forall e :: e in r <==> e in es || (e.key.Uncullable? && e.id in ids && keep(e.id))
    ensures Measured(Elements(r)) == Measured(Elements(es))
  {
    r := es;
    for i := 0 to |ids|
      invariant DistinctEntryIds(r)
      invariant forall e :: e in r <==> e in es || (e.key.Uncullable? && e.id in ids[..i] && keep(e.id))
    {
      if keep(ids[i]) {
        assert ids[i] in ids;
        forall x | x in r ensures x.id != ids[i] {
          if x !in es {
            var k :| 0 <= k < i && ids[k] == x.id;
          }
        }
        r := r + [Entry(ids[i], Uncullable)];
      }
    }
    assert ids[..|ids|] == ids;
  }

  /** What the index contributes: the admitted rows of the shared list that no override names. */
  method GatherShared(grid: InterestGrid, seat: Seat, cfg: AoiConfig, o: SeatObserver, also: seq<Candidate>,
                      ghost cs: seq<Candidate>)
    returns (scratch: seq<Entry>, cullable: nat)
    requires DistinctIds(cs) && DistinctIds(also) && grid.Indexes(cs, cfg.EffectiveCellSize())
    requires |cs| <= I32_MAX
    ensures DistinctEntryIds(scratch)
    ensures Elements(scratch) == Admitted(seat, NotOverridden(Elements(cs), Elements(also)), o, cfg)
    ensures cullable == |Measured(Elements(scratch))|
  {
    var size := cfg.EffectiveCellSize();
    ghost var shared := NotOverridden(Elements(cs), Elements(also));
    if o.center.IsFinite() {
      var enter := cfg.EnterBound();
      var hits := grid.QueryWithin(cfg, o.membership, o.center, Fin(cfg.ExitRadius()), cs);
      var near := Retain(hits, (e: Entry) =>
        e.key.At? && !Overridden(e.id, also) && e.id !in seat.hidden
        && (e.id in seat.members || enter.Admits(e.key.distSq)));
      cullable := |near|;
      var ids := grid.UncullableFor(o.membership, cs, size);
      RetainedAreTheMeasured(hits, near, seat, cfg, o, also, cs);
      forall e, id | e in near && id in ids ensures e.id != id {
        DistinctMeansUnique(cs);
        var c :| c in cs && c.Binnable() && c.id == e.id;
        var d :| d in cs && !d.Binnable() && d.id == id;
        assert c in Elements(cs) && d in Elements(cs);
      }
      scratch := PushUncullable(near, ids, (id: BodyId) => !Overridden(id, also) && id !in seat.hidden);
      assert Measured(Elements(near)) == Elements(near);
      DistinctIdsNoDup(near);
      NoDupLength(near);
      SharedAdmissions(scratch, near, seat, cfg, o, also, cs);
    } else {
      var ids := grid.VisibleTo(o.membership, cs, size);
      scratch := PushUncullable([], ids, (id: BodyId) => !Overridden(id, also) && id !in seat.hidden);
      cullable := 0;
      assert Measured(Elements(scratch)) == {};
      UnlocatedAdmissions(scratch, seat, cfg, o, also, cs);
    }
  }

  lemma OverriddenMeans(c: Candidate, cs: seq<Candidate>, also: seq<Candidate>)
    requires c in cs
    ensures Overridden(c.id, also) <==> c !in NotOverridden(Elements(cs), Elements(also))
  {
  }

  /** One query at the exit radius serves both bands: what it returns, retained, is what is admitted on distance. */
  lemma RetainedAreTheMeasured(hits: seq<Entry>, near: seq<Entry>, seat: Seat, cfg: AoiConfig, o: SeatObserver,
                               also: seq<Candidate>, cs: seq<Candidate>)
    requires o.center.IsFinite() && DistinctIds(cs)
    requires Elements(hits) == Hits(cs, o, cfg.ExitBound())
    requires forall e :: e in near <==>
               e in hits && e.key.At? && !Overridden(e.id, also) && e.id !in seat.hidden
               && (e.id in seat.members || cfg.EnterBound().Admits(e.key.distSq))
    ensures forall e :: e in near <==>
              exists c :: c in cs && c.Binnable() && c in NotOverridden(Elements(cs), Elements(also))
                          && Classify(seat, c, o, cfg) == Some(e.key) && e.id == c.id
  {
  }

  lemma SharedAdmissions(scratch: seq<Entry>, near: seq<Entry>, seat: Seat, cfg: AoiConfig, o: SeatObserver,
                         also: seq<Candidate>, cs: seq<Candidate>)
    requires o.center.IsFinite() && DistinctIds(cs)
    requires forall e :: e in near <==>
               exists c :: c in cs && c.Binnable() && c in NotOverridden(Elements(cs), Elements(also))
                           && Classify(seat, c, o, cfg) == Some(e.key) && e.id == c.id
    requires forall e :: e in scratch <==>
               e in near || (e.key.Uncullable? && !Overridden(e.id, also) && e.id !in seat.hidden
                 && exists c :: c in cs && c.id == e.id && !c.Binnable()
                      && MembershipMatches(o.membership, c.membership))
    ensures Elements(scratch) == Admitted(seat, NotOverridden(Elements(cs), Elements(also)), o, cfg)
  {
  }

  lemma UnlocatedAdmissions(scratch: seq<Entry>, seat: Seat, cfg: AoiConfig, o: SeatObserver,
                            also: seq<Candidate>, cs: seq<Candidate>)
    requires !o.center.IsFinite() && DistinctIds(cs)
    requires forall e :: e in scratch <==>
               (e.key.Uncullable? && !Overridden(e.id, also) && e.id !in seat.hidden
                 && exists c :: c in cs && MembershipMatches(o.membership, c.membership) && c.id == e.id)
    ensures Elements(scratch) == Admitted(seat, NotOverridden(Elements(cs), Elements(also)), o, cfg)
  {
  }

  /** The table the sorted entries overwrite the old set with. */
  method Overwrite(current: seq<Entry>) returns (table: map<BodyId, real>)
    requires DistinctEntryIds(current)
    ensures table.Keys == IdsOf(current)
    ensures forall e :: e in current ==> table[e.id] == Stored(e.key)
  {
    table := map[];
    for i := 0 to |current|
      invariant table.Keys == IdsOf(current[..i])
      invariant forall e :: e in current[..i] ==> table[e.id] == Stored(e.key)
    {
      assert current[..i + 1] == current[..i] + [current[i]];
      forall e | e in current[..i] ensures e.id != current[i].id {
        var k :| 0 <= k < i && current[k] == e;
      }
      table := table[current[i].id := Stored(current[i].key)];
    }
    assert current[..|current|] == current;
  }

  // ------------------------------------------------------------------ the seat

  class PeerInterest {
    var members: map<BodyId, real>
    var hidden: set<BodyId>

    constructor ()
      ensures members == map[] && hidden == {}
    {
      members, hidden := map[], {};
    }

    ghost function View(): Seat
      reads this
    {
      Seat(members, hidden)
    }

    /** Diff before overwrite: report what left, then hold exactly what `scratch` names. */
    method Commit(scratch: seq<Entry>) returns (leaves: seq<BodyId>)
      requires DistinctEntryIds(scratch)
      modifies this
      ensures hidden == old(hidden)
      ensures UniqueIds(Elements(scratch)) && members == Committed(Elements(scratch))
      ensures leaves == Ascending(old(members).Keys - members.Keys)
    {
      DistinctIdsNoDup(scratch);
      var current := Sort(scratch, (a: Entry, b: Entry) => a.id <= b.id);
      PermutationKeepsIds(scratch, current);
      PermutationElements(scratch, current);
      forall i, j | 0 <= i < j < |current| ensures current[i].id < current[j].id {
        assert current[i].id <= current[j].id && current[i].id != current[j].id;
      }
      var held := SortedKeys(members.Keys);
      leaves := PushLeaves(held, current);
      members := Overwrite(current);
      assert forall e :: e in current <==> e in Elements(scratch);
      assert members == Committed(Elements(scratch));
    }

    /** Recompute the set from a flat candidate slice. */
    method UpdateLinear(cfg: AoiConfig, o: SeatObserver, candidates: seq<Candidate>) returns (leaves: seq<BodyId>)
      requires DistinctIds(candidates)
      modifies this
      ensures UniqueCandidates(Elements(candidates))
      ensures View() == Updated(old(View()), Elements(candidates), o, cfg)
      ensures leaves == Ascending(old(members).Keys - members.Keys)
    {
      DistinctMeansUnique(candidates);
      assert {} + Elements(candidates) == Elements(candidates);
      var scratch, cullable := ClassifyInto(Seat(members, hidden), cfg, o, candidates, [], 0, {});
      scratch := ApplyCap(cfg, members, cullable, scratch);
      leaves := Commit(scratch);
    }

    /**
     * Recompute the set through the index. The result is the flat scan's over the list with this
     * connection's own rows substituted, whatever the set held before and wherever it looks from.
     */
    method UpdateGrid(grid: InterestGrid, cfg: AoiConfig, o: SeatObserver, also: seq<Candidate>,
                      ghost cs: seq<Candidate>)
      returns (leaves: seq<BodyId>)
      requires DistinctIds(cs) && DistinctIds(also) && grid.Indexes(cs, cfg.EffectiveCellSize())
      requires |cs| <= I32_MAX
      modifies this
      ensures UniqueCandidates(Substituted(Elements(cs), Elements(also)))
      ensures View() == Updated(old(View()), Substituted(Elements(cs), Elements(also)), o, cfg)
      ensures leaves == Ascending(old(members).Keys - members.Keys)
    {
      DistinctMeansUnique(cs);
      DistinctMeansUnique(also);
      SubstitutedIsUnique(Elements(cs), Elements(also));
      ghost var shared := NotOverridden(Elements(cs), Elements(also));
      assert shared + Elements(also) == Substituted(Elements(cs), Elements(also));
      var seat := Seat(members, hidden);
      var scratch, cullable := GatherShared(grid, seat, cfg, o, also, cs);
      scratch, cullable := ClassifyInto(seat, cfg, o, also, scratch, cullable, shared);
      scratch := ApplyCap(cfg, members, cullable, scratch);
      leaves := Commit(scratch);
    }

    /** Drop `id` at once, for a despawn. */
    method Remove(id: BodyId)
      modifies this
      ensures members == old(members) - {id} && hidden == old(hidden)
    {
      members := members - {id};
    }

    /** Start or retract a veto; starting one drops the entity on the spot. */
    method SetHidden(id: BodyId, veto: bool)
      modifies this
      ensures hidden == if veto then old(hidden) + {id} else old(hidden) - {id}
      ensures members == if veto then old(members) - {id} else old(members)
    {
      if veto {
        hidden := hidden + {id};
        members := members - {id};
      } else {
        hidden := hidden - {id};
      }
    }
  }
}

/**
 * The send order: staleness times weight, and what a greedy rota over it can and cannot do to one
 * entity's wait.
 */
module Priority {
  import opened Numbers
  import opened Sequences
  import Interest

  type BodyId = Interest.BodyId

  const U64_MAX: nat := 0xffff_ffff_ffff_ffff
  const WEIGHT_ONE: nat := 256
  const WEIGHT_OWNED: nat := 16 * WEIGHT_ONE
  const PRIORITY_MAX: nat := 16
  const NEVER_SENT_STALENESS: nat := 0x100_0000_0000

  /** The lightest and the heaviest weight any entity can carry, and their ratio. */
  const WEIGHT_FLOOR: nat := WEIGHT_ONE
  const WEIGHT_CEILING: nat := 4 * WEIGHT_ONE * PRIORITY_MAX
  const WEIGHT_RATIO: nat := 64

  datatype Band = Near | Mid | Far {
    function Weight(): nat {
      match this
      case Near => 4 * WEIGHT_ONE
      case Mid => 2 * WEIGHT_ONE
      case Far => WEIGHT_ONE
    }
  }

  function BandOf(distSq: Num, scale: Num): Band {
    if !scale.Fin? || scale.v <= 0.0 || !distSq.Fin? || distSq.v <= 0.0 then Near
    else
      var nearEdge, midEdge := scale.v / 3.0, scale.v * (2.0 / 3.0);
      if distSq.v <= nearEdge * nearEdge then Near
      else if distSq.v <= midEdge * midEdge then Mid
      else Far
  }

  /** Every weight lies between the floor and the ceiling, and an owned body's at the owned floor or above. */
  function WeightFor(band: Band, declared: nat, owned: bool): (w: nat)
    ensures WEIGHT_FLOOR <= w <= WEIGHT_CEILING
    ensures owned ==> w >= WEIGHT_OWNED
    ensures w >= band.Weight()
  {
    var clamped := if declared < 1 then 1 else if declared > PRIORITY_MAX then PRIORITY_MAX else declared;
    var weight := band.Weight() * clamped;
    if owned && weight < WEIGHT_OWNED then WEIGHT_OWNED else weight
  }

  /** The edges: near within a third of the scale, mid within two thirds, a distance or scale not measured near. */
  lemma BandEdges(distSq: real, scale: real)
    requires scale > 0.0 && distSq > 0.0
    ensures BandOf(Fin(distSq), Fin(scale)).Near? <==> 9.0 * distSq <= scale * scale
    ensures BandOf(Fin(distSq), Fin(scale)).Far? <==> 9.0 * distSq > 4.0 * (scale * scale)
    ensures forall n: Num :: !n.Fin? ==> BandOf(n, Fin(scale)) == BandOf(Fin(distSq), n) == Near
  {
    var third := scale / 3.0;
    assert scale * (2.0 / 3.0) == 2.0 * third;
    assert 9.0 * (third * third) == scale * scale;
    assert (2.0 * third) * (2.0 * third) == 4.0 * (third * third);
  }

  /** Nearer never weighs less, and neither does a higher declared priority, nor owning the body. */
  lemma WeightsFollowNearness(near: Num, far: Num, scale: Num, declared: nat, more: nat, owned: bool)
    requires near.Fin? && far.Fin? && near.v <= far.v && declared <= more
    ensures WeightFor(BandOf(near, scale), more, owned) >= WeightFor(BandOf(far, scale), declared, owned)
    ensures WeightFor(BandOf(near, scale), more, true) >= WeightFor(BandOf(far, scale), declared, owned)
  {
    BandsFollowNearness(near, far, scale);
    WeightsFollowBands(BandOf(near, scale), BandOf(far, scale), declared, more, owned);
  }

  lemma BandsFollowNearness(near: Num, far: Num, scale: Num)
    requires near.Fin? && far.Fin? && near.v <= far.v
    ensures BandOf(near, scale).Weight() >= BandOf(far, scale).Weight()
  {
  }

  lemma WeightsFollowBands(heavy: Band, light: Band, declared: nat, more: nat, owned: bool)
    requires heavy.Weight() >= light.Weight() && declared <= more
    ensures WeightFor(heavy, more, owned) >= WeightFor(light, declared, owned)
    ensures WeightFor(heavy, more, true) >= WeightFor(light, declared, owned)
  {
  }

  /** The ownership floor is a floor: a near body ties or beats it exactly when it declares four or more. */
  lemma NearBodyMatchesOwnershipFromFour(declared: nat)
    ensures WeightFor(Near, declared, false) >= WEIGHT_OWNED <==> declared >= 4
    ensures WeightFor(Mid, declared, false) >= WEIGHT_OWNED <==> declared >= 8
    ensures WeightFor(Far, declared, false) >= WEIGHT_OWNED <==> declared >= 16
  {
  }

  function Score(staleness: nat, weight: nat): nat {
    if staleness * weight > U64_MAX then U64_MAX else staleness * weight
  }

  datatype Candidate = Candidate(id: BodyId, staleness: nat, weight: nat) {
    function Rank(): nat { Score(staleness, weight) }
  }

  /** The send order: descending score, ties by ascending id. */
  predicate Precedes(a: Candidate, b: Candidate) {
    a.Rank() > b.Rank() || (a.Rank() == b.Rank() && a.id <= b.id)
  }

  /** Of two equally stale candidates the heavier goes first, unless the lighter one's score saturates. */
  lemma HeavierGoesFirst(a: Candidate, b: Candidate)
    requires a.staleness == b.staleness > 0 && a.weight > b.weight && b.staleness * b.weight < U64_MAX
    ensures Precedes(a, b) && !Precedes(b, a)
  {
    Scaled(a.staleness, b.weight, a.weight);
  }

  /** Of two of one weight the staler goes first, unless the fresher one's score saturates. */
  lemma StalerGoesFirst(a: Candidate, b: Candidate)
    requires a.weight == b.weight > 0 && a.staleness > b.staleness && b.staleness * b.weight < U64_MAX
    ensures Precedes(a, b) && !Precedes(b, a)
  {
    Scaled(a.weight, b.staleness, a.staleness);
  }

  /** Waiting `k` times as long makes up for a weight `k` times less: only the ids decide. */
  lemma WaitingMakesUpForWeight(a: Candidate, b: Candidate, k: nat)
    requires a.staleness == k * b.staleness && b.weight == k * a.weight
    ensures Precedes(a, b) <==> a.id <= b.id
  {
    assert k * b.staleness * a.weight == b.staleness * (k * a.weight);
  }

  lemma Scaled(k: nat, low: nat, high: nat)
    requires k > 0 && low < high
    ensures k * low < k * high && low * k == k * low && high * k == k * high
  {
    assert k * (high - low) > 0;
  }

  /** A never-sent entity of any weight goes ahead of one of that staleness, whatever the weights and ids. */
  ghost predicate NeverSentGoesFirst(staleness: nat) {
    forall a: Candidate, b: Candidate :: NeverSentMeets(a, b, staleness) ==> Precedes(a, b)
  }

  predicate NeverSentMeets(a: Candidate, b: Candidate, staleness: nat) {
    && a.staleness == NEVER_SENT_STALENESS && b.staleness == staleness
    && WEIGHT_FLOOR <= a.weight <= WEIGHT_CEILING && WEIGHT_FLOOR <= b.weight <= WEIGHT_CEILING
  }

  /** That is so exactly under 2^34 ticks: past it the heaviest outscores a never-sent lightest. */
  lemma NeverSentGoesFirstIff(staleness: nat)
    ensures NeverSentGoesFirst(staleness) <==> staleness < 0x4_0000_0000
  {
    if staleness < 0x4_0000_0000 {
      forall a: Candidate, b: Candidate | NeverSentMeets(a, b, staleness) ensures Precedes(a, b) {
        NeverSentOutscores(a, b);
      }
    } else {
      HeaviestOutscores(staleness);
    }
  }

  lemma NeverSentOutscores(a: Candidate, b: Candidate)
    requires NeverSentMeets(a, b, b.staleness) && b.staleness < 0x4_0000_0000
    ensures Precedes(a, b)
  {
    Products(b.staleness, b.weight, 0x3_ffff_ffff, WEIGHT_CEILING);
    Products(NEVER_SENT_STALENESS, WEIGHT_FLOOR, NEVER_SENT_STALENESS, a.weight);
  }

  lemma HeaviestOutscores(staleness: nat)
    requires staleness >= 0x4_0000_0000
    ensures var a, b := Candidate(1, NEVER_SENT_STALENESS, WEIGHT_FLOOR), Candidate(0, staleness, WEIGHT_CEILING);
            NeverSentMeets(a, b, staleness) && !Precedes(a, b)
  {
    Products(0x4_0000_0000, WEIGHT_CEILING, staleness, WEIGHT_CEILING);
  }

  lemma Products(a: nat, b: nat, c: nat, d: nat)
    requires a <= c && b <= d
    ensures a * b <= c * d
  {
    assert (c - a) * b >= 0 && c * (d - b) >= 0;
  }

  lemma PrecedesIsTotal()
    ensures TotalPreorder(Precedes)
  {
  }

  /** Sort the slice in place. */
  method Order(candidates: array<Candidate>)
    modifies candidates
    ensures SortedBy(candidates[..], Precedes)
    ensures multiset(candidates[..]) == multiset(old(candidates[..]))
  {
    PrecedesIsTotal();
    var sorted := Sort(candidates[..], Precedes);
    PermutationElements(candidates[..], sorted);
    forall i | 0 <= i < candidates.Length {
      candidates[i] := sorted[i];
    }
    assert candidates[..] == sorted;
  }

  // ------------------------------------------------------------------ one tick of the rota

  /** Who is offered this tick, and at what weight. */
  type Offer = map<BodyId, nat>

  ghost predicate ValidOffer(offer: Offer) {
    forall id :: id in offer ==> WEIGHT_FLOOR <= offer[id] <= WEIGHT_CEILING
  }

  function Staleness(last: map<BodyId, nat>, id: BodyId, tick: nat): nat {
    if id !in last then NEVER_SENT_STALENESS
    else if tick < last[id] then 0 else tick - last[id]
  }

  /** Ticks since the last send, none while that lies ahead; never sent is staler than any session gets. */
  lemma StalenessCounts(last: map<BodyId, nat>, id: BodyId, tick: nat)
    ensures id in last && last[id] <= tick ==> last[id] + Staleness(last, id, tick) == tick
    ensures id in last && last[id] > tick ==> Staleness(last, id, tick) == 0
    ensures id !in last ==> Staleness(last, id, tick) == 0x100_0000_0000
  {
  }

  function Offered(offer: Offer, last: map<BodyId, nat>, id: BodyId, tick: nat): Candidate
    requires id in offer
  {
    Candidate(id, Staleness(last, id, tick), offer[id])
  }

  /** `admitted` is the greedy choice: as many as the budget allows, nobody left out precedes anybody in. */
  ghost predicate GreedyChoice(offer: Offer, last: map<BodyId, nat>, tick: nat, budget: nat, admitted: set<BodyId>) {
    && admitted <= offer.Keys
    && |admitted| == (if budget < |offer| then budget else |offer|)
    && forall a, b :: a in admitted && b in offer && b !in admitted ==>
         Precedes(Offered(offer, last, a, tick), Offered(offer, last, b, tick))
  }

  /** One tick as it happened: who was offered at what weight, how many could go, and who went. */
  datatype Sending = Sending(offer: Offer, budget: nat, admitted: set<BodyId>)

  ghost predicate Greedy(s: Sending, last: map<BodyId, nat>, tick: nat) {
    ValidOffer(s.offer) && GreedyChoice(s.offer, last, tick, s.budget, s.admitted)
  }

  /** Nobody left out is heavier than somebody equally stale who went, or staler than somebody as heavy. */
  ghost predicate NoneHeavierLeftOut(s: Sending, last: map<BodyId, nat>, tick: nat) {
    forall a, b {:trigger Outdone(s.offer, last, tick, a, b)} ::
      a in s.admitted && a in s.offer && b in s.offer && b !in s.admitted ==> Outdone(s.offer, last, tick, a, b)
  }

  /** Unless its own score saturates, `a` is no lighter than an equally stale `b` and no fresher than one as heavy. */
  ghost predicate Outdone(offer: Offer, last: map<BodyId, nat>, tick: nat, a: BodyId, b: BodyId)
    requires a in offer && b in offer
  {
    var here, there := Staleness(last, a, tick), Staleness(last, b, tick);
    here * offer[a] < U64_MAX ==>
      && (here == there > 0 ==> offer[b] <= offer[a])
      && (offer[a] == offer[b] > 0 ==> there <= here)
  }

  lemma PrecedenceOutdoes(offer: Offer, last: map<BodyId, nat>, tick: nat, a: BodyId, b: BodyId)
    requires a in offer && b in offer && Precedes(Offered(offer, last, a, tick), Offered(offer, last, b, tick))
    ensures Outdone(offer, last, tick, a, b)
  {
    var x, y := Offered(offer, last, a, tick), Offered(offer, last, b, tick);
    if x.staleness * x.weight < U64_MAX {
      if x.staleness == y.staleness > 0 && y.weight > x.weight { HeavierGoesFirst(y, x); }
      if x.weight == y.weight > 0 && y.staleness > x.staleness { StalerGoesFirst(y, x); }
    }
  }

  lemma NobodyHeavierWaits(s: Sending, last: map<BodyId, nat>, tick: nat)
    requires Greedy(s, last, tick)
    ensures NoneHeavierLeftOut(s, last, tick)
  {
    forall a, b | a in s.admitted && a in s.offer && b in s.offer && b !in s.admitted
      ensures Outdone(s.offer, last, tick, a, b)
    {
      PrecedenceOutdoes(s.offer, last, tick, a, b);
    }
  }

  function Sent(last: map<BodyId, nat>, admitted: set<BodyId>, tick: nat): map<BodyId, nat> {
    last + map id | id in admitted :: tick
  }

  /** One candidate per offered id, in whatever order the table yields them. */
  method Gather(offer: Offer, last: map<BodyId, nat>, tick: nat)
    returns (order: array<Candidate>, ghost ids: seq<BodyId>)
    ensures fresh(order) && NoDup(ids) && Elements(ids) == offer.Keys
    ensures order[..] == CandidatesFor(ids, offer, last, tick)
  {
    var listed := ListOf(offer.Keys);
    ids := listed;
    assert forall k :: 0 <= k < |listed| ==> listed[k] in Elements(listed);
    var filler := Candidate(0, 0, 0);
    order := new Candidate[|listed|](_ => filler);
    for k := 0 to |listed|
      invariant forall j :: 0 <= j < k ==> order[j] == Offered(offer, last, listed[j], tick)
    {
      order[k] := Offered(offer, last, listed[k], tick);
    }
  }

  class Rota {
    var lastSent: map<BodyId, nat>

    constructor ()
      ensures lastSent == map[]
    {
      lastSent := map[];
    }

    /** Order this tick's candidates, admit the head of the list, remember when each was sent. */
    method Tick(offer: Offer, tick: nat, budget: nat) returns (s: Sending)
      requires ValidOffer(offer)
      modifies this
      ensures s.offer == offer && s.budget == budget && Greedy(s, old(lastSent), tick)
      ensures lastSent == Sent(old(lastSent), s.admitted, tick)
      ensures NoneHeavierLeftOut(s, old(lastSent), tick)
    {
      var order, ids := Gather(offer, lastSent, tick);
      Order(order);
      var take := if budget < order.Length then budget else order.Length;
      HeadIsGreedy(ids, offer, lastSent, tick, order[..], take);
      var admitted, stamped := Admit(order[..take], lastSent, tick);
      NobodyHeavierWaits(Sending(offer, budget, admitted), lastSent, tick);
      lastSent := stamped;
      s := Sending(offer, budget, admitted);
    }
  }

  /** Walk the head of the sorted list, stamping each entity it names. */
  method Admit(head: seq<Candidate>, last: map<BodyId, nat>, tick: nat)
    returns (admitted: set<BodyId>, stamped: map<BodyId, nat>)
    ensures admitted == IdsIn(head)
    ensures stamped == Sent(last, admitted, tick)
  {
    admitted, stamped := {}, last;
    for i := 0 to |head|
      invariant admitted == IdsIn(head[..i])
      invariant stamped == Sent(last, admitted, tick)
    {
      assert head[..i + 1] == head[..i] + [head[i]];
      assert IdsIn(head[..i + 1]) == IdsIn(head[..i]) + {head[i].id};
      SentOneMore(last, admitted, head[i].id, tick);
      admitted := admitted + {head[i].id};
      stamped := stamped[head[i].id := tick];
    }
    assert head[..|head|] == head;
  }

  lemma SentOneMore(last: map<BodyId, nat>, admitted: set<BodyId>, id: BodyId, tick: nat)
    ensures Sent(last, admitted, tick)[id := tick] == Sent(last, admitted + {id}, tick)
  {
  }

  ghost function CandidatesFor(ids: seq<BodyId>, offer: Offer, last: map<BodyId, nat>, tick: nat): seq<Candidate>
    requires forall id :: id in ids ==> id in offer
  {
    seq(|ids|, k requires 0 <= k < |ids| => Offered(offer, last, ids[k], tick))
  }

  ghost function IdsIn(cs: seq<Candidate>): set<BodyId> {
    set c | c in cs :: c.id
  }

  /** The head of the sorted list is the greedy choice, whichever way ids came out of the table. */
  lemma HeadIsGreedy(ids: seq<BodyId>, offer: Offer, last: map<BodyId, nat>, tick: nat, order: seq<Candidate>,
                     take: nat)
    requires NoDup(ids) && Elements(ids) == offer.Keys
    requires multiset(order) == multiset(CandidatesFor(ids, offer, last, tick)) && SortedBy(order, Precedes)
    requires take <= |order|
    ensures |order| == |offer|
    ensures var head := IdsIn(order[..take]);
            && head <= offer.Keys && |head| == take
            && forall a, b :: a in head && b in offer && b !in head ==>
                 Precedes(Offered(offer, last, a, tick), Offered(offer, last, b, tick))
  {
    OrderListsTheOffer(ids, offer, last, tick, order);
    var head := IdsIn(order[..take]);
    DistinctHead(order, take);
    assert forall k :: 0 <= k < take ==> order[..take][k] == order[k];
    forall a, b | a in head && b in offer && b !in head
      ensures Precedes(Offered(offer, last, a, tick), Offered(offer, last, b, tick))
    {
      var i :| 0 <= i < take && order[i].id == a;
      var j :| 0 <= j < |order| && order[j] == Offered(offer, last, b, tick);
      assert order[i] in order && order[j] in order;
    }
  }

  /** The sorted list names every entity offered, once. */
  lemma OrderListsTheOffer(ids: seq<BodyId>, offer: Offer, last: map<BodyId, nat>, tick: nat, order: seq<Candidate>)
    requires NoDup(ids) && Elements(ids) == offer.Keys
    requires multiset(order) == multiset(CandidatesFor(ids, offer, last, tick))
    ensures |order| == |offer|
    ensures forall c :: c in order ==> c.id in offer && c == Offered(offer, last, c.id, tick)
    ensures forall i, j :: 0 <= i < j < |order| ==> order[i].id != order[j].id
    ensures forall b :: b in offer ==> exists j :: 0 <= j < |order| && order[j] == Offered(offer, last, b, tick)
  {
    var cs := CandidatesFor(ids, offer, last, tick);
    NoDupLength(ids);
    PermutationElements(order, cs);
    forall i, j | 0 <= i < j < |cs| ensures cs[i] != cs[j] {
      assert cs[i].id == ids[i] && cs[j].id == ids[j];
    }
    PermutationNoDup(cs, order);
    forall c | c in order ensures c.id in offer && c == Offered(offer, last, c.id, tick) {
      assert c in Elements(order);
      var k :| 0 <= k < |cs| && cs[k] == c;
      assert ids[k] in Elements(ids);
    }
    forall i, j | 0 <= i < j < |order| ensures order[i].id != order[j].id {
      assert order[i] in order && order[j] in order;
    }
    forall b | b in offer ensures exists j :: 0 <= j < |order| && order[j] == Offered(offer, last, b, tick) {
      assert b in Elements(ids);
      var m :| 0 <= m < |ids| && ids[m] == b;
      assert cs[m] in Elements(cs);
    }
  }

  lemma {:induction false} DistinctHead(order: seq<Candidate>, take: nat)
    requires take <= |order| && forall i, j :: 0 <= i < j < |order| ==> order[i].id != order[j].id
    ensures |IdsIn(order[..take])| == take
  {
    if take > 0 {
      DistinctHead(order, take - 1);
      assert order[..take] == order[..take - 1] + [order[take - 1]];
      assert IdsIn(order[..take]) == IdsIn(order[..take - 1]) + {order[take - 1].id};
      assert order[take - 1].id !in IdsIn(order[..take - 1]);
    }
  }
}

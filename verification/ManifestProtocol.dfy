/**
 * Publishing the manifest: one server, any number of peers, a reliable ordered channel to each whose frames
 * may still fail to decode, and the full table that repairs every break.
 */
module ManifestProtocol {
  import opened Bytes
  import opened Options
  import opened Sequences
  import opened Manifest

  const MAX_GENERATION: nat := U64 - 1

  datatype Frame = Full(generation: nat, rows: seq<ManifestEntry>) | Delta(delta: ManifestDelta)

  datatype ManifestOwed = OwedNothing | OwedDelta | OwedFull

  /** What a peer believed at `peer` is owed when the published table moves from `base` to `current`. */
  function Owed(peer: nat, base: nat, current: nat): ManifestOwed {
    if peer == current then OwedNothing
    else if current != base && peer == base then OwedDelta
    else OwedFull
  }

  /** The generation after a rebuild: it moves only for a change, and saturates. */
  function NextGeneration(generation: nat, changed: bool): nat {
    if changed && generation < MAX_GENERATION then generation + 1 else generation
  }

  ghost function DeltaBetween(before: Table, after: Table, base: nat, generation: nat): ManifestDelta {
    ManifestDelta(base, generation, Ascending(Retired(before, after)), RowsOf(Stated(before, after)))
  }

  function Addressed(owed: ManifestOwed, delta: ManifestDelta, full: Frame): Option<Frame> {
    match owed
    case OwedNothing => None
    case OwedDelta => Some(Delta(delta))
    case OwedFull => Some(full)
  }

  /** The frame a rebuild sends one peer, if any. */
  ghost function Sent(peer: nat, base: nat, generation: nat, before: Table, after: Table): Option<Frame> {
    Addressed(Owed(peer, base, generation), DeltaBetween(before, after, base, generation),
              Full(generation, RowsOf(after)))
  }

  /**
   * A peer is sent nothing exactly when it is believed current, the step exactly when it is believed at the table
   * the step starts from, and the whole table whenever neither holds.
   */
  lemma SentByWhatIsBelieved(peer: nat, base: nat, generation: nat, before: Table, after: Table)
    ensures var sent := Sent(peer, base, generation, before, after);
            && (sent.None? <==> peer == generation)
            && (sent.Some? && sent.value.Delta? <==> peer == base && base != generation)
            && (sent.Some? && sent.value.Full? ==> sent.value == Full(generation, RowsOf(after)))
  {
  }

  /** What a client holds: a generation it can vouch for, or 0, and a table. */
  datatype Held = Held(generation: nat, rows: seq<ManifestEntry>)

  /** A client taking one frame, `None` when it did not decode. */
  ghost function Taken(held: Held, frame: Option<Frame>): Held {
    match frame
    case None => held.(generation := 0)
    case Some(Full(generation, rows)) => if generation >= held.generation then Held(generation, rows) else held
    case Some(Delta(delta)) =>
      if delta.AppliesTo(held.generation)
      then Held(delta.generation, RowsOf(Patched(TableOf(held.rows), delta.removed, delta.added)))
      else held.(generation := 0)
  }

  class ManifestServer {
    var generation: nat
    var published: seq<ManifestEntry>
    /** The generation each synced peer is believed to hold. */
    var believed: seq<nat>

    constructor (peers: nat)
      ensures generation == 0 && published == [] && believed == seq(peers, _ => 0)
    {
      generation, published, believed := 0, [], seq(peers, _ => 0);
    }

    /** Publish a rebuilt table: one delta for the peers that can apply it, the whole table for the rest. */
    method Publish(entries: seq<ManifestEntry>) returns (sent: seq<Option<Frame>>)
      requires DistinctSlots(entries) && AscendingSlots(published) && generation <= MAX_GENERATION
      modifies this
      ensures published == RowsOf(TableOf(entries)) && AscendingSlots(published)
      ensures generation == NextGeneration(old(generation), TableOf(old(published)) != TableOf(entries))
      ensures |sent| == |believed| == |old(believed)| && forall i :: 0 <= i < |sent| ==>
                && sent[i]
                  == Sent(old(believed)[i], old(generation), generation, TableOf(old(published)), TableOf(entries))
                && believed[i] == generation
    {
      var base := generation;
      ghost var before: Table, after: Table := TableOf(published), TableOf(entries);
      var sorted := SortBySlot(entries);
      var removed, added := DiffManifest(published, sorted);
      DiffEmptyIffUnchanged(before, after);
      AscendingIsRowsOf(published);
      if removed != [] || added != [] {
        generation := if base < MAX_GENERATION then base + 1 else MAX_GENERATION;
        published := sorted;
      }
      sent := Address(base, ManifestDelta(base, generation, removed, added));
    }

    /** Hand each peer what it is owed, and believe it holds it. */
    method Address(base: nat, delta: ManifestDelta) returns (sent: seq<Option<Frame>>)
      modifies `believed
      ensures |sent| == |believed| == |old(believed)| && forall i :: 0 <= i < |sent| ==>
                && sent[i] == Addressed(Owed(old(believed)[i], base, generation), delta, Full(generation, published))
                && believed[i] == generation
    {
      ghost var before := believed;
      sent := [];
      for i := 0 to |believed|
        invariant |believed| == |before| && |sent| == i
        invariant forall k :: 0 <= k < i ==>
                    sent[k] == Addressed(Owed(before[k], base, generation), delta, Full(generation, published))
        invariant forall k :: 0 <= k < |before| ==> believed[k] == if k < i then generation else before[k]
      {
        match Owed(believed[i], base, generation) {
          case OwedNothing => sent := sent + [None];
          case OwedDelta => sent := sent + [Some(Delta(delta))];
          case OwedFull => sent := sent + [Some(Full(generation, published))];
        }
        believed := believed[i := generation];
      }
    }

    /** A peer cannot apply what it was sent, or restarted its session: stop believing it holds a table. */
    method Forget(peer: nat)
      requires peer < |believed|
      modifies `believed
      ensures believed == old(believed)[peer := 0]
    {
      believed := believed[peer := 0];
    }
  }

  method SortBySlot(entries: seq<ManifestEntry>) returns (sorted: seq<ManifestEntry>)
    requires DistinctSlots(entries)
    ensures sorted == RowsOf(TableOf(entries)) && AscendingSlots(sorted) && TableOf(sorted) == TableOf(entries)
  {
    sorted := Sort(entries, BySlot);
    TableMember(entries);
    SortedStated(entries, sorted, TableOf(entries));
    RowsOfAscending(TableOf(entries));
    TableOfRows(TableOf(entries));
  }

  lemma AscendingIsRowsOf(rows: seq<ManifestEntry>)
    requires AscendingSlots(rows)
    ensures rows == RowsOf(TableOf(rows))
  {
    TableMember(rows);
    RowsOfIs(rows, TableOf(rows));
  }

  class ManifestClient {
    var generation: nat
    var rows: seq<ManifestEntry>
    var wantManifest: bool

    ghost function State(): Held
      reads this
    {
      Held(generation, rows)
    }

    constructor ()
      ensures State() == Held(0, []) && !wantManifest
    {
      generation, rows, wantManifest := 0, [], false;
    }

    /** Adopt a frame whole or refuse it whole, asking for the full table on every refusal. */
    method Receive(frame: Option<Frame>)
      modifies this
      ensures State() == Taken(old(State()), frame)
      ensures wantManifest <==> (old(wantManifest) || frame.None?
                                 || (frame.value.Delta? && !frame.value.delta.AppliesTo(old(generation))))
    {
      match frame
      case None => Refuse();
      case Some(Full(stated, table)) =>
        if stated >= generation {
          rows, generation := table, stated;
        }
      case Some(Delta(delta)) =>
        if delta.AppliesTo(generation) {
          var patched := ApplyManifestDelta(rows, delta);
          rows, generation := patched, delta.generation;
        } else {
          Refuse();
        }
    }

    /** Stop claiming a generation, keeping the stale rows until the replacement lands. */
    method Refuse()
      modifies `generation, `wantManifest
      ensures generation == 0 && wantManifest
    {
      generation, wantManifest := 0, true;
    }
  }

  // ------------------------------------------------------------------ runs

  /** One peer: what the server believes, what is in flight, what the client holds. */
  datatype Link = Link(believed: nat, wire: seq<Frame>, held: Held)

  const NEW_LINK: Link := Link(0, [], Held(0, []))

  /** The server's tables so far, oldest first: the last is published. */
  datatype World = World(history: seq<Table>, links: seq<Link>) {
    predicate WellFormed() {
      history != []
    }

    function Published(): Table
      requires WellFormed()
    {
      history[|history| - 1]
    }

    /** The saturating counter: one per table after the empty one. */
    function Generation(): nat
      requires WellFormed()
    {
      if |history| - 1 <= MAX_GENERATION then |history| - 1 else MAX_GENERATION
    }
  }

  datatype Event =
    | Publish(table: Table)
    | Arrive(peer: nat, intact: bool)
    | Forget(peer: nat)
    | Restart(peer: nat)
    | Join

  function Served(link: Link, generation: nat, sent: Option<Frame>): Link {
    if sent.Some? then link.(believed := generation, wire := link.wire + [sent.value]) else link
  }

  ghost function Arrived(link: Link, intact: bool): Link {
    if link.wire == [] then link
    else Link(link.believed, link.wire[1..], Taken(link.held, if intact then Some(link.wire[0]) else None))
  }

  function NextHistory(history: seq<Table>, table: Table): seq<Table>
    requires history != []
  {
    if table == history[|history| - 1] then history else history + [table]
  }

  ghost function AfterPublish(w: World, table: Table): World
    requires w.WellFormed()
  {
    var history := NextHistory(w.history, table);
    var generation := World(history, []).Generation();
    World(history, seq(|w.links|, i requires 0 <= i < |w.links| =>
      Republished(w.links[i], w.Generation(), generation, w.Published(), table)))
  }

  /** The world's generation is the server's own counter, saturation included. */
  lemma GenerationIsTheCounter(w: World, table: Table)
    requires w.WellFormed()
    ensures AfterPublish(w, table).WellFormed()
    ensures AfterPublish(w, table).Generation() == NextGeneration(w.Generation(), table != w.Published())
  {
  }

  ghost function Republished(link: Link, base: nat, generation: nat, before: Table, after: Table): Link {
    Served(link, generation, Sent(link.believed, base, generation, before, after))
  }

  ghost function Step(w: World, e: Event): (r: World)
    requires w.WellFormed()
    ensures r.WellFormed() && |r.history| >= |w.history|
  {
    match e
    case Publish(table) => AfterPublish(w, table)
    case Arrive(peer, intact) =>
      if peer < |w.links| then w.(links := w.links[peer := Arrived(w.links[peer], intact)]) else w
    case Forget(peer) =>
      if peer < |w.links| then w.(links := w.links[peer := w.links[peer].(believed := 0)]) else w
    case Restart(peer) => if peer < |w.links| then w.(links := w.links[peer := NEW_LINK]) else w
    case Join => w.(links := w.links + [NEW_LINK])
  }

  ghost function Run(events: seq<Event>): (w: World)
    ensures w.WellFormed()
  {
    if events == [] then World([map[]], [])
    else Step(Run(events[..|events| - 1]), events[|events| - 1])
  }

  /** Every table the server publishes files its rows under their own slots. */
  ghost predicate TablesFiled(events: seq<Event>) {
    forall i :: 0 <= i < |events| && events[i].Publish? ==> Filed(events[i].table)
  }

  ghost predicate HistoryOk(history: seq<Table>) {
    history != [] && history[0] == map[] && forall g :: 0 <= g < |history| ==> Filed(history[g])
  }

  /** A frame states a table the server has published, or the step between two. */
  ghost predicate FrameOk(history: seq<Table>, frame: Frame)
    requires HistoryOk(history)
  {
    match frame
    case Full(generation, rows) => 0 < generation < |history| && rows == RowsOf(history[generation])
    case Delta(delta) =>
      var base := delta.baseGeneration;
      base + 1 < |history| && delta == DeltaBetween(history[base], history[base + 1], base, base + 1)
  }

  /** A client that claims a generation holds the server's table at it. */
  ghost predicate Truthful(history: seq<Table>, held: Held)
    requires HistoryOk(history)
  {
    held.generation > 0 ==> held.generation < |history| && held.rows == RowsOf(history[held.generation])
  }

  /** The step from the empty table is the first frame of an untouched link, or nowhere. */
  ghost predicate FirstStepFirst(link: Link) {
    forall k :: 0 <= k < |link.wire| && link.wire[k].Delta? && link.wire[k].delta.baseGeneration == 0
      ==> k == 0 && link.held == Held(0, [])
  }

  ghost predicate LinkOk(history: seq<Table>, link: Link) {
    && HistoryOk(history)
    && link.believed < |history|
    && (forall frame :: frame in link.wire ==> FrameOk(history, frame))
    && Truthful(history, link.held)
    && FirstStepFirst(link)
    && (|history| == 1 ==> link == NEW_LINK)
  }

  ghost predicate WorldOk(w: World) {
    HistoryOk(w.history) && forall i :: 0 <= i < |w.links| ==> LinkOk(w.history, w.links[i])
  }

  /** A rebuild that changes the table below the last generation. */
  lemma ChangeOk(history: seq<Table>, table: Table, link: Link)
    requires LinkOk(history, link) && Filed(table) && table != history[|history| - 1]
    requires |history| <= MAX_GENERATION
    ensures var base := |history| - 1;
            LinkOk(history + [table], Republished(link, base, base + 1, history[base], table))
  {
  }

  /** A rebuild that changes nothing. */
  lemma NoChangeOk(history: seq<Table>, link: Link)
    requires LinkOk(history, link)
    ensures var base := |history| - 1;
            LinkOk(history, Republished(link, base, base, history[base], history[base]))
  {
  }

  lemma PatchedRows(before: Table, after: Table)
    requires Filed(before) && Filed(after)
    ensures RowsOf(Patched(TableOf(RowsOf(before)), Ascending(Retired(before, after)), RowsOf(Stated(before, after))))
         == RowsOf(after)
  {
    TableOfRows(before);
    PatchUndoesDiff(before, after);
  }

  lemma RowsOfNothing()
    ensures RowsOf(map[]) == []
  {
    var none: Table := map[];
    AscendingOfNone();
    assert none.Keys == {};
  }

  lemma DeltaTaken(before: Table, after: Table, base: nat, held: Held)
    requires Filed(before) && Filed(after) && held == Held(base, RowsOf(before))
    ensures Taken(held, Some(Delta(DeltaBetween(before, after, base, base + 1)))) == Held(base + 1, RowsOf(after))
  {
    PatchedRows(before, after);
  }

  lemma HeldAtBase(history: seq<Table>, held: Held, base: nat)
    requires HistoryOk(history) && base < |history| && held.generation == base
    requires if base == 0 then held.rows == [] else held.rows == RowsOf(history[base])
    ensures held == Held(base, RowsOf(history[base]))
  {
    RowsOfNothing();
  }

  lemma TakenOk(history: seq<Table>, held: Held, frame: Frame)
    requires HistoryOk(history) && FrameOk(history, frame) && Truthful(history, held)
    requires frame.Delta? && frame.delta.baseGeneration == 0 ==> held == Held(0, [])
    ensures Truthful(history, Taken(held, Some(frame)))
  {
    if frame.Delta? && frame.delta.baseGeneration == held.generation {
      var base := held.generation;
      HeldAtBase(history, held, base);
      DeltaTaken(history[base], history[base + 1], base, held);
    }
  }

  lemma ArrivedOk(history: seq<Table>, link: Link, intact: bool)
    requires LinkOk(history, link)
    ensures LinkOk(history, Arrived(link, intact))
  {
    if link.wire != [] {
      var frame := link.wire[0];
      assert FrameOk(history, frame);
      TakenOk(history, link.held, frame);
      var next := Arrived(link, intact);
      forall k | 0 <= k < |next.wire| && next.wire[k].Delta? ensures next.wire[k].delta.baseGeneration != 0 {
        assert next.wire[k] == link.wire[k + 1];
      }
    }
  }

  lemma RepublishedOk(history: seq<Table>, table: Table, link: Link)
    requires LinkOk(history, link) && Filed(table) && |NextHistory(history, table)| - 1 <= MAX_GENERATION
    ensures var base, next := |history| - 1, NextHistory(history, table);
            LinkOk(next, Republished(link, base, |next| - 1, history[base], table))
  {
    if table == history[|history| - 1] {
      NoChangeOk(history, link);
    } else {
      ChangeOk(history, table, link);
    }
  }

  lemma PublishOk(w: World, table: Table)
    requires WorldOk(w) && Filed(table)
    requires |NextHistory(w.history, table)| - 1 <= MAX_GENERATION
    ensures WorldOk(AfterPublish(w, table))
  {
    var after := AfterPublish(w, table);
    forall i | 0 <= i < |w.links| ensures LinkOk(after.history, after.links[i]) {
      RepublishedOk(w.history, table, w.links[i]);
    }
  }

  lemma StepOk(w: World, e: Event)
    requires WorldOk(w) && (e.Publish? ==> Filed(e.table))
    requires |Step(w, e).history| - 1 <= MAX_GENERATION
    ensures WorldOk(Step(w, e))
  {
    match e
    case Publish(table) => PublishOk(w, table);
    case Arrive(peer, intact) =>
      if peer < |w.links| { ArrivedOk(w.history, w.links[peer], intact); }
    case Forget(peer) =>
    case Restart(peer) =>
    case Join =>
  }

  /**
   * Over every run of publishes, deliveries whole or broken, requests for the whole table, session
   * restarts and joins: a client that claims generation g > 0 holds exactly the server's table at g.
   */
  lemma {:induction false} ClaimsAreTrue(events: seq<Event>)
    requires TablesFiled(events) && |Run(events).history| - 1 <= MAX_GENERATION
    ensures WorldOk(Run(events))
  {
    if events != [] {
      var n := |events| - 1;
      assert TablesFiled(events[..n]) by {
        forall i | 0 <= i < n && events[..n][i].Publish? ensures Filed(events[..n][i].table) {
          assert events[..n][i] == events[i];
        }
      }
      ClaimsAreTrue(events[..n]);
      StepOk(Run(events[..n]), events[n]);
    }
  }

  // ------------------------------------------------------------------ repair, and its limit

  /** Everything in flight arrives whole. */
  ghost function Drained(link: Link): Link
    decreases |link.wire|
  {
    if link.wire == [] then link else Drained(Arrived(link, true))
  }

  lemma {:induction false} DrainedOk(history: seq<Table>, link: Link)
    requires LinkOk(history, link)
    ensures LinkOk(history, Drained(link)) && Drained(link).wire == [] && Drained(link).believed == link.believed
    decreases |link.wire|
  {
    if link.wire != [] {
      ArrivedOk(history, link, true);
      DrainedOk(history, Arrived(link, true));
    }
  }

  /** A whole current table at the end of the wire decides what the client ends with. */
  lemma {:induction false} LastFullDecides(history: seq<Table>, link: Link, rows: seq<ManifestEntry>)
    requires LinkOk(history, link) && link.wire != []
    requires link.wire[|link.wire| - 1] == Full(|history| - 1, rows)
    ensures Drained(link).held == Held(|history| - 1, rows)
    decreases |link.wire|
  {
    ArrivedOk(history, link, true);
    var next := Arrived(link, true);
    if |link.wire| > 1 {
      LastFullDecides(history, next, rows);
    }
  }

  lemma NothingIsSent(link: Link, generation: nat, before: Table, after: Table)
    requires link.believed == generation && link.wire == []
    ensures Drained(Republished(link, generation, generation, before, after)) == link
  {
  }

  /** A client in step: nothing in flight, the server's generation, the server's table. */
  ghost predicate InStep(generation: nat, published: Table, link: Link) {
    link.wire == [] && link.believed == link.held.generation == generation && link.held.rows == RowsOf(published)
  }

  lemma DeltaKeepsStep(link: Link, generation: nat, before: Table, after: Table)
    requires InStep(generation, before, link) && Filed(before) && Filed(after)
    ensures InStep(generation + 1, after, Drained(Republished(link, generation, generation + 1, before, after)))
  {
    DeltaTaken(before, after, generation, link.held);
    var next := Republished(link, generation, generation + 1, before, after);
    var frame := Delta(DeltaBetween(before, after, generation, generation + 1));
    assert next.wire == [frame];
    assert Arrived(next, true).wire == [];
    assert Drained(next) == Drained(Arrived(next, true)) == Arrived(next, true);
  }

  /** Past the first generation a forgotten peer is sent the whole table, which decides. */
  lemma FullReaches(history: seq<Table>, link: Link, table: Table)
    requires LinkOk(history, link) && link.believed == 0 && Filed(table)
    requires |history| > 1 && |NextHistory(history, table)| <= MAX_GENERATION + 1
    ensures var base, generation := |history| - 1, |NextHistory(history, table)| - 1;
            var next := Republished(link, base, generation, history[base], table);
            Drained(next).held == Held(generation, RowsOf(table))
  {
    var base, generation := |history| - 1, |NextHistory(history, table)| - 1;
    var next := Republished(link, base, generation, history[base], table);
    RepublishedOk(history, table, link);
    assert next.wire == link.wire + [Full(generation, RowsOf(table))];
    LastFullDecides(NextHistory(history, table), next, RowsOf(table));
  }

  /**
   * Every break repairs itself: once the server has forgotten a peer, its next publish - of anything - sends
   * that peer a table which, whatever is still in flight before it, leaves the client at the server's.
   */
  lemma RepairReachesTheServer(history: seq<Table>, link: Link, table: Table)
    requires LinkOk(history, link) && link.believed == 0 && Filed(table)
    requires |NextHistory(history, table)| <= MAX_GENERATION + 1
    ensures var base, generation := |history| - 1, |NextHistory(history, table)| - 1;
            var next := Republished(link, base, generation, history[base], table);
            Drained(next).held == Held(generation, RowsOf(table))
  {
    var base, generation := |history| - 1, |NextHistory(history, table)| - 1;
    if generation == 0 {
      RowsOfNothing();
      NothingIsSent(link, generation, history[base], table);
    } else if base == 0 {
      RowsOfNothing();
      DeltaKeepsStep(link, base, history[base], table);
    } else {
      FullReaches(history, link, table);
    }
  }

  lemma RowsDiffer(a: Table, b: Table)
    requires Filed(a) && Filed(b)
    ensures RowsOf(a) == RowsOf(b) <==> a == b
  {
    TableOfRows(a);
    TableOfRows(b);
  }

  /**
   * The counter saturates, and then a change reaches nobody who is current: their generation already is the
   * server's. Publishing keeps a client in step exactly below the last generation, or when nothing changed.
   */
  lemma StaysInStepIffCountable(link: Link, generation: nat, before: Table, after: Table)
    requires InStep(generation, before, link) && Filed(before) && Filed(after) && generation <= MAX_GENERATION
    ensures var next := NextGeneration(generation, before != after);
            InStep(next, after, Drained(Republished(link, generation, next, before, after)))
            <==> generation < MAX_GENERATION || before == after
  {
    if before != after && generation < MAX_GENERATION {
      DeltaKeepsStep(link, generation, before, after);
    } else {
      NothingIsSent(link, generation, before, after);
      RowsDiffer(before, after);
    }
  }
}

/** The entity manifest as a table keyed by slot: the minimal change between two tables, and its inverse. */
module Manifest {
  import opened Sequences

  datatype ManifestEntry = ManifestEntry(slot: nat, id: nat, stateHash: nat, inputHash: nat, owner: int, seat: nat)

  datatype ManifestDelta = ManifestDelta(baseGeneration: nat, generation: nat, removed: seq<nat>,
                                         added: seq<ManifestEntry>) {
    /** Whether a receiver holding `held` may apply this. */
    predicate AppliesTo(held: nat) {
      baseGeneration == held
    }
  }

  /** A table by slot; every row is filed under its own. */
  type Table = map<nat, ManifestEntry>

  ghost predicate Filed(table: Table) {
    forall slot :: slot in table ==> table[slot].slot == slot
  }

  ghost predicate DistinctSlots(rows: seq<ManifestEntry>) {
    forall i, j :: 0 <= i < j < |rows| ==> rows[i].slot != rows[j].slot
  }

  ghost predicate AscendingSlots(rows: seq<ManifestEntry>) {
    forall i, j :: 0 <= i < j < |rows| ==> rows[i].slot < rows[j].slot
  }

  /** What a list of rows says of each slot: the last row naming it. */
  function TableOf(rows: seq<ManifestEntry>): (table: Table)
    ensures Filed(table)
  {
    if rows == [] then map[]
    else TableOf(rows[..|rows| - 1])[rows[|rows| - 1].slot := rows[|rows| - 1]]
  }

  function SlotsOf(rows: seq<ManifestEntry>): (slots: seq<nat>)
    ensures |slots| == |rows|
  {
    seq(|rows|, i requires 0 <= i < |rows| => rows[i].slot)
  }

  /** A table listed ascending by slot. */
  ghost function RowsOf(table: Table): (rows: seq<ManifestEntry>)
    ensures |rows| == |Ascending(table.Keys)|
  {
    var slots := Ascending(table.Keys);
    seq(|slots|, i requires 0 <= i < |slots| => SlotRow(table, slots, i))
  }

  ghost function SlotRow(table: Table, slots: seq<nat>, i: nat): ManifestEntry
    requires slots == Ascending(table.Keys) && i < |slots|
  {
    assert slots[i] in Elements(slots);
    table[slots[i]]
  }

  lemma {:induction false} TableMember(rows: seq<ManifestEntry>)
    requires DistinctSlots(rows)
    ensures forall row :: row in rows <==> row.slot in TableOf(rows) && TableOf(rows)[row.slot] == row
  {
    if rows != [] {
      var n := |rows| - 1;
      TableMember(rows[..n]);
      forall row: ManifestEntry ensures row in rows <==> row in rows[..n] || row == rows[n] {
        assert rows == rows[..n] + [rows[n]];
      }
      forall row | row in rows[..n] ensures row.slot != rows[n].slot {}
    }
  }

  /** Distinct tables with the same rows are the same table, whatever order the rows came in. */
  lemma TableIgnoresOrder(a: seq<ManifestEntry>, b: seq<ManifestEntry>)
    requires DistinctSlots(a) && DistinctSlots(b)
    requires forall row :: row in a <==> row in b
    ensures TableOf(a) == TableOf(b)
  {
    TableMember(a);
    TableMember(b);
    var ta, tb := TableOf(a), TableOf(b);
    forall slot ensures slot in ta <==> slot in tb {
      if slot in ta { assert ta[slot] in a; }
      if slot in tb { assert tb[slot] in b; }
    }
    forall slot | slot in ta ensures ta[slot] == tb[slot] {
      assert ta[slot] in a;
    }
  }

  lemma RowsOfAscending(table: Table)
    requires Filed(table)
    ensures AscendingSlots(RowsOf(table))
    ensures forall row :: row in RowsOf(table) <==> row.slot in table && table[row.slot] == row
  {
    var slots, rows := Ascending(table.Keys), RowsOf(table);
    forall i | 0 <= i < |rows| ensures rows[i].slot == slots[i] {
      assert slots[i] in Elements(slots);
    }
    forall row: ManifestEntry | row.slot in table && table[row.slot] == row ensures row in rows {
      assert row.slot in Elements(slots);
      var i :| 0 <= i < |slots| && slots[i] == row.slot;
      assert rows[i] == row;
    }
    forall row | row in rows ensures row.slot in table && table[row.slot] == row {
      var i :| 0 <= i < |rows| && rows[i] == row;
      assert slots[i] in Elements(slots);
    }
  }

  /** The one ascending list of a table. */
  lemma {:induction false} AscendingRowsUnique(a: seq<ManifestEntry>, b: seq<ManifestEntry>)
    requires AscendingSlots(a) && AscendingSlots(b)
    requires forall row :: row in a <==> row in b
    ensures a == b
  {
    SameSlots(a, b);
    SameSlots(b, a);
    AscendingUnique(SlotsOf(a), SlotsOf(b));
    forall i | 0 <= i < |a| ensures a[i] == b[i] {
      assert a[i] in b && SlotsOf(a)[i] == SlotsOf(b)[i];
    }
  }

  lemma SameSlots(a: seq<ManifestEntry>, b: seq<ManifestEntry>)
    requires AscendingSlots(a) && forall row :: row in a <==> row in b
    ensures StrictlyAscending(SlotsOf(a)) && Elements(SlotsOf(a)) == Elements(SlotsOf(b))
  {
    forall x ensures x in SlotsOf(a) <==> x in SlotsOf(b) {
      if x in SlotsOf(a) {
        var i :| 0 <= i < |a| && SlotsOf(a)[i] == x;
        assert a[i] in b;
        var j :| 0 <= j < |b| && b[j] == a[i];
        assert SlotsOf(b)[j] == x;
      }
      if x in SlotsOf(b) {
        var i :| 0 <= i < |b| && SlotsOf(b)[i] == x;
        assert b[i] in a;
        var j :| 0 <= j < |a| && a[j] == b[i];
        assert SlotsOf(a)[j] == x;
      }
    }
  }

  /** An ascending list of exactly a table's rows is `RowsOf` it. */
  lemma RowsOfIs(rows: seq<ManifestEntry>, table: Table)
    requires Filed(table) && AscendingSlots(rows)
    requires forall row :: row in rows <==> row.slot in table && table[row.slot] == row
    ensures rows == RowsOf(table)
  {
    RowsOfAscending(table);
    AscendingRowsUnique(rows, RowsOf(table));
  }

  // ------------------------------------------------------------------ diff

  /** Slots bound before and not after. */
  function Retired(before: Table, after: Table): set<nat> {
    before.Keys - after.Keys
  }

  /** Rows in force after that were not in force before. */
  function Stated(before: Table, after: Table): (stated: Table)
    ensures Filed(after) ==> Filed(stated)
  {
    map slot: nat | slot in after && !(slot in before && before[slot] == after[slot]) :: after[slot]
  }

  predicate BySlot(a: ManifestEntry, b: ManifestEntry) {
    a.slot <= b.slot
  }

  /** The minimal delta from `previous` to `current`, both halves ascending by slot. */
  method DiffManifest(previous: seq<ManifestEntry>, current: seq<ManifestEntry>)
    returns (removed: seq<nat>, added: seq<ManifestEntry>)
    requires DistinctSlots(current)
    ensures removed == Ascending(Retired(TableOf(previous), TableOf(current)))
    ensures added == RowsOf(Stated(TableOf(previous), TableOf(current)))
  {
    ghost var held: Table := TableOf(previous);
    var before: Table := TableOf(previous);
    var changed: seq<ManifestEntry> := [];
    for i := 0 to |current|
      invariant before == held - TableOf(current[..i]).Keys
      invariant changed == Unmatched(held, current[..i])
    {
      var entry := current[i];
      DistinctPrefix(current, i);
      assert current[..i + 1][..i] == current[..i];
      if !(entry.slot in before && before[entry.slot] == entry) {
        changed := changed + [entry];
      }
      before := before - {entry.slot};
    }
    assert current[..|current|] == current;
    added := Sort(changed, BySlot);
    UnmatchedAreStated(held, current);
    SortedStated(changed, added, Stated(held, TableOf(current)));
    removed := SortedKeys(before.Keys);
    assert before.Keys == Retired(held, TableOf(current));
  }

  /** The rows the held table does not already have. */
  ghost function Unmatched(held: Table, rows: seq<ManifestEntry>): (r: seq<ManifestEntry>)
  {
    if rows == [] then []
    else
      var row := rows[|rows| - 1];
      Unmatched(held, rows[..|rows| - 1]) + if row.slot in held && held[row.slot] == row then [] else [row]
  }

  lemma {:induction false} UnmatchedMembers(held: Table, rows: seq<ManifestEntry>)
    ensures forall row :: row in Unmatched(held, rows) <==> row in rows && !(row.slot in held && held[row.slot] == row)
  {
    if rows != [] {
      UnmatchedMembers(held, rows[..|rows| - 1]);
      assert rows == rows[..|rows| - 1] + [rows[|rows| - 1]];
    }
  }

  lemma {:induction false} UnmatchedDistinct(held: Table, rows: seq<ManifestEntry>)
    requires DistinctSlots(rows)
    ensures DistinctSlots(Unmatched(held, rows))
  {
    if rows != [] {
      var n := |rows| - 1;
      UnmatchedDistinct(held, rows[..n]);
      UnmatchedMembers(held, rows[..n]);
      DistinctPrefix(rows, n);
      AppendDistinct(Unmatched(held, rows[..n]), rows[n]);
    }
  }

  lemma AppendDistinct(rows: seq<ManifestEntry>, row: ManifestEntry)
    requires DistinctSlots(rows) && forall other :: other in rows ==> other.slot != row.slot
    ensures DistinctSlots(rows + [row]) && rows + [] == rows
  {
  }

  lemma UnmatchedAreStated(held: Table, rows: seq<ManifestEntry>)
    requires DistinctSlots(rows)
    ensures var stated := Stated(held, TableOf(rows));
            && DistinctSlots(Unmatched(held, rows))
            && forall row :: row in Unmatched(held, rows) <==> row.slot in stated && stated[row.slot] == row
  {
    UnmatchedMembers(held, rows);
    UnmatchedDistinct(held, rows);
    TableMember(rows);
  }

  /** The slot read at step `i` is not among the slots read before it. */
  lemma DistinctPrefix(rows: seq<ManifestEntry>, i: nat)
    requires i < |rows| && DistinctSlots(rows)
    ensures rows[i].slot !in TableOf(rows[..i]) && forall row :: row in rows[..i] ==> row.slot != rows[i].slot
  {
    TableMember(rows[..i]);
    var table := TableOf(rows[..i]);
    assert forall slot :: slot in table ==> table[slot] in rows[..i];
  }

  lemma SortedStated(changed: seq<ManifestEntry>, added: seq<ManifestEntry>, stated: Table)
    requires multiset(added) == multiset(changed) && SortedBy(added, BySlot) && DistinctSlots(changed) && Filed(stated)
    requires forall row :: row in changed <==> row.slot in stated && stated[row.slot] == row
    ensures added == RowsOf(stated)
  {
    PermutationElements(changed, added);
    forall row: ManifestEntry ensures row in added <==> row in changed {
      assert row in Elements(added) <==> row in Elements(changed);
    }
    PermutationNoDup(changed, added);
    forall i, j | 0 <= i < j < |added| ensures added[i].slot < added[j].slot {
      assert BySlot(added[i], added[j]);
      assert added[i] != added[j] && added[i] in changed && added[j] in changed;
    }
    RowsOfIs(added, stated);
  }

  // ------------------------------------------------------------------ apply

  /** A table without the retired slots, then with the stated rows: the additions win. */
  function Patched(table: Table, removed: seq<nat>, added: seq<ManifestEntry>): (r: Table)
    requires Filed(table)
    ensures Filed(r)
  {
    (table - set slot: nat | slot in removed) + TableOf(added)
  }

  /** Apply a delta, whatever bytes it came from, answering the table it reaches. */
  method ApplyManifestDelta(rows: seq<ManifestEntry>, delta: ManifestDelta) returns (r: seq<ManifestEntry>)
    ensures r == RowsOf(Patched(TableOf(rows), delta.removed, delta.added))
  {
    ghost var held: Table := TableOf(rows);
    var table: Table := TableOf(rows);
    for i := 0 to |delta.removed|
      invariant table == held - set slot: nat | slot in delta.removed[..i]
    {
      assert delta.removed[..i + 1] == delta.removed[..i] + [delta.removed[i]];
      table := table - {delta.removed[i]};
    }
    assert delta.removed[..|delta.removed|] == delta.removed;
    ghost var kept: Table := table;
    for i := 0 to |delta.added|
      invariant table == kept + TableOf(delta.added[..i])
    {
      assert delta.added[..i + 1][..i] == delta.added[..i];
      table := table[delta.added[i].slot := delta.added[i]];
    }
    assert delta.added[..|delta.added|] == delta.added;
    r := IntoValues(table);
  }

  /** A table's rows ascending by slot. */
  method IntoValues(table: Table) returns (rows: seq<ManifestEntry>)
    requires Filed(table)
    ensures rows == RowsOf(table)
  {
    var slots := SortedKeys(table.Keys);
    SlotsBound(table, slots);
    rows := seq(|slots|, i requires 0 <= i < |slots| => table[slots[i]]);
    forall i | 0 <= i < |slots| ensures rows[i] == RowsOf(table)[i] {
      RowAt(table, i);
    }
  }

  lemma SlotsBound(table: Table, slots: seq<nat>)
    requires slots == Ascending(table.Keys)
    ensures forall i :: 0 <= i < |slots| ==> slots[i] in table
  {
  }

  lemma RowAt(table: Table, i: nat)
    requires i < |RowsOf(table)|
    ensures var slot := Ascending(table.Keys)[i]; slot in table && RowsOf(table)[i] == table[slot]
  {
    assert Ascending(table.Keys)[i] in Elements(Ascending(table.Keys));
  }

  // ------------------------------------------------------------------ one undoes the other

  lemma TableOfRows(table: Table)
    requires Filed(table)
    ensures TableOf(RowsOf(table)) == table
  {
    var rows := RowsOf(table);
    RowsOfAscending(table);
    TableMember(rows);
    forall slot ensures slot in TableOf(rows) <==> slot in table {
      if slot in table { assert table[slot] in rows; }
      if slot in TableOf(rows) { assert TableOf(rows)[slot] in rows; }
    }
    forall slot | slot in table ensures TableOf(rows)[slot] == table[slot] {
      assert table[slot] in rows;
    }
  }

  /** Patching a table with its diff to another reaches the other exactly. */
  lemma PatchUndoesDiff(before: Table, after: Table)
    requires Filed(before) && Filed(after)
    ensures Patched(before, Ascending(Retired(before, after)), RowsOf(Stated(before, after))) == after
  {
    var removed := Ascending(Retired(before, after));
    TableOfRows(Stated(before, after));
    SlotSet(removed, Retired(before, after));
    KeepAndState(before, after);
  }

  lemma KeepAndState(before: Table, after: Table)
    ensures (before - Retired(before, after)) + Stated(before, after) == after
  {
    assert (before - Retired(before, after)).Keys + Stated(before, after).Keys == after.Keys;
  }

  lemma SlotSet(slots: seq<nat>, s: set<nat>)
    requires slots == Ascending(s)
    ensures (set slot: nat | slot in slots) == s
  {
  }

  /** The diff is empty exactly when nothing changed. */
  lemma DiffEmptyIffUnchanged(before: Table, after: Table)
    requires Filed(before) && Filed(after)
    ensures Ascending(Retired(before, after)) == [] && RowsOf(Stated(before, after)) == [] <==> before == after
  {
    PatchUndoesDiff(before, after);
    var removed, added := Ascending(Retired(before, after)), RowsOf(Stated(before, after));
    if removed == [] && added == [] {
      assert after == (before - set slot: nat | slot in removed) + TableOf(added);
    }
    if before == after {
      AscendingIs([]);
      assert Elements<nat>([]) == {} == Retired(before, after) == Stated(before, after).Keys;
    }
  }

  /** A row is restated exactly when it is new or changed, a slot retired exactly when it is gone. */
  lemma DiffNamesTheChanges(before: Table, after: Table)
    requires Filed(before) && Filed(after)
    ensures forall slot :: slot in Ascending(Retired(before, after)) <==> slot in before && slot !in after
    ensures forall row :: row in RowsOf(Stated(before, after)) <==>
              row.slot in after && after[row.slot] == row && !(row.slot in before && before[row.slot] == row)
    ensures forall row :: row in RowsOf(Stated(before, after)) ==> row.slot !in Ascending(Retired(before, after))
  {
    RowsOfAscending(Stated(before, after));
    var retired := Retired(before, after);
    forall slot: nat ensures slot in Ascending(retired) <==> slot in retired {
      assert slot in Elements(Ascending(retired)) <==> slot in Ascending(retired);
    }
  }

  /** The delta is the diff of the two tables, and its patch of `previous` is `current`, listed in slot order. */
  method ApplyUndoesDiff(previous: seq<ManifestEntry>, current: seq<ManifestEntry>, base: nat, generation: nat)
    returns (delta: ManifestDelta, rows: seq<ManifestEntry>)
    requires DistinctSlots(current)
    ensures var before, after := TableOf(previous), TableOf(current);
            && delta
              == ManifestDelta(base, generation, Ascending(Retired(before, after)), RowsOf(Stated(before, after)))
            && rows == RowsOf(Patched(before, delta.removed, delta.added))
    ensures AscendingSlots(rows) && forall row :: row in rows <==> row in current
  {
    var removed, added := DiffManifest(previous, current);
    delta := ManifestDelta(base, generation, removed, added);
    rows := ApplyManifestDelta(previous, delta);
    PatchUndoesDiff(TableOf(previous), TableOf(current));
    RowsOfAscending(TableOf(current));
    TableMember(current);
  }
}

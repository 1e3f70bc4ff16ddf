/** A concrete compaction that brings a deleted value back. The tree below is valid and reached by
    flushes and a compaction, the inputs are the ones the selection code computes, and no snapshot is
    older than sequence 4; yet the read of user key 10 changes from "absent" to "old". */
module CompactionCounterexample {
  import opened Wrappers
  import opened DbFormat
  import opened Versions
  import opened Overlap
  import opened VersionBuilder
  import opened CompactionInputs
  import opened CompactionWork
  import opened CompactionSafety
  import opened CompactionReads
  import opened FlushSafety

  const UPPER_ROW := Entry(InternalKey(5, 4, Put), "new")
  const LOWER_ROW := Entry(InternalKey(5, 3, Put), "prev")
  const TOMBSTONE := Entry(InternalKey(10, 2, Deletion), "")
  const SHIELDED := Entry(InternalKey(10, 1, Put), "old")

  const FIRST: File := File(3, 1, [SHIELDED])
  const SECOND: File := File(4, 1, [LOWER_ROW, TOMBSTONE])
  const LOWER: File := File(5, 1, [LOWER_ROW, TOMBSTONE])
  const NEXT_DOOR: File := File(6, 1, [SHIELDED])
  const UPPER: File := File(7, 1, [UPPER_ROW])
  const OUTPUT: File := File(8, 1, [UPPER_ROW])

  const EMPTY := Version([[], [], [], [], [], [], []])
  const FLUSHED := Version([[], [], [FIRST], [], [], [], []])
  const FLUSHED_AGAIN := Version([[], [SECOND], [FIRST], [], [], [], []])
  const COMPACTED := Version([[], [], [LOWER, NEXT_DOOR], [], [], [], []])
  const BEFORE := Version([[], [UPPER], [LOWER, NEXT_DOOR], [], [], [], []])
  const AFTER := Version([[], [], [OUTPUT, NEXT_DOOR], [], [], [], []])

  lemma ContentsBefore()
    ensures Contents(BEFORE) == {UPPER_ROW, LOWER_ROW, TOMBSTONE, SHIELDED}
  {
    var rows := Contents(BEFORE);
    forall e | e in {UPPER_ROW, LOWER_ROW, TOMBSTONE, SHIELDED} ensures e in rows {
      RowOf(BEFORE.levels[1], UPPER, UPPER_ROW);
      RowOf(BEFORE.levels[2], LOWER, LOWER_ROW);
      RowOf(BEFORE.levels[2], LOWER, TOMBSTONE);
      RowOf(BEFORE.levels[2], NEXT_DOOR, SHIELDED);
    }
  }

  lemma ContentsAfter()
    ensures Contents(AFTER) == {UPPER_ROW, SHIELDED}
  {
    var rows := Contents(AFTER);
    forall e | e in {UPPER_ROW, SHIELDED} ensures e in rows {
      RowOf(AFTER.levels[2], OUTPUT, UPPER_ROW);
      RowOf(AFTER.levels[2], NEXT_DOOR, SHIELDED);
    }
  }

  // The boundary search and the overlap search give exactly these inputs.
  lemma SelectionTakesThese()
    ensures [UPPER] + BoundaryRun(BEFORE.levels[1], HighestKey([UPPER])) == [UPPER]
    ensures FilterMeets(BEFORE.levels[2], Low([UPPER]), High([UPPER])) == [LOWER]
    ensures GoodInputs(BEFORE, 1, [UPPER], [LOWER])
  {
    var fs := BEFORE.levels[2];
    assert MeetsUpTo(fs, 0, Low([UPPER]), High([UPPER])) == [];
    assert MeetsUpTo(fs, 1, Low([UPPER]), High([UPPER])) == [LOWER];
    assert BEFORE.levels[1][0..1] == [UPPER];
    SmallestBoundaryIsLeast([UPPER], HighestKey([UPPER]));
  }

  lemma LevelsBefore()
    ensures LevelEntries(BEFORE.levels[1]) == {UPPER_ROW}
    ensures LevelEntries(BEFORE.levels[2]) == {LOWER_ROW, TOMBSTONE, SHIELDED}
    ensures forall l :: 0 <= l < NUM_LEVELS && l != 1 && l != 2 ==> LevelEntries(BEFORE.levels[l]) == {}
  {
    RowOf(BEFORE.levels[1], UPPER, UPPER_ROW);
    RowOf(BEFORE.levels[2], LOWER, LOWER_ROW);
    RowOf(BEFORE.levels[2], LOWER, TOMBSTONE);
    RowOf(BEFORE.levels[2], NEXT_DOOR, SHIELDED);
  }

  lemma TablesBefore(l: nat)
    requires l < NUM_LEVELS
    ensures TablesAscend(BEFORE.levels[l]) && Disjoint(BEFORE.levels[l])
  {
    if l == 2 {
      assert Less(Largest(LOWER), Smallest(NEXT_DOOR));
    } else if l != 1 {
      assert BEFORE.levels[l] == [];
    }
  }

  lemma LayersBefore(l: nat, m: nat)
    requires l < m < NUM_LEVELS
    ensures NewerThan(LevelEntries(BEFORE.levels[l]), LevelEntries(BEFORE.levels[m]))
  {
    LevelsBefore();
  }

  // The tree is one the database may hold.
  lemma ValidBefore()
    ensures LsmInvariant(BEFORE)
  {
    assert UniqueVersions(Contents(BEFORE)) by {
      ContentsBefore();
    }
    forall l | 0 <= l < NUM_LEVELS ensures TablesAscend(BEFORE.levels[l]) && Disjoint(BEFORE.levels[l]) {
      TablesBefore(l);
    }
    forall l, m | 0 <= l < m < NUM_LEVELS
      ensures NewerThan(LevelEntries(BEFORE.levels[l]), LevelEntries(BEFORE.levels[m]))
    {
      LayersBefore(l, m);
    }
  }

  // The merge loop keeps the new value and drops the hidden one and the tombstone.
  lemma KeepsOneRow(e: Entry)
    ensures e in LevelEntries([OUTPUT]) <==> Survives(BEFORE, 1, Inputs([UPPER], [LOWER]), e, 4)
  {
    var input := Inputs([UPPER], [LOWER]);
    RowOf([UPPER], UPPER, UPPER_ROW);
    RowOf([LOWER], LOWER, LOWER_ROW);
    RowOf([LOWER], LOWER, TOMBSTONE);
    assert input == {UPPER_ROW, LOWER_ROW, TOMBSTONE};
    RowOf([OUTPUT], OUTPUT, UPPER_ROW);
    assert Hidden(input, LOWER_ROW, 4);
    assert Obsolete(BEFORE, 1, TOMBSTONE, 4);
  }

  lemma ReadsDiffer()
    ensures Lookup(Contents(BEFORE), 10, 4) == None
    ensures Lookup(Contents(AFTER), 10, 4) == Some("old")
  {
    ContentsBefore();
    ContentsAfter();
    hide Contents, Lookup;
    LookupIs({UPPER_ROW, LOWER_ROW, TOMBSTONE, SHIELDED}, 10, 4, TOMBSTONE);
    LookupIs({UPPER_ROW, SHIELDED}, 10, 4, SHIELDED);
  }

  // The tombstone at the end of LOWER shields the value at the start of NEXT_DOOR, and is dropped.
  lemma TombstoneShields()
    ensures ShieldDropped(BEFORE, 1, [UPPER], [LOWER], 4)
  {
    ContentsBefore();
    RowOf([LOWER], LOWER, TOMBSTONE);
    assert Newest(Contents(BEFORE), 10, 4, TOMBSTONE);
    assert Obsolete(BEFORE, 1, TOMBSTONE, 4);
    assert BEFORE.levels[2][0..1] == [LOWER];
    assert ShieldDroppedAt(BEFORE, 1, [UPPER], [LOWER], 4, 1, TOMBSTONE);
  }

  // ----- how the tree comes about -----

  const GRANDPARENT_BYTES: nat := 2

  lemma NothingMeets(v: Version, l: nat, lo: UserKey, hi: UserKey)
    requires l < |v.levels| && v.levels[l] == []
    ensures !LevelMeets(v, l, lo, hi) && FilterMeets(v.levels[l], Some(lo), Some(hi)) == []
  {
  }

  // Put 10; nothing is in the way, so the table goes to level 2.
  lemma FirstFlush()
    ensures Added(EMPTY, 2, FIRST, FLUSHED)
    ensures PickedLevel(EMPTY, 10, 10, GRANDPARENT_BYTES, 2)
  {
    forall l: nat | l < NUM_LEVELS ensures EMPTY.levels[l] == [] && !LevelMeets(EMPTY, l, 10, 10) {
      NothingMeets(EMPTY, l, 10, 10);
    }
    forall l: nat | l < 2 ensures !Blocked(EMPTY, l, 10, 10, GRANDPARENT_BYTES) {
      NothingMeets(EMPTY, l + 2, 10, 10);
    }
  }

  // With a snapshot at 1 taken, delete 10 and put 5; level 2 is in the way.
  lemma SecondFlush()
    ensures Added(FLUSHED, 1, SECOND, FLUSHED_AGAIN)
    ensures PickedLevel(FLUSHED, 5, 10, GRANDPARENT_BYTES, 1)
  {
    NothingMeets(FLUSHED, 0, 5, 10);
    NothingMeets(FLUSHED, 1, 5, 10);
    assert MeetsUpTo(FLUSHED.levels[2], 0, Some(5), Some(10)) == [];
    assert FilterMeets(FLUSHED.levels[2], Some(5), Some(10)) == [FIRST];
    assert [FIRST][..0] == [] && TotalFileSize([FIRST]) == 1;
    assert !Blocked(FLUSHED, 0, 5, 10, GRANDPARENT_BYTES);
    assert Meets(FIRST, Some(5), Some(10)) && FIRST in FLUSHED.levels[2];
  }

  lemma FirstInputs()
    ensures GoodInputs(FLUSHED_AGAIN, 1, [SECOND], [FIRST])
  {
    assert FLUSHED_AGAIN.levels[1][0..1] == [SECOND];
    assert MeetsUpTo(FLUSHED_AGAIN.levels[2], 0, Low([SECOND]), High([SECOND])) == [];
  }

  lemma FirstInstalled()
    ensures Installed(FLUSHED_AGAIN, 1, [SECOND], [FIRST], [LOWER, NEXT_DOOR], COMPACTED)
  {
    assert BySmallest(LOWER, NEXT_DOOR);
  }

  lemma FirstKept(e: Entry)
    ensures e in LevelEntries([LOWER, NEXT_DOOR]) <==> Survives(FLUSHED_AGAIN, 1, Inputs([SECOND], [FIRST]), e, 1)
  {
    var input, output := Inputs([SECOND], [FIRST]), LevelEntries([LOWER, NEXT_DOOR]);
    RowOf([SECOND], SECOND, LOWER_ROW);
    RowOf([SECOND], SECOND, TOMBSTONE);
    RowOf([FIRST], FIRST, SHIELDED);
    RowOf([LOWER, NEXT_DOOR], LOWER, LOWER_ROW);
    RowOf([LOWER, NEXT_DOOR], LOWER, TOMBSTONE);
    RowOf([LOWER, NEXT_DOOR], NEXT_DOOR, SHIELDED);
    assert input == {LOWER_ROW, TOMBSTONE, SHIELDED} && output == {LOWER_ROW, TOMBSTONE, SHIELDED};
    hide LevelEntries, Inputs;
  }

  // The compaction of level 1 keeps all rows for the snapshot, and cuts its output behind the tombstone.
  lemma FirstCompaction(e: Entry)
    ensures GoodInputs(FLUSHED_AGAIN, 1, [SECOND], [FIRST])
    ensures Installed(FLUSHED_AGAIN, 1, [SECOND], [FIRST], [LOWER, NEXT_DOOR], COMPACTED)
    ensures e in LevelEntries([LOWER, NEXT_DOOR]) <==> Survives(FLUSHED_AGAIN, 1, Inputs([SECOND], [FIRST]), e, 1)
  {
    hide GoodInputs, Installed, LevelEntries, Survives, Inputs;
    FirstInputs();
    FirstInstalled();
    FirstKept(e);
  }

  // With the snapshot released, put 5 again; level 2 is in the way again.
  lemma ThirdFlush()
    ensures Added(COMPACTED, 1, UPPER, BEFORE)
    ensures PickedLevel(COMPACTED, 5, 5, GRANDPARENT_BYTES, 1)
  {
    NothingMeets(COMPACTED, 0, 5, 5);
    NothingMeets(COMPACTED, 1, 5, 5);
    assert MeetsUpTo(COMPACTED.levels[2], 0, Some(5), Some(5)) == [];
    assert MeetsUpTo(COMPACTED.levels[2], 1, Some(5), Some(5)) == [LOWER];
    assert FilterMeets(COMPACTED.levels[2], Some(5), Some(5)) == [LOWER];
    assert [LOWER][..0] == [] && TotalFileSize([LOWER]) == 1;
    assert !Blocked(COMPACTED, 0, 5, 5, GRANDPARENT_BYTES);
    assert Meets(LOWER, Some(5), Some(5)) && LOWER in COMPACTED.levels[2];
  }

  lemma InstallsAfter()
    ensures Installed(BEFORE, 1, [UPPER], [LOWER], [OUTPUT], AFTER)
  {
    assert BySmallest(LOWER, NEXT_DOOR) && BySmallest(OUTPUT, NEXT_DOOR);
  }

  // The tree after installing the result; a deleted value is back.
  lemma CompactionCanResurrect()
    ensures Installed(BEFORE, 1, [UPPER], [LOWER], [OUTPUT], AFTER)
    ensures forall e :: e in LevelEntries([OUTPUT]) <==> Survives(BEFORE, 1, Inputs([UPPER], [LOWER]), e, 4)
    ensures LsmInvariant(BEFORE) && GoodInputs(BEFORE, 1, [UPPER], [LOWER])
    ensures ShieldDropped(BEFORE, 1, [UPPER], [LOWER], 4)
    ensures Lookup(Contents(BEFORE), 10, 4) == None && Lookup(Contents(AFTER), 10, 4) == Some("old")
  {
    hide Installed, Survives, Inputs, LsmInvariant, GoodInputs, ShieldDropped, Lookup, Contents, LevelEntries;
    InstallsAfter();
    ReadsDiffer();
    ValidBefore();
    SelectionTakesThese();
    TombstoneShields();
    forall e ensures e in LevelEntries([OUTPUT]) <==> Survives(BEFORE, 1, Inputs([UPPER], [LOWER]), e, 4) {
      KeepsOneRow(e);
    }
  }
}

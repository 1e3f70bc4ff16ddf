/** The installed version, file numbers and sequence numbers, and the atomic step from one
    version to the next (db/version_set.h, db/version_set.cc: LogAndApply). */
module VersionSets {
  import opened DbFormat
  import opened Versions
  import opened VersionBuilder

  const EMPTY_VERSION := Version([[], [], [], [], [], [], []])

  lemma EmptyVersion()
    ensures LsmInvariant(EMPTY_VERSION) && Contents(EMPTY_VERSION) == {}
    ensures forall l :: 0 <= l < NUM_LEVELS ==> EMPTY_VERSION.levels[l] == []
  {
    assert forall l :: 0 <= l < NUM_LEVELS ==> EMPTY_VERSION.levels[l] == [];
    assert forall l :: 0 <= l < NUM_LEVELS ==> LevelEntries(EMPTY_VERSION.levels[l]) == {};
    assert Contents(EMPTY_VERSION) == {};
  }

  ghost predicate FileAt(v: Version, l: nat, f: File) {
    l < |v.levels| && f in v.levels[l]
  }

  // File numbers name files, and all in use were handed out before.
  ghost predicate Numbered(v: Version, next: nat) {
    && (forall l, f :: FileAt(v, l, f) ==> f.number < next)
    && forall l, m, f, g :: FileAt(v, l, f) && FileAt(v, m, g) && f.number == g.number ==> l == m && f == g
  }

  ghost predicate AllOrdered(v: Version) {
    |v.levels| == NUM_LEVELS && forall l :: 0 <= l < NUM_LEVELS ==> Ordered(v.levels[l])
  }

  // The version one edit makes: a builder on the current version, applied and saved.
  method BuildVersion(current: Version, edit: Edit) returns (v: Version)
    requires AllOrdered(current) && WellFormedEdit(edit) && FreshNumbers(current, edit)
    ensures EditApplied(current, edit, v)
  {
    var builder := new Builder(current);
    builder.Apply(edit);
    forall l | 0 <= l < NUM_LEVELS ensures NumbersApart(current.levels[l], builder.levels[l].addedFiles) {
      FreshIsApart(current, edit, l);
    }
    v := builder.SaveTo();
    forall l | 0 <= l < NUM_LEVELS ensures LevelApplied(current.levels[l], edit, l, v.levels[l]) {
      SavedIsApplied(current, edit, l, v.levels[l]);
    }
  }

  class VersionSet {
    var current: Version
    var nextFileNumber: nat
    var lastSequence: SequenceNumber
    var compactPointer: map<nat, InternalKey>

    ghost predicate Valid()
      reads this
    {
      LsmInvariant(current) && AllOrdered(current) && Numbered(current, nextFileNumber)
    }

    constructor ()
      ensures Valid() && current == EMPTY_VERSION && lastSequence == 0
    {
      EmptyVersion();
      current := EMPTY_VERSION;
      nextFileNumber, lastSequence := 2, 0;
      compactPointer := map[];
    }

    method NewFileNumber() returns (n: nat)
      modifies this`nextFileNumber
      ensures n == old(nextFileNumber) && nextFileNumber == n + 1
    {
      n := nextFileNumber;
      nextFileNumber := nextFileNumber + 1;
    }

    // LogAndApply without the manifest write: build the next version and install it.
    method LogAndApply(edit: Edit)
      requires AllOrdered(current) && WellFormedEdit(edit) && FreshNumbers(current, edit)
      modifies this`current
      ensures EditApplied(old(current), edit, current)
    {
      current := BuildVersion(current, edit);
    }
  }

  lemma FreshIsApart(v: Version, edit: Edit, l: nat)
    requires |v.levels| == NUM_LEVELS && l < NUM_LEVELS && FreshNumbers(v, edit)
    ensures NumbersApart(v.levels[l], ApplyLevel(LevelState({}, []), edit, l).addedFiles)
  {
    var added := ApplyLevel(LevelState({}, []), edit, l).addedFiles;
    AddsOnTop(LevelState({} + DeletedAt(edit.deleted, l), []), edit.added, l);
    forall i, j | 0 <= i < |v.levels[l]| && 0 <= j < |added| ensures v.levels[l][i].number != added[j].number {
      assert added[j] in added && v.levels[l][i] in v.levels[l];
      var a := (l, added[j]);
      assert a in edit.added;
    }
  }
}

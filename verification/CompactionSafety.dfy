/** Installing a compaction: the level invariant survives it, and reads survive it exactly
    when it does not drop a tombstone that still shields an unread file of level + 1. */
module CompactionSafety {
  import opened Wrappers
  import opened DbFormat
  import opened Versions
  import opened Overlap
  import opened VersionBuilder
  import opened CompactionInputs

  ghost function Inputs(in0: seq<File>, in1: seq<File>): set<Entry> {
    LevelEntries(in0) + LevelEntries(in1)
  }

  // The version left by deleting the inputs and adding the outputs at level + 1.
  ghost predicate Installed(v: Version, level: nat, in0: seq<File>, in1: seq<File>, outputs: seq<File>, v': Version)
    requires |v.levels| == NUM_LEVELS && level + 1 < NUM_LEVELS
  {
    && |v'.levels| == NUM_LEVELS
    && (forall l :: 0 <= l < NUM_LEVELS && l != level && l != level + 1 ==> v'.levels[l] == v.levels[l])
    && Ordered(v'.levels[level]) && Ordered(v'.levels[level + 1])
    && (forall f :: f in v'.levels[level] <==> f in v.levels[level] && f !in in0)
    && (forall f :: f in v'.levels[level + 1] <==> (f in v.levels[level + 1] && f !in in1) || f in outputs)
  }

  // A compaction's outputs: tables holding only input entries, ascending across files.
  ghost predicate OutputsFrom(input: set<Entry>, outputs: seq<File>) {
    && TablesAscend(outputs) && Disjoint(outputs)
    && LevelEntries(outputs) <= input
  }

  lemma RowOf(fs: seq<File>, f: File, e: Entry)
    requires f in fs && e in f.entries
    ensures e in LevelEntries(fs)
  {
  }

  // ----- what a compaction leaves at its own level is newer than what it takes -----

  lemma RowUserKeys(fs: seq<File>, e: Entry)
    requires fs != [] && TablesAscend(fs) && e in LevelEntries(fs)
    ensures LowestKey(fs).ukey <= e.key.ukey <= HighestKey(fs).ukey
  {
    var f :| f in fs && e in f.entries;
    LowestKeyIsLeast(fs);
    HighestKeyIsGreatest(fs);
    TableBounds(f, e);
  }

  lemma UpperInputsAreOfLevel(v: Version, level: nat, in0: seq<File>, in1: seq<File>)
    requires LsmInvariant(v) && level + 1 < NUM_LEVELS && GoodInputs(v, level, in0, in1)
    ensures TablesAscend(in0) && LevelEntries(in0) <= LevelEntries(v.levels[level])
    ensures forall f :: f in in0 ==> f in v.levels[level]
  {
    if level == 0 {
      FilterMeetsIn(v.levels[0], Low(in0), High(in0));
    }
  }

  lemma LevelVersionsUnique(v: Version, level: nat)
    requires LsmInvariant(v) && level < NUM_LEVELS
    ensures LevelEntries(v.levels[level]) <= Contents(v) && UniqueVersions(LevelEntries(v.levels[level]))
  {
  }

  // Level 0: a file not taken shares no user key with the files taken.
  lemma LeftAtLevelZero(fs: seq<File>, in0: seq<File>, f: File, x: Entry, y: Entry)
    requires TablesAscend(fs) && in0 != [] && in0 == FilterMeets(fs, Low(in0), High(in0))
    requires f in fs && f !in in0 && x in f.entries && y in LevelEntries(in0)
    ensures x.key.ukey != y.key.ukey
  {
    FilterMeetsIn(fs, Low(in0), High(in0));
    RowUserKeys(in0, y);
    TableBounds(f, x);
  }

  // Deeper: a file past the run shares no user key with it, because the run ends at a user key.
  lemma PastRun(fs: seq<File>, c: nat, i: nat, x: Entry, j: nat, y: Entry)
    requires Disjoint(fs) && TablesAscend(fs) && j < c <= i < |fs| && EndsAtUserKey(fs, c)
    requires x in fs[i].entries && y in fs[j].entries
    ensures y.key.ukey < x.key.ukey
  {
    UserKeysAscend(fs);
    TableBounds(fs[i], x);
    TableBounds(fs[j], y);
    assert Less(Largest(fs[c - 1]), Smallest(fs[c]));
  }

  // A file before the run is newer wherever it shares a user key.
  lemma BeforeRun(fs: seq<File>, i: nat, x: Entry, j: nat, y: Entry)
    requires Disjoint(fs) && TablesAscend(fs) && UniqueVersions(LevelEntries(fs)) && i < j < |fs|
    requires x in fs[i].entries && y in fs[j].entries && x.key.ukey == y.key.ukey
    ensures x.key.sn > y.key.sn
  {
    TableBounds(fs[i], x);
    TableBounds(fs[j], y);
    RowOf(fs, fs[i], x);
    RowOf(fs, fs[j], y);
    assert Less(Largest(fs[i]), Smallest(fs[j]));
    assert Less(x.key, y.key);
  }

  lemma LeftOfRun(fs: seq<File>, a: nat, c: nat, i: nat, x: Entry, j: nat, y: Entry)
    requires Disjoint(fs) && TablesAscend(fs) && UniqueVersions(LevelEntries(fs))
    requires a <= j < c <= |fs| && EndsAtUserKey(fs, c) && i < |fs| && (i < a || i >= c)
    requires x in fs[i].entries && y in fs[j].entries && x.key.ukey == y.key.ukey
    ensures x.key.sn > y.key.sn
  {
    if i < a {
      BeforeRun(fs, i, x, j, y);
    } else {
      PastRun(fs, c, i, x, j, y);
    }
  }

  lemma OutsideRun(fs: seq<File>, a: nat, c: nat, f: File) returns (i: nat)
    requires a <= c <= |fs| && f in fs && f !in fs[a..c]
    ensures i < |fs| && fs[i] == f && (i < a || i >= c)
  {
    i :| 0 <= i < |fs| && fs[i] == f;
    assert forall k :: a <= k < c ==> fs[k] in fs[a..c];
  }

  lemma LeftOutsideRun(fs: seq<File>, a: nat, c: nat, in0: seq<File>, f: File, x: Entry, y: Entry)
    requires Disjoint(fs) && TablesAscend(fs) && UniqueVersions(LevelEntries(fs))
    requires a < c <= |fs| && in0 == fs[a..c] && EndsAtUserKey(fs, c)
    requires f in fs && f !in in0 && x in f.entries && y in LevelEntries(in0) && x.key.ukey == y.key.ukey
    ensures x.key.sn > y.key.sn
  {
    var i := OutsideRun(fs, a, c, f);
    var g :| g in in0 && y in g.entries;
    var j :| a <= j < c && fs[j] == g;
    LeftOfRun(fs, a, c, i, x, j, y);
  }

  // What a compaction leaves at its own level is newer than what it takes from there.
  lemma LeftBehindIsNewer(fs: seq<File>, level: nat, in0: seq<File>, left: seq<File>)
    requires TablesAscend(fs) && (level > 0 ==> Disjoint(fs)) && UniqueVersions(LevelEntries(fs))
    requires TakenFrom(fs, level, in0)
    requires forall f :: f in left ==> f in fs && f !in in0
    ensures NewerThan(LevelEntries(left), LevelEntries(in0))
  {
    forall x, y | x in LevelEntries(left) && y in LevelEntries(in0) && x.key.ukey == y.key.ukey
      ensures x.key.sn > y.key.sn
    {
      var f :| f in left && x in f.entries;
      if level == 0 {
        LeftAtLevelZero(fs, in0, f, x, y);
      } else {
        var a, c :| 0 <= a < c <= |fs| && in0 == fs[a..c] && EndsAtUserKey(fs, c);
        LeftOutsideRun(fs, a, c, in0, f, x, y);
      }
    }
  }

  // ----- a file of level + 1 that was not read lies to one side of everything that was -----

  ghost predicate AllAfter(es: set<Entry>, f: File) {
    forall e :: e in es ==> Less(Largest(f), e.key)
  }

  ghost predicate AllBeforeFile(es: set<Entry>, f: File) {
    forall e :: e in es ==> Less(e.key, Smallest(f))
  }

  lemma StartsAndEndsAscend(fs: seq<File>, i: nat, j: nat)
    requires Disjoint(fs) && TablesAscend(fs) && i < j < |fs|
    ensures Smallest(fs[i]).ukey <= Smallest(fs[j]).ukey && Largest(fs[i]).ukey <= Largest(fs[j]).ukey
    ensures Less(Largest(fs[i]), Smallest(fs[j]))
  {
    TableBounds(fs[i], fs[i].entries[0]);
    TableBounds(fs[j], fs[j].entries[0]);
    assert Less(Largest(fs[i]), Smallest(fs[j]));
  }

  lemma UnreadLowerFile(fs: seq<File>, upper: set<Entry>, lo: UserKey, hi: UserKey, f: File)
    requires Disjoint(fs) && TablesAscend(fs) && f in fs && Largest(f).ukey < lo
    requires forall e :: e in upper ==> lo <= e.key.ukey <= hi
    ensures AllAfter(upper + LevelEntries(FilterMeets(fs, Some(lo), Some(hi))), f)
  {
    FilterMeetsIn(fs, Some(lo), Some(hi));
    var j :| 0 <= j < |fs| && fs[j] == f;
    forall e | e in LevelEntries(FilterMeets(fs, Some(lo), Some(hi))) ensures Less(Largest(f), e.key) {
      var g :| g in fs && Meets(g, Some(lo), Some(hi)) && e in g.entries;
      var i :| 0 <= i < |fs| && fs[i] == g;
      TableBounds(g, e);
      if i < j {
        StartsAndEndsAscend(fs, i, j);
      } else if j < i {
        StartsAndEndsAscend(fs, j, i);
      }
    }
  }

  lemma UnreadHigherFile(fs: seq<File>, upper: set<Entry>, lo: UserKey, hi: UserKey, f: File)
    requires Disjoint(fs) && TablesAscend(fs) && f in fs && Smallest(f).ukey > hi
    requires forall e :: e in upper ==> lo <= e.key.ukey <= hi
    ensures AllBeforeFile(upper + LevelEntries(FilterMeets(fs, Some(lo), Some(hi))), f)
  {
    FilterMeetsIn(fs, Some(lo), Some(hi));
    var j :| 0 <= j < |fs| && fs[j] == f;
    forall e | e in LevelEntries(FilterMeets(fs, Some(lo), Some(hi))) ensures Less(e.key, Smallest(f)) {
      var g :| g in fs && Meets(g, Some(lo), Some(hi)) && e in g.entries;
      var i :| 0 <= i < |fs| && fs[i] == g;
      TableBounds(g, e);
      if i < j {
        StartsAndEndsAscend(fs, i, j);
      } else if j < i {
        StartsAndEndsAscend(fs, j, i);
      }
    }
  }

  lemma UnreadFileIsAside(v: Version, level: nat, in0: seq<File>, in1: seq<File>, f: File)
    requires LsmInvariant(v) && level + 1 < NUM_LEVELS && GoodInputs(v, level, in0, in1)
    requires f in v.levels[level + 1] && f !in in1
    ensures AllAfter(Inputs(in0, in1), f) || AllBeforeFile(Inputs(in0, in1), f)
  {
    var fs := v.levels[level + 1];
    var lo, hi := LowestKey(in0).ukey, HighestKey(in0).ukey;
    UpperInputsAreOfLevel(v, level, in0, in1);
    forall e | e in LevelEntries(in0) ensures lo <= e.key.ukey <= hi {
      RowUserKeys(in0, e);
    }
    FilterMeetsIn(fs, Low(in0), High(in0));
    if Largest(f).ukey < lo {
      UnreadLowerFile(fs, LevelEntries(in0), lo, hi, f);
    } else {
      UnreadHigherFile(fs, LevelEntries(in0), lo, hi, f);
    }
  }

  // ----- the invariant after installation -----

  // Ordered files with pairwise disjoint ranges are a valid deeper level.
  lemma OrderedApartIsDisjoint(fs: seq<File>)
    requires Ordered(fs) && TablesAscend(fs)
    requires forall f, g :: f in fs && g in fs && f != g ==>
        Less(Largest(f), Smallest(g)) || Less(Largest(g), Smallest(f))
    ensures Disjoint(fs)
  {
    forall i, j | 0 <= i < j < |fs| ensures Less(Largest(fs[i]), Smallest(fs[j])) {
      assert BySmallest(fs[i], fs[j]) && fs[i] in fs && fs[j] in fs;
      TableBounds(fs[j], fs[j].entries[0]);
    }
  }

  lemma NextLevelDisjoint(v: Version, level: nat, in0: seq<File>, in1: seq<File>, outputs: seq<File>, v': Version)
    requires LsmInvariant(v) && level + 1 < NUM_LEVELS && GoodInputs(v, level, in0, in1)
    requires OutputsFrom(Inputs(in0, in1), outputs) && Installed(v, level, in0, in1, outputs, v')
    ensures TablesAscend(v'.levels[level + 1]) && Disjoint(v'.levels[level + 1])
  {
    var fs, fs' := v.levels[level + 1], v'.levels[level + 1];
    forall f, g | f in fs' && g in fs' && f != g
      ensures Less(Largest(f), Smallest(g)) || Less(Largest(g), Smallest(f))
    {
      if f in outputs && g in outputs {
        var i, j :| 0 <= i < |outputs| && 0 <= j < |outputs| && outputs[i] == f && outputs[j] == g;
      } else if f in outputs {
        OutputVersusUnread(v, level, in0, in1, outputs, f, g);
      } else if g in outputs {
        OutputVersusUnread(v, level, in0, in1, outputs, g, f);
      } else {
        var i, j :| 0 <= i < |fs| && 0 <= j < |fs| && fs[i] == f && fs[j] == g;
      }
    }
    OrderedApartIsDisjoint(fs');
  }

  lemma OutputVersusUnread(v: Version, level: nat, in0: seq<File>, in1: seq<File>, outputs: seq<File>, o: File, g: File)
    requires LsmInvariant(v) && level + 1 < NUM_LEVELS && GoodInputs(v, level, in0, in1)
    requires OutputsFrom(Inputs(in0, in1), outputs) && o in outputs && g in v.levels[level + 1] && g !in in1
    ensures Less(Largest(o), Smallest(g)) || Less(Largest(g), Smallest(o))
  {
    UnreadFileIsAside(v, level, in0, in1, g);
    RowOf(outputs, o, o.entries[0]);
    RowOf(outputs, o, o.entries[|o.entries| - 1]);
  }

  // Removing files keeps a level valid.
  lemma SubLevel(fs: seq<File>, fs': seq<File>, level: nat)
    requires Ordered(fs') && TablesAscend(fs) && forall f :: f in fs' ==> f in fs
    ensures TablesAscend(fs') && LevelEntries(fs') <= LevelEntries(fs)
    ensures NewestByNumber(fs) ==> NewestByNumber(fs')
    ensures Disjoint(fs) ==> Disjoint(fs')
  {
    if NewestByNumber(fs) {
      forall i, j | 0 <= i < j < |fs'| ensures fs'[i].number != fs'[j].number {
        assert BySmallest(fs'[i], fs'[j]) && fs'[i] in fs && fs'[j] in fs;
        var a, b :| 0 <= a < |fs| && 0 <= b < |fs| && fs[a] == fs'[i] && fs[b] == fs'[j];
      }
    }
    if Disjoint(fs) {
      forall f, g | f in fs' && g in fs' && f != g
        ensures Less(Largest(f), Smallest(g)) || Less(Largest(g), Smallest(f))
      {
        var a, b :| 0 <= a < |fs| && 0 <= b < |fs| && fs[a] == f && fs[b] == g;
      }
      OrderedApartIsDisjoint(fs');
    }
  }

  lemma EntriesOfNext(v: Version, level: nat, in0: seq<File>, in1: seq<File>, outputs: seq<File>, v': Version)
    requires LsmInvariant(v) && level + 1 < NUM_LEVELS && GoodInputs(v, level, in0, in1)
    requires OutputsFrom(Inputs(in0, in1), outputs) && Installed(v, level, in0, in1, outputs, v')
    ensures LevelEntries(v'.levels[level + 1]) <= LevelEntries(v.levels[level + 1]) + LevelEntries(in0)
  {
    FilterMeetsIn(v.levels[level + 1], Low(in0), High(in0));
    var before, after := LevelEntries(v.levels[level + 1]) + LevelEntries(in0), LevelEntries(v'.levels[level + 1]);
    forall e | e in after ensures e in before {
      var f :| f in v'.levels[level + 1] && e in f.entries;
      if f in outputs {
        RowOf(outputs, f, e);
        assert e in Inputs(in0, in1);
      } else {
        RowOf(v.levels[level + 1], f, e);
      }
    }
  }

  lemma NewerThanSubsets(a: set<Entry>, b: set<Entry>, c: set<Entry>, a': set<Entry>, b': set<Entry>)
    requires NewerThan(a, b) && NewerThan(a, c) && a' <= a && b' <= b + c
    ensures NewerThan(a', b')
  {
  }

  lemma NewerThanSubsets2(a: set<Entry>, b: set<Entry>, c: set<Entry>, a': set<Entry>, b': set<Entry>)
    requires NewerThan(a, c) && NewerThan(b, c) && a' <= a + b && b' <= c
    ensures NewerThan(a', b')
  {
  }

  lemma LevelsStayLayered(v: Version, level: nat, in0: seq<File>, in1: seq<File>, outputs: seq<File>, v': Version,
                          l: nat, m: nat)
    requires LsmInvariant(v) && level + 1 < NUM_LEVELS && GoodInputs(v, level, in0, in1)
    requires OutputsFrom(Inputs(in0, in1), outputs) && Installed(v, level, in0, in1, outputs, v')
    requires l < m < NUM_LEVELS
    ensures NewerThan(LevelEntries(v'.levels[l]), LevelEntries(v'.levels[m]))
  {
    UpperInputsAreOfLevel(v, level, in0, in1);
    EntriesOfNext(v, level, in0, in1, outputs, v');
    SubLevel(v.levels[level], v'.levels[level], level);
    LevelVersionsUnique(v, level);
    LeftBehindIsNewer(v.levels[level], level, in0, v'.levels[level]);
    var upper, next, taken := LevelEntries(v.levels[level]), LevelEntries(v.levels[level + 1]), LevelEntries(in0);
    var a, b := LevelEntries(v.levels[l]), LevelEntries(v.levels[m]);
    var a', b' := LevelEntries(v'.levels[l]), LevelEntries(v'.levels[m]);
    assert NewerThan(a, b);
    if l == level && m == level + 1 {
      NewerThanSubsets(a', next, taken, a', b');
    } else if m == level + 1 {
      assert NewerThan(a, upper);
      NewerThanSubsets(a, next, taken, a', b');
    } else if l == level + 1 {
      assert NewerThan(upper, b);
      NewerThanSubsets2(next, taken, b, a', b');
    }
  }

  lemma ContentsShrink(v: Version, level: nat, in0: seq<File>, in1: seq<File>, outputs: seq<File>, v': Version)
    requires LsmInvariant(v) && level + 1 < NUM_LEVELS && GoodInputs(v, level, in0, in1)
    requires OutputsFrom(Inputs(in0, in1), outputs) && Installed(v, level, in0, in1, outputs, v')
    ensures Contents(v') <= Contents(v)
  {
    UpperInputsAreOfLevel(v, level, in0, in1);
    EntriesOfNext(v, level, in0, in1, outputs, v');
    SubLevel(v.levels[level], v'.levels[level], level);
    forall e | e in Contents(v') ensures e in Contents(v) {
      var l :| 0 <= l < NUM_LEVELS && e in LevelEntries(v'.levels[l]);
      LevelVersionsUnique(v, l);
      LevelVersionsUnique(v, level);
    }
  }

  lemma LevelStaysSound(v: Version, level: nat, in0: seq<File>, in1: seq<File>, outputs: seq<File>, v': Version, l: nat)
    requires LsmInvariant(v) && level + 1 < NUM_LEVELS && GoodInputs(v, level, in0, in1) && l < NUM_LEVELS
    requires OutputsFrom(Inputs(in0, in1), outputs) && Installed(v, level, in0, in1, outputs, v')
    ensures TablesAscend(v'.levels[l])
    ensures if l == 0 then NewestByNumber(v'.levels[0]) else Disjoint(v'.levels[l])
  {
    hide GoodInputs, OutputsFrom, Inputs, Disjoint, NewestByNumber, TablesAscend, NewerThan, UniqueVersions, Ordered;
    if l == level {
      SubLevel(v.levels[level], v'.levels[level], level);
    } else if l == level + 1 {
      NextLevelDisjoint(v, level, in0, in1, outputs, v');
    }
  }

  // Every compaction the selection code can set up leaves a valid version, whatever was dropped
  // and wherever the outputs were cut.
  lemma CompactionKeepsInvariant(v: Version, level: nat, in0: seq<File>, in1: seq<File>, outputs: seq<File>,
                                 v': Version)
    requires LsmInvariant(v) && level + 1 < NUM_LEVELS && GoodInputs(v, level, in0, in1)
    requires OutputsFrom(Inputs(in0, in1), outputs) && Installed(v, level, in0, in1, outputs, v')
    ensures LsmInvariant(v')
  {
    hide GoodInputs, OutputsFrom, Inputs, Disjoint, NewestByNumber, TablesAscend, NewerThan, UniqueVersions, Ordered;
    hide LevelEntries, Contents;
    ContentsShrink(v, level, in0, in1, outputs, v');
    UniqueInPart(Contents(v), Contents(v'));
    forall l: nat | l < NUM_LEVELS
      ensures TablesAscend(v'.levels[l]) && if l == 0 then NewestByNumber(v'.levels[0]) else Disjoint(v'.levels[l])
    {
      LevelStaysSound(v, level, in0, in1, outputs, v', l);
    }
    forall l, m | 0 <= l < m < NUM_LEVELS
      ensures NewerThan(LevelEntries(v'.levels[l]), LevelEntries(v'.levels[m]))
    {
      LevelsStayLayered(v, level, in0, in1, outputs, v', l, m);
    }
  }
}

/** Installing a flushed memtable at the level PickLevelForMemTableOutput chose. */
module FlushSafety {
  import opened Wrappers
  import opened DbFormat
  import opened Versions
  import opened Overlap
  import opened VersionBuilder
  import opened CompactionSafety

  ghost predicate Added(v: Version, level: nat, f: File, v': Version)
    requires |v.levels| == NUM_LEVELS && level < NUM_LEVELS
  {
    && |v'.levels| == NUM_LEVELS
    && (forall l :: 0 <= l < NUM_LEVELS && l != level ==> v'.levels[l] == v.levels[l])
    && Ordered(v'.levels[level])
    && (forall g :: g in v'.levels[level] <==> g in v.levels[level] || g == f)
  }

  // Below level 0 the file meets no file on the way down; at level 0 it has the largest number.
  ghost predicate FitsAt(v: Version, level: nat, f: File)
    requires |v.levels| == NUM_LEVELS && level < NUM_LEVELS
  {
    && (level > 0 ==> forall l: nat :: l <= level ==> !LevelMeets(v, l, Smallest(f).ukey, Largest(f).ukey))
    && (level == 0 ==> forall g :: g in v.levels[0] ==> g.number < f.number)
  }

  lemma EntriesAfterAdd(v: Version, level: nat, f: File, v': Version)
    requires |v.levels| == NUM_LEVELS && level < NUM_LEVELS && Added(v, level, f, v')
    ensures LevelEntries(v'.levels[level]) == LevelEntries(v.levels[level]) + Rows(f)
    ensures Contents(v') == Contents(v) + Rows(f)
  {
    var level', old' := LevelEntries(v'.levels[level]), LevelEntries(v.levels[level]) + Rows(f);
    forall e | e in level' ensures e in old' {
      var g :| g in v'.levels[level] && e in g.entries;
    }
    forall e | e in old' ensures e in level' {
      if e in Rows(f) {
        RowOf(v'.levels[level], f, e);
      } else {
        var g :| g in v.levels[level] && e in g.entries;
        RowOf(v'.levels[level], g, e);
      }
    }
    assert level' == old';
    var after, before := Contents(v'), Contents(v) + Rows(f);
    forall e | e in after ensures e in before {
      var l :| 0 <= l < |v'.levels| && e in LevelEntries(v'.levels[l]);
    }
    forall e | e in before ensures e in after {
      if e in Rows(f) {
        assert e in LevelEntries(v'.levels[level]);
      } else {
        var l :| 0 <= l < |v.levels| && e in LevelEntries(v.levels[l]);
        assert e in LevelEntries(v'.levels[l]);
      }
    }
  }

  // A level that does not meet the file shares no user key with it.
  lemma UnmetLevelIsApart(fs: seq<File>, f: File, a: Entry, b: Entry)
    requires TablesAscend(fs) && Ascending(f.entries)
    requires forall g :: g in fs ==> !Meets(g, Some(Smallest(f).ukey), Some(Largest(f).ukey))
    requires a in LevelEntries(fs) && b in f.entries
    ensures a.key.ukey != b.key.ukey
  {
    var g :| g in fs && a in g.entries;
    TableBounds(g, a);
    TableBounds(f, b);
  }

  lemma AddedLevelDisjoint(fs: seq<File>, f: File, fs': seq<File>)
    requires Disjoint(fs) && TablesAscend(fs) && Ascending(f.entries) && Ordered(fs')
    requires forall g :: g in fs' <==> g in fs || g == f
    requires forall g :: g in fs ==> !Meets(g, Some(Smallest(f).ukey), Some(Largest(f).ukey))
    ensures Disjoint(fs')
  {
    assert TablesAscend(fs');
    forall g, h | g in fs' && h in fs' && g != h
      ensures Less(Largest(g), Smallest(h)) || Less(Largest(h), Smallest(g))
    {
      if g in fs && h in fs {
        var i, j :| 0 <= i < |fs| && 0 <= j < |fs| && fs[i] == g && fs[j] == h;
        assert i < j ==> Less(Largest(fs[i]), Smallest(fs[j]));
        assert j < i ==> Less(Largest(fs[j]), Smallest(fs[i]));
      } else {
        TableBounds(f, f.entries[0]);
      }
    }
    OrderedApartIsDisjoint(fs');
  }

  lemma AddedLevelZero(fs: seq<File>, f: File, fs': seq<File>)
    requires NewestByNumber(fs) && Ordered(fs')
    requires forall g :: g in fs' <==> g in fs || g == f
    requires forall g :: g in fs ==> g.number < f.number
    requires NewerThan(Rows(f), LevelEntries(fs))
    ensures NewestByNumber(fs')
  {
    forall g, h | g in fs' && h in fs' && g.number > h.number ensures NewerThan(Rows(g), Rows(h)) {
      if h != f && g == f {
        forall e | e in Rows(h) ensures e in LevelEntries(fs) {
          RowOf(fs, h, e);
        }
      }
    }
    forall i, j | 0 <= i < j < |fs'| ensures fs'[i].number != fs'[j].number {
      assert BySmallest(fs'[i], fs'[j]) && fs'[i] in fs' && fs'[j] in fs';
      if fs'[i] != f && fs'[j] != f {
        var a, b :| 0 <= a < |fs| && 0 <= b < |fs| && fs[a] == fs'[i] && fs[b] == fs'[j];
      }
    }
  }

  lemma FlushStaysLayered(v: Version, level: nat, f: File, v': Version, l: nat, m: nat)
    requires LsmInvariant(v) && level < NUM_LEVELS && Ascending(f.entries)
    requires FitsAt(v, level, f) && Added(v, level, f, v') && NewerThan(Rows(f), Contents(v)) && l < m < NUM_LEVELS
    ensures NewerThan(LevelEntries(v'.levels[l]), LevelEntries(v'.levels[m]))
  {
    EntriesAfterAdd(v, level, f, v');
    var a, b := LevelEntries(v.levels[l]), LevelEntries(v.levels[m]);
    assert NewerThan(a, b);
    if l == level {
      assert b <= Contents(v);
    } else if m == level {
      forall x, y | x in a && y in Rows(f) ensures x.key.ukey != y.key.ukey {
        assert !LevelMeets(v, l, Smallest(f).ukey, Largest(f).ukey);
        UnmetLevelIsApart(v.levels[l], f, x, y);
      }
    }
  }

  lemma FlushedLevelIsSorted(v: Version, level: nat, f: File, v': Version)
    requires LsmInvariant(v) && level < NUM_LEVELS && Ascending(f.entries)
    requires FitsAt(v, level, f) && Added(v, level, f, v') && NewerThan(Rows(f), Contents(v))
    ensures TablesAscend(v'.levels[level])
    ensures if level == 0 then NewestByNumber(v'.levels[0]) else Disjoint(v'.levels[level])
  {
    if level == 0 {
      LevelVersionsUnique(v, level);
      AddedLevelZero(v.levels[0], f, v'.levels[0]);
    } else {
      assert !LevelMeets(v, level, Smallest(f).ukey, Largest(f).ukey);
      AddedLevelDisjoint(v.levels[level], f, v'.levels[level]);
    }
  }

  // A flushed memtable, newer than everything on disk, lands on a valid version.
  lemma FlushKeepsInvariant(v: Version, level: nat, f: File, v': Version)
    requires LsmInvariant(v) && level < NUM_LEVELS && Ascending(f.entries)
    requires FitsAt(v, level, f) && Added(v, level, f, v')
    requires NewerThan(Rows(f), Contents(v)) && UniqueVersions(Contents(v) + Rows(f))
    ensures LsmInvariant(v') && Contents(v') == Contents(v) + Rows(f)
  {
    hide Disjoint, NewestByNumber, TablesAscend, NewerThan, UniqueVersions, Ordered, FitsAt, LevelEntries;
    EntriesAfterAdd(v, level, f, v');
    FlushedLevelIsSorted(v, level, f, v');
    hide Contents;
    forall l, m | 0 <= l < m < NUM_LEVELS
      ensures NewerThan(LevelEntries(v'.levels[l]), LevelEntries(v'.levels[m]))
    {
      FlushStaysLayered(v, level, f, v', l, m);
    }
  }

  // The level PickLevelForMemTableOutput chooses is one the table fits at, so the flush is safe.
  lemma FlushAtPickedLevelKeepsInvariant(v: Version, f: File, maxGrandparentBytes: nat, level: nat, v': Version)
    requires LsmInvariant(v) && Ascending(f.entries)
    requires PickedLevel(v, Smallest(f).ukey, Largest(f).ukey, maxGrandparentBytes, level) && Added(v, level, f, v')
    requires forall g :: g in v.levels[0] ==> g.number < f.number
    requires NewerThan(Rows(f), Contents(v)) && UniqueVersions(Contents(v) + Rows(f))
    ensures LsmInvariant(v') && Contents(v') == Contents(v) + Rows(f)
  {
    assert FitsAt(v, level, f);
    FlushKeepsInvariant(v, level, f, v');
  }
}

/** What a compaction does to reads. */
module CompactionReads {
  import opened Wrappers
  import opened DbFormat
  import opened Versions
  import opened Overlap
  import opened CompactionInputs
  import opened CompactionWork
  import opened CompactionSafety

  // ----- on bare sets -----

  // The newest version of `k` at `s` is dropped although an older, unread version is a live value.
  ghost predicate Uncovers(rest: set<Entry>, input: set<Entry>, kept: set<Entry>, k: UserKey, s: SequenceNumber) {
    && Lookup(rest, k, s).Some?
    && exists n :: Newest(rest + input, k, s, n) && n in input && n !in kept
  }

  // `kept` obeys the two drop rules.
  ghost predicate DropsByRule(input: set<Entry>, kept: set<Entry>, snap: SequenceNumber) {
    && kept <= input
    && (forall e :: e in kept ==> !Hidden(input, e, snap))
    && (forall e :: e in input && e !in kept ==> Hidden(input, e, snap) || (e.key.kind.Deletion? && e.key.sn <= snap))
  }

  lemma SameNewest(a: set<Entry>, b: set<Entry>, k: UserKey, s: SequenceNumber)
    requires UniqueVersions(a) && UniqueVersions(b)
    requires forall e :: Visible(e, k, s) ==> (e in a <==> e in b)
    ensures Lookup(a, k, s) == Lookup(b, k, s)
  {
    if e :| Newest(a, k, s, e) {
      assert Visible(e, k, s);
      forall x | x in b && x.key.ukey == k && x.key.sn <= s ensures x.key.sn <= e.key.sn {
        assert Visible(x, k, s);
      }
      assert Newest(b, k, s, e);
      LookupIs(a, k, s, e);
      LookupIs(b, k, s, e);
    } else {
      if e :| Newest(b, k, s, e) {
        assert Visible(e, k, s) && e in a;
        NewestExists(a, k, s, e);
      }
    }
  }

  // If the newest version survives, so does the read.
  lemma ReadKeepsNewest(whole: set<Entry>, part: set<Entry>, k: UserKey, s: SequenceNumber, n: Entry)
    requires UniqueVersions(whole) && part <= whole && Newest(whole, k, s, n) && n in part
    ensures Lookup(part, k, s) == Lookup(whole, k, s)
  {
    assert Newest(part, k, s, n);
    LookupIs(whole, k, s, n);
    LookupIs(part, k, s, n);
  }

  // At every snapshot from `snap` on, a read changes exactly when a value is uncovered.
  lemma ReadsAfterDropping(rest: set<Entry>, input: set<Entry>, kept: set<Entry>, snap: SequenceNumber, k: UserKey,
                           s: SequenceNumber)
    requires UniqueVersions(rest + input) && rest !! input && DropsByRule(input, kept, snap) && s >= snap
    ensures Lookup(rest + kept, k, s) == Lookup(rest + input, k, s) <==> !Uncovers(rest, input, kept, k, s)
  {
    var whole, part := rest + input, rest + kept;
    if n :| Newest(whole, k, s, n) {
      if n in part {
        ReadKeepsNewest(whole, part, k, s, n);
        forall m | Newest(whole, k, s, m) ensures m == n {
        }
      } else {
        assert n in input && n !in kept && !Hidden(input, n, snap);
        LookupIs(whole, k, s, n);
        forall e | Visible(e, k, s) ensures e in part <==> e in rest {
          assert e in input && e != n ==> Hidden(input, e, snap);
        }
        SameNewest(part, rest, k, s);
      }
    } else {
      forall e | Visible(e, k, s) ensures e !in whole {
        if e in whole {
          NewestExists(whole, k, s, e);
        }
      }
      SameNewest(part, whole, k, s);
    }
  }

  // ----- on versions -----

  ghost predicate Unread(level: nat, in0: seq<File>, in1: seq<File>, l: nat, f: File) {
    !(l == level && f in in0) && !(l == level + 1 && f in in1)
  }

  ghost function Rest(v: Version, level: nat, in0: seq<File>, in1: seq<File>): set<Entry> {
    set l, f, e | 0 <= l < |v.levels| && f in v.levels[l] && Unread(level, in0, in1, l, f) && e in f.entries :: e
  }

  // What the invariant says of one level.
  lemma LevelFacts(v: Version, l: nat)
    requires LsmInvariant(v) && l < NUM_LEVELS
    ensures |v.levels| == NUM_LEVELS && TablesAscend(v.levels[l]) && UniqueVersions(LevelEntries(v.levels[l]))
    ensures if l == 0 then NewestByNumber(v.levels[0]) else Disjoint(v.levels[l])
  {
    LevelVersionsUnique(v, l);
  }

  lemma LevelsShareNothing(v: Version, l: nat, m: nat)
    requires LsmInvariant(v) && l < m < NUM_LEVELS
    ensures LevelEntries(v.levels[l]) !! LevelEntries(v.levels[m])
  {
    assert NewerThan(LevelEntries(v.levels[l]), LevelEntries(v.levels[m]));
  }

  lemma SameLevelOneHome(fs: seq<File>, l: nat, f: File, g: File, e: Entry)
    requires TablesAscend(fs) && (l == 0 ==> NewestByNumber(fs)) && (l > 0 ==> Disjoint(fs))
    requires f in fs && g in fs && e in f.entries && e in g.entries
    ensures f == g
  {
    var i, j :| 0 <= i < |fs| && 0 <= j < |fs| && fs[i] == f && fs[j] == g;
    TableBounds(f, e);
    TableBounds(g, e);
    assert e in Rows(f) && e in Rows(g);
    if l > 0 {
      assert i < j ==> Less(Largest(fs[i]), Smallest(fs[j]));
      assert j < i ==> Less(Largest(fs[j]), Smallest(fs[i]));
    }
  }

  // No entry is stored twice.
  lemma OneHome(v: Version, l: nat, f: File, m: nat, g: File, e: Entry)
    requires LsmInvariant(v) && l < NUM_LEVELS && m < NUM_LEVELS
    requires f in v.levels[l] && g in v.levels[m] && e in f.entries && e in g.entries
    ensures l == m && f == g
  {
    RowOf(v.levels[l], f, e);
    RowOf(v.levels[m], g, e);
    if l < m {
      LevelsShareNothing(v, l, m);
    } else if m < l {
      LevelsShareNothing(v, m, l);
    } else {
      SameLevelOneHome(v.levels[l], l, f, g, e);
    }
  }

  lemma InputHome(v: Version, level: nat, in0: seq<File>, in1: seq<File>, e: Entry) returns (l: nat, f: File)
    requires LsmInvariant(v) && level + 1 < NUM_LEVELS && GoodInputs(v, level, in0, in1) && e in Inputs(in0, in1)
    ensures l < NUM_LEVELS && f in v.levels[l] && e in f.entries && !Unread(level, in0, in1, l, f)
    ensures l == level <==> e in LevelEntries(in0)
  {
    InputsAreOfLevels(v, level, in0, in1);
    hide LsmInvariant, GoodInputs;
    if e in LevelEntries(in0) {
      l := level;
      f :| f in in0 && e in f.entries;
    } else {
      l := level + 1;
      f :| f in in1 && e in f.entries;
    }
  }

  lemma InputsAreOfLevels(v: Version, level: nat, in0: seq<File>, in1: seq<File>)
    requires LsmInvariant(v) && level + 1 < NUM_LEVELS && GoodInputs(v, level, in0, in1)
    ensures |v.levels| == NUM_LEVELS
    ensures (forall f :: f in in0 ==> f in v.levels[level]) && (forall f :: f in in1 ==> f in v.levels[level + 1])
  {
    UpperInputsAreOfLevel(v, level, in0, in1);
    hide LsmInvariant, TakenFrom;
    FilterMeetsIn(v.levels[level + 1], Low(in0), High(in0));
    hide FilterMeets, Meets;
  }

  lemma RestApart(v: Version, level: nat, in0: seq<File>, in1: seq<File>)
    requires LsmInvariant(v) && level + 1 < NUM_LEVELS && GoodInputs(v, level, in0, in1)
    ensures Rest(v, level, in0, in1) !! Inputs(in0, in1)
  {
    var rest, input := Rest(v, level, in0, in1), Inputs(in0, in1);
    forall e | e in rest ensures e !in input {
      var l, f :| 0 <= l < |v.levels| && f in v.levels[l] && Unread(level, in0, in1, l, f) && e in f.entries;
      if e in input {
        var m, g := InputHome(v, level, in0, in1, e);
        OneHome(v, l, f, m, g, e);
      }
    }
  }

  lemma ContentsSplit(v: Version, level: nat, in0: seq<File>, in1: seq<File>)
    requires LsmInvariant(v) && level + 1 < NUM_LEVELS && GoodInputs(v, level, in0, in1)
    ensures Contents(v) == Rest(v, level, in0, in1) + Inputs(in0, in1)
  {
    var whole, rest, input := Contents(v), Rest(v, level, in0, in1), Inputs(in0, in1);
    hide LsmInvariant, GoodInputs, Contents, Rest, Inputs;
    forall e | e in rest ensures e in whole {
      RestIsStored(v, level, in0, in1, e);
    }
    forall e | e in input ensures e in whole {
      InputIsStored(v, level, in0, in1, e);
    }
    forall e | e in whole ensures e in rest + input {
      StoredIsRestOrInput(v, level, in0, in1, e);
    }
  }

  lemma RestIsStored(v: Version, level: nat, in0: seq<File>, in1: seq<File>, e: Entry)
    requires e in Rest(v, level, in0, in1)
    ensures e in Contents(v)
  {
    var l, f :| 0 <= l < |v.levels| && f in v.levels[l] && Unread(level, in0, in1, l, f) && e in f.entries;
    RowOf(v.levels[l], f, e);
  }

  lemma InputIsStored(v: Version, level: nat, in0: seq<File>, in1: seq<File>, e: Entry)
    requires LsmInvariant(v) && level + 1 < NUM_LEVELS && GoodInputs(v, level, in0, in1) && e in Inputs(in0, in1)
    ensures e in Contents(v)
  {
    LevelFacts(v, level);
    var l, f := InputHome(v, level, in0, in1, e);
    hide LsmInvariant, GoodInputs, Inputs;
    RowOf(v.levels[l], f, e);
  }

  lemma StoredIsRestOrInput(v: Version, level: nat, in0: seq<File>, in1: seq<File>, e: Entry)
    requires e in Contents(v)
    ensures e in Rest(v, level, in0, in1) || e in Inputs(in0, in1)
  {
    var l :| 0 <= l < |v.levels| && e in LevelEntries(v.levels[l]);
    var f :| f in v.levels[l] && e in f.entries;
    if !Unread(level, in0, in1, l, f) {
      RowOf(if l == level && f in in0 then in0 else in1, f, e);
    }
  }

  lemma ContentsAfter(v: Version, level: nat, in0: seq<File>, in1: seq<File>, outputs: seq<File>, v': Version)
    requires LsmInvariant(v) && level + 1 < NUM_LEVELS && Installed(v, level, in0, in1, outputs, v')
    ensures Contents(v') == Rest(v, level, in0, in1) + LevelEntries(outputs)
  {
    var after, rest, out := Contents(v'), Rest(v, level, in0, in1), LevelEntries(outputs);
    forall e | e in after ensures e in rest + out {
      var l :| 0 <= l < |v'.levels| && e in LevelEntries(v'.levels[l]);
      var f :| f in v'.levels[l] && e in f.entries;
      if l == level + 1 && f in outputs {
        RowOf(outputs, f, e);
      } else {
        assert f in v.levels[l] && Unread(level, in0, in1, l, f);
      }
    }
    forall e | e in rest ensures e in after {
      var l, f :| 0 <= l < |v.levels| && f in v.levels[l] && Unread(level, in0, in1, l, f) && e in f.entries;
      assert f in v'.levels[l];
      RowOf(v'.levels[l], f, e);
    }
    forall e | e in out ensures e in after {
      var f :| f in outputs && e in f.entries;
      RowOf(v'.levels[level + 1], f, e);
    }
  }

  // ----- the exact condition -----

  // The first file of level + 1 past the inputs begins with a value of a user key whose newest
  // version at `snap` is an obsolete tombstone among the inputs.
  ghost predicate ShieldDropped(v: Version, level: nat, in0: seq<File>, in1: seq<File>, snap: SequenceNumber)
    requires |v.levels| == NUM_LEVELS && level + 1 < NUM_LEVELS
  {
    exists c, n :: ShieldDroppedAt(v, level, in0, in1, snap, c, n)
  }

  ghost predicate ShieldDroppedAt(v: Version, level: nat, in0: seq<File>, in1: seq<File>, snap: SequenceNumber,
                                  c: nat, n: Entry)
    requires |v.levels| == NUM_LEVELS && level + 1 < NUM_LEVELS
  {
    var fs := v.levels[level + 1];
    && |in1| <= c < |fs| && in1 == fs[c - |in1|..c]
    && fs[c].entries[0].key.kind.Put?
    && Newest(Contents(v), Smallest(fs[c]).ukey, snap, n)
    && n in Inputs(in0, in1) && Obsolete(v, level, n, snap)
  }

  lemma ShallowerIsNewer(v: Version, l: nat, f: File, x: Entry, m: nat, g: File, y: Entry)
    requires LsmInvariant(v) && l < m < NUM_LEVELS && f in v.levels[l] && g in v.levels[m]
    requires x in f.entries && y in g.entries && x.key.ukey == y.key.ukey
    ensures x.key.sn > y.key.sn
  {
    RowOf(v.levels[l], f, x);
    RowOf(v.levels[m], g, y);
    assert NewerThan(LevelEntries(v.levels[l]), LevelEntries(v.levels[m]));
  }

  lemma LeftIsNewer(v: Version, level: nat, in0: seq<File>, in1: seq<File>, f: File, x: Entry, y: Entry)
    requires LsmInvariant(v) && level + 1 < NUM_LEVELS && GoodInputs(v, level, in0, in1)
    requires f in v.levels[level] && f !in in0 && x in f.entries && y in LevelEntries(in0) && x.key.ukey == y.key.ukey
    ensures x.key.sn > y.key.sn
  {
    LevelVersionsUnique(v, level);
    LeftBehindIsNewer(v.levels[level], level, in0, [f]);
    RowOf([f], f, x);
  }

  lemma SharedWithUpperIsRead(v: Version, level: nat, in0: seq<File>, in1: seq<File>, f: File, x: Entry, y: Entry)
    requires LsmInvariant(v) && level + 1 < NUM_LEVELS && GoodInputs(v, level, in0, in1)
    requires f in v.levels[level + 1] && x in f.entries && y in LevelEntries(in0) && x.key.ukey == y.key.ukey
    ensures f in in1
  {
    UpperInputsAreOfLevel(v, level, in0, in1);
    RowUserKeys(in0, y);
    TableBounds(f, x);
    FilterMeetsIn(v.levels[level + 1], Low(in0), High(in0));
  }

  lemma RowIsCovered(v: Version, l: nat, f: File, x: Entry)
    requires LsmInvariant(v) && l < NUM_LEVELS && f in v.levels[l] && x in f.entries
    ensures Covers(f, x.key.ukey)
  {
    TableBounds(f, x);
  }

  // An unread older version under an obsolete input tombstone can only sit in level + 1, with the
  // tombstone read from level + 1 as well.
  lemma OlderUnreadHome(v: Version, level: nat, in0: seq<File>, in1: seq<File>, snap: SequenceNumber, n: Entry,
                        x: Entry)
    returns (f: File)
    requires LsmInvariant(v) && level + 1 < NUM_LEVELS && GoodInputs(v, level, in0, in1)
    requires n in Inputs(in0, in1) && Obsolete(v, level, n, snap)
    requires x in Rest(v, level, in0, in1) && x.key.ukey == n.key.ukey && x.key.sn < n.key.sn
    ensures f in v.levels[level + 1] && f !in in1 && x in f.entries && n in LevelEntries(in1)
  {
    var l;
    l, f :| 0 <= l < |v.levels| && f in v.levels[l] && Unread(level, in0, in1, l, f) && x in f.entries;
    var m, g := InputHome(v, level, in0, in1, n);
    if l < m {
      ShallowerIsNewer(v, l, f, x, m, g, n);
    } else if l == level {
      LeftIsNewer(v, level, in0, in1, f, x, n);
    } else if l >= level + 2 {
      RowIsCovered(v, l, f, x);
    } else if m == level {
      SharedWithUpperIsRead(v, level, in0, in1, f, x, n);
    }
  }

  // Within level + 1 it lies past the inputs, and the file right behind them starts with a version
  // of the same user key at least as new.
  lemma OlderUnreadIsNextDoor(fs: seq<File>, a: nat, c: nat, f: File, n: Entry, x: Entry)
    requires Disjoint(fs) && TablesAscend(fs) && UniqueVersions(LevelEntries(fs)) && a <= c <= |fs|
    requires n in LevelEntries(fs[a..c]) && f in fs && f !in fs[a..c] && x in f.entries
    requires x.key.ukey == n.key.ukey && x.key.sn < n.key.sn
    ensures c < |fs| && fs[c] !in fs[a..c]
    ensures var r := fs[c].entries[0]; r.key.ukey == n.key.ukey && x.key.sn <= r.key.sn < n.key.sn
  {
    var g :| g in fs[a..c] && n in g.entries;
    var i :| a <= i < c && fs[i] == g;
    var j := OutsideRun(fs, a, c, f);
    if j < a {
      BeforeRun(fs, j, x, i, n);
    } else {
      StraddlingFile(fs, i, n, c, j, x);
      forall k | a <= k < c ensures fs[k] != fs[c] {
        DistinctFiles(fs, k, c);
      }
    }
  }

  lemma DistinctFiles(fs: seq<File>, i: nat, j: nat)
    requires Disjoint(fs) && TablesAscend(fs) && i < j < |fs|
    ensures fs[i] != fs[j]
  {
    TableBounds(fs[i], fs[i].entries[0]);
  }

  lemma StraddlingFile(fs: seq<File>, i: nat, n: Entry, c: nat, j: nat, x: Entry)
    requires Disjoint(fs) && TablesAscend(fs) && UniqueVersions(LevelEntries(fs)) && i < c <= j < |fs|
    requires n in fs[i].entries && x in fs[j].entries && x.key.ukey == n.key.ukey
    ensures var r := fs[c].entries[0]; r.key.ukey == n.key.ukey && x.key.sn <= r.key.sn < n.key.sn
  {
    var r := fs[c].entries[0];
    UserKeysAscend(fs);
    TableBounds(fs[i], n);
    TableBounds(fs[j], x);
    assert r in fs[c].entries;
    BeforeRun(fs, i, n, c, r);
    if c < j {
      BeforeRun(fs, c, r, j, x);
    } else {
      assert !Less(x.key, r.key);
    }
  }

  lemma UnreadRow(v: Version, level: nat, in0: seq<File>, in1: seq<File>, f: File, e: Entry)
    requires LsmInvariant(v) && level + 1 < NUM_LEVELS && f in v.levels[level + 1] && f !in in1 && e in f.entries
    ensures e in Rest(v, level, in0, in1)
  {
    assert Unread(level, in0, in1, level + 1, f);
  }

  // Every unread version older than an obsolete input tombstone is outdone by the first row of the
  // file right behind the inputs.
  lemma NextDoorRow(v: Version, level: nat, in0: seq<File>, in1: seq<File>, snap: SequenceNumber, n: Entry, x: Entry,
                    a: nat, c: nat)
    requires LsmInvariant(v) && level + 1 < NUM_LEVELS && GoodInputs(v, level, in0, in1)
    requires n in Inputs(in0, in1) && Obsolete(v, level, n, snap)
    requires x in Rest(v, level, in0, in1) && x.key.ukey == n.key.ukey && x.key.sn < n.key.sn
    requires a <= c <= |v.levels[level + 1]| && in1 == v.levels[level + 1][a..c]
    ensures c < |v.levels[level + 1]| && v.levels[level + 1][c] !in in1
    ensures var r := v.levels[level + 1][c].entries[0];
            r.key.ukey == n.key.ukey && x.key.sn <= r.key.sn < n.key.sn
  {
    hide LsmInvariant, GoodInputs, Obsolete, Rest, Inputs, Disjoint, TablesAscend, UniqueVersions;
    LevelFacts(v, level + 1);
    var f := OlderUnreadHome(v, level, in0, in1, snap, n, x);
    OlderUnreadIsNextDoor(v.levels[level + 1], a, c, f, n, x);
  }

  // `kept` is what the merge loop keeps of the inputs.
  ghost predicate KeptBy(v: Version, level: nat, input: set<Entry>, snap: SequenceNumber, kept: set<Entry>)
    requires |v.levels| == NUM_LEVELS
  {
    forall e :: e in kept <==> Survives(v, level, input, e, snap)
  }

  // Nothing is kept that can go: of the versions every snapshot sees only the newest of each user key,
  // and no tombstone among them whose user key no file further down covers.
  lemma KeptIsLean(v: Version, level: nat, input: set<Entry>, snap: SequenceNumber, kept: set<Entry>)
    requires |v.levels| == NUM_LEVELS && UniqueVersions(input) && KeptBy(v, level, input, snap, kept)
    ensures forall a, b ::
              a in kept && b in kept && a.key.ukey == b.key.ukey && a.key.sn <= snap && b.key.sn <= snap ==> a == b
    ensures forall e :: e in kept && e.key.sn <= snap && e.key.kind.Deletion? ==>
              exists l, f :: level + 2 <= l < NUM_LEVELS && f in v.levels[l] && Covers(f, e.key.ukey)
    ensures forall e :: e in input && e.key.sn > snap ==> e in kept
  {
    forall a, b | a in kept && b in kept && a.key.ukey == b.key.ukey && a.key.sn <= snap && b.key.sn <= snap
      ensures a == b
    {
      assert !Hidden(input, a, snap) && !Hidden(input, b, snap);
    }
  }

  // An uncovered value hides behind a tombstone the newest read would have returned.
  lemma UncoveredPair(rest: set<Entry>, input: set<Entry>, kept: set<Entry>, snap: SequenceNumber, k: UserKey,
                      s: SequenceNumber)
    returns (n: Entry, x: Entry)
    requires UniqueVersions(rest + input) && rest !! input && DropsByRule(input, kept, snap) && s >= snap
    requires Uncovers(rest, input, kept, k, s)
    ensures Newest(rest + input, k, s, n) && Newest(rest + input, k, snap, n) && n in input && n !in kept
    ensures !Hidden(input, n, snap)
    ensures Newest(rest, k, s, x) && x.key.kind.Put? && x.key.sn < n.key.sn
  {
    n :| Newest(rest + input, k, s, n) && n in input && n !in kept;
    x :| Newest(rest, k, s, x) && x.key.kind.Put?;
    assert x in rest + input && x != n;
  }

  lemma UncoveringNeedsShield(v: Version, level: nat, in0: seq<File>, in1: seq<File>, kept: set<Entry>,
                              snap: SequenceNumber, k: UserKey, s: SequenceNumber)
    requires LsmInvariant(v) && level + 1 < NUM_LEVELS && GoodInputs(v, level, in0, in1)
    requires KeptBy(v, level, Inputs(in0, in1), snap, kept) && DropsByRule(Inputs(in0, in1), kept, snap) && s >= snap
    requires Uncovers(Rest(v, level, in0, in1), Inputs(in0, in1), kept, k, s)
    ensures ShieldDropped(v, level, in0, in1, snap)
  {
    ContentsSplit(v, level, in0, in1);
    RestApart(v, level, in0, in1);
    var n, x := UncoveredPair(Rest(v, level, in0, in1), Inputs(in0, in1), kept, snap, k, s);
    assert Obsolete(v, level, n, snap);
    ShieldFound(v, level, in0, in1, snap, s, n, x);
  }

  lemma LowerRun(v: Version, level: nat, in0: seq<File>, in1: seq<File>) returns (a: nat, c: nat)
    requires LsmInvariant(v) && level + 1 < NUM_LEVELS && GoodInputs(v, level, in0, in1)
    ensures |v.levels| == NUM_LEVELS && a <= c <= |v.levels[level + 1]| && in1 == v.levels[level + 1][a..c]
  {
    LevelFacts(v, level + 1);
    hide LsmInvariant;
    a, c := FilterIsRun(v.levels[level + 1], Low(in0), High(in0));
  }

  // The value uncovered is the first row behind the inputs.
  lemma NextDoorIsUncovered(v: Version, level: nat, in0: seq<File>, in1: seq<File>, snap: SequenceNumber,
                            s: SequenceNumber, n: Entry, x: Entry, a: nat, c: nat)
    requires LsmInvariant(v) && level + 1 < NUM_LEVELS && GoodInputs(v, level, in0, in1)
    requires a <= c <= |v.levels[level + 1]| && in1 == v.levels[level + 1][a..c]
    requires n in Inputs(in0, in1) && Obsolete(v, level, n, snap)
    requires Newest(Rest(v, level, in0, in1), n.key.ukey, s, x) && x.key.sn < n.key.sn <= s
    requires Rest(v, level, in0, in1) <= Contents(v)
    ensures c < |v.levels[level + 1]|
    ensures v.levels[level + 1][c].entries[0] == x
  {
    var rest := Rest(v, level, in0, in1);
    assert x in rest && x.key.ukey == n.key.ukey;
    ContentsUnique(v);
    hide *;
    NextDoorRow(v, level, in0, in1, snap, n, x, a, c);
    var f := v.levels[level + 1][c];
    UnreadRow(v, level, in0, in1, f, f.entries[0]);
    SameRow(Contents(v), rest, n.key.ukey, s, x, f.entries[0]);
  }

  lemma ShieldFound(v: Version, level: nat, in0: seq<File>, in1: seq<File>, snap: SequenceNumber, s: SequenceNumber,
                    n: Entry, x: Entry)
    requires LsmInvariant(v) && level + 1 < NUM_LEVELS && GoodInputs(v, level, in0, in1)
    requires n in Inputs(in0, in1) && Obsolete(v, level, n, snap) && Newest(Contents(v), n.key.ukey, snap, n)
    requires Newest(Rest(v, level, in0, in1), n.key.ukey, s, x) && x.key.kind.Put? && x.key.sn < n.key.sn <= s
    requires Rest(v, level, in0, in1) <= Contents(v)
    ensures ShieldDropped(v, level, in0, in1, snap)
  {
    assert x.key.ukey == n.key.ukey;
    hide *;
    var a, c := LowerRun(v, level, in0, in1);
    NextDoorIsUncovered(v, level, in0, in1, snap, s, n, x, a, c);
    ShieldIs(v, level, in0, in1, snap, n, a, c);
  }

  lemma ShieldIs(v: Version, level: nat, in0: seq<File>, in1: seq<File>, snap: SequenceNumber, n: Entry, a: nat, c: nat)
    requires |v.levels| == NUM_LEVELS && level + 1 < NUM_LEVELS
    requires var fs := v.levels[level + 1];
             && a <= c < |fs| && in1 == fs[a..c]
             && fs[c].entries[0].key.ukey == n.key.ukey && fs[c].entries[0].key.kind.Put?
    requires n in Inputs(in0, in1) && Obsolete(v, level, n, snap) && Newest(Contents(v), n.key.ukey, snap, n)
    ensures ShieldDropped(v, level, in0, in1, snap)
  {
    hide Inputs, Obsolete, Newest, Contents;
    assert c - |in1| == a;
    assert ShieldDroppedAt(v, level, in0, in1, snap, c, n);
  }

  lemma ContentsUnique(v: Version)
    requires LsmInvariant(v)
    ensures UniqueVersions(Contents(v))
  {
  }

  lemma SameRow(whole: set<Entry>, rest: set<Entry>, k: UserKey, s: SequenceNumber, x: Entry, r: Entry)
    requires UniqueVersions(whole) && rest <= whole && Newest(rest, k, s, x)
    requires r in rest && r.key.ukey == k && x.key.sn <= r.key.sn <= s
    ensures r == x
  {
  }

  lemma NextDoorIsUnread(fs: seq<File>, a: nat, c: nat)
    requires Disjoint(fs) && TablesAscend(fs) && a <= c < |fs|
    ensures fs[c] !in fs[a..c]
  {
    forall k | a <= k < c ensures fs[k] != fs[c] {
      DistinctFiles(fs, k, c);
    }
  }

  lemma NextDoorIsOlder(fs: seq<File>, a: nat, c: nat, n: Entry, r: Entry)
    requires Disjoint(fs) && TablesAscend(fs) && UniqueVersions(LevelEntries(fs)) && a <= c < |fs|
    requires n in LevelEntries(fs[a..c]) && r in fs[c].entries && r.key.ukey == n.key.ukey
    ensures r.key.sn < n.key.sn
  {
    var g :| g in fs[a..c] && n in g.entries;
    var i :| a <= i < c && fs[i] == g;
    hide Disjoint, TablesAscend, UniqueVersions, LevelEntries;
    BeforeRun(fs, i, n, c, r);
  }

  lemma InputSide(in0: seq<File>, in1: seq<File>, n: Entry)
    requires n in Inputs(in0, in1)
    ensures n in LevelEntries(in0) || (in1 != [] && n in LevelEntries(in1))
  {
  }

  lemma SmallestIsFirst(f: File)
    ensures Smallest(f).ukey == f.entries[0].key.ukey && f.entries[0] in f.entries
  {
  }

  lemma NextLevelFacts(v: Version, level: nat)
    requires LsmInvariant(v) && level + 1 < NUM_LEVELS
    ensures |v.levels| == NUM_LEVELS
    ensures var fs := v.levels[level + 1]; Disjoint(fs) && TablesAscend(fs) && UniqueVersions(LevelEntries(fs))
  {
    LevelFacts(v, level + 1);
  }

  // The first row behind the inputs is unread and older than the tombstone in front of it.
  lemma ShieldedRow(v: Version, level: nat, in0: seq<File>, in1: seq<File>, n: Entry, c: nat)
    requires LsmInvariant(v) && level + 1 < NUM_LEVELS && GoodInputs(v, level, in0, in1) && n in Inputs(in0, in1)
    requires var fs := v.levels[level + 1];
             |in1| <= c < |fs| && in1 == fs[c - |in1|..c] && Smallest(fs[c]).ukey == n.key.ukey
    ensures v.levels[level + 1][c] !in in1 && v.levels[level + 1][c].entries[0].key.sn < n.key.sn
  {
    hide *;
    NextLevelFacts(v, level);
    var fs, a := v.levels[level + 1], c - |in1|;
    SmallestIsFirst(fs[c]);
    NextDoorIsUnread(fs, a, c);
    InputSide(in0, in1, n);
    if n in LevelEntries(in0) {
      assert fs[c] in fs;
      SharedWithUpperIsRead(v, level, in0, in1, fs[c], fs[c].entries[0], n);
    } else {
      NextDoorIsOlder(fs, a, c, n, fs[c].entries[0]);
    }
  }

  lemma ShieldUncovers(v: Version, level: nat, in0: seq<File>, in1: seq<File>, kept: set<Entry>, snap: SequenceNumber,
                       c: nat, n: Entry)
    requires LsmInvariant(v) && level + 1 < NUM_LEVELS && GoodInputs(v, level, in0, in1)
    requires KeptBy(v, level, Inputs(in0, in1), snap, kept)
    requires ShieldDroppedAt(v, level, in0, in1, snap, c, n)
    ensures Uncovers(Rest(v, level, in0, in1), Inputs(in0, in1), kept, n.key.ukey, snap)
  {
    ContentsSplit(v, level, in0, in1);
    RestApart(v, level, in0, in1);
    ShieldRowIsNewest(v, level, in0, in1, snap, c, n);
    var r := v.levels[level + 1][c].entries[0];
    UniqueInPart(Contents(v), Rest(v, level, in0, in1));
    LookupIs(Rest(v, level, in0, in1), n.key.ukey, snap, r);
    assert n !in kept;
  }

  lemma ShieldFacts(v: Version, level: nat, in0: seq<File>, in1: seq<File>, snap: SequenceNumber, c: nat, n: Entry)
    requires LsmInvariant(v) && level + 1 < NUM_LEVELS && ShieldDroppedAt(v, level, in0, in1, snap, c, n)
    ensures |v.levels| == NUM_LEVELS && UniqueVersions(Contents(v))
    ensures var fs := v.levels[level + 1];
            && |in1| <= c < |fs| && in1 == fs[c - |in1|..c]
            && Smallest(fs[c]).ukey == n.key.ukey == fs[c].entries[0].key.ukey && fs[c].entries[0] in fs[c].entries
            && fs[c] in fs
    ensures n in Inputs(in0, in1) && Obsolete(v, level, n, snap) && n.key.sn <= snap
    ensures Newest(Contents(v), n.key.ukey, snap, n)
  {
    hide Inputs, Obsolete, UniqueVersions, Contents, Disjoint, TablesAscend, NewerThan, LevelEntries;
  }

  lemma NewestFrom(es: set<Entry>, k: UserKey, s: SequenceNumber, e: Entry)
    requires e in es && e.key.ukey == k && e.key.sn <= s
    requires forall x :: x in es && x.key.ukey == k && x.key.sn <= s ==> x.key.sn <= e.key.sn
    ensures Newest(es, k, s, e)
  {
  }

  lemma ShieldRowIsNewest(v: Version, level: nat, in0: seq<File>, in1: seq<File>, snap: SequenceNumber, c: nat,
                          n: Entry)
    requires LsmInvariant(v) && level + 1 < NUM_LEVELS && GoodInputs(v, level, in0, in1)
    requires ShieldDroppedAt(v, level, in0, in1, snap, c, n)
    requires Rest(v, level, in0, in1) <= Contents(v) && n !in Rest(v, level, in0, in1)
    ensures Newest(Rest(v, level, in0, in1), n.key.ukey, snap, v.levels[level + 1][c].entries[0])
  {
    hide *;
    ShieldFacts(v, level, in0, in1, snap, c, n);
    var rest, f := Rest(v, level, in0, in1), v.levels[level + 1][c];
    ShieldedRow(v, level, in0, in1, n, c);
    UnreadRow(v, level, in0, in1, f, f.entries[0]);
    forall x | x in rest && x.key.ukey == n.key.ukey && x.key.sn <= snap
      ensures x.key.sn <= f.entries[0].key.sn
    {
      OlderThanNewest(Contents(v), snap, n, x);
      NextDoorRow(v, level, in0, in1, snap, n, x, c - |in1|, c);
    }
    NewestFrom(rest, n.key.ukey, snap, f.entries[0]);
  }

  lemma OlderThanNewest(whole: set<Entry>, s: SequenceNumber, n: Entry, x: Entry)
    requires UniqueVersions(whole) && Newest(whole, n.key.ukey, s, n) && x in whole && x != n
    requires x.key.ukey == n.key.ukey && x.key.sn <= s
    ensures x.key.sn < n.key.sn
  {
  }

  // The compaction theorem. Replacing the inputs by what the merge loop keeps leaves the read of
  // every user key at every snapshot from `snap` on unchanged -- if and only if no shield is
  // dropped.
  lemma CompactionPreservesReads(v: Version, level: nat, in0: seq<File>, in1: seq<File>, outputs: seq<File>,
                                 v': Version, snap: SequenceNumber)
    requires LsmInvariant(v) && level + 1 < NUM_LEVELS && GoodInputs(v, level, in0, in1)
    requires KeptBy(v, level, Inputs(in0, in1), snap, LevelEntries(outputs))
    requires Installed(v, level, in0, in1, outputs, v')
    ensures (forall k, s: SequenceNumber :: s >= snap ==> Lookup(Contents(v'), k, s) == Lookup(Contents(v), k, s))
            <==> !ShieldDropped(v, level, in0, in1, snap)
  {
    var rest, input, kept := Rest(v, level, in0, in1), Inputs(in0, in1), LevelEntries(outputs);
    ContentsSplit(v, level, in0, in1);
    RestApart(v, level, in0, in1);
    ContentsAfter(v, level, in0, in1, outputs, v');
    assert DropsByRule(input, kept, snap);
    forall k, s: SequenceNumber | s >= snap
      ensures Lookup(Contents(v'), k, s) == Lookup(Contents(v), k, s) <==> !Uncovers(rest, input, kept, k, s)
      ensures Uncovers(rest, input, kept, k, s) ==> ShieldDropped(v, level, in0, in1, snap)
    {
      ReadsAfterDropping(rest, input, kept, snap, k, s);
      if Uncovers(rest, input, kept, k, s) {
        UncoveringNeedsShield(v, level, in0, in1, kept, snap, k, s);
      }
    }
    if ShieldDropped(v, level, in0, in1, snap) {
      var c, n :| ShieldDroppedAt(v, level, in0, in1, snap, c, n);
      ShieldUncovers(v, level, in0, in1, kept, snap, c, n);
    }
  }

  // Closing the lower inputs at a user key, as the upper inputs are closed, rules the failure out.
  lemma BoundaryClosedLowerInputsAreSafe(v: Version, level: nat, in0: seq<File>, in1: seq<File>, snap: SequenceNumber,
                                         c: nat)
    requires LsmInvariant(v) && level + 1 < NUM_LEVELS && GoodInputs(v, level, in0, in1)
    requires |in1| <= c <= |v.levels[level + 1]| && in1 == v.levels[level + 1][c - |in1|..c]
    requires EndsAtUserKey(v.levels[level + 1], c)
    ensures !ShieldDropped(v, level, in0, in1, snap)
  {
    assert |v.levels| == NUM_LEVELS;
    if ShieldDropped(v, level, in0, in1, snap) {
      var d, n :| ShieldDroppedAt(v, level, in0, in1, snap, d, n);
      hide *;
      ShieldAt(v, level, in0, in1, snap, d, n);
      ShieldedRow(v, level, in0, in1, n, d);
      NoShieldPastBoundary(v, level, in0, in1, n, c, d);
    }
  }

  lemma ShieldAt(v: Version, level: nat, in0: seq<File>, in1: seq<File>, snap: SequenceNumber, d: nat, n: Entry)
    requires |v.levels| == NUM_LEVELS && level + 1 < NUM_LEVELS && ShieldDroppedAt(v, level, in0, in1, snap, d, n)
    ensures n in Inputs(in0, in1)
    ensures var fs := v.levels[level + 1];
            |in1| <= d < |fs| && in1 == fs[d - |in1|..d] && Smallest(fs[d]).ukey == n.key.ukey
  {
    hide Contents, Inputs, Obsolete;
  }

  lemma NoShieldPastBoundary(v: Version, level: nat, in0: seq<File>, in1: seq<File>, n: Entry, c: nat, d: nat)
    requires LsmInvariant(v) && level + 1 < NUM_LEVELS && GoodInputs(v, level, in0, in1) && n in Inputs(in0, in1)
    requires var fs := v.levels[level + 1];
             && |in1| <= c <= |fs| && in1 == fs[c - |in1|..c] && EndsAtUserKey(fs, c)
             && |in1| <= d < |fs| && in1 == fs[d - |in1|..d] && fs[d] !in in1
    ensures n.key.ukey != Smallest(v.levels[level + 1][d]).ukey
  {
    hide *;
    NextLevelFacts(v, level);
    var fs := v.levels[level + 1];
    if n.key.ukey == Smallest(fs[d]).ukey {
      SmallestIsFirst(fs[d]);
      InputSide(in0, in1, n);
      if n in LevelEntries(in0) {
        assert fs[d] in fs;
        SharedWithUpperIsRead(v, level, in0, in1, fs[d], fs[d].entries[0], n);
      } else {
        SameRun(fs, c - |in1|, c, d - |in1|, d);
        RunEndsBelow(fs, c - |in1|, c, n);
      }
    }
  }

  lemma RunEndsBelow(fs: seq<File>, a: nat, c: nat, n: Entry)
    requires Disjoint(fs) && TablesAscend(fs) && a <= c < |fs| && EndsAtUserKey(fs, c) && n in LevelEntries(fs[a..c])
    ensures n.key.ukey < Smallest(fs[c]).ukey
  {
    var g :| g in fs[a..c] && n in g.entries;
    var i :| a <= i < c && fs[i] == g;
    PastRun(fs, c, c, fs[c].entries[0], i, n);
  }

  lemma SameRun(fs: seq<File>, a: nat, c: nat, b: nat, d: nat)
    requires Disjoint(fs) && TablesAscend(fs) && a < c <= |fs| && b < d <= |fs| && fs[a..c] == fs[b..d]
    ensures a == b && c == d
  {
    assert fs[a..c][0] == fs[b..d][0];
    if a < b {
      DistinctFiles(fs, a, b);
    } else if b < a {
      DistinctFiles(fs, b, a);
    }
    assert |fs[a..c]| == |fs[b..d]|;
  }
}

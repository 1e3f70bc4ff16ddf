/** One immutable version of the tree: seven levels of table files, the invariant its
    levels keep, and the level-by-level read (db/version_set.cc, db/version_set.h). */
module Versions {
  import opened Wrappers
  import opened DbFormat

  const NUM_LEVELS: nat := 7

  // FileMetaData together with the rows of the table it names. The builders set `smallest`
  // and `largest` to the first and last key they write, so both are read off the rows.
  datatype RawFile = File(number: nat, size: nat, entries: seq<Entry>)

  type File = f: RawFile | f.entries != [] witness File(0, 0, [Entry(InternalKey(0, 0, Put), "")])

  function Smallest(f: File): InternalKey {
    f.entries[0].key
  }

  function Largest(f: File): InternalKey {
    f.entries[|f.entries| - 1].key
  }

  datatype Version = Version(levels: seq<seq<File>>)

  ghost function LevelEntries(fs: seq<File>): set<Entry> {
    set f, e | f in fs && e in f.entries :: e
  }

  ghost function Rows(f: File): set<Entry> {
    set e | e in f.entries
  }

  ghost function Contents(v: Version): set<Entry> {
    set l, e | 0 <= l < |v.levels| && e in LevelEntries(v.levels[l]) :: e
  }

  // Wherever both hold a user key, every version in `a` is newer than every version in `b`.
  ghost predicate NewerThan(a: set<Entry>, b: set<Entry>) {
    forall x, y :: x in a && y in b && x.key.ukey == y.key.ukey ==> x.key.sn > y.key.sn
  }

  // Files of a level >= 1: ascending and disjoint as internal-key ranges.
  ghost predicate Disjoint(fs: seq<File>) {
    forall i, j {:trigger Less(Largest(fs[i]), Smallest(fs[j]))} ::
      0 <= i < j < |fs| ==> Less(Largest(fs[i]), Smallest(fs[j]))
  }

  // Files of level 0: told apart by number, a larger number holding newer versions.
  ghost predicate NewestByNumber(fs: seq<File>) {
    && (forall i, j :: 0 <= i < j < |fs| ==> fs[i].number != fs[j].number)
    && (forall f, g :: f in fs && g in fs && f.number > g.number ==> NewerThan(Rows(f), Rows(g)))
  }

  ghost predicate TablesAscend(fs: seq<File>) {
    forall f :: f in fs ==> Ascending(f.entries)
  }

  // The invariant of every version the database installs.
  ghost predicate LsmInvariant(v: Version) {
    && |v.levels| == NUM_LEVELS
    && (forall l :: 0 <= l < NUM_LEVELS ==> TablesAscend(v.levels[l]))
    && NewestByNumber(v.levels[0])
    && (forall l :: 1 <= l < NUM_LEVELS ==> Disjoint(v.levels[l]))
    && (forall l, m :: 0 <= l < m < NUM_LEVELS ==> NewerThan(LevelEntries(v.levels[l]), LevelEntries(v.levels[m])))
    && UniqueVersions(Contents(v))
  }

  lemma TableBounds(f: File, e: Entry)
    requires Ascending(f.entries) && e in f.entries
    ensures LessEq(Smallest(f), e.key) && LessEq(e.key, Largest(f))
  {
  }

  // ----- one table -----

  // Position of the first row at or after `key`: where the table iterator's Seek lands.
  function LowerBound(es: seq<Entry>, key: InternalKey): (i: nat)
    ensures i <= |es|
    ensures forall j :: 0 <= j < i ==> Less(es[j].key, key)
    ensures i < |es| ==> !Less(es[i].key, key)
  {
    if es == [] || !Less(es[0].key, key) then 0 else 1 + LowerBound(es[1..], key)
  }

  // MemTable::Get and TableCache::Get with SaveValue: the row Seek lands on counts only if its
  // user key matches.
  function RunGet(es: seq<Entry>, k: UserKey, s: SequenceNumber): Option<Entry> {
    var i := LowerBound(es, SeekKey(k, s));
    if i < |es| && es[i].key.ukey == k then Some(es[i]) else None
  }

  function TableGet(f: File, k: UserKey, s: SequenceNumber): Option<Entry> {
    RunGet(f.entries, k, s)
  }

  lemma RunGetIsNewest(es: seq<Entry>, k: UserKey, s: SequenceNumber)
    requires Ascending(es)
    ensures match RunGet(es, k, s)
            case None => forall x :: x in es && x.key.ukey == k ==> x.key.sn > s
            case Some(e) => Newest(AsSet(es), k, s, e)
  {
    var i := LowerBound(es, SeekKey(k, s));
    forall x | x in es && x.key.ukey == k && x.key.sn <= s
      ensures i < |es| && es[i].key.ukey == k && x.key.sn <= es[i].key.sn
    {
      SeekKeySplitsVersions(k, s, x.key);
      var j :| 0 <= j < |es| && es[j] == x;
      assert j >= i;
      assert i < j ==> Less(es[i].key, x.key);
    }
  }

  lemma TableGetIsNewest(f: File, k: UserKey, s: SequenceNumber)
    requires Ascending(f.entries)
    ensures match TableGet(f, k, s)
            case None => forall x :: x in f.entries && x.key.ukey == k ==> x.key.sn > s
            case Some(e) => Newest(Rows(f), k, s, e)
  {
    RunGetIsNewest(f.entries, k, s);
  }

  // ----- file search -----

  // FindFile: index of the first file whose largest key is at or after `key`.
  method FindFile(fs: seq<File>, key: InternalKey) returns (right: nat)
    requires Disjoint(fs) && TablesAscend(fs)
    ensures right <= |fs|
    ensures forall i :: 0 <= i < right ==> Less(Largest(fs[i]), key)
    ensures forall i :: right <= i < |fs| ==> !Less(Largest(fs[i]), key)
  {
    LargestAscend(fs);
    var left := 0;
    right := |fs|;
    while left < right
      invariant 0 <= left <= right <= |fs|
      invariant forall i :: 0 <= i < left ==> Less(Largest(fs[i]), key)
      invariant forall i :: right <= i < |fs| ==> !Less(Largest(fs[i]), key)
    {
      var mid := (left + right) / 2;
      if Less(Largest(fs[mid]), key) {
        left := mid + 1;
      } else {
        right := mid;
      }
    }
  }

  lemma LargestAscend(fs: seq<File>)
    requires Disjoint(fs) && TablesAscend(fs)
    ensures forall i, j :: 0 <= i < j < |fs| ==> Less(Largest(fs[i]), Largest(fs[j]))
  {
    forall i, j | 0 <= i < j < |fs| ensures Less(Largest(fs[i]), Largest(fs[j])) {
      assert fs[j] in fs && fs[j].entries[0] in fs[j].entries;
      assert Less(Largest(fs[i]), Smallest(fs[j]));
      TableBounds(fs[j], fs[j].entries[0]);
    }
  }

  // The file FindFile picks holds, for every visible version in the level, one at least as new.
  lemma FoundFileHoldsNewest(fs: seq<File>, k: UserKey, s: SequenceNumber, right: nat, f: File, e: Entry)
    requires Disjoint(fs) && TablesAscend(fs) && right <= |fs|
    requires forall i :: 0 <= i < right ==> Less(Largest(fs[i]), SeekKey(k, s))
    requires right < |fs| ==> !Less(Largest(fs[right]), SeekKey(k, s))
    requires f in fs && e in f.entries && e.key.ukey == k && e.key.sn <= s
    ensures right < |fs| && k >= Smallest(fs[right]).ukey
    ensures exists x :: x in fs[right].entries && x.key.ukey == k && e.key.sn <= x.key.sn <= s
  {
    var j :| 0 <= j < |fs| && fs[j] == f;
    TableBounds(f, e);
    assert !Less(e.key, SeekKey(k, s));
    assert j >= right;
    if right < j {
      var g := fs[right];
      assert g in fs;
      TableBounds(g, g.entries[0]);
      assert Less(Largest(g), Smallest(fs[j]));
      var x := g.entries[|g.entries| - 1];
      assert x in g.entries;
    }
  }

  // ----- Version::Get -----

  predicate Covers(f: File, k: UserKey) {
    Smallest(f).ukey <= k <= Largest(f).ukey
  }

  // std::sort with NewestFirst: descending file numbers.
  function SortNewestFirst(fs: seq<File>): (r: seq<File>)
    ensures forall f :: f in r <==> f in fs
    ensures forall i, j :: 0 <= i < j < |r| ==> r[i].number >= r[j].number
  {
    if fs == [] then [] else InsertByNumber(fs[0], SortNewestFirst(fs[1..]))
  }

  function InsertByNumber(f: File, fs: seq<File>): (r: seq<File>)
    requires forall i, j :: 0 <= i < j < |fs| ==> fs[i].number >= fs[j].number
    ensures forall g :: g in r <==> g == f || g in fs
    ensures forall i, j :: 0 <= i < j < |r| ==> r[i].number >= r[j].number
  {
    if fs == [] || f.number >= fs[0].number then [f] + fs
    else
      var rest := InsertByNumber(f, fs[1..]);
      assert forall j :: 0 <= j < |rest| ==> rest[j] in rest;
      [fs[0]] + rest
  }

  ghost predicate Visible(e: Entry, k: UserKey, s: SequenceNumber) {
    e.key.ukey == k && e.key.sn <= s
  }

  // Some file of the list holds a visible version of k at least as new as `e`.
  ghost predicate Beaten(files: seq<File>, k: UserKey, s: SequenceNumber, e: Entry) {
    exists i, x :: 0 <= i < |files| && x in files[i].entries && Visible(x, k, s) && e.key.sn <= x.key.sn
  }

  // `files`, in this order, is a complete search list for (k, s) in `level`.
  ghost predicate SearchList(v: Version, level: nat, k: UserKey, s: SequenceNumber, files: seq<File>)
    requires LsmInvariant(v) && level < NUM_LEVELS
  {
    && (forall f :: f in files ==> f in v.levels[level])
    && (forall f, e :: f in v.levels[level] && e in f.entries && Visible(e, k, s) ==> Beaten(files, k, s, e))
    && (forall i, j :: 0 <= i < j < |files| ==> NewerThan(Rows(files[i]), Rows(files[j])) || files[i] == files[j])
  }

  // Level 0: every file whose user-key range covers k, newest number first.
  method LevelZeroFiles(v: Version, k: UserKey, ghost s: SequenceNumber) returns (files: seq<File>)
    requires LsmInvariant(v)
    ensures SearchList(v, 0, k, s, files)
  {
    var tmp: seq<File> := [];
    var all := v.levels[0];
    for i := 0 to |all|
      invariant forall f :: f in tmp <==> f in all[..i] && Covers(f, k)
    {
      if Covers(all[i], k) {
        tmp := tmp + [all[i]];
      }
    }
    assert all[..|all|] == all;
    files := SortNewestFirst(tmp);
    forall f, e | f in all && e in f.entries && Visible(e, k, s)
      ensures Beaten(files, k, s, e)
    {
      TableBounds(f, e);
      assert f in files;
    }
    forall i, j | 0 <= i < j < |files|
      ensures NewerThan(Rows(files[i]), Rows(files[j])) || files[i] == files[j]
    {
      assert files[i] in all && files[j] in all;
    }
  }

  // Deeper levels: the single file binary search lands on, if k is not before its start.
  method DeepLevelFile(v: Version, level: nat, k: UserKey, s: SequenceNumber) returns (files: seq<File>)
    requires LsmInvariant(v) && 1 <= level < NUM_LEVELS
    ensures SearchList(v, level, k, s, files)
  {
    var fs := v.levels[level];
    var index := FindFile(fs, SeekKey(k, s));
    files := if index < |fs| && k >= Smallest(fs[index]).ukey then [fs[index]] else [];
    forall f, e | f in fs && e in f.entries && Visible(e, k, s)
      ensures Beaten(files, k, s, e)
    {
      FoundFileHoldsNewest(fs, k, s, index, f, e);
      assert files[0] == fs[index];
    }
  }

  // No version of k visible at s lies in levels above `level`.
  ghost predicate AbsentAbove(v: Version, level: nat, k: UserKey, s: SequenceNumber)
    requires |v.levels| == NUM_LEVELS && level <= NUM_LEVELS
  {
    forall l, x :: 0 <= l < level && x in LevelEntries(v.levels[l]) ==> !Visible(x, k, s)
  }

  ghost predicate AbsentBefore(files: seq<File>, i: nat, k: UserKey, s: SequenceNumber)
    requires i <= |files|
  {
    forall j, x :: 0 <= j < i && x in files[j].entries ==> !Visible(x, k, s)
  }

  lemma NothingBeats(files: seq<File>, k: UserKey, s: SequenceNumber, e: Entry)
    requires AbsentBefore(files, |files|, k, s)
    ensures !Beaten(files, k, s, e)
  {
  }

  lemma LevelHasNone(v: Version, level: nat, k: UserKey, s: SequenceNumber, files: seq<File>)
    requires LsmInvariant(v) && level < NUM_LEVELS && AbsentAbove(v, level, k, s)
    requires SearchList(v, level, k, s, files) && AbsentBefore(files, |files|, k, s)
    ensures AbsentAbove(v, level + 1, k, s)
  {
    forall l, x | 0 <= l < level + 1 && x in LevelEntries(v.levels[l]) ensures !Visible(x, k, s) {
      if l == level {
        var f :| f in v.levels[level] && x in f.entries;
        NothingBeats(files, k, s, x);
      }
    }
  }

  lemma FirstHitBeats(files: seq<File>, i: nat, k: UserKey, s: SequenceNumber, e: Entry, x: Entry)
    requires i < |files| && AbsentBefore(files, i, k, s) && Newest(Rows(files[i]), k, s, e)
    requires forall a, b :: 0 <= a < b < |files| ==> NewerThan(Rows(files[a]), Rows(files[b])) || files[a] == files[b]
    requires Beaten(files, k, s, x)
    ensures x.key.sn <= e.key.sn
  {
    var j, y :| 0 <= j < |files| && y in files[j].entries && Visible(y, k, s) && x.key.sn <= y.key.sn;
    assert y in Rows(files[j]) && e in Rows(files[i]);
    assert j >= i;
  }

  lemma FoundIsNewest(v: Version, level: nat, k: UserKey, s: SequenceNumber, files: seq<File>, i: nat, e: Entry)
    requires LsmInvariant(v) && level < NUM_LEVELS && AbsentAbove(v, level, k, s)
    requires SearchList(v, level, k, s, files) && i < |files| && AbsentBefore(files, i, k, s)
    requires Newest(Rows(files[i]), k, s, e)
    ensures Newest(Contents(v), k, s, e)
  {
    assert files[i] in v.levels[level] && e in files[i].entries;
    assert e in LevelEntries(v.levels[level]);
    forall x | x in Contents(v) && Visible(x, k, s)
      ensures x.key.sn <= e.key.sn
    {
      var l :| 0 <= l < |v.levels| && x in LevelEntries(v.levels[l]);
      if l == level {
        var f :| f in v.levels[l] && x in f.entries;
        FirstHitBeats(files, i, k, s, e, x);
      } else if l > level {
        assert NewerThan(LevelEntries(v.levels[level]), LevelEntries(v.levels[l]));
      } else {
        assert false;
      }
    }
  }

  lemma AbsentEverywhere(v: Version, k: UserKey, s: SequenceNumber)
    requires |v.levels| == NUM_LEVELS && AbsentAbove(v, NUM_LEVELS, k, s)
    ensures Lookup(Contents(v), k, s) == None
  {
    forall x | x in Contents(v) && x.key.ukey == k ensures x.key.sn > s {
      var l :| 0 <= l < NUM_LEVELS && x in LevelEntries(v.levels[l]);
      assert !Visible(x, k, s);
    }
    LookupAbsent(Contents(v), k, s);
  }

  // Version::Get: newest level-0 file first, then one file per deeper level, stopping at the
  // first table that answers. It computes the flat specification.
  method Get(v: Version, k: UserKey, s: SequenceNumber) returns (r: Option<Value>)
    requires LsmInvariant(v)
    ensures r == Lookup(Contents(v), k, s)
  {
    hide NewestByNumber, Disjoint, NewerThan, UniqueVersions, Contents, LevelEntries, Lookup, Newest;
    var level := 0;
    while level < NUM_LEVELS
      invariant level <= NUM_LEVELS
      invariant AbsentAbove(v, level, k, s)
    {
      var files;
      if level == 0 {
        files := LevelZeroFiles(v, k, s);
      } else {
        files := DeepLevelFile(v, level, k, s);
      }
      var i := 0;
      while i < |files|
        invariant i <= |files|
        invariant AbsentBefore(files, i, k, s)
      {
        assert files[i] in v.levels[level];
        TableGetIsNewest(files[i], k, s);
        var found := TableGet(files[i], k, s);
        if found.Some? {
          FoundIsNewest(v, level, k, s, files, i, found.value);
          LookupIs(Contents(v), k, s, found.value);
          return if found.value.key.kind.Put? then Some(found.value.value) else None;
        }
        i := i + 1;
      }
      LevelHasNone(v, level, k, s, files);
      level := level + 1;
    }
    AbsentEverywhere(v, k, s);
    return None;
  }
}

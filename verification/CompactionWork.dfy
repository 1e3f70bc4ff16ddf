/** Running a compaction: which entries survive, and what that does to reads
    (db/db_impl.cc: DoCompactionWork; db/version_set.cc: IsBaseLevelForKey, ShouldStopBefore). */
module CompactionWork {
  import opened Wrappers
  import opened DbFormat
  import opened Versions
  import opened Overlap

  // No file below `level + 1` covers the user key.
  ghost predicate BaseLevel(v: Version, level: nat, k: UserKey)
    requires |v.levels| == NUM_LEVELS
  {
    forall l, f :: level + 2 <= l < NUM_LEVELS && f in v.levels[l] ==> !Covers(f, k)
  }

  ghost predicate DeepLevelsSorted(v: Version) {
    && |v.levels| == NUM_LEVELS
    && forall l :: 1 <= l < NUM_LEVELS ==> Disjoint(v.levels[l]) && TablesAscend(v.levels[l])
  }

  // ----- where an output ends -----

  // What an output may meet two levels further down, and how long it may get; `soFar` and `whole`
  // stand for the bytes a table of such entries takes while it is built, and in the end.
  datatype Limits =
    Limits(maxGrandparentBytes: nat, maxOutputBytes: nat, soFar: seq<Entry> -> nat, whole: seq<Entry> -> nat)

  // How many of the files, from the first on, end before `k`.
  function EndBefore(fs: seq<File>, k: InternalKey): (n: nat)
    ensures n <= |fs|
  {
    if fs == [] || !Less(Largest(fs[0]), k) then 0 else 1 + EndBefore(fs[1..], k)
  }

  lemma {:induction false} EndBeforeIs(fs: seq<File>, k: InternalKey, n: nat)
    requires n <= |fs| && (n < |fs| ==> !Less(Largest(fs[n]), k))
    requires forall i :: 0 <= i < n ==> Less(Largest(fs[i]), k)
    ensures EndBefore(fs, k) == n
  {
    if n > 0 {
      EndBeforeIs(fs[1..], k, n - 1);
    }
  }

  lemma {:induction false} EndBeforeGrows(fs: seq<File>, a: InternalKey, b: InternalKey)
    requires a == b || Less(a, b)
    ensures EndBefore(fs, a) <= EndBefore(fs, b)
  {
    if fs != [] && Less(Largest(fs[0]), a) {
      EndBeforeGrows(fs[1..], a, b);
    }
  }

  lemma {:induction false} SizesInside(fs: seq<File>, a: nat, b: nat, c: nat, d: nat)
    requires a <= b <= c <= d <= |fs|
    ensures TotalFileSize(fs[b..c]) <= TotalFileSize(fs[a..d])
  {
    hide TotalFileSize;
    assert fs[a..c] == fs[a..b] + fs[b..c] && fs[a..d] == fs[a..c] + fs[c..d];
    SizesAdd(fs[a..b], fs[b..c]);
    SizesAdd(fs[a..c], fs[c..d]);
  }

  lemma OneMore(fs: seq<File>, a: nat, b: nat)
    requires a <= b < |fs|
    ensures TotalFileSize(fs[a..b + 1]) == TotalFileSize(fs[a..b]) + fs[b].size
  {
    SizesAdd(fs[a..b], [fs[b]]);
    assert fs[a..b] + [fs[b]] == fs[a..b + 1];
  }

  // The bytes of the files that end at `a` or behind it, but before `b`.
  function BytesBetween(fs: seq<File>, a: InternalKey, b: InternalKey): nat {
    if EndBefore(fs, a) <= EndBefore(fs, b) then TotalFileSize(fs[EndBefore(fs, a)..EndBefore(fs, b)]) else 0
  }

  // An output is within the limits: but for its last entry it was not long enough yet, and it does
  // not span more of the grandparents than is allowed.
  ghost predicate Narrow(limits: Limits, grandparents: seq<File>, f: File) {
    && f.size == limits.whole(f.entries)
    && (|f.entries| > 1 ==> limits.soFar(f.entries[..|f.entries| - 1]) < limits.maxOutputBytes)
    && BytesBetween(grandparents, Smallest(f), Largest(f)) <= limits.maxGrandparentBytes
  }

  // There was reason to end an output with `n` grandparents passed: it was long enough, or they
  // come to more than is allowed.
  ghost predicate Due(limits: Limits, grandparents: seq<File>, f: File, n: nat) {
    || limits.soFar(f.entries) >= limits.maxOutputBytes
    || (n <= |grandparents| && TotalFileSize(grandparents[..n]) > limits.maxGrandparentBytes)
  }

  ghost predicate Divided(limits: Limits, grandparents: seq<File>, outputs: seq<File>) {
    && (forall i :: 0 <= i < |outputs| ==> Narrow(limits, grandparents, outputs[i]))
    && forall i, j :: 0 <= i && j == i + 1 && j < |outputs| ==>
         Due(limits, grandparents, outputs[i], EndBefore(grandparents, Smallest(outputs[j])))
  }

  // The two files have keys in common, or one lies inside the other.
  predicate Touches(g: File, f: File) {
    !Less(Largest(g), Smallest(f)) && !Less(Largest(f), Smallest(g))
  }

  // Of the grandparents an output touches, all but the last come to no more than is allowed.
  lemma {:induction false} NarrowTouchesLittle(limits: Limits, gp: seq<File>, f: File, i: nat)
    requires Narrow(limits, gp, f) && Ascending(f.entries) && Disjoint(gp) && i < |gp| && Touches(gp[i], f)
    ensures var a, b := EndBefore(gp, Smallest(f)), EndBefore(gp, Largest(f));
            a <= i <= b && TotalFileSize(gp[a..b]) <= limits.maxGrandparentBytes
  {
    var a, b := EndBefore(gp, Smallest(f)), EndBefore(gp, Largest(f));
    assert BytesBetween(gp, Smallest(f), Largest(f)) <= limits.maxGrandparentBytes;
    EndBeforeStops(gp, Smallest(f));
    EndBeforeStops(gp, Largest(f));
    hide Narrow, EndBefore, TotalFileSize;
    if b < i {
      OrderOfThree(gp[b], gp[i], f);
    }
    TableBounds(f, f.entries[0]);
    EndBeforeGrows(gp, Smallest(f), Largest(f));
  }

  lemma OrderOfThree(g: File, h: File, f: File)
    requires !Less(Largest(g), Largest(f)) && Less(Largest(g), Smallest(h))
    ensures !Touches(h, f)
  {
  }

  lemma {:induction false} EndBeforeStops(fs: seq<File>, k: InternalKey)
    ensures forall i :: 0 <= i < EndBefore(fs, k) ==> Less(Largest(fs[i]), k)
    ensures var n := EndBefore(fs, k); n < |fs| ==> !Less(Largest(fs[n]), k)
  {
    if fs != [] && Less(Largest(fs[0]), k) {
      EndBeforeStops(fs[1..], k);
      forall i | 0 <= i < EndBefore(fs, k) ensures Less(Largest(fs[i]), k) {
        assert i > 0 ==> fs[i] == fs[1..][i - 1];
      }
    }
  }

  // The output under way, `index` grandparents passed, the bytes of those from `start` on counted.
  ghost predicate Dividing(limits: Limits, grandparents: seq<File>, outputs: seq<File>, current: seq<Entry>,
                           start: nat, index: nat)
  {
    && Divided(limits, grandparents, outputs)
    && start <= index <= |grandparents|
    && TotalFileSize(grandparents[start..index]) <= limits.maxGrandparentBytes
    && (current != [] ==>
          && limits.soFar(current) < limits.maxOutputBytes
          && (|current| > 1 ==> limits.soFar(current[..|current| - 1]) < limits.maxOutputBytes)
          && start <= EndBefore(grandparents, current[0].key)
          && EndBefore(grandparents, current[|current| - 1].key) <= index)
    && (outputs != [] ==>
          Due(limits, grandparents, outputs[|outputs| - 1],
              if current == [] then index else EndBefore(grandparents, current[0].key)))
  }

  class Compaction {
    const level: nat
    const inputVersion: Version
    const smallestSnapshot: SequenceNumber
    const grandparents: seq<File>
    const limits: Limits
    var levelPtrs: seq<nat>
    var grandparentIndex: nat
    var seenKey: bool
    var overlappedBytes: nat
    ghost var start: nat // the first grandparent counted in `overlappedBytes`

    ghost predicate Scanning()
      reads this`grandparentIndex, this`seenKey, this`overlappedBytes, this`start
    {
      && start <= grandparentIndex <= |grandparents|
      && overlappedBytes == TotalFileSize(grandparents[start..grandparentIndex])
      && (!seenKey ==> start == grandparentIndex)
    }

    // The outputs so far and the one under way, `last` being the key the scan has come to.
    ghost predicate Cutting(outputs: seq<File>, current: seq<Entry>, last: Option<InternalKey>)
      reads this`grandparentIndex, this`seenKey, this`overlappedBytes, this`start
    {
      && Scanning() && Dividing(limits, grandparents, outputs, current, start, grandparentIndex)
      && match last
         case None => !seenKey && grandparentIndex == 0 && outputs == [] && current == []
         case Some(k) => seenKey && grandparentIndex == EndBefore(grandparents, k)
    }

    // One grandparent is behind the scan; its bytes count once a key was seen.
    method PassGrandparent()
      requires Scanning() && grandparentIndex < |grandparents|
      modifies this`grandparentIndex, this`overlappedBytes, this`start
      ensures Scanning() && grandparentIndex == old(grandparentIndex) + 1
      ensures start == if seenKey then old(start) else grandparentIndex
    {
      if seenKey {
        overlappedBytes := overlappedBytes + grandparents[grandparentIndex].size;
        OneMore(grandparents, start, grandparentIndex);
      } else {
        start := start + 1;
      }
      grandparentIndex := grandparentIndex + 1;
    }

    // Passing the grandparents that end before the key, the output is due to end when those passed
    // since the last such stop come to too many bytes.
    method ShouldStopBefore(k: InternalKey) returns (stop: bool)
      requires Scanning() && forall i :: 0 <= i < grandparentIndex ==> Less(Largest(grandparents[i]), k)
      modifies this`grandparentIndex, this`seenKey, this`overlappedBytes, this`start
      ensures Scanning() && seenKey && grandparentIndex == EndBefore(grandparents, k) >= old(grandparentIndex)
      ensures !stop ==> start == if old(seenKey) then old(start) else grandparentIndex
      ensures stop ==> start == grandparentIndex && old(start) <= grandparentIndex
      ensures stop ==> TotalFileSize(grandparents[old(start)..grandparentIndex]) > limits.maxGrandparentBytes
      ensures overlappedBytes <= limits.maxGrandparentBytes
    {
      hide Less;
      while grandparentIndex < |grandparents| && Less(Largest(grandparents[grandparentIndex]), k)
        invariant Scanning() && grandparentIndex >= old(grandparentIndex) && seenKey == old(seenKey)
        invariant forall i :: 0 <= i < grandparentIndex ==> Less(Largest(grandparents[i]), k)
        invariant start == if seenKey then old(start) else grandparentIndex
        decreases |grandparents| - grandparentIndex
      {
        PassGrandparent();
      }
      EndBeforeIs(grandparents, k, grandparentIndex);
      seenKey := true;
      stop := overlappedBytes > limits.maxGrandparentBytes;
      if stop {
        overlappedBytes := 0;
        start := grandparentIndex;
      }
    }

    // The pointers have only passed files that end before `k`.
    ghost predicate Behind(k: UserKey)
      reads this`levelPtrs
    {
      && DeepLevelsSorted(inputVersion) && |levelPtrs| == NUM_LEVELS
      && forall l :: 0 <= l < NUM_LEVELS ==> PassedUpTo(inputVersion.levels[l], levelPtrs[l], k)
    }

    lemma StaysBehind(k: UserKey, k': UserKey)
      requires Behind(k) && k <= k'
      ensures Behind(k')
    {
    }

    constructor (level: nat, v: Version, snapshot: SequenceNumber, grandparents: seq<File>, limits: Limits)
      requires LsmInvariant(v)
      ensures this.level == level && inputVersion == v && smallestSnapshot == snapshot
      ensures this.grandparents == grandparents && this.limits == limits
      ensures Cutting([], [], None) && forall k :: Behind(k)
    {
      this.level, inputVersion, smallestSnapshot := level, v, snapshot;
      this.grandparents, this.limits := grandparents, limits;
      levelPtrs := seq(NUM_LEVELS, _ => 0);
      grandparentIndex, seenKey, overlappedBytes, start := 0, false, 0, 0;
    }

    // Asked about user keys in ascending order, the scan answers exactly.
    method IsBaseLevelForKey(k: UserKey) returns (r: bool)
      requires Behind(k)
      modifies this`levelPtrs
      ensures Behind(k)
      ensures r <==> BaseLevel(inputVersion, level, k)
    {
      var lvl := level + 2;
      while lvl < NUM_LEVELS
        invariant Behind(k)
        invariant forall l, f :: level + 2 <= l < lvl && l < NUM_LEVELS && f in inputVersion.levels[l] ==> !Covers(f, k)
        decreases NUM_LEVELS - lvl
      {
        var files := inputVersion.levels[lvl];
        while levelPtrs[lvl] < |files|
          invariant Behind(k)
          decreases |files| - levelPtrs[lvl]
        {
          var f := files[levelPtrs[lvl]];
          if k <= Largest(f).ukey {
            if k >= Smallest(f).ukey {
              assert f in files && Covers(f, k);
              return false;
            }
            break;
          }
          levelPtrs := levelPtrs[lvl := levelPtrs[lvl] + 1];
        }
        UncoveredFrom(files, levelPtrs[lvl], k);
        lvl := lvl + 1;
      }
      return true;
    }
  }

  ghost predicate PassedUpTo(files: seq<File>, p: nat, k: UserKey) {
    p <= |files| && forall i :: 0 <= i < p ==> Largest(files[i]).ukey < k
  }

  lemma UncoveredFrom(files: seq<File>, p: nat, k: UserKey)
    requires Disjoint(files) && TablesAscend(files) && PassedUpTo(files, p, k)
    requires p < |files| ==> k < Smallest(files[p]).ukey
    ensures forall f :: f in files ==> !Covers(f, k)
  {
    forall f | f in files ensures !Covers(f, k) {
      var i :| 0 <= i < |files| && files[i] == f;
      if p < i {
        TableBounds(files[p], files[p].entries[0]);
        assert Less(Largest(files[p]), Smallest(files[i]));
      }
    }
  }

  // ----- what survives -----

  // A newer version of the same user key is already visible at `snap`: drop rule (A).
  ghost predicate Hidden(input: set<Entry>, e: Entry, snap: SequenceNumber) {
    exists x :: x in input && x.key.ukey == e.key.ukey && e.key.sn < x.key.sn <= snap
  }

  // A tombstone every snapshot sees and nothing deeper needs: the second drop rule.
  ghost predicate Obsolete(v: Version, level: nat, e: Entry, snap: SequenceNumber)
    requires |v.levels| == NUM_LEVELS
  {
    e.key.kind.Deletion? && e.key.sn <= snap && BaseLevel(v, level, e.key.ukey)
  }

  ghost predicate Survives(v: Version, level: nat, input: set<Entry>, e: Entry, snap: SequenceNumber)
    requires |v.levels| == NUM_LEVELS
  {
    e in input && !Hidden(input, e, snap) && !Obsolete(v, level, e, snap)
  }

  ghost function Kept(v: Version, level: nat, input: seq<Entry>, snap: SequenceNumber, n: nat): seq<Entry>
    requires |v.levels| == NUM_LEVELS && n <= |input|
  {
    if n == 0 then []
    else
      var front := Kept(v, level, input, snap, n - 1);
      if Survives(v, level, AsSet(input), input[n - 1], snap) then front + [input[n - 1]] else front
  }

  lemma {:induction false} KeptSpec(v: Version, level: nat, input: seq<Entry>, snap: SequenceNumber, n: nat)
    requires |v.levels| == NUM_LEVELS && n <= |input| && Ascending(input)
    ensures Ascending(Kept(v, level, input, snap, n))
    ensures forall e :: e in Kept(v, level, input, snap, n) <==>
        e in input[..n] && Survives(v, level, AsSet(input), e, snap)
  {
    if n > 0 {
      KeptSpec(v, level, input, snap, n - 1);
      var front := Kept(v, level, input, snap, n - 1);
      hide Survives;
      assert input[..n] == input[..n - 1] + [input[n - 1]];
      forall i | 0 <= i < |front| ensures Less(front[i].key, input[n - 1].key) {
        assert front[i] in input[..n - 1];
      }
      AscendingGrows(front, input[n - 1]);
      hide Ascending;
    }
  }

  lemma AscendingGrows(es: seq<Entry>, e: Entry)
    requires Ascending(es) && forall i :: 0 <= i < |es| ==> Less(es[i].key, e.key)
    ensures Ascending(es + [e])
  {
  }

  // In an ascending input the hiding version, if any, shows up one position earlier.
  lemma HiddenByPrevious(input: seq<Entry>, i: nat, snap: SequenceNumber)
    requires Ascending(input) && UniqueVersions(AsSet(input)) && i < |input|
    ensures Hidden(AsSet(input), input[i], snap) <==>
              i > 0 && input[i - 1].key.ukey == input[i].key.ukey && input[i - 1].key.sn <= snap
  {
    if Hidden(AsSet(input), input[i], snap) {
      var x :| x in AsSet(input) && x.key.ukey == input[i].key.ukey && input[i].key.sn < x.key.sn <= snap;
      var j :| 0 <= j < |input| && input[j] == x;
      assert j < i;
      assert j < i - 1 ==> Less(x.key, input[i - 1].key) && Less(input[i - 1].key, input[i].key);
    }
    if i > 0 && input[i - 1].key.ukey == input[i].key.ukey && input[i - 1].key.sn <= snap {
      assert Less(input[i - 1].key, input[i].key);
      assert input[i - 1] in AsSet(input) && input[i] in AsSet(input);
      assert input[i - 1].key.sn != input[i].key.sn;
    }
  }

  function Concat(fs: seq<File>): seq<Entry> {
    if fs == [] then [] else Concat(fs[..|fs| - 1]) + fs[|fs| - 1].entries
  }

  // Output numbers are handed out in order from `first`.
  ghost predicate NumberedFrom(fs: seq<File>, first: nat) {
    forall i :: 0 <= i < |fs| ==> fs[i].number == first + i
  }

  // Both drop rules for the next key of the merge, given the sequence of the version before it.
  method ShouldDrop(c: Compaction, e: Entry, lastSequenceForKey: SequenceNumber) returns (drop: bool)
    requires c.Behind(e.key.ukey)
    modifies c`levelPtrs
    ensures c.Behind(e.key.ukey)
    ensures drop <==> lastSequenceForKey <= c.smallestSnapshot
                      || Obsolete(c.inputVersion, c.level, e, c.smallestSnapshot)
  {
    drop := false;
    if lastSequenceForKey <= c.smallestSnapshot {
      drop := true;
    } else if e.key.kind.Deletion? && e.key.sn <= c.smallestSnapshot {
      drop := c.IsBaseLevelForKey(e.key.ukey);
    }
  }

  // The loop's running state decides survival exactly.
  lemma DropIsExact(v: Version, level: nat, input: seq<Entry>, i: nat, snap: SequenceNumber, last: SequenceNumber,
                    drop: bool)
    requires |v.levels| == NUM_LEVELS && Ascending(input) && UniqueVersions(AsSet(input)) && i < |input|
    requires snap < MAX_SEQUENCE
    requires last == if i > 0 && input[i - 1].key.ukey == input[i].key.ukey then input[i - 1].key.sn else MAX_SEQUENCE
    requires drop <==> last <= snap || Obsolete(v, level, input[i], snap)
    ensures Kept(v, level, input, snap, i + 1) == Kept(v, level, input, snap, i) + if drop then [] else [input[i]]
  {
    HiddenByPrevious(input, i, snap);
    assert input[i] in AsSet(input);
  }

  lemma KeysAscend(input: seq<Entry>, i: nat)
    requires Ascending(input) && 0 < i < |input|
    ensures Less(input[i - 1].key, input[i].key) && input[i - 1].key.ukey <= input[i].key.ukey
  {
  }

  // An output that ends here is within its limits.
  lemma {:induction false} CutIsNarrow(limits: Limits, gp: seq<File>, outputs: seq<File>, current: seq<Entry>,
                                       start: nat, index: nat, f: File)
    requires Divided(limits, gp, outputs) && current != [] && f.entries == current && f.size == limits.whole(current)
    requires |current| > 1 ==> limits.soFar(current[..|current| - 1]) < limits.maxOutputBytes
    requires start <= EndBefore(gp, current[0].key) && EndBefore(gp, current[|current| - 1].key) <= index <= |gp|
    requires start <= index && TotalFileSize(gp[start..index]) <= limits.maxGrandparentBytes
    requires outputs != [] ==> Due(limits, gp, outputs[|outputs| - 1], EndBefore(gp, current[0].key))
    ensures Divided(limits, gp, outputs + [f])
  {
    var a, b := EndBefore(gp, current[0].key), EndBefore(gp, current[|current| - 1].key);
    if a <= b {
      SizesInside(gp, start, a, b, index);
    }
    hide Due, EndBefore, TotalFileSize;
    DividedGrows(limits, gp, outputs, f);
  }

  lemma {:induction false} DividedGrows(limits: Limits, gp: seq<File>, outputs: seq<File>, f: File)
    requires Divided(limits, gp, outputs) && Narrow(limits, gp, f)
    requires outputs != [] ==> Due(limits, gp, outputs[|outputs| - 1], EndBefore(gp, Smallest(f)))
    ensures Divided(limits, gp, outputs + [f])
  {
    hide Due, EndBefore, Narrow;
  }

  lemma {:induction false} DueStays(limits: Limits, gp: seq<File>, f: File, n: nat, m: nat)
    requires Due(limits, gp, f, n) && n <= m <= |gp|
    ensures Due(limits, gp, f, m)
  {
    if limits.soFar(f.entries) < limits.maxOutputBytes {
      SizesInside(gp, 0, 0, n, m);
    }
  }

  // FinishCompactionOutputFile, if a file is open when its end is due.
  method StopBefore(c: Compaction, k: InternalKey, outputs: seq<File>, current: seq<Entry>, nextFileNumber: nat,
                    ghost last: Option<InternalKey>) returns (outputs': seq<File>, current': seq<Entry>)
    requires c.Cutting(outputs, current, last) && (last.Some? ==> Less(last.value, k))
    requires NumberedFrom(outputs, nextFileNumber)
    modifies c`grandparentIndex, c`seenKey, c`overlappedBytes, c`start
    ensures c.Cutting(outputs', current', Some(k)) && NumberedFrom(outputs', nextFileNumber)
    ensures Concat(outputs') + current' == Concat(outputs) + current
  {
    hide Less, Divided, Narrow, Due;
    if last.Some? {
      PassedBefore(c.grandparents, last.value, k);
    }
    var gp, limits := c.grandparents, c.limits;
    ghost var index := c.grandparentIndex;
    var stop := c.ShouldStopBefore(k);
    outputs', current' := outputs, current;
    if current == [] && outputs != [] {
      DueStays(limits, gp, outputs[|outputs| - 1], index, c.grandparentIndex);
    }
    if stop && current != [] {
      outputs', current' := Cut(limits, gp, outputs, current, nextFileNumber, old(c.start), index);
      StoppedIsDue(limits, gp, outputs'[|outputs|], old(c.start), c.grandparentIndex);
    }
  }

  lemma {:induction false} StoppedIsDue(limits: Limits, gp: seq<File>, f: File, start: nat, index: nat)
    requires start <= index <= |gp| && TotalFileSize(gp[start..index]) > limits.maxGrandparentBytes
    ensures Due(limits, gp, f, index)
  {
    SizesInside(gp, 0, start, index, index);
  }

  // One entry more; an output long enough ends.
  method Emit(c: Compaction, e: Entry, outputs: seq<File>, current: seq<Entry>, nextFileNumber: nat)
    returns (outputs': seq<File>, current': seq<Entry>)
    requires c.Cutting(outputs, current, Some(e.key)) && NumberedFrom(outputs, nextFileNumber)
    ensures c.Cutting(outputs', current', Some(e.key)) && NumberedFrom(outputs', nextFileNumber)
    ensures Concat(outputs') + current' == Concat(outputs) + current + [e]
  {
    hide Divided, Narrow;
    var longer := current + [e];
    assert longer[..|longer| - 1] == current;
    assert Concat(outputs) + longer == Concat(outputs) + current + [e];
    outputs', current' := outputs, longer;
    if c.limits.soFar(longer) >= c.limits.maxOutputBytes {
      outputs', current' := Cut(c.limits, c.grandparents, outputs, longer, nextFileNumber, c.start, c.grandparentIndex);
    }
  }

  // FinishCompactionOutputFile: the entries gathered are the next output.
  method Cut(limits: Limits, gp: seq<File>, outputs: seq<File>, current: seq<Entry>, nextFileNumber: nat,
             ghost start: nat, ghost index: nat) returns (outputs': seq<File>, current': seq<Entry>)
    requires NumberedFrom(outputs, nextFileNumber) && Divided(limits, gp, outputs) && current != []
    requires |current| > 1 ==> limits.soFar(current[..|current| - 1]) < limits.maxOutputBytes
    requires start <= EndBefore(gp, current[0].key) && EndBefore(gp, current[|current| - 1].key) <= index <= |gp|
    requires start <= index && TotalFileSize(gp[start..index]) <= limits.maxGrandparentBytes
    requires outputs != [] ==> Due(limits, gp, outputs[|outputs| - 1], EndBefore(gp, current[0].key))
    ensures current' == [] && NumberedFrom(outputs', nextFileNumber) && Divided(limits, gp, outputs')
    ensures |outputs'| == |outputs| + 1 && outputs'[|outputs|].entries == current
    ensures Concat(outputs') + current' == Concat(outputs) + current
  {
    var f := File(nextFileNumber + |outputs|, limits.whole(current), current);
    CutIsNarrow(limits, gp, outputs, current, start, index, f);
    outputs', current' := outputs + [f], [];
    assert outputs'[..|outputs|] == outputs;
  }

  // The first `n` entries have been dealt with.
  ghost predicate Advanced(c: Compaction, input: seq<Entry>, n: nat, outputs: seq<File>, current: seq<Entry>,
                           nextFileNumber: nat)
    requires |c.inputVersion.levels| == NUM_LEVELS && n <= |input|
    reads c
  {
    && (n < |input| ==> c.Behind(input[n].key.ukey))
    && Concat(outputs) + current == Kept(c.inputVersion, c.level, input, c.smallestSnapshot, n)
    && NumberedFrom(outputs, nextFileNumber)
    && c.Cutting(outputs, current, if n == 0 then None else Some(input[n - 1].key))
  }

  // The next entry: it may end the output under way, and is dropped or goes to the output.
  method DropOrEmit(c: Compaction, input: seq<Entry>, i: nat, lastSequenceForKey: SequenceNumber, outputs: seq<File>,
                    current: seq<Entry>, nextFileNumber: nat) returns (outputs': seq<File>, current': seq<Entry>)
    requires |c.inputVersion.levels| == NUM_LEVELS && Ascending(input) && UniqueVersions(AsSet(input)) && i < |input|
    requires c.smallestSnapshot < MAX_SEQUENCE
    requires lastSequenceForKey ==
               if i > 0 && input[i - 1].key.ukey == input[i].key.ukey then input[i - 1].key.sn else MAX_SEQUENCE
    requires Advanced(c, input, i, outputs, current, nextFileNumber)
    modifies c
    ensures Advanced(c, input, i + 1, outputs', current', nextFileNumber)
  {
    hide Less, Compaction.Behind, Compaction.Cutting, Kept, Concat, NumberedFrom, Survives, Ascending, Obsolete;
    ghost var last := if i == 0 then None else Some(input[i - 1].key);
    if i > 0 {
      KeysAscend(input, i);
    }
    outputs', current' := StopBefore(c, input[i].key, outputs, current, nextFileNumber, last);
    var drop := ShouldDrop(c, input[i], lastSequenceForKey);
    DropIsExact(c.inputVersion, c.level, input, i, c.smallestSnapshot, lastSequenceForKey, drop);
    if !drop {
      outputs', current' := Emit(c, input[i], outputs', current', nextFileNumber);
    }
    if i + 1 < |input| {
      KeysAscend(input, i + 1);
      c.StaysBehind(input[i].key.ukey, input[i + 1].key.ukey);
    }
  }

  // A file still open in the end is finished.
  method CutLast(c: Compaction, input: seq<Entry>, outputs: seq<File>, current: seq<Entry>, nextFileNumber: nat)
    returns (outputs': seq<File>)
    requires |c.inputVersion.levels| == NUM_LEVELS && Advanced(c, input, |input|, outputs, current, nextFileNumber)
    ensures NumberedFrom(outputs', nextFileNumber) && Divided(c.limits, c.grandparents, outputs')
    ensures Concat(outputs') == Kept(c.inputVersion, c.level, input, c.smallestSnapshot, |input|)
  {
    hide Kept, Concat, Divided;
    outputs' := outputs;
    if current != [] {
      var rest;
      outputs', rest := Cut(c.limits, c.grandparents, outputs, current, nextFileNumber, c.start, c.grandparentIndex);
    }
  }

  // The merge loop.
  method DoCompactionWork(c: Compaction, input: seq<Entry>, nextFileNumber: nat) returns (outputs: seq<File>)
    requires DeepLevelsSorted(c.inputVersion) && (forall k :: c.Behind(k)) && c.Cutting([], [], None)
    requires Ascending(input) && UniqueVersions(AsSet(input)) && c.smallestSnapshot < MAX_SEQUENCE
    modifies c
    ensures Concat(outputs) == Kept(c.inputVersion, c.level, input, c.smallestSnapshot, |input|)
    ensures NumberedFrom(outputs, nextFileNumber) && Divided(c.limits, c.grandparents, outputs)
  {
    outputs := [];
    var current: seq<Entry> := [];
    var hasCurrentUserKey, currentUserKey := false, 0;
    var lastSequenceForKey: SequenceNumber := MAX_SEQUENCE;
    NothingKept(c.inputVersion, c.level, input, c.smallestSnapshot, nextFileNumber);
    assert Advanced(c, input, 0, [], [], nextFileNumber);
    hide Advanced, Compaction.Behind, Compaction.Cutting, Kept, Concat, Divided;
    for i := 0 to |input|
      invariant Advanced(c, input, i, outputs, current, nextFileNumber)
      invariant hasCurrentUserKey <==> i > 0
      invariant i > 0 ==> currentUserKey == input[i - 1].key.ukey && lastSequenceForKey == input[i - 1].key.sn
    {
      if !hasCurrentUserKey || input[i].key.ukey != currentUserKey {
        currentUserKey := input[i].key.ukey;
        hasCurrentUserKey := true;
        lastSequenceForKey := MAX_SEQUENCE;
      }
      outputs, current := DropOrEmit(c, input, i, lastSequenceForKey, outputs, current, nextFileNumber);
      lastSequenceForKey := input[i].key.sn;
    }
    outputs := CutLast(c, input, outputs, current, nextFileNumber);
  }

  lemma NothingKept(v: Version, level: nat, input: seq<Entry>, snap: SequenceNumber, nextFileNumber: nat)
    requires |v.levels| == NUM_LEVELS
    ensures Kept(v, level, input, snap, 0) == Concat([]) == [] && NumberedFrom([], nextFileNumber)
  {
  }

  lemma {:induction false} PassedBefore(fs: seq<File>, a: InternalKey, b: InternalKey)
    requires Less(a, b)
    ensures forall i :: 0 <= i < EndBefore(fs, a) ==> Less(Largest(fs[i]), b)
  {
    if fs != [] && Less(Largest(fs[0]), a) {
      PassedBefore(fs[1..], a, b);
      forall i | 0 <= i < EndBefore(fs, a) ensures Less(Largest(fs[i]), b) {
        assert i > 0 ==> fs[i] == fs[1..][i - 1];
      }
    }
  }
}

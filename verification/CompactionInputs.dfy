/** Choosing what a compaction reads (db/version_set.cc: PickCompaction, CompactRange,
    AddBoundaryInputs, SetupOtherInputs). */
module CompactionInputs {
  import opened Wrappers
  import opened DbFormat
  import opened Versions
  import opened Overlap

  // ----- key range of a file list -----

  function LowestKey(fs: seq<File>): InternalKey
    requires fs != []
  {
    var last := fs[|fs| - 1];
    if |fs| == 1 then Smallest(last)
    else
      var k := LowestKey(fs[..|fs| - 1]);
      if Less(Smallest(last), k) then Smallest(last) else k
  }

  function HighestKey(fs: seq<File>): InternalKey
    requires fs != []
  {
    var last := fs[|fs| - 1];
    if |fs| == 1 then Largest(last)
    else
      var k := HighestKey(fs[..|fs| - 1]);
      if Less(k, Largest(last)) then Largest(last) else k
  }

  lemma {:induction false} LowestKeyIsLeast(fs: seq<File>)
    requires fs != []
    ensures forall f :: f in fs ==> LessEq(LowestKey(fs), Smallest(f))
    ensures exists f :: f in fs && LowestKey(fs) == Smallest(f)
  {
    if |fs| > 1 {
      var front := fs[..|fs| - 1];
      assert fs == front + [fs[|fs| - 1]];
      LowestKeyIsLeast(front);
    } else {
      assert fs[0] in fs;
    }
  }

  lemma {:induction false} HighestKeyIsGreatest(fs: seq<File>)
    requires fs != []
    ensures forall f :: f in fs ==> LessEq(Largest(f), HighestKey(fs))
    ensures exists f :: f in fs && HighestKey(fs) == Largest(f)
  {
    if |fs| > 1 {
      var front := fs[..|fs| - 1];
      assert fs == front + [fs[|fs| - 1]];
      HighestKeyIsGreatest(front);
    } else {
      assert fs[0] in fs;
    }
  }

  function Low(fs: seq<File>): Bound
    requires fs != []
  {
    Some(LowestKey(fs).ukey)
  }

  function High(fs: seq<File>): Bound
    requires fs != []
  {
    Some(HighestKey(fs).ukey)
  }

  method GetRange(fs: seq<File>) returns (smallest: InternalKey, largest: InternalKey)
    requires fs != []
    ensures smallest == LowestKey(fs) && largest == HighestKey(fs)
  {
    smallest, largest := Smallest(fs[0]), Largest(fs[0]);
    for i := 1 to |fs|
      invariant smallest == LowestKey(fs[..i]) && largest == HighestKey(fs[..i])
    {
      assert fs[..i + 1][..i] == fs[..i];
      if Less(Smallest(fs[i]), smallest) {
        smallest := Smallest(fs[i]);
      }
      if Less(largest, Largest(fs[i])) {
        largest := Largest(fs[i]);
      }
    }
    assert fs[..|fs|] == fs;
  }

  // ----- boundary files -----

  // `f` starts after `key` inside the same user key: it holds older versions of that user key.
  predicate Boundary(f: File, key: InternalKey) {
    Less(key, Smallest(f)) && Smallest(f).ukey == key.ukey
  }

  function SmallestBoundary(fs: seq<File>, key: InternalKey): Option<File> {
    if fs == [] then None
    else
      var last := fs[|fs| - 1];
      var best := SmallestBoundary(fs[..|fs| - 1], key);
      if Boundary(last, key) && (best.None? || Less(Smallest(last), Smallest(best.value))) then Some(last) else best
  }

  lemma {:induction false} SmallestBoundaryIsLeast(fs: seq<File>, key: InternalKey)
    ensures match SmallestBoundary(fs, key)
            case None => forall f :: f in fs ==> !Boundary(f, key)
            case Some(g) => g in fs && Boundary(g, key)
                            && forall f :: f in fs && Boundary(f, key) ==> LessEq(Smallest(g), Smallest(f))
  {
    if fs != [] {
      var front := fs[..|fs| - 1];
      assert fs == front + [fs[|fs| - 1]];
      SmallestBoundaryIsLeast(front, key);
    }
  }

  method FindSmallestBoundaryFile(fs: seq<File>, key: InternalKey) returns (best: Option<File>)
    ensures best == SmallestBoundary(fs, key)
  {
    best := None;
    for i := 0 to |fs|
      invariant best == SmallestBoundary(fs[..i], key)
    {
      assert fs[..i + 1][..i] == fs[..i];
      if Boundary(fs[i], key) {
        if best.None? || Less(Smallest(fs[i]), Smallest(best.value)) {
          best := Some(fs[i]);
        }
      }
    }
    assert fs[..|fs|] == fs;
  }

  // Files that start after `key`: what the search has left to consume.
  function StartingAfter(fs: seq<File>, key: InternalKey): nat {
    if fs == [] then 0
    else (if Less(key, Smallest(fs[0])) then 1 else 0) + StartingAfter(fs[1..], key)
  }

  lemma {:induction false} StartingAfterShrinks(fs: seq<File>, key: InternalKey, key': InternalKey)
    requires Less(key, key')
    ensures StartingAfter(fs, key') <= StartingAfter(fs, key)
    ensures (exists f :: f in fs && Less(key, Smallest(f)) && LessEq(Smallest(f), key')) ==>
              StartingAfter(fs, key') < StartingAfter(fs, key)
  {
    if fs != [] {
      StartingAfterShrinks(fs[1..], key, key');
      assert fs == [fs[0]] + fs[1..];
    }
  }

  // The files AddBoundaryInputs appends once the largest input key is `key`.
  function BoundaryRun(fs: seq<File>, key: InternalKey): seq<File>
    requires TablesAscend(fs)
    decreases StartingAfter(fs, key)
  {
    match SmallestBoundary(fs, key)
    case None => []
    case Some(f) =>
      SmallestBoundaryIsLeast(fs, key);
      TableBounds(f, f.entries[0]);
      StartingAfterShrinks(fs, key, Largest(f));
      [f] + BoundaryRun(fs, Largest(f))
  }

  method AddBoundaryInputs(fs: seq<File>, inputs: seq<File>) returns (r: seq<File>)
    requires TablesAscend(fs)
    ensures r == inputs + if inputs == [] then [] else BoundaryRun(fs, HighestKey(inputs))
  {
    if inputs == [] {
      return [];
    }
    var _, largestKey := GetRange(inputs);
    r := inputs;
    var searching := true;
    ghost var start := largestKey;
    while searching
      invariant searching ==> r + BoundaryRun(fs, largestKey) == inputs + BoundaryRun(fs, start)
      invariant !searching ==> r == inputs + BoundaryRun(fs, start)
      decreases searching, StartingAfter(fs, largestKey)
    {
      var found := FindSmallestBoundaryFile(fs, largestKey);
      if found.Some? {
        var f := found.value;
        SmallestBoundaryIsLeast(fs, largestKey);
        TableBounds(f, f.entries[0]);
        StartingAfterShrinks(fs, largestKey, Largest(f));
        r := r + [f];
        largestKey := Largest(f);
      } else {
        searching := false;
      }
    }
  }

  // In a level >= 1 only the very next file can be a boundary file of the run fs[..b].
  lemma BoundaryIsNext(fs: seq<File>, b: nat)
    requires Disjoint(fs) && TablesAscend(fs) && 0 < b <= |fs|
    ensures SmallestBoundary(fs, Largest(fs[b - 1])) == if EndsAtUserKey(fs, b) || b == |fs| then None else Some(fs[b])
  {
    var key := Largest(fs[b - 1]);
    SmallestBoundaryIsLeast(fs, key);
    forall i | 0 <= i < b ensures !Less(key, Smallest(fs[i])) {
      assert fs[i] in fs;
      TableBounds(fs[i], fs[i].entries[0]);
      TableBounds(fs[b - 1], fs[b - 1].entries[0]);
      assert i < b - 1 ==> Less(Largest(fs[i]), Smallest(fs[b - 1]));
    }
    forall i | b < i < |fs| ensures Less(Smallest(fs[b]), Smallest(fs[i])) {
      assert fs[b] in fs && Less(Largest(fs[b]), Smallest(fs[i]));
      TableBounds(fs[b], fs[b].entries[0]);
    }
    if b < |fs| {
      assert Less(key, Smallest(fs[b])) && fs[b] in fs;
    }
  }

  // Behind the run fs[..b] of a level >= 1, the search appends the files that follow until the run
  // ends at a user-key boundary: no file left out holds an older version of an input's user key.
  lemma {:induction false} BoundaryRunClosesRun(fs: seq<File>, b: nat) returns (c: nat)
    requires Disjoint(fs) && TablesAscend(fs) && 0 < b <= |fs|
    ensures b <= c <= |fs|
    ensures BoundaryRun(fs, Largest(fs[b - 1])) == fs[b..c]
    ensures EndsAtUserKey(fs, c)
    decreases |fs| - b
  {
    BoundaryIsNext(fs, b);
    BoundaryRunStep(fs, Largest(fs[b - 1]));
    LastRunEnds(fs);
    hide *;
    c := b;
    if b < |fs| && !EndsAtUserKey(fs, b) {
      c := BoundaryRunClosesRun(fs, b + 1);
      assert [fs[b]] + fs[b + 1..c] == fs[b..c];
    }
  }

  lemma LastRunEnds(fs: seq<File>)
    ensures EndsAtUserKey(fs, |fs|)
  {
  }

  lemma BoundaryRunStep(fs: seq<File>, key: InternalKey)
    requires TablesAscend(fs)
    ensures match SmallestBoundary(fs, key)
            case None => BoundaryRun(fs, key) == []
            case Some(f) => BoundaryRun(fs, key) == [f] + BoundaryRun(fs, Largest(f))
  {
  }

  // The run fs[..c] and what follows share no user key.
  ghost predicate EndsAtUserKey(fs: seq<File>, c: nat)
    requires c <= |fs|
  {
    0 < c < |fs| ==> Largest(fs[c - 1]).ukey != Smallest(fs[c]).ukey
  }

  // ----- whole input sets -----

  // What PickCompaction and CompactRange hand to SetupOtherInputs: at level 0 a set closed under
  // overlap, deeper a contiguous run.
  ghost predicate Seed(fs: seq<File>, level: nat, seed: seq<File>) {
    && seed != []
    && if level == 0 then seed == FilterMeets(fs, Low(seed), High(seed))
       else exists a, c :: 0 <= a < c <= |fs| && seed == fs[a..c]
  }

  // The upper inputs of a compaction: closed under overlap at level 0; deeper, a run that ends
  // between user keys.
  ghost predicate TakenFrom(fs: seq<File>, level: nat, in0: seq<File>) {
    && in0 != []
    && (level == 0 ==> in0 == FilterMeets(fs, Low(in0), High(in0)))
    && (level > 0 ==> exists a, c :: 0 <= a < c <= |fs| && in0 == fs[a..c] && EndsAtUserKey(fs, c))
  }

  // The inputs of a compaction of `level` into `level + 1`: no version of an input user key that
  // is older than an input stays behind in `level`, and everything of `level + 1` that meets the
  // user-key span of the upper inputs is read too.
  ghost predicate GoodInputs(v: Version, level: nat, in0: seq<File>, in1: seq<File>)
    requires level + 1 < |v.levels|
  {
    && TakenFrom(v.levels[level], level, in0)
    && in1 == FilterMeets(v.levels[level + 1], Low(in0), High(in0))
  }

  lemma {:induction false} FilterSame(fs: seq<File>, n: nat, b: Bound, e: Bound, b': Bound, e': Bound)
    requires n <= |fs| && forall f :: f in fs ==> (Meets(f, b, e) <==> Meets(f, b', e'))
    ensures MeetsUpTo(fs, n, b, e) == MeetsUpTo(fs, n, b', e')
  {
    if n > 0 {
      assert fs[n - 1] in fs;
      FilterSame(fs, n - 1, b, e, b', e');
    }
  }

  // The least closed set of level 0 is closed under its own span.
  lemma LeastClosedIsSeed(fs: seq<File>, begin: Bound, end: Bound, inputs: seq<File>)
    requires TablesAscend(fs) && LeastClosed(fs, begin, end, inputs) && inputs != []
    ensures Seed(fs, 0, inputs)
  {
    var b, e :| SpannedBy(fs, begin, end, inputs, b, e);
    LowestKeyIsLeast(inputs);
    HighestKeyIsGreatest(inputs);
    FilterMeetsIn(fs, b, e);
    forall f | f in fs ensures Meets(f, b, e) <==> Meets(f, Low(inputs), High(inputs)) {
      TableBounds(f, f.entries[0]);
      assert Meets(f, b, e) <==> f in inputs;
    }
    FilterSame(fs, |fs|, b, e, Low(inputs), High(inputs));
  }

  lemma UserKeysAscend(fs: seq<File>)
    requires Disjoint(fs) && TablesAscend(fs)
    ensures forall i, j :: 0 <= i < j < |fs| ==>
              Smallest(fs[i]).ukey <= Largest(fs[i]).ukey <= Smallest(fs[j]).ukey <= Largest(fs[j]).ukey
  {
    forall i | 0 <= i < |fs| ensures Smallest(fs[i]).ukey <= Largest(fs[i]).ukey {
      assert fs[i] in fs;
      TableBounds(fs[i], fs[i].entries[0]);
    }
    forall i, j | 0 <= i < j < |fs| ensures Largest(fs[i]).ukey <= Smallest(fs[j]).ukey {
      assert Less(Largest(fs[i]), Smallest(fs[j]));
    }
  }

  lemma MeetsIsConvex(fs: seq<File>, b: Bound, e: Bound, i: nat, j: nat, k: nat)
    requires Disjoint(fs) && TablesAscend(fs) && i < j < k < |fs| && Meets(fs[i], b, e) && Meets(fs[k], b, e)
    ensures Meets(fs[j], b, e)
  {
    UserKeysAscend(fs);
  }

  lemma MeetsUpToStep(fs: seq<File>, n: nat, b: Bound, e: Bound)
    requires 0 < n <= |fs|
    ensures MeetsUpTo(fs, n, b, e) ==
              MeetsUpTo(fs, n - 1, b, e) + if Meets(fs[n - 1], b, e) then [fs[n - 1]] else []
  {
  }

  lemma {:induction false} MeetsUpToByIndex(fs: seq<File>, n: nat, b: Bound, e: Bound, a: nat, c: nat)
    requires a <= c <= n <= |fs|
    requires forall i :: 0 <= i < n ==> (Meets(fs[i], b, e) <==> a <= i < c)
    ensures MeetsUpTo(fs, n, b, e) == fs[a..c]
  {
    if n > 0 {
      hide *;
      MeetsUpToStep(fs, n, b, e);
      var last := Meets(fs[n - 1], b, e);
      if c < n {
        MeetsUpToByIndex(fs, n - 1, b, e, a, c);
      } else if a < c {
        MeetsUpToByIndex(fs, n - 1, b, e, a, c - 1);
        assert fs[a..c] == fs[a..c - 1] + [fs[c - 1]];
      } else {
        MeetsUpToByIndex(fs, n - 1, b, e, n - 1, n - 1);
      }
    }
  }

  // The files of a level >= 1 that meet a range are consecutive.
  lemma {:induction false} FilterIsRun(fs: seq<File>, b: Bound, e: Bound) returns (a: nat, c: nat)
    requires Disjoint(fs) && TablesAscend(fs)
    ensures a <= c <= |fs| && FilterMeets(fs, b, e) == fs[a..c]
    ensures forall i :: 0 <= i < |fs| ==> (Meets(fs[i], b, e) <==> a <= i < c)
  {
    a := 0;
    while a < |fs| && !Meets(fs[a], b, e)
      invariant a <= |fs| && forall i :: 0 <= i < a ==> !Meets(fs[i], b, e)
    {
      a := a + 1;
    }
    c := a;
    while c < |fs| && Meets(fs[c], b, e)
      invariant a <= c <= |fs| && forall i :: a <= i < c ==> Meets(fs[i], b, e)
    {
      c := c + 1;
    }
    forall i | c < i < |fs| && a < c ensures !Meets(fs[i], b, e) {
      if Meets(fs[i], b, e) {
        MeetsIsConvex(fs, b, e, a, c, i);
      }
    }
    MeetsUpToByIndex(fs, |fs|, b, e, a, c);
  }

  lemma HighestOfRun(fs: seq<File>, a: nat, c: nat)
    requires Disjoint(fs) && TablesAscend(fs) && a < c <= |fs|
    ensures HighestKey(fs[a..c]) == Largest(fs[c - 1])
  {
    HighestKeyIsGreatest(fs[a..c]);
    var f :| f in fs[a..c] && HighestKey(fs[a..c]) == Largest(f);
    var i :| a <= i < c && fs[i] == f;
    assert fs[c - 1] in fs[a..c];
    LargestAscend(fs);
  }

  lemma NoBoundaryAtLevelZero(fs: seq<File>, seed: seq<File>)
    requires TablesAscend(fs) && Seed(fs, 0, seed)
    ensures BoundaryRun(fs, HighestKey(seed)) == []
  {
    var key := HighestKey(seed);
    LowestKeyIsLeast(seed);
    HighestKeyIsGreatest(seed);
    FilterMeetsIn(fs, Low(seed), High(seed));
    SmallestBoundaryIsLeast(fs, key);
    forall f | f in fs ensures !Boundary(f, key) {
      TableBounds(f, f.entries[0]);
      TableBounds(seed[0], seed[0].entries[0]);
      if Boundary(f, key) {
        assert seed[0] in seed;
        assert Meets(f, Low(seed), High(seed));
      }
    }
  }

  lemma RunIsClosed(fs: seq<File>, a: nat, b: nat) returns (c: nat)
    requires TablesAscend(fs) && Disjoint(fs) && a < b <= |fs|
    ensures a < c <= |fs| && fs[a..b] + BoundaryRun(fs, HighestKey(fs[a..b])) == fs[a..c] && EndsAtUserKey(fs, c)
  {
    hide *;
    HighestOfRun(fs, a, b);
    c := BoundaryRunClosesRun(fs, b);
    assert fs[a..b] + fs[b..c] == fs[a..c];
  }

  // AddBoundaryInputs keeps a seed a seed and leaves no older version behind.
  lemma BoundaryClosed(fs: seq<File>, level: nat, seed: seq<File>, r: seq<File>)
    requires TablesAscend(fs) && (level > 0 ==> Disjoint(fs)) && Seed(fs, level, seed)
    requires r == seed + BoundaryRun(fs, HighestKey(seed))
    ensures level == 0 ==> r == seed
    ensures level > 0 ==> exists a, c :: 0 <= a < c <= |fs| && r == fs[a..c] && EndsAtUserKey(fs, c)
  {
    hide TablesAscend, Disjoint, BoundaryRun, HighestKey, EndsAtUserKey, FilterMeets, Low, High;
    if level == 0 {
      NoBoundaryAtLevelZero(fs, seed);
    } else {
      var a, b :| 0 <= a < b <= |fs| && seed == fs[a..b];
      var c := RunIsClosed(fs, a, b);
      assert 0 <= a < c <= |fs| && r == fs[a..c] && EndsAtUserKey(fs, c);
    }
  }

  // A seed with the boundary files behind it.
  function Closure(fs: seq<File>, seed: seq<File>): seq<File>
    requires TablesAscend(fs) && seed != []
  {
    seed + BoundaryRun(fs, HighestKey(seed))
  }

  // What one level down meets the upper inputs.
  function LowerInputs(v: Version, level: nat, in0: seq<File>): seq<File>
    requires level + 1 < |v.levels| && in0 != []
  {
    FilterMeets(v.levels[level + 1], Low(in0), High(in0))
  }

  // SetupOtherInputs, first step: close the seed and take what it meets one level down.
  method CloseInputs(v: Version, level: nat, seed: seq<File>) returns (in0: seq<File>, in1: seq<File>)
    requires LsmInvariant(v) && level + 1 < NUM_LEVELS && Seed(v.levels[level], level, seed)
    ensures GoodInputs(v, level, in0, in1)
    ensures in0 == Closure(v.levels[level], seed)
  {
    in0 := AddBoundaryInputs(v.levels[level], seed);
    BoundaryClosed(v.levels[level], level, seed, in0);
    var smallest, largest := GetRange(in0);
    in1 := GetOverlappingInputs(level + 1, v.levels[level + 1], Some(smallest.ukey), Some(largest.ukey));
  }

  // A wider range meets at least as many files, and the same ones if it meets as many.
  lemma {:induction false} FilterWidens(fs: seq<File>, n: nat, b: Bound, e: Bound, b': Bound, e': Bound)
    requires n <= |fs| && forall f :: f in fs && Meets(f, b, e) ==> Meets(f, b', e')
    ensures |MeetsUpTo(fs, n, b, e)| <= |MeetsUpTo(fs, n, b', e')|
    ensures |MeetsUpTo(fs, n, b, e)| == |MeetsUpTo(fs, n, b', e')| ==>
              MeetsUpTo(fs, n, b, e) == MeetsUpTo(fs, n, b', e')
  {
    if n > 0 {
      assert fs[n - 1] in fs;
      FilterWidens(fs, n - 1, b, e, b', e');
    }
  }

  lemma SpanGrows(fs: seq<File>, more: seq<File>)
    requires fs != [] && forall f :: f in fs ==> f in more
    ensures more != []
    ensures LowestKey(more).ukey <= LowestKey(fs).ukey && HighestKey(fs).ukey <= HighestKey(more).ukey
  {
    assert fs[0] in more;
    LowestKeyIsLeast(fs);
    LowestKeyIsLeast(more);
    HighestKeyIsGreatest(fs);
    HighestKeyIsGreatest(more);
  }

  // Upper inputs that take in others and meet as many files below meet the same files below.
  lemma LowerInputsGrow(v: Version, level: nat, in0: seq<File>, more: seq<File>)
    requires level + 1 < |v.levels| && in0 != [] && (forall f :: f in in0 ==> f in more) && more != []
    requires |LowerInputs(v, level, more)| == |LowerInputs(v, level, in0)|
    ensures LowerInputs(v, level, more) == LowerInputs(v, level, in0)
  {
    var fs := v.levels[level + 1];
    SpanGrows(in0, more);
    FilterWidens(fs, |fs|, Low(in0), High(in0), Low(more), High(more));
  }

  lemma InputsMeetTheirSpan(v: Version, level: nat, in0: seq<File>, all: seq<File>)
    requires LsmInvariant(v) && level + 1 < NUM_LEVELS && TakenFrom(v.levels[level], level, in0)
    requires forall f :: f in in0 ==> f in all
    ensures all != []
    ensures forall f :: f in in0 ==> f in v.levels[level] && Meets(f, Low(all), High(all))
  {
    assert in0[0] in all;
    LowestKeyIsLeast(all);
    HighestKeyIsGreatest(all);
    FilterMeetsIn(v.levels[level], Low(in0), High(in0));
    forall f | f in in0 ensures f in v.levels[level] && Meets(f, Low(all), High(all)) {
      TableBounds(f, f.entries[0]);
    }
  }

  lemma MeetingFilesAreTaken(fs: seq<File>, level: nat, begin: Bound, end: Bound, inputs: seq<File>)
    requires level > 0 ==> inputs == FilterMeets(fs, begin, end)
    requires level == 0 ==> LeastClosed(fs, begin, end, inputs)
    ensures forall f :: f in fs && Meets(f, begin, end) ==> f in inputs
  {
    FilterMeetsIn(fs, begin, end);
    if level == 0 {
      forall f | f in fs && Meets(f, begin, end) ensures f in inputs {
        var t := set f | f in inputs;
        assert ReachesDown(f, begin, t) && ReachesUp(f, end, t);
      }
    }
  }

  // Second step: everything of `level` that meets the whole range, closed the same way.
  method Overlapping(v: Version, level: nat, start: UserKey, limit: UserKey) returns (seed: seq<File>)
    requires LsmInvariant(v) && level + 1 < NUM_LEVELS
    ensures seed != [] ==> Seed(v.levels[level], level, seed)
    ensures forall f :: f in v.levels[level] && Meets(f, Some(start), Some(limit)) ==> f in seed
    ensures Overlapped(v.levels[level], level, Some(start), Some(limit), seed)
  {
    seed := GetOverlappingInputs(level, v.levels[level], Some(start), Some(limit));
    MeetingFilesAreTaken(v.levels[level], level, Some(start), Some(limit), seed);
    if seed != [] {
      if level == 0 {
        LeastClosedIsSeed(v.levels[0], Some(start), Some(limit), seed);
      } else {
        var a, c := FilterIsRun(v.levels[level], Some(start), Some(limit));
      }
    }
  }

  // What GetOverlappingInputs makes of a range.
  ghost predicate Overlapped(fs: seq<File>, level: nat, begin: Bound, end: Bound, inputs: seq<File>) {
    if level == 0 then LeastClosed(fs, begin, end, inputs) else inputs == FilterMeets(fs, begin, end)
  }

  // More upper files, no more lower ones, and all of it under the limit.
  ghost predicate WorthGrowing(v: Version, level: nat, closed: seq<File>, in1: seq<File>, wide: seq<File>,
                               expandedBytesLimit: nat)
    requires |v.levels| == NUM_LEVELS && level + 1 < NUM_LEVELS && TablesAscend(v.levels[level])
  {
    wide != [] &&
    var expanded := Closure(v.levels[level], wide);
    && |expanded| > |closed| && TotalFileSize(in1) + TotalFileSize(expanded) < expandedBytesLimit
    && |LowerInputs(v, level, expanded)| == |in1|
  }

  // The lower inputs are what the closed seed meets. The upper inputs are the closed seed or, if there
  // are lower ones and it is worth it, all the upper files that the whole range meets, closed again.
  ghost predicate Grown(v: Version, level: nat, seed: seq<File>, expandedBytesLimit: nat, in0: seq<File>,
                        in1: seq<File>)
    requires |v.levels| == NUM_LEVELS && level + 1 < NUM_LEVELS && TablesAscend(v.levels[level]) && seed != []
  {
    var fs := v.levels[level];
    var closed := Closure(fs, seed);
    && in1 == LowerInputs(v, level, closed) && (forall f :: f in closed ==> f in in0)
    && if in1 == [] then in0 == closed
       else exists wide :: Overlapped(fs, level, Low(closed + in1), High(closed + in1), wide)
                           && in0 == if WorthGrowing(v, level, closed, in1, wide, expandedBytesLimit)
                                     then Closure(fs, wide) else closed
  }

  method GrowInputs(v: Version, level: nat, seed: seq<File>, expandedBytesLimit: nat)
    returns (in0: seq<File>, in1: seq<File>)
    requires LsmInvariant(v) && level + 1 < NUM_LEVELS && Seed(v.levels[level], level, seed)
    ensures GoodInputs(v, level, in0, in1) && Grown(v, level, seed, expandedBytesLimit, in0, in1)
  {
    hide FilterMeets, Overlapped, LowestKey, HighestKey, TotalFileSize, BoundaryRun, Meets, Seed, NewerThan,
        NewestByNumber, UniqueVersions, Disjoint;
    in0, in1 := CloseInputs(v, level, seed);
    ghost var closed, below := in0, in1;
    if in1 != [] {
      var allStart, allLimit := GetRange(in0 + in1);
      var wide := Overlapping(v, level, allStart.ukey, allLimit.ukey);
      assert Overlapped(v.levels[level], level, Low(closed + below), High(closed + below), wide);
      InputsMeetTheirSpan(v, level, in0, in0 + in1);
      if wide != [] {
        var expanded0, expanded1 := CloseInputs(v, level, wide);
        if |expanded0| > |in0| && TotalFileSize(in1) + TotalFileSize(expanded0) < expandedBytesLimit
           && |expanded1| == |in1| {
          LowerInputsGrow(v, level, in0, expanded0);
          in0, in1 := expanded0, expanded1;
        }
      }
    }
  }

  // What all inputs meet two levels down.
  function Grandparents(v: Version, level: nat, in0: seq<File>, in1: seq<File>): seq<File>
    requires |v.levels| == NUM_LEVELS && in0 != []
  {
    if level + 2 < NUM_LEVELS then FilterMeets(v.levels[level + 2], Low(in0 + in1), High(in0 + in1)) else []
  }

  // SetupOtherInputs: level + 1 inputs, then the attempt to grow the upper inputs without
  // changing how many lower files are read, then the grandparents.
  method SetupOtherInputs(v: Version, level: nat, seed: seq<File>, expandedBytesLimit: nat)
    returns (in0: seq<File>, in1: seq<File>, grandparents: seq<File>, pointer: InternalKey)
    requires LsmInvariant(v) && level + 1 < NUM_LEVELS && Seed(v.levels[level], level, seed)
    ensures GoodInputs(v, level, in0, in1) && Grown(v, level, seed, expandedBytesLimit, in0, in1)
    ensures forall f :: f in seed ==> f in in0
    ensures grandparents == Grandparents(v, level, in0, in1) && pointer == HighestKey(in0)
  {
    in0, in1 := GrowInputs(v, level, seed, expandedBytesLimit);
    hide Grown, Seed, FilterMeets, HighestKey, LowestKey;
    grandparents := [];
    if level + 2 < NUM_LEVELS {
      var allStart, allLimit := GetRange(in0 + in1);
      grandparents := GetOverlappingInputs(level + 2, v.levels[level + 2], Some(allStart.ukey), Some(allLimit.ukey));
    }
    var _, largest := GetRange(in0);
    pointer := largest;
  }

  // The file alone or, at level 0, everything that overlaps it.
  ghost predicate SeedAround(fs: seq<File>, level: nat, f: File, seed: seq<File>) {
    && f in fs && f in seed
    && if level == 0 then LeastClosed(fs, Some(Smallest(f).ukey), Some(Largest(f).ukey), seed) else seed == [f]
  }

  predicate Past(pointer: Option<InternalKey>, f: File) {
    pointer.None? || Less(pointer.value, Largest(f))
  }

  // The first file past the compaction pointer, or the first of all if none is.
  ghost predicate NextInTurn(fs: seq<File>, pointer: Option<InternalKey>, i: nat) {
    && i < |fs| && (forall j :: 0 <= j < i ==> !Past(pointer, fs[j]))
    && (Past(pointer, fs[i]) || (i == 0 && forall f :: f in fs ==> !Past(pointer, f)))
  }

  // Level by level compactions take turns: the file picked ends behind the pointer, unless all files
  // end at or before it, and no file in front of it does.
  lemma TurnsAreTaken(fs: seq<File>, pointer: InternalKey, i: nat)
    requires NextInTurn(fs, Some(pointer), i)
    ensures Less(pointer, Largest(fs[i])) || (i == 0 && forall f :: f in fs ==> !Less(pointer, Largest(f)))
    ensures forall j :: 0 <= j < i ==> !Less(pointer, Largest(fs[j]))
  {
  }

  // What PickCompaction takes first.
  ghost predicate PickedSeed(fs: seq<File>, level: nat, pointer: Option<InternalKey>, seed: seq<File>) {
    exists i: nat :: NextInTurn(fs, pointer, i) && SeedAround(fs, level, fs[i], seed)
  }

  method PickSeed(v: Version, level: nat, pointer: Option<InternalKey>) returns (seed: seq<File>)
    requires LsmInvariant(v) && level + 1 < NUM_LEVELS && v.levels[level] != []
    ensures Seed(v.levels[level], level, seed) && PickedSeed(v.levels[level], level, pointer, seed)
  {
    var fs := v.levels[level];
    var i := 0;
    while i < |fs| && !Past(pointer, fs[i])
      invariant i <= |fs| && forall j :: 0 <= j < i ==> !Past(pointer, fs[j])
    {
      i := i + 1;
    }
    i := if i == |fs| then 0 else i;
    assert NextInTurn(fs, pointer, i);
    seed := SeedFromFile(v, level, fs[i]);
  }

  // The seed around one given file (size-triggered or seek-triggered).
  method SeedFromFile(v: Version, level: nat, f: File) returns (seed: seq<File>)
    requires LsmInvariant(v) && level + 1 < NUM_LEVELS && f in v.levels[level]
    ensures Seed(v.levels[level], level, seed) && SeedAround(v.levels[level], level, f, seed)
  {
    var fs := v.levels[level];
    seed := [f];
    if level == 0 {
      var smallest, largest := GetRange(seed);
      seed := GetOverlappingInputs(0, fs, Some(smallest.ukey), Some(largest.ukey));
      assert Closed(fs, Some(smallest.ukey), Some(largest.ukey), set g | g in seed);
      TableBounds(f, f.entries[0]);
      assert ReachesDown(f, Some(smallest.ukey), set g | g in seed);
      assert ReachesUp(f, Some(largest.ukey), set g | g in seed);
      LeastClosedIsSeed(fs, Some(smallest.ukey), Some(largest.ukey), seed);
    } else {
      var i :| 0 <= i < |fs| && fs[i] == f;
      assert seed == fs[i..i + 1];
    }
  }

  // The shortest beginning of `fs` that reaches the limit, or all of it.
  ghost predicate CutAt(fs: seq<File>, limit: nat, part: seq<File>) {
    && part <= fs && (fs != [] ==> part != [])
    && (part == fs || TotalFileSize(part) >= limit)
    && forall m :: 0 < m < |part| ==> TotalFileSize(part[..m]) < limit
  }

  // What CompactRange takes first: the files meeting a manual range, cut short by size except at
  // level 0.
  ghost predicate RangeTaken(fs: seq<File>, level: nat, begin: Bound, end: Bound, limit: nat, seed: seq<File>) {
    if level == 0 then LeastClosed(fs, begin, end, seed) else CutAt(FilterMeets(fs, begin, end), limit, seed)
  }

  method RangeSeed(v: Version, level: nat, begin: Bound, end: Bound, limit: nat) returns (seed: seq<File>)
    requires LsmInvariant(v) && level + 1 < NUM_LEVELS
    ensures seed != [] ==> Seed(v.levels[level], level, seed)
    ensures seed == [] <==> forall f :: f in v.levels[level] ==> !Meets(f, begin, end)
    ensures RangeTaken(v.levels[level], level, begin, end, limit, seed)
  {
    var fs := v.levels[level];
    seed := GetOverlappingInputs(level, fs, begin, end);
    ghost var all := seed;
    FilterMeetsIn(fs, begin, end);
    if level == 0 {
      MeetingFilesAreClosed(fs, begin, end, seed);
      if seed != [] {
        LeastClosedIsSeed(fs, begin, end, seed);
      }
    } else if seed != [] {
      var a, c := FilterIsRun(fs, begin, end);
      seed := CutSeed(seed, limit);
      assert seed == fs[a..a + |seed|];
      assert all[0] in all;
    }
  }

  method CutSeed(files: seq<File>, limit: nat) returns (seed: seq<File>)
    requires files != []
    ensures CutAt(files, limit, seed)
  {
    var total, i := files[0].size, 1;
    FirstSize(files);
    while i < |files| && total < limit
      invariant 1 <= i <= |files| && total == TotalFileSize(files[..i])
      invariant forall m :: 0 < m < i ==> TotalFileSize(files[..m]) < limit
    {
      assert files[..i + 1][..i] == files[..i];
      total := total + files[i].size;
      i := i + 1;
    }
    seed := files[..i];
    assert forall m :: 0 < m < i ==> seed[..m] == files[..m];
  }

  lemma FirstSize(files: seq<File>)
    requires files != []
    ensures TotalFileSize(files[..1]) == files[0].size
  {
    assert files[..1][..0] == [];
  }

  lemma MeetingFilesAreClosed(fs: seq<File>, begin: Bound, end: Bound, inputs: seq<File>)
    requires TablesAscend(fs) && LeastClosed(fs, begin, end, inputs)
    ensures inputs == [] <==> forall f :: f in fs ==> !Meets(f, begin, end)
  {
    var t := set f | f in inputs;
    forall f | f in fs && Meets(f, begin, end) ensures f in inputs {
      assert ReachesDown(f, begin, t) && ReachesUp(f, end, t);
    }
    assert inputs != [] ==> inputs[0] in inputs;
    if forall f :: f in fs ==> !Meets(f, begin, end) {
      assert Closed(fs, begin, end, {});
    }
  }
}

/** Which files of a level meet a user-key range, and where a flushed memtable may go
    (db/version_set.cc: SomeFileOverlapsRange, GetOverlappingInputs, PickLevelForMemTableOutput). */
module Overlap {
  import opened Wrappers
  import opened DbFormat
  import opened Versions

  // A missing bound is unlimited on its side.
  type Bound = Option<UserKey>

  predicate AfterFile(k: Bound, f: File) {
    k.Some? && k.value > Largest(f).ukey
  }

  predicate BeforeFile(k: Bound, f: File) {
    k.Some? && k.value < Smallest(f).ukey
  }

  predicate Meets(f: File, begin: Bound, end: Bound) {
    !AfterFile(begin, f) && !BeforeFile(end, f)
  }

  method SomeFileOverlapsRange(disjoint: bool, fs: seq<File>, smallest: Bound, largest: Bound) returns (r: bool)
    requires TablesAscend(fs) && (disjoint ==> Disjoint(fs))
    ensures r <==> exists f :: f in fs && Meets(f, smallest, largest)
  {
    if !disjoint {
      for i := 0 to |fs|
        invariant forall f :: f in fs[..i] ==> !Meets(f, smallest, largest)
      {
        if AfterFile(smallest, fs[i]) || BeforeFile(largest, fs[i]) {
        } else {
          assert Meets(fs[i], smallest, largest);
          return true;
        }
      }
      assert fs[..|fs|] == fs;
      return false;
    }
    var index := 0;
    if smallest.Some? {
      index := FindFile(fs, SeekKey(smallest.value, MAX_SEQUENCE));
    }
    if index >= |fs| {
      forall f | f in fs ensures !Meets(f, smallest, largest) {
        var i :| 0 <= i < |fs| && fs[i] == f;
      }
      return false;
    }
    r := !BeforeFile(largest, fs[index]);
    if r {
      assert Meets(fs[index], smallest, largest);
    } else {
      forall f | f in fs ensures !Meets(f, smallest, largest) {
        var i :| 0 <= i < |fs| && fs[i] == f;
        if i > index {
          TableBounds(fs[index], fs[index].entries[0]);
          assert Less(Largest(fs[index]), Smallest(fs[i]));
        }
      }
    }
  }

  // ----- GetOverlappingInputs -----

  // The files among the first `n` that meet the range, in order.
  function MeetsUpTo(fs: seq<File>, n: nat, begin: Bound, end: Bound): seq<File>
    requires n <= |fs|
  {
    if n == 0 then []
    else
      var front := MeetsUpTo(fs, n - 1, begin, end);
      if Meets(fs[n - 1], begin, end) then front + [fs[n - 1]] else front
  }

  function FilterMeets(fs: seq<File>, begin: Bound, end: Bound): seq<File> {
    MeetsUpTo(fs, |fs|, begin, end)
  }

  lemma {:induction false} MeetsUpToIn(fs: seq<File>, n: nat, begin: Bound, end: Bound)
    requires n <= |fs|
    ensures forall f :: f in MeetsUpTo(fs, n, begin, end) <==> f in fs[..n] && Meets(f, begin, end)
  {
    if n > 0 {
      MeetsUpToIn(fs, n - 1, begin, end);
      assert fs[..n] == fs[..n - 1] + [fs[n - 1]];
    }
  }

  lemma FilterMeetsIn(fs: seq<File>, begin: Bound, end: Bound)
    ensures forall f :: f in FilterMeets(fs, begin, end) <==> f in fs && Meets(f, begin, end)
  {
    MeetsUpToIn(fs, |fs|, begin, end);
    assert fs[..|fs|] == fs;
  }

  function TotalFileSize(fs: seq<File>): nat {
    if fs == [] then 0 else TotalFileSize(fs[..|fs| - 1]) + fs[|fs| - 1].size
  }

  // Sizes add up, whichever way the files are taken.
  lemma {:induction false} SizesAdd(a: seq<File>, b: seq<File>)
    ensures TotalFileSize(a + b) == TotalFileSize(a) + TotalFileSize(b)
    ensures |b| == 1 ==> TotalFileSize(b) == b[0].size
  {
    if b == [] {
      assert a + b == a;
    } else {
      var front := b[..|b| - 1];
      assert (a + b)[..|a + b| - 1] == a + front;
      SizesAdd(a, front);
    }
  }

  // `f` reaches down to the range's lower end, or to the start of a file of `t`.
  ghost predicate ReachesDown(f: File, begin: Bound, t: set<File>) {
    begin.None? || Largest(f).ukey >= begin.value || exists g :: g in t && Largest(f).ukey >= Smallest(g).ukey
  }

  ghost predicate ReachesUp(f: File, end: Bound, t: set<File>) {
    end.None? || Smallest(f).ukey <= end.value || exists g :: g in t && Smallest(f).ukey <= Largest(g).ukey
  }

  // `t` contains every file of `fs` that meets the span of the range and of `t` itself.
  ghost predicate Closed(fs: seq<File>, begin: Bound, end: Bound, t: set<File>) {
    forall f :: f in fs && ReachesDown(f, begin, t) && ReachesUp(f, end, t) ==> f in t
  }

  // Every closed set forces the range at least as wide as [b, e].
  ghost predicate Anchored(fs: seq<File>, begin: Bound, end: Bound, b: Bound, e: Bound) {
    && (b.None? <==> begin.None?) && (e.None? <==> end.None?)
    && (b.Some? ==> b.value <= begin.value) && (e.Some? ==> e.value >= end.value)
    && forall t: set<File> :: Closed(fs, begin, end, t) ==>
         && (b == begin || exists g :: g in t && b == Some(Smallest(g).ukey))
         && (e == end || exists g :: g in t && e == Some(Largest(g).ukey))
  }

  lemma AnchoredMeetsIn(fs: seq<File>, begin: Bound, end: Bound, b: Bound, e: Bound, t: set<File>, f: File)
    requires Anchored(fs, begin, end, b, e) && Closed(fs, begin, end, t)
    requires f in fs && Meets(f, b, e)
    ensures f in t
  {
    assert ReachesDown(f, begin, t);
    assert ReachesUp(f, end, t);
  }

  lemma Widen(fs: seq<File>, begin: Bound, end: Bound, b: Bound, e: Bound, f: File)
    requires Anchored(fs, begin, end, b, e) && f in fs && Meets(f, b, e)
    ensures b.Some? && Smallest(f).ukey < b.value ==> Anchored(fs, begin, end, Some(Smallest(f).ukey), e)
    ensures e.Some? && Largest(f).ukey > e.value ==> Anchored(fs, begin, end, b, Some(Largest(f).ukey))
  {
    forall t: set<File> | Closed(fs, begin, end, t) ensures f in t {
      AnchoredMeetsIn(fs, begin, end, b, e, t, f);
    }
  }

  // How many file ends still stick out of [b, e].
  function Outside(fs: seq<File>, b: Bound, e: Bound): nat {
    if fs == [] then 0 else
      Outside(fs[1..], b, e)
      + (if b.Some? && Smallest(fs[0]).ukey < b.value then 1 else 0)
      + (if e.Some? && Largest(fs[0]).ukey > e.value then 1 else 0)
  }

  lemma {:induction false} OutsideShrinks(fs: seq<File>, b: Bound, e: Bound, b': Bound, e': Bound)
    requires b.Some? ==> b'.Some? && b'.value <= b.value
    requires e.Some? ==> e'.Some? && e'.value >= e.value
    requires b.None? ==> b'.None?
    requires e.None? ==> e'.None?
    ensures Outside(fs, b', e') <= Outside(fs, b, e)
    ensures forall f :: f in fs && b.Some? && b'.value <= Smallest(f).ukey < b.value ==>
        Outside(fs, b', e') < Outside(fs, b, e)
    ensures forall f :: f in fs && e.Some? && e'.value >= Largest(f).ukey > e.value ==>
        Outside(fs, b', e') < Outside(fs, b, e)
  {
    if fs != [] {
      OutsideShrinks(fs[1..], b, e, b', e');
      assert fs == [fs[0]] + fs[1..];
    }
  }

  // `inputs` lists, in order, the least set that holds every file meeting the range or the span
  // of the set itself; all of it lies within the widened range [b, e].
  ghost predicate LeastClosed(fs: seq<File>, begin: Bound, end: Bound, inputs: seq<File>) {
    && Closed(fs, begin, end, set f | f in inputs)
    && (forall t: set<File>, f :: Closed(fs, begin, end, t) && f in inputs ==> f in t)
    && exists b, e :: SpannedBy(fs, begin, end, inputs, b, e)
  }

  ghost predicate SpannedBy(fs: seq<File>, begin: Bound, end: Bound, inputs: seq<File>, b: Bound, e: Bound) {
    && (b.None? <==> begin.None?) && (e.None? <==> end.None?)
    && inputs == FilterMeets(fs, b, e) && OwnSpan(inputs, b, e)
  }

  // For a deeper level the result is the files that meet the range, in order. For level 0 it is
  // the least set that contains them and every file meeting its own span.
  method GetOverlappingInputs(level: nat, fs: seq<File>, begin: Bound, end: Bound) returns (inputs: seq<File>)
    ensures level > 0 ==> inputs == FilterMeets(fs, begin, end)
    ensures level == 0 ==> LeastClosed(fs, begin, end, inputs)
  {
    hide Closed, LeastClosed, Anchored, Outside;
    AnchoredAtStart(fs, begin, end);
    inputs := [];
    var userBegin, userEnd := begin, end;
    var i := 0;
    while i < |fs|
      invariant i <= |fs|
      invariant inputs == MeetsUpTo(fs, i, userBegin, userEnd)
      invariant Anchored(fs, begin, end, userBegin, userEnd)
      invariant level > 0 ==> userBegin == begin && userEnd == end
      invariant level == 0 ==> OwnSpan(inputs, userBegin, userEnd)
      decreases Outside(fs, userBegin, userEnd), |fs| - i
    {
      var f := fs[i];
      i := i + 1;
      if AfterFile(userBegin, f) {
      } else if BeforeFile(userEnd, f) {
      } else {
        inputs := inputs + [f];
        if level == 0 {
          Widen(fs, begin, end, userBegin, userEnd, f);
          if userBegin.Some? && Smallest(f).ukey < userBegin.value {
            OutsideShrinks(fs, userBegin, userEnd, Some(Smallest(f).ukey), userEnd);
            userBegin := Some(Smallest(f).ukey);
            inputs := [];
            i := 0;
          } else if userEnd.Some? && Largest(f).ukey > userEnd.value {
            OutsideShrinks(fs, userBegin, userEnd, userBegin, Some(Largest(f).ukey));
            userEnd := Some(Largest(f).ukey);
            inputs := [];
            i := 0;
          }
        }
      }
    }
    if level == 0 {
      AnchoredIsLeast(fs, begin, end, inputs, userBegin, userEnd);
    }
  }

  lemma AnchoredAtStart(fs: seq<File>, begin: Bound, end: Bound)
    ensures Anchored(fs, begin, end, begin, end)
  {
  }

  lemma AnchoredIsLeast(fs: seq<File>, begin: Bound, end: Bound, inputs: seq<File>, b: Bound, e: Bound)
    requires Anchored(fs, begin, end, b, e) && inputs == FilterMeets(fs, b, e) && OwnSpan(inputs, b, e)
    ensures LeastClosed(fs, begin, end, inputs)
  {
    FilterMeetsIn(fs, b, e);
    forall t: set<File>, f | Closed(fs, begin, end, t) && f in inputs ensures f in t {
      AnchoredMeetsIn(fs, begin, end, b, e, t, f);
    }
    assert SpannedBy(fs, begin, end, inputs, b, e);
  }

  // No file of the list sticks out of the range.
  ghost predicate OwnSpan(fs: seq<File>, b: Bound, e: Bound) {
    forall f :: f in fs ==> (b.Some? ==> b.value <= Smallest(f).ukey) && (e.Some? ==> Largest(f).ukey <= e.value)
  }

  // ----- PickLevelForMemTableOutput -----

  const MAX_MEM_COMPACT_LEVEL: nat := 2

  ghost predicate LevelMeets(v: Version, l: nat, lo: UserKey, hi: UserKey)
    requires l < |v.levels|
  {
    exists f :: f in v.levels[l] && Meets(f, Some(lo), Some(hi))
  }

  method OverlapInLevel(v: Version, level: nat, lo: UserKey, hi: UserKey) returns (r: bool)
    requires LsmInvariant(v) && level < NUM_LEVELS
    ensures r <==> LevelMeets(v, level, lo, hi)
  {
    r := SomeFileOverlapsRange(level > 0, v.levels[level], Some(lo), Some(hi));
  }

  lemma VersionHasLevels(v: Version)
    requires LsmInvariant(v)
    ensures |v.levels| == NUM_LEVELS
  {
  }

  // The two reasons not to push a memtable table from `level` one level down.
  ghost predicate Blocked(v: Version, level: nat, lo: UserKey, hi: UserKey, maxGrandparentBytes: nat)
    requires level + 2 < |v.levels|
  {
    || LevelMeets(v, level + 1, lo, hi)
    || TotalFileSize(FilterMeets(v.levels[level + 2], Some(lo), Some(hi))) > maxGrandparentBytes
  }

  ghost predicate PickedLevel(v: Version, lo: UserKey, hi: UserKey, maxGrandparentBytes: nat, level: nat)
    requires |v.levels| == NUM_LEVELS
  {
    && level <= MAX_MEM_COMPACT_LEVEL
    && (level > 0 ==> forall l: nat :: l <= level ==> !LevelMeets(v, l, lo, hi))
    && (forall l: nat :: l < level ==> !Blocked(v, l, lo, hi, maxGrandparentBytes))
    && (level < MAX_MEM_COMPACT_LEVEL ==> LevelMeets(v, 0, lo, hi) || Blocked(v, level, lo, hi, maxGrandparentBytes))
  }

  // A memtable table spanning [lo, hi] goes below level 0 only past levels it does not meet, and
  // stops as soon as the next step down is blocked.
  method PickLevelForMemTableOutput(v: Version, lo: UserKey, hi: UserKey, maxGrandparentBytes: nat) returns (level: nat)
    requires LsmInvariant(v)
    ensures PickedLevel(v, lo, hi, maxGrandparentBytes, level)
  {
    hide LsmInvariant, LevelMeets, LeastClosed, TotalFileSize;
    VersionHasLevels(v);
    level := 0;
    var overlap := OverlapInLevel(v, 0, lo, hi);
    if overlap {
      return;
    }
    while level < MAX_MEM_COMPACT_LEVEL
      invariant level <= MAX_MEM_COMPACT_LEVEL
      invariant forall l: nat :: l <= level ==> !LevelMeets(v, l, lo, hi)
      invariant forall l: nat :: l < level ==> !Blocked(v, l, lo, hi, maxGrandparentBytes)
    {
      overlap := OverlapInLevel(v, level + 1, lo, hi);
      if overlap {
        return;
      }
      if level + 2 < NUM_LEVELS {
        var overlaps := GetOverlappingInputs(level + 2, v.levels[level + 2], Some(lo), Some(hi));
        if TotalFileSize(overlaps) > maxGrandparentBytes {
          return;
        }
      }
      level := level + 1;
    }
  }
}

/** Version edits and the builder that folds them into a version
    (db/version_edit.h, db/version_set.cc: VersionSet::Builder). */
module VersionBuilder {
  import opened DbFormat
  import opened Versions

  // The part of a VersionEdit that changes the file lists.
  datatype Edit = Edit(deleted: set<(nat, nat)>, added: seq<(nat, File)>)

  // BySmallestKey: smallest key first, file number on ties.
  predicate BySmallest(f: File, g: File) {
    Less(Smallest(f), Smallest(g)) || (Smallest(f) == Smallest(g) && f.number < g.number)
  }

  lemma BySmallestIsTotal(f: File, g: File)
    requires f.number != g.number
    ensures BySmallest(f, g) || BySmallest(g, f)
  {
    LessIsTotalOrder(Smallest(f), Smallest(g));
  }

  ghost predicate Ordered(fs: seq<File>) {
    forall i, j :: 0 <= i < j < |fs| ==> BySmallest(fs[i], fs[j])
  }

  ghost predicate WellFormedEdit(edit: Edit) {
    && (forall d :: d in edit.deleted ==> d.0 < NUM_LEVELS)
    && (forall a :: a in edit.added ==> a.0 < NUM_LEVELS)
  }

  function DeletedAt(deleted: set<(nat, nat)>, level: nat): set<nat> {
    set d | d in deleted && d.0 == level :: d.1
  }

  // Insertion into std::set<FileMetaData*, BySmallestKey>: an equivalent element stays put.
  function SetInsert(fs: seq<File>, f: File): (r: seq<File>) {
    if fs == [] || BySmallest(f, fs[0]) then [f] + fs
    else if BySmallest(fs[0], f) then [fs[0]] + SetInsert(fs[1..], f)
    else fs
  }

  lemma {:induction false} SetInsertMembers(fs: seq<File>, f: File)
    ensures forall g :: g in SetInsert(fs, f) ==> g == f || g in fs
    ensures forall g :: g in fs ==> g in SetInsert(fs, f)
    ensures (forall g :: g in fs ==> g.number != f.number) ==> f in SetInsert(fs, f)
  {
    if fs != [] && !BySmallest(f, fs[0]) && BySmallest(fs[0], f) {
      SetInsertMembers(fs[1..], f);
      assert fs == [fs[0]] + fs[1..];
    } else if fs != [] && !BySmallest(f, fs[0]) {
      LessIsTotalOrder(Smallest(f), Smallest(fs[0]));
      assert fs[0].number == f.number && fs[0] in fs;
    }
  }

  lemma BySmallestIsTransitive(f: File, g: File, h: File)
    requires BySmallest(f, g) && BySmallest(g, h)
    ensures BySmallest(f, h)
  {
  }

  lemma OrderedBehind(f: File, fs: seq<File>)
    requires Ordered(fs) && forall g :: g in fs ==> BySmallest(f, g)
    ensures Ordered([f] + fs)
  {
    hide BySmallest;
    var all := [f] + fs;
    forall i, j | 0 <= i < j < |all| ensures BySmallest(all[i], all[j]) {
      assert all[j] in fs;
    }
  }

  lemma {:induction false} SetInsertSpec(fs: seq<File>, f: File)
    requires Ordered(fs)
    ensures Ordered(SetInsert(fs, f))
    ensures forall g :: g in SetInsert(fs, f) ==> g == f || g in fs
    ensures forall g :: g in fs ==> g in SetInsert(fs, f)
    ensures (forall g :: g in fs ==> g.number != f.number) ==> f in SetInsert(fs, f)
  {
    SetInsertMembers(fs, f);
    hide BySmallest;
    if fs == [] || BySmallest(f, fs[0]) {
      forall g | g in fs ensures BySmallest(f, g) {
        var i :| 0 <= i < |fs| && fs[i] == g;
        if i > 0 {
          BySmallestIsTransitive(f, fs[0], g);
        }
      }
      OrderedBehind(f, fs);
    } else if BySmallest(fs[0], f) {
      SetInsertSpec(fs[1..], f);
      OrderedBehind(fs[0], SetInsert(fs[1..], f));
    }
  }

  // The pending changes to one level.
  datatype LevelState = LevelState(deletedFiles: set<nat>, addedFiles: seq<File>)

  function ApplyAdds(ls: LevelState, added: seq<(nat, File)>, level: nat): LevelState
    decreases |added|
  {
    if added == [] then ls
    else
      var before := ApplyAdds(ls, added[..|added| - 1], level);
      var a := added[|added| - 1];
      if a.0 == level then LevelState(before.deletedFiles - {a.1.number}, SetInsert(before.addedFiles, a.1)) else before
  }

  // What Builder::Apply does to one level.
  function ApplyLevel(ls: LevelState, edit: Edit, level: nat): LevelState {
    ApplyAdds(ls.(deletedFiles := ls.deletedFiles + DeletedAt(edit.deleted, level)), edit.added, level)
  }

  ghost predicate NumbersApart(a: seq<File>, b: seq<File>) {
    forall i, j :: 0 <= i < |a| && 0 <= j < |b| ==> a[i].number != b[j].number
  }

  // What Builder::SaveTo lists for one level.
  ghost predicate SavedLevel(base: seq<File>, ls: LevelState, r: seq<File>) {
    && Ordered(r)
    && forall f :: f in r <==> (f in base || f in ls.addedFiles) && f.number !in ls.deletedFiles
  }

  class Builder {
    const base: Version
    var levels: seq<LevelState>

    ghost predicate Valid()
      reads this
    {
      && |base.levels| == |levels| == NUM_LEVELS
      && (forall l :: 0 <= l < NUM_LEVELS ==> Ordered(base.levels[l]) && Ordered(levels[l].addedFiles))
    }

    constructor (base: Version)
      requires |base.levels| == NUM_LEVELS
      requires forall l :: 0 <= l < NUM_LEVELS ==> Ordered(base.levels[l])
      ensures Valid() && this.base == base
      ensures forall l :: 0 <= l < NUM_LEVELS ==> levels[l] == LevelState({}, [])
    {
      this.base := base;
      levels := seq(NUM_LEVELS, l => LevelState({}, []));
    }

    // Deletions first, then additions; adding a file cancels a pending deletion of its number.
    method Apply(edit: Edit)
      requires Valid() && WellFormedEdit(edit)
      modifies this
      ensures Valid()
      ensures forall l :: 0 <= l < NUM_LEVELS ==> levels[l] == ApplyLevel(old(levels[l]), edit, l)
    {
      levels := seq(NUM_LEVELS, l requires 0 <= l < NUM_LEVELS reads this requires |levels| == NUM_LEVELS =>
                  levels[l].(deletedFiles := levels[l].deletedFiles + DeletedAt(edit.deleted, l)));
      ghost var afterDelete := levels;
      for i := 0 to |edit.added|
        invariant |levels| == NUM_LEVELS
        invariant forall l :: 0 <= l < NUM_LEVELS ==> levels[l] == ApplyAdds(afterDelete[l], edit.added[..i], l)
        invariant forall l :: 0 <= l < NUM_LEVELS ==> Ordered(levels[l].addedFiles)
      {
        var a := edit.added[i];
        assert a in edit.added;
        assert edit.added[..i + 1][..i] == edit.added[..i];
        SetInsertSpec(levels[a.0].addedFiles, a.1);
        levels := levels[a.0 := LevelState(levels[a.0].deletedFiles - {a.1.number},
            SetInsert(levels[a.0].addedFiles, a.1))];
      }
      assert edit.added[..|edit.added|] == edit.added;
    }

    method MaybeAddFile(files: seq<File>, level: nat, f: File) returns (r: seq<File>)
      requires level < |levels|
      ensures r == if f.number in levels[level].deletedFiles then files else files + [f]
    {
      if f.number in levels[level].deletedFiles {
        return files;
      }
      return files + [f];
    }

    // Merge of the base files with the added files, dropping deleted numbers.
    method SaveLevel(level: nat) returns (r: seq<File>)
      requires Valid() && level < NUM_LEVELS
      requires NumbersApart(base.levels[level], levels[level].addedFiles)
      ensures SavedLevel(base.levels[level], levels[level], r)
    {
      var bs, added := base.levels[level], levels[level].addedFiles;
      ghost var deleted := levels[level].deletedFiles;
      assert Ordered(bs) && Ordered(added);
      hide Ordered, BySmallest, Merged;
      r := [];
      MergedAtFirst(bs, added, deleted);
      var b := 0;
      for i := 0 to |added|
        invariant b <= |bs| && Merged(bs, b, added, i, deleted, r)
      {
        while b < |bs| && !BySmallest(added[i], bs[b])
          invariant b <= |bs| && Merged(bs, b, added, i, deleted, r)
        {
          BySmallestIsTotal(bs[b], added[i]);
          ghost var before := r;
          r := MaybeAddFile(r, level, bs[b]);
          MergeStep(bs, b, added, i, deleted, before, r, true);
          b := b + 1;
        }
        ghost var before := r;
        r := MaybeAddFile(r, level, added[i]);
        MergeStep(bs, b, added, i, deleted, before, r, false);
      }
      while b < |bs|
        invariant b <= |bs| && Merged(bs, b, added, |added|, deleted, r)
      {
        ghost var before := r;
        r := MaybeAddFile(r, level, bs[b]);
        MergeStep(bs, b, added, |added|, deleted, before, r, true);
        b := b + 1;
      }
      MergedAtLast(bs, added, deleted, r);
    }

    method SaveTo() returns (v: Version)
      requires Valid()
      requires forall l :: 0 <= l < NUM_LEVELS ==> NumbersApart(base.levels[l], levels[l].addedFiles)
      ensures |v.levels| == NUM_LEVELS
      ensures forall l :: 0 <= l < NUM_LEVELS ==> SavedLevel(base.levels[l], levels[l], v.levels[l])
    {
      var out: seq<seq<File>> := [];
      for l := 0 to NUM_LEVELS
        invariant |out| == l
        invariant forall m :: 0 <= m < l ==> SavedLevel(base.levels[m], levels[m], out[m])
      {
        var r := SaveLevel(l);
        out := out + [r];
      }
      v := Version(out);
    }
  }

  // What one edit makes of a version.
  ghost predicate EditApplied(v: Version, edit: Edit, v': Version)
    requires |v.levels| == NUM_LEVELS
  {
    && |v'.levels| == NUM_LEVELS
    && forall l :: 0 <= l < NUM_LEVELS ==> LevelApplied(v.levels[l], edit, l, v'.levels[l])
  }

  ghost predicate LevelApplied(fs: seq<File>, edit: Edit, l: nat, fs': seq<File>) {
    && Ordered(fs')
    && forall f :: f in fs' <==> (f in fs && (l, f.number) !in edit.deleted) || (l, f) in edit.added
  }

  ghost predicate ApartInside(added: seq<(nat, File)>) {
    forall p, q :: 0 <= p < q < |added| ==> added[p].0 != added[q].0 || added[p].1.number != added[q].1.number
  }

  // No addition in `added` repeats a level and number of `f`.
  ghost predicate NotAgain(added: seq<(nat, File)>, l: nat, f: File) {
    forall a :: a in added && a.0 == l ==> a.1.number != f.number
  }

  // Added numbers are new to their level and used once.
  ghost predicate FreshNumbers(v: Version, edit: Edit)
    requires |v.levels| == NUM_LEVELS
  {
    && ApartInside(edit.added)
    && (forall a, f :: a in edit.added && a.0 < NUM_LEVELS && f in v.levels[a.0] ==> f.number != a.1.number)
  }

  // `r` holds what `ls` held and the additions to the level, and no pending deletion of an addition.
  ghost predicate AddsUp(ls: LevelState, added: seq<(nat, File)>, level: nat, r: LevelState) {
    && Ordered(r.addedFiles)
    && (forall f :: f in r.addedFiles <==> f in ls.addedFiles || (level, f) in added)
    && (forall n :: n in r.deletedFiles <==>
          n in ls.deletedFiles && forall f :: (level, f) in added ==> f.number != n)
  }

  lemma AddsOneMore(ls: LevelState, front: seq<(nat, File)>, level: nat, before: LevelState, f: File)
    requires AddsUp(ls, front, level, before) && forall g :: g in before.addedFiles ==> g.number != f.number
    ensures AddsUp(ls, front + [(level, f)], level,
                   LevelState(before.deletedFiles - {f.number}, SetInsert(before.addedFiles, f)))
  {
    SetInsertSpec(before.addedFiles, f);
    hide SetInsert, Ordered;
  }

  lemma AddsElsewhere(ls: LevelState, front: seq<(nat, File)>, level: nat, before: LevelState, a: (nat, File))
    requires AddsUp(ls, front, level, before) && a.0 != level
    ensures AddsUp(ls, front + [a], level, before)
  {
  }

  lemma AddedIsNew(ls: LevelState, added: seq<(nat, File)>, level: nat, before: LevelState, g: File)
    requires added != [] && AddsUp(ls, added[..|added| - 1], level, before) && g in before.addedFiles
    requires ApartInside(added) && added[|added| - 1].0 == level
    requires forall f :: f in ls.addedFiles ==> NotAgain(added, level, f)
    ensures g.number != added[|added| - 1].1.number
  {
    var n := |added| - 1;
    if g in ls.addedFiles {
      assert NotAgain(added, level, g) && added[n] in added;
    } else {
      var i :| 0 <= i < n && added[..n][i] == (level, g);
      assert added[i] == added[..n][i];
    }
  }

  lemma {:induction false} AddsOnTop(ls: LevelState, added: seq<(nat, File)>, level: nat)
    requires Ordered(ls.addedFiles) && ApartInside(added)
    requires forall f :: f in ls.addedFiles ==> NotAgain(added, level, f)
    ensures AddsUp(ls, added, level, ApplyAdds(ls, added, level))
  {
    if added != [] {
      var front, a := added[..|added| - 1], added[|added| - 1];
      var before := ApplyAdds(ls, front, level);
      assert added == front + [a];
      forall f | f in ls.addedFiles ensures NotAgain(front, level, f) {
        assert NotAgain(added, level, f);
      }
      AddsOnTop(ls, front, level);
      if a.0 == level {
        forall g | g in before.addedFiles ensures g.number != a.1.number {
          AddedIsNew(ls, added, level, before, g);
        }
        AddsOneMore(ls, front, level, before, a.1);
      } else {
        AddsElsewhere(ls, front, level, before, a);
      }
      hide AddsUp, NotAgain, ApartInside;
    }
  }

  lemma SavedIsApplied(v: Version, edit: Edit, l: nat, r: seq<File>)
    requires |v.levels| == NUM_LEVELS && l < NUM_LEVELS && FreshNumbers(v, edit)
    requires SavedLevel(v.levels[l], ApplyLevel(LevelState({}, []), edit, l), r)
    ensures LevelApplied(v.levels[l], edit, l, r)
  {
    var start := LevelState({} + DeletedAt(edit.deleted, l), []);
    AddsOnTop(start, edit.added, l);
    forall n ensures n in start.deletedFiles <==> (l, n) in edit.deleted {
      if (l, n) in edit.deleted {
        var d := (l, n);
        assert d.0 == l && d.1 == n;
      }
    }
    var ls := ApplyLevel(LevelState({}, []), edit, l);
    assert ls == ApplyAdds(start, edit.added, l);
    forall f ensures f in r <==> (f in v.levels[l] && (l, f.number) !in edit.deleted) || (l, f) in edit.added {
      if f in v.levels[l] {
        forall g | (l, g) in edit.added ensures g.number != f.number {
          var a := (l, g);
          assert a in edit.added;
        }
      }
    }
  }

  ghost predicate AllBefore(r: seq<File>, f: File) {
    forall g :: g in r ==> BySmallest(g, f)
  }

  // `r` is the ordered list of the undeleted files among bs[..b] and added[..i], and everything
  // still to come sorts after it.
  ghost predicate Merged(bs: seq<File>, b: nat, added: seq<File>, i: nat, deleted: set<nat>, r: seq<File>)
    requires b <= |bs| && i <= |added|
  {
    && Ordered(r)
    && (forall f :: f in r <==> (f in bs[..b] || f in added[..i]) && f.number !in deleted)
    && (b < |bs| ==> AllBefore(r, bs[b]))
    && (i < |added| ==> AllBefore(r, added[i]))
  }

  lemma AllBeforeTrans(r: seq<File>, f: File, g: File)
    requires AllBefore(r, f) && BySmallest(f, g)
    ensures AllBefore(r, g)
  {
  }

  lemma AppendOrdered(r: seq<File>, f: File)
    requires Ordered(r) && AllBefore(r, f)
    ensures Ordered(r + [f])
  {
    assert forall i :: 0 <= i < |r| ==> r[i] in r;
  }

  lemma MergedAtFirst(bs: seq<File>, added: seq<File>, deleted: set<nat>)
    ensures Merged(bs, 0, added, 0, deleted, [])
  {
  }

  lemma MergedAtLast(bs: seq<File>, added: seq<File>, deleted: set<nat>, r: seq<File>)
    requires Merged(bs, |bs|, added, |added|, deleted, r)
    ensures SavedLevel(bs, LevelState(deleted, added), r)
  {
    assert bs[..|bs|] == bs && added[..|added|] == added;
  }

  // Taking the next file from either list keeps `Merged`.
  lemma MergeStep(bs: seq<File>, b: nat, added: seq<File>, i: nat, deleted: set<nat>, r: seq<File>, r': seq<File>,
                  fromBase: bool)
    requires b <= |bs| && i <= |added| && Ordered(bs) && Ordered(added) && Merged(bs, b, added, i, deleted, r)
    requires fromBase ==> b < |bs| && (i < |added| ==> BySmallest(bs[b], added[i]))
    requires !fromBase ==> i < |added| && (b < |bs| ==> BySmallest(added[i], bs[b]))
    requires var next := if fromBase then bs[b] else added[i];
             r' == if next.number in deleted then r else r + [next]
    ensures if fromBase then Merged(bs, b + 1, added, i, deleted, r') else Merged(bs, b, added, i + 1, deleted, r')
  {
    if fromBase {
      assert bs[..b + 1] == bs[..b] + [bs[b]];
      AppendOrdered(r, bs[b]);
      if b + 1 < |bs| {
        AllBeforeTrans(r, bs[b], bs[b + 1]);
      }
    } else {
      assert added[..i + 1] == added[..i] + [added[i]];
      AppendOrdered(r, added[i]);
      if i + 1 < |added| {
        AllBeforeTrans(r, added[i], added[i + 1]);
      }
    }
  }

  lemma OrderedIsDistinct(a: seq<File>)
    requires Ordered(a)
    ensures forall i, j :: 0 <= i < |a| && 0 <= j < |a| && a[i] == a[j] ==> i == j
  {
  }

  // The first member of an ordered list is the one every other member follows.
  lemma SameFirst(a: seq<File>, b: seq<File>)
    requires Ordered(a) && Ordered(b) && a != [] && b != [] && a[0] in b && b[0] in a
    ensures a[0] == b[0]
  {
    var i :| 0 <= i < |b| && b[i] == a[0];
    var j :| 0 <= j < |a| && a[j] == b[0];
    assert i == 0 || j == 0;
  }

  lemma EmptyTogether(a: seq<File>, b: seq<File>)
    requires forall f :: f in a <==> f in b
    ensures a == [] <==> b == []
  {
    assert a != [] ==> a[0] in a;
    assert b != [] ==> b[0] in b;
  }

  // An ordered list is determined by its members.
  lemma {:induction false} OrderedIsUnique(a: seq<File>, b: seq<File>)
    requires Ordered(a) && Ordered(b) && forall f :: f in a <==> f in b
    ensures a == b
  {
    EmptyTogether(a, b);
    if a != [] {
      assert a[0] in b && b[0] in a;
      SameFirst(a, b);
      OrderedIsDistinct(a);
      OrderedIsDistinct(b);
      assert a == [a[0]] + a[1..] && b == [b[0]] + b[1..];
      forall f ensures f in a[1..] <==> f in b[1..] {
        assert f in a[1..] <==> f in a && f != a[0];
        assert f in b[1..] <==> f in b && f != b[0];
      }
      OrderedIsUnique(a[1..], b[1..]);
    }
  }
}

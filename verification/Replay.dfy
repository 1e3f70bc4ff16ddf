/** One builder fed a whole run of edits against the versions installed one edit at a time
    (db/version_set.cc: Builder in Recover and in LogAndApply). */
module Replays {
  import opened Versions
  import opened VersionBuilder
  import opened VersionSets

  // A run of versions, each made from the one before by one edit.
  ghost predicate Installed(edits: seq<Edit>, versions: seq<Version>) {
    && |versions| == |edits| + 1
    && (forall i :: 0 <= i <= |edits| ==> |versions[i].levels| == NUM_LEVELS)
    && (forall i :: 0 <= i < |edits| ==> EditApplied(versions[i], edits[i], versions[i + 1]))
  }

  // Over the run each level and file number is added at most once, the base's own files included.
  ghost predicate AddedOnce(base: Version, edits: seq<Edit>)
    requires |base.levels| == NUM_LEVELS
  {
    && (forall i :: 0 <= i < |edits| ==> ApartInside(edits[i].added))
    && (forall i, l, f :: 0 <= i < |edits| && FileAt(base, l, f) ==> NotAgain(edits[i].added, l, f))
    && (forall i, j, a :: 0 <= i < j < |edits| && a in edits[i].added ==> NotAgain(edits[j].added, a.0, a.1))
  }

  // What one builder holds for a level after the whole run.
  function ReplayLevel(edits: seq<Edit>, l: nat): LevelState {
    if edits == [] then LevelState({}, []) else ApplyLevel(ReplayLevel(edits[..|edits| - 1], l), edits[|edits| - 1], l)
  }

  // The files a level's pending changes stand for on top of the base list.
  ghost predicate Stands(base: seq<File>, ls: LevelState, fs: seq<File>) {
    forall f :: f in fs <==> (f in base || f in ls.addedFiles) && f.number !in ls.deletedFiles
  }

  // One more edit, on the builder and on the version.
  lemma EditOnTop(base: seq<File>, ls: LevelState, fs: seq<File>, edit: Edit, l: nat, fs': seq<File>)
    requires Ordered(ls.addedFiles) && ApartInside(edit.added) && Stands(base, ls, fs) && LevelApplied(fs, edit, l, fs')
    requires forall f :: f in base || f in ls.addedFiles ==> NotAgain(edit.added, l, f)
    ensures Ordered(ApplyLevel(ls, edit, l).addedFiles) && Stands(base, ApplyLevel(ls, edit, l), fs')
    ensures forall f :: f in ApplyLevel(ls, edit, l).addedFiles <==> f in ls.addedFiles || (l, f) in edit.added
  {
    var start := ls.(deletedFiles := ls.deletedFiles + DeletedAt(edit.deleted, l));
    AddsOnTop(start, edit.added, l);
    var r := ApplyAdds(start, edit.added, l);
    hide Ordered, ApplyAdds, ApartInside;
    forall n ensures n in start.deletedFiles <==> n in ls.deletedFiles || (l, n) in edit.deleted {
      if (l, n) in edit.deleted {
        var d := (l, n);
        assert d.0 == l && d.1 == n;
      }
    }
    forall f ensures f in fs' <==> (f in base || f in r.addedFiles) && f.number !in r.deletedFiles {
      if f in base || f in ls.addedFiles {
        forall g | (l, g) in edit.added ensures g.number != f.number {
          var a := (l, g);
          assert NotAgain(edit.added, l, f) && a in edit.added;
        }
      }
    }
  }

  lemma OncePrefix(base: Version, edits: seq<Edit>)
    requires |base.levels| == NUM_LEVELS && AddedOnce(base, edits) && edits != []
    ensures AddedOnce(base, edits[..|edits| - 1])
  {
  }

  lemma InstalledPrefix(edits: seq<Edit>, versions: seq<Version>)
    requires Installed(edits, versions) && edits != []
    ensures Installed(edits[..|edits| - 1], versions[..|versions| - 1])
  {
  }

  ghost predicate AddedBy(edits: seq<Edit>, l: nat, f: File) {
    exists i :: 0 <= i < |edits| && (l, f) in edits[i].added
  }

  lemma {:induction false} ReplayStands(edits: seq<Edit>, versions: seq<Version>, l: nat)
    requires Installed(edits, versions) && AddedOnce(versions[0], edits) && l < NUM_LEVELS
    ensures Ordered(ReplayLevel(edits, l).addedFiles)
    ensures Stands(versions[0].levels[l], ReplayLevel(edits, l), versions[|edits|].levels[l])
    ensures forall f :: f in ReplayLevel(edits, l).addedFiles <==> AddedBy(edits, l, f)
  {
    if edits != [] {
      var n := |edits| - 1;
      var front, ls := edits[..n], ReplayLevel(edits[..n], l);
      InstalledPrefix(edits, versions);
      OncePrefix(versions[0], edits);
      ReplayStands(front, versions[..n + 1], l);
      forall f | f in versions[0].levels[l] || f in ls.addedFiles ensures NotAgain(edits[n].added, l, f) {
        if f in versions[0].levels[l] {
          assert FileAt(versions[0], l, f);
        } else {
          var i :| 0 <= i < n && (l, f) in front[i].added;
          var a := (l, f);
          assert a in edits[i].added;
        }
      }
      assert EditApplied(versions[n], edits[n], versions[n + 1]);
      EditOnTop(versions[0].levels[l], ls, versions[n].levels[l], edits[n], l, versions[n + 1].levels[l]);
      AddedByLast(edits, l);
    }
  }

  lemma AddedByLast(edits: seq<Edit>, l: nat)
    requires edits != []
    ensures forall f :: AddedBy(edits, l, f) <==>
        AddedBy(edits[..|edits| - 1], l, f) || (l, f) in edits[|edits| - 1].added
  {
    var n := |edits| - 1;
    forall f ensures AddedBy(edits, l, f) <==> AddedBy(edits[..n], l, f) || (l, f) in edits[n].added {
      if AddedBy(edits[..n], l, f) {
        var i :| 0 <= i < n && (l, f) in edits[..n][i].added;
        assert (l, f) in edits[i].added;
      }
      if AddedBy(edits, l, f) {
        var i :| 0 <= i <= n && (l, f) in edits[i].added;
        assert i < n ==> edits[..n][i] == edits[i];
      }
    }
  }

  // Replaying a run through one builder saves, level by level, the list the run installed.
  lemma ReplayEqualsHistory(edits: seq<Edit>, versions: seq<Version>, l: nat, r: seq<File>)
    requires Installed(edits, versions) && AddedOnce(versions[0], edits) && l < NUM_LEVELS
    requires Ordered(versions[|edits|].levels[l])
    requires SavedLevel(versions[0].levels[l], ReplayLevel(edits, l), r)
    ensures r == versions[|edits|].levels[l]
  {
    ReplayStands(edits, versions, l);
    OrderedIsUnique(r, versions[|edits|].levels[l]);
  }

  // ----- the runs the database makes -----

  // Every added file is new, its number drawn from the counter, or moves to a deeper level.
  ghost predicate Moves(v: Version, edit: Edit, a: (nat, File)) {
    exists l: nat :: l < a.0 && FileAt(v, l, a.1) && (l, a.1.number) in edit.deleted
  }

  ghost predicate NewOrMoved(v: Version, edit: Edit, next: nat, next': nat) {
    && next <= next'
    && (forall p, q :: 0 <= p < q < |edit.added| ==> edit.added[p].1.number != edit.added[q].1.number)
    && (forall a :: a in edit.added ==> a.0 < NUM_LEVELS && (next <= a.1.number < next' || Moves(v, edit, a)))
  }

  ghost predicate Drawn(edits: seq<Edit>, versions: seq<Version>, counters: seq<nat>) {
    && Installed(edits, versions) && |counters| == |versions|
    && Numbered(versions[0], counters[0])
    && forall i :: 0 <= i < |edits| ==> NewOrMoved(versions[i], edits[i], counters[i], counters[i + 1])
  }

  // A level and number used before lies below the counter, and not below where the number is now.
  ghost predicate UsedBelow(v: Version, next: nat, l: nat, number: nat) {
    number < next && forall m, g :: FileAt(v, m, g) && g.number == number ==> l <= m
  }

  lemma UsedStays(v: Version, edit: Edit, v': Version, next: nat, next': nat, l: nat, number: nat)
    requires |v.levels| == NUM_LEVELS && EditApplied(v, edit, v') && NewOrMoved(v, edit, next, next')
    requires Numbered(v, next)
    requires UsedBelow(v, next, l, number)
    ensures UsedBelow(v', next', l, number)
  {
    forall m: nat, g | FileAt(v', m, g) && g.number == number ensures l <= m {
      assert LevelApplied(v.levels[m], edit, m, v'.levels[m]);
      if (m, g) in edit.added {
        var a := (m, g);
        assert a in edit.added && Moves(v, edit, a);
        var k: nat :| k < m && FileAt(v, k, g) && (k, g.number) in edit.deleted;
        assert l <= k;
      } else {
        assert FileAt(v, m, g);
      }
    }
  }

  lemma AddedIsUsed(v: Version, edit: Edit, v': Version, next: nat, next': nat, a: (nat, File))
    requires |v.levels| == NUM_LEVELS && EditApplied(v, edit, v') && NewOrMoved(v, edit, next, next')
    requires Numbered(v, next)
    requires a in edit.added
    ensures UsedBelow(v', next', a.0, a.1.number)
  {
    if Moves(v, edit, a) {
      var l: nat :| l < a.0 && FileAt(v, l, a.1) && (l, a.1.number) in edit.deleted;
      assert a.1.number < next;
    }
    forall m: nat, g | FileAt(v', m, g) && g.number == a.1.number ensures a.0 <= m {
      StaysOrAdded(v, edit, v', next, next', a, m, g);
    }
  }

  lemma KeptNotAdded(v: Version, edit: Edit, next: nat, next': nat, a: (nat, File), m: nat, g: File)
    requires NewOrMoved(v, edit, next, next') && Numbered(v, next) && a in edit.added
    requires FileAt(v, m, g) && (m, g.number) !in edit.deleted
    ensures g.number != a.1.number
  {
    if Moves(v, edit, a) {
      var l: nat :| l < a.0 && FileAt(v, l, a.1) && (l, a.1.number) in edit.deleted;
      assert a.1.number == g.number ==> l == m;
    }
  }

  // After an edit the number of an added file is found only where it was added.
  lemma StaysOrAdded(v: Version, edit: Edit, v': Version, next: nat, next': nat, a: (nat, File), m: nat, g: File)
    requires |v.levels| == NUM_LEVELS && EditApplied(v, edit, v') && NewOrMoved(v, edit, next, next')
    requires Numbered(v, next)
    requires a in edit.added && FileAt(v', m, g) && g.number == a.1.number
    ensures a == (m, g)
  {
    assert LevelApplied(v.levels[m], edit, m, v'.levels[m]);
    if (m, g) in edit.added {
      var p :| 0 <= p < |edit.added| && edit.added[p] == a;
      var q :| 0 <= q < |edit.added| && edit.added[q] == (m, g);
      assert p == q;
    } else {
      KeptNotAdded(v, edit, next, next', a, m, g);
    }
  }

  lemma NumberedStays(v: Version, edit: Edit, v': Version, next: nat, next': nat)
    requires |v.levels| == NUM_LEVELS && EditApplied(v, edit, v') && NewOrMoved(v, edit, next, next')
    requires Numbered(v, next)
    ensures Numbered(v', next')
  {
    forall l: nat, f | FileAt(v', l, f) ensures f.number < next' {
      assert LevelApplied(v.levels[l], edit, l, v'.levels[l]);
      if (l, f) in edit.added {
        var a := (l, f);
        AddedIsUsed(v, edit, v', next, next', a);
      } else {
        assert FileAt(v, l, f);
      }
    }
    forall l: nat, m: nat, f, g | FileAt(v', l, f) && FileAt(v', m, g) && f.number == g.number
        ensures l == m && f == g {
      assert LevelApplied(v.levels[l], edit, l, v'.levels[l]) && LevelApplied(v.levels[m], edit, m, v'.levels[m]);
      if (l, f) in edit.added {
        StaysOrAdded(v, edit, v', next, next', (l, f), m, g);
      } else if (m, g) in edit.added {
        StaysOrAdded(v, edit, v', next, next', (m, g), l, f);
      } else {
        assert FileAt(v, l, f) && FileAt(v, m, g);
      }
    }
  }

  // In such a run no level and number is ever added twice.
  lemma {:induction false} DrawnIsOnce(edits: seq<Edit>, versions: seq<Version>, counters: seq<nat>)
    requires Drawn(edits, versions, counters)
    ensures AddedOnce(versions[0], edits) && Numbered(versions[|edits|], counters[|edits|])
    ensures forall l, f :: FileAt(versions[0], l, f) ==> UsedBelow(versions[|edits|], counters[|edits|], l, f.number)
    ensures forall i, a :: 0 <= i < |edits| && a in edits[i].added ==>
        UsedBelow(versions[|edits|], counters[|edits|], a.0, a.1.number)
  {
    if edits != [] {
      var n := |edits| - 1;
      var front, edit := edits[..n], edits[n];
      var v, v', next, next' := versions[n], versions[n + 1], counters[n], counters[n + 1];
      InstalledPrefix(edits, versions);
      DrawnIsOnce(front, versions[..n + 1], counters[..n + 1]);
      assert EditApplied(v, edit, v') && NewOrMoved(v, edit, next, next');
      NumberedStays(v, edit, v', next, next');
      forall l, f | FileAt(versions[0], l, f) ensures UsedBelow(v', next', l, f.number) && NotAgain(edit.added, l, f) {
        UsedStays(v, edit, v', next, next', l, f.number);
        UsedNotAgain(v, edit, next, next', l, f);
      }
      forall i, a | 0 <= i < |edits| && a in edits[i].added
        ensures UsedBelow(v', next', a.0, a.1.number) && (i < n ==> NotAgain(edit.added, a.0, a.1))
      {
        if i < n {
          assert a in front[i].added;
          UsedStays(v, edit, v', next, next', a.0, a.1.number);
          UsedNotAgain(v, edit, next, next', a.0, a.1);
        } else {
          AddedIsUsed(v, edit, v', next, next', a);
        }
      }
      forall i, j, a | 0 <= i < j < |edits| && a in edits[i].added ensures NotAgain(edits[j].added, a.0, a.1) {
        if j < n {
          assert a in front[i].added && front[j] == edits[j];
        }
      }
      forall i, l, f | 0 <= i < |edits| && FileAt(versions[0], l, f) ensures NotAgain(edits[i].added, l, f) {
        if i < n {
          assert front[i] == edits[i];
        }
      }
      forall i | 0 <= i < |edits| ensures ApartInside(edits[i].added) {
        assert NewOrMoved(versions[i], edits[i], counters[i], counters[i + 1]);
      }
    }
  }

  lemma UsedNotAgain(v: Version, edit: Edit, next: nat, next': nat, l: nat, f: File)
    requires NewOrMoved(v, edit, next, next') && UsedBelow(v, next, l, f.number)
    ensures NotAgain(edit.added, l, f)
  {
    forall a | a in edit.added && a.0 == l ensures a.1.number != f.number {
      if Moves(v, edit, a) {
        var m: nat :| m < a.0 && FileAt(v, m, a.1) && (m, a.1.number) in edit.deleted;
        assert a.1.number == f.number ==> l <= m;
      }
    }
  }
}

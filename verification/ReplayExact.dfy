/** When one builder fed a whole run of edits saves what the run installed, and when not
    (db/version_set.cc: Builder, Recover). */
module ExactReplays {
  import opened DbFormat
  import opened Versions
  import opened VersionBuilder
  import opened Replays

  // ----- the condition, on the run -----

  // What BySmallestKey cannot tell apart: std::set keeps the first of these.
  predicate SameKind(f: File, g: File) {
    f.number == g.number && Smallest(f) == Smallest(g)
  }

  // The files an edit adds to a level, in order.
  function AddsAt(added: seq<(nat, File)>, l: nat): seq<File> {
    if added == [] then []
    else
      var front, a := AddsAt(added[..|added| - 1], l), added[|added| - 1];
      if a.0 == l then front + [a.1] else front
  }

  function Additions(edits: seq<Edit>, l: nat): seq<File> {
    if edits == [] then []
    else Additions(edits[..|edits| - 1], l) + AddsAt(edits[|edits| - 1].added, l)
  }

  ghost predicate HasKind(fs: seq<File>, f: File) {
    exists i :: 0 <= i < |fs| && SameKind(fs[i], f)
  }

  ghost predicate FirstOfKind(fs: seq<File>, f: File) {
    exists i :: 0 <= i < |fs| && fs[i] == f && !HasKind(fs[..i], f)
  }

  ghost predicate DeletedFrom(edits: seq<Edit>, l: nat, number: nat, i: nat) {
    exists j :: i <= j < |edits| && (l, number) in edits[j].deleted
  }

  ghost predicate AddsNumber(edit: Edit, l: nat, number: nat) {
    exists f :: (l, f) in edit.added && f.number == number
  }

  // The file was added, and its number not deleted since.
  ghost predicate Lives(edits: seq<Edit>, l: nat, f: File) {
    exists i :: 0 <= i < |edits| && (l, f) in edits[i].added && !DeletedFrom(edits, l, f.number, i + 1)
  }

  // The number was added, by some file, and not deleted since.
  ghost predicate NumberLives(edits: seq<Edit>, l: nat, number: nat) {
    exists i :: 0 <= i < |edits| && AddsNumber(edits[i], l, number) && !DeletedFrom(edits, l, number, i + 1)
  }

  // The first file of its number and smallest key to be added is deleted behind its last addition,
  // and its number is added again, by another file, with no deletion behind that.
  ghost predicate ComesBack(edits: seq<Edit>, l: nat, f: File) {
    FirstOfKind(Additions(edits, l), f) && !Lives(edits, l, f) && NumberLives(edits, l, f.number)
  }

  // ----- one more edit -----

  lemma DeletedLast(edits: seq<Edit>, l: nat, number: nat, i: nat)
    requires edits != []
    ensures i < |edits| ==> (DeletedFrom(edits, l, number, i) <==>
              DeletedFrom(edits[..|edits| - 1], l, number, i) || (l, number) in edits[|edits| - 1].deleted)
    ensures i >= |edits| ==> !DeletedFrom(edits, l, number, i)
  {
    var n := |edits| - 1;
    if j :| i <= j < n && (l, number) in edits[..n][j].deleted {
      assert edits[j] == edits[..n][j];
    }
    if j :| i <= j < |edits| && (l, number) in edits[j].deleted {
      assert j < n ==> edits[..n][j] == edits[j];
    }
  }

  lemma NumberLivesLast(edits: seq<Edit>, l: nat, number: nat)
    requires edits != []
    ensures var front, edit := edits[..|edits| - 1], edits[|edits| - 1];
            NumberLives(edits, l, number) <==>
              AddsNumber(edit, l, number) || (NumberLives(front, l, number) && (l, number) !in edit.deleted)
  {
    hide DeletedFrom, AddsNumber;
    var n := |edits| - 1;
    DeletedLast(edits, l, number, n + 1);
    if NumberLives(edits, l, number) {
      var i :| 0 <= i < |edits| && AddsNumber(edits[i], l, number) && !DeletedFrom(edits, l, number, i + 1);
      if i < n {
        DeletedLast(edits, l, number, i + 1);
        assert edits[..n][i] == edits[i];
      }
    }
    if NumberLives(edits[..n], l, number) && (l, number) !in edits[n].deleted {
      var i :| 0 <= i < n && AddsNumber(edits[..n][i], l, number) && !DeletedFrom(edits[..n], l, number, i + 1);
      DeletedLast(edits, l, number, i + 1);
      assert edits[..n][i] == edits[i];
    }
    if AddsNumber(edits[n], l, number) {
      assert !DeletedFrom(edits, l, number, n + 1);
    }
  }

  lemma LivesLast(edits: seq<Edit>, l: nat, f: File)
    requires edits != []
    ensures var front, edit := edits[..|edits| - 1], edits[|edits| - 1];
            Lives(edits, l, f) <==>
              (l, f) in edit.added || (Lives(front, l, f) && (l, f.number) !in edit.deleted)
  {
    hide DeletedFrom;
    var n := |edits| - 1;
    DeletedLast(edits, l, f.number, n + 1);
    if i :| 0 <= i < |edits| && (l, f) in edits[i].added && !DeletedFrom(edits, l, f.number, i + 1) {
      if i < n {
        DeletedLast(edits, l, f.number, i + 1);
        assert edits[..n][i] == edits[i];
      }
    }
    if (l, f.number) !in edits[n].deleted {
      if i :| 0 <= i < n && (l, f) in edits[..n][i].added && !DeletedFrom(edits[..n], l, f.number, i + 1) {
        DeletedLast(edits, l, f.number, i + 1);
        assert edits[..n][i] == edits[i];
      }
    }
    if (l, f) in edits[n].added {
      assert !DeletedFrom(edits, l, f.number, n + 1);
    }
  }

  // ----- what the run installs -----

  lemma {:induction false} InstalledLives(edits: seq<Edit>, versions: seq<Version>, l: nat, f: File)
    requires Installed(edits, versions) && l < NUM_LEVELS && versions[0].levels[l] == []
    ensures f in versions[|edits|].levels[l] <==> Lives(edits, l, f)
  {
    if edits != [] {
      var n := |edits| - 1;
      InstalledPrefix(edits, versions);
      InstalledLives(edits[..n], versions[..n + 1], l, f);
      assert EditApplied(versions[n], edits[n], versions[n + 1]);
      assert LevelApplied(versions[n].levels[l], edits[n], l, versions[n + 1].levels[l]);
      LivesLast(edits, l, f);
      hide Lives;
    }
  }

  // ----- what the builder keeps -----

  lemma {:induction false} NumbersDropped(ls: LevelState, added: seq<(nat, File)>, l: nat, number: nat)
    ensures number in ApplyAdds(ls, added, l).deletedFiles <==>
              number in ls.deletedFiles && forall f :: (l, f) in added ==> f.number != number
  {
    if added != [] {
      var front, a := added[..|added| - 1], added[|added| - 1];
      NumbersDropped(ls, front, l, number);
      assert added == front + [a];
      hide SetInsert;
    }
  }

  lemma {:induction false} PendingDeletions(edits: seq<Edit>, l: nat, number: nat)
    ensures number in ReplayLevel(edits, l).deletedFiles <==>
              DeletedFrom(edits, l, number, 0) && !NumberLives(edits, l, number)
  {
    if edits != [] {
      var n := |edits| - 1;
      var front, edit, ls := edits[..n], edits[n], ReplayLevel(edits[..n], l);
      PendingDeletions(front, l, number);
      DeletedLast(edits, l, number, 0);
      NumberLivesLast(edits, l, number);
      hide DeletedFrom, NumberLives;
      var start := ls.(deletedFiles := ls.deletedFiles + DeletedAt(edit.deleted, l));
      NumbersDropped(start, edit.added, l, number);
      DeletionAt(edit, l, number);
      hide ApplyAdds, DeletedAt;
    }
  }

  lemma DeletionAt(edit: Edit, l: nat, number: nat)
    ensures number in DeletedAt(edit.deleted, l) <==> (l, number) in edit.deleted
  {
    if (l, number) in edit.deleted {
      var d := (l, number);
      assert d.0 == l && d.1 == number;
    }
  }

  lemma {:induction false} SetInsertKeepsFirst(fs: seq<File>, x: File)
    requires Ordered(fs)
    ensures forall f :: f in SetInsert(fs, x) <==> f in fs || (f == x && forall g :: g in fs ==> !SameKind(g, x))
  {
    if fs != [] && !BySmallest(x, fs[0]) && BySmallest(fs[0], x) {
      SetInsertKeepsFirst(fs[1..], x);
      assert fs == [fs[0]] + fs[1..];
    } else if fs != [] && BySmallest(x, fs[0]) {
      forall g | g in fs ensures !SameKind(g, x) {
        var i :| 0 <= i < |fs| && fs[i] == g;
        assert i > 0 ==> BySmallest(fs[0], fs[i]);
      }
    } else if fs != [] {
      LessIsTotalOrder(Smallest(x), Smallest(fs[0]));
      assert SameKind(fs[0], x) && fs[0] in fs;
    }
  }

  lemma FirstOfKindLast(s: seq<File>, x: File, f: File)
    ensures FirstOfKind(s + [x], f) <==> FirstOfKind(s, f) || (f == x && !HasKind(s, x))
  {
    hide HasKind;
    var t := s + [x];
    if i :| 0 <= i < |t| && t[i] == f && !HasKind(t[..i], f) {
      assert i < |s| ==> s[i] == f && s[..i] == t[..i];
      assert i == |s| ==> t[..i] == s;
    }
    if i :| 0 <= i < |s| && s[i] == f && !HasKind(s[..i], f) {
      assert t[i] == f && s[..i] == t[..i];
    }
    if f == x && !HasKind(s, x) {
      assert t[|s|] == f && t[..|s|] == s;
    }
  }

  lemma {:induction false} KindHasFirst(s: seq<File>, f: File)
    requires HasKind(s, f)
    ensures exists g :: FirstOfKind(s, g) && SameKind(g, f)
  {
    var front, x := s[..|s| - 1], s[|s| - 1];
    assert s == front + [x];
    if HasKind(front, f) {
      KindHasFirst(front, f);
      var g :| FirstOfKind(front, g) && SameKind(g, f);
      FirstOfKindLast(front, x, g);
    } else {
      assert SameKind(x, f) && !HasKind(front, x);
      FirstOfKindLast(front, x, x);
    }
  }

  // `fs` is what std::set holds after the insertions `s`.
  ghost predicate Holds(fs: seq<File>, s: seq<File>) {
    Ordered(fs) && forall f :: f in fs <==> FirstOfKind(s, f)
  }

  lemma HoldsInserted(fs: seq<File>, s: seq<File>, x: File)
    requires Holds(fs, s)
    ensures Holds(SetInsert(fs, x), s + [x])
  {
    SetInsertSpec(fs, x);
    SetInsertKeepsFirst(fs, x);
    if g :| g in fs && SameKind(g, x) {
      FirstIsMember(s, g);
    } else if HasKind(s, x) {
      KindHasFirst(s, x);
    }
    forall f ensures f in SetInsert(fs, x) <==> FirstOfKind(s + [x], f) {
      FirstOfKindLast(s, x, f);
    }
  }

  lemma FirstIsMember(s: seq<File>, f: File)
    requires FirstOfKind(s, f)
    ensures f in s && HasKind(s, f)
  {
    var i :| 0 <= i < |s| && s[i] == f;
    assert SameKind(s[i], f);
  }

  lemma {:induction false} HoldsAfterAdds(ls: LevelState, added: seq<(nat, File)>, l: nat, s: seq<File>)
    requires Holds(ls.addedFiles, s)
    ensures Holds(ApplyAdds(ls, added, l).addedFiles, s + AddsAt(added, l))
  {
    if added == [] {
      assert s + [] == s;
    } else {
      var front, a := added[..|added| - 1], added[|added| - 1];
      var before, t := ApplyAdds(ls, front, l), s + AddsAt(front, l);
      HoldsAfterAdds(ls, front, l, s);
      if a.0 == l {
        HoldsInserted(before.addedFiles, t, a.1);
        assert s + AddsAt(added, l) == t + [a.1];
      }
    }
  }

  lemma {:induction false} ReplayHolds(edits: seq<Edit>, l: nat)
    ensures Holds(ReplayLevel(edits, l).addedFiles, Additions(edits, l))
  {
    if edits != [] {
      var n := |edits| - 1;
      var ls := ReplayLevel(edits[..n], l);
      ReplayHolds(edits[..n], l);
      HoldsAfterAdds(ls.(deletedFiles := ls.deletedFiles + DeletedAt(edits[n].deleted, l)), edits[n].added, l,
                     Additions(edits[..n], l));
    }
  }

  lemma {:induction false} AddsAtMembers(added: seq<(nat, File)>, l: nat, f: File)
    ensures f in AddsAt(added, l) <==> (l, f) in added
  {
    if added != [] {
      var front, a := added[..|added| - 1], added[|added| - 1];
      AddsAtMembers(front, l, f);
      assert added == front + [a];
    }
  }

  lemma {:induction false} AdditionsMembers(edits: seq<Edit>, l: nat, f: File)
    ensures f in Additions(edits, l) <==> AddedBy(edits, l, f)
  {
    if edits != [] {
      AdditionsMembers(edits[..|edits| - 1], l, f);
      AddsAtMembers(edits[|edits| - 1].added, l, f);
      AddedByLast(edits, l);
    }
  }

  lemma LivingNumber(edits: seq<Edit>, l: nat, f: File)
    requires Lives(edits, l, f)
    ensures NumberLives(edits, l, f.number) && AddedBy(edits, l, f)
  {
    var i :| 0 <= i < |edits| && (l, f) in edits[i].added && !DeletedFrom(edits, l, f.number, i + 1);
    assert AddsNumber(edits[i], l, f.number);
  }

  lemma NeverDeletedLives(edits: seq<Edit>, l: nat, f: File)
    requires AddedBy(edits, l, f) && !DeletedFrom(edits, l, f.number, 0)
    ensures Lives(edits, l, f)
  {
    var i :| 0 <= i < |edits| && (l, f) in edits[i].added;
    assert !DeletedFrom(edits, l, f.number, i + 1);
  }

  // ----- the exact condition -----

  lemma ReplayedNotInstalled(edits: seq<Edit>, l: nat, r: seq<File>, f: File)
    requires SavedLevel([], ReplayLevel(edits, l), r)
    ensures f in r && !Lives(edits, l, f) <==> ComesBack(edits, l, f)
  {
    ReplayHolds(edits, l);
    PendingDeletions(edits, l, f.number);
    if FirstOfKind(Additions(edits, l), f) {
      FirstIsMember(Additions(edits, l), f);
      AdditionsMembers(edits, l, f);
      if !DeletedFrom(edits, l, f.number, 0) {
        NeverDeletedLives(edits, l, f);
      }
    }
    hide Lives, NumberLives, DeletedFrom, FirstOfKind, Additions, ReplayLevel, Ordered;
  }

  lemma InstalledNotReplayed(edits: seq<Edit>, l: nat, r: seq<File>, f: File)
    requires SavedLevel([], ReplayLevel(edits, l), r)
    requires Lives(edits, l, f) && f !in r
    ensures exists g :: g != f && FirstOfKind(Additions(edits, l), g) && SameKind(g, f)
  {
    ReplayHolds(edits, l);
    PendingDeletions(edits, l, f.number);
    LivingNumber(edits, l, f);
    AdditionsMembers(edits, l, f);
    var s := Additions(edits, l);
    assert SameKind(f, f);
    KindHasFirst(s, f);
  }

  lemma OneOfAKind(fs: seq<File>, f: File, g: File)
    requires Ordered(fs) && f in fs && g in fs && SameKind(f, g)
    ensures f == g
  {
    var i :| 0 <= i < |fs| && fs[i] == f;
    var j :| 0 <= j < |fs| && fs[j] == g;
    LessIsTotalOrder(Smallest(f), Smallest(g));
  }

  // One builder over a run that starts from the empty version, as Recover's does, saves the list the
  // run installed if and only if no file comes back.
  lemma ReplayIsHistory(edits: seq<Edit>, versions: seq<Version>, l: nat, r: seq<File>)
    requires Installed(edits, versions) && l < NUM_LEVELS && versions[0].levels[l] == []
    requires SavedLevel([], ReplayLevel(edits, l), r)
    ensures r == versions[|edits|].levels[l] <==> forall f :: !ComesBack(edits, l, f)
  {
    var h := versions[|edits|].levels[l];
    InstalledOrdered(edits, versions, l);
    hide Installed, ReplayLevel;
    forall f ensures f in h <==> Lives(edits, l, f) {
      InstalledLives(edits, versions, l, f);
    }
    forall f ensures f in r && f !in h <==> ComesBack(edits, l, f) {
      ReplayedNotInstalled(edits, l, r, f);
    }
    if forall f :: !ComesBack(edits, l, f) {
      forall f | f in h ensures f in r {
        if f !in r {
          InstalledNotReplayed(edits, l, r, f);
          var g :| g != f && FirstOfKind(Additions(edits, l), g) && SameKind(g, f);
          assert !ComesBack(edits, l, g);
          if Lives(edits, l, g) {
            OneOfAKind(h, f, g);
          } else {
            LivingNumber(edits, l, f);
          }
        }
      }
      OrderedIsUnique(r, h);
    }
  }

  lemma InstalledOrdered(edits: seq<Edit>, versions: seq<Version>, l: nat)
    requires Installed(edits, versions) && l < NUM_LEVELS && versions[0].levels[l] == []
    ensures Ordered(versions[|edits|].levels[l])
  {
    if edits != [] {
      var n := |edits| - 1;
      assert EditApplied(versions[n], edits[n], versions[n + 1]);
      assert LevelApplied(versions[n].levels[l], edits[n], l, versions[n + 1].levels[l]);
    }
  }

  // ----- both ways a number can be used again -----

  // Add one file, delete its number, add another.
  function AddDeleteAdd(f: File, g: File, l: nat): seq<Edit> {
    [Edit({}, [(l, f)]), Edit({(l, f.number)}, []), Edit({}, [(l, g)])]
  }

  lemma AddDeleteAddReplayed(f: File, g: File, l: nat)
    requires f.number == g.number
    ensures var edits := AddDeleteAdd(f, g, l);
            && LevelApplied([], edits[0], l, [f]) && LevelApplied([f], edits[1], l, [])
            && LevelApplied([], edits[2], l, [g])
            && ReplayLevel(edits, l) == LevelState({}, SetInsert([f], g))
  {
    var edits := AddDeleteAdd(f, g, l);
    var e0, e1, e2 := edits[0], edits[1], edits[2];
    assert edits[..2] == [e0, e1] && edits[..2][..1] == [e0] && edits[..2][..1][..0] == [];
    var s0, s1, s2 := LevelState({}, []), LevelState({}, [f]), LevelState({f.number}, [f]);
    OneAdded(s0, f, l);
    assert ReplayLevel([e0], l) == ApplyLevel(ReplayLevel([], l), e0, l) == s1;
    assert (l, f.number).0 == l;
    assert DeletedAt(e1.deleted, l) == {f.number};
    assert ReplayLevel([e0, e1], l) == ApplyLevel(s1, e1, l) == s2;
    OneAdded(s2, g, l);
    assert ReplayLevel(edits, l) == ApplyLevel(s2, e2, l);
  }

  // Another file under the old number cancels the deletion: the replay keeps both tables.
  lemma ReusedNumberComesBack(f: File, g: File, l: nat)
    requires f.number == g.number && BySmallest(f, g)
    ensures var edits := AddDeleteAdd(f, g, l);
            LevelApplied([], edits[2], l, [g]) && ReplayLevel(edits, l) == LevelState({}, [f, g])
  {
    AddDeleteAddReplayed(f, g, l);
    assert !BySmallest(g, f);
    assert SetInsert([f], g) == [f] + SetInsert([], g);
  }

  // The same file again adds its number twice, and the replay is right all the same.
  lemma ReaddedFileIsReplayed(f: File, l: nat)
    ensures var edits := AddDeleteAdd(f, f, l);
            && LevelApplied([], edits[2], l, [f]) && ReplayLevel(edits, l) == LevelState({}, [f])
            && forall base: Version :: |base.levels| == NUM_LEVELS ==> !AddedOnce(base, edits)
  {
    AddDeleteAddReplayed(f, f, l);
    var edits, a := AddDeleteAdd(f, f, l), (l, f);
    assert a in edits[0].added && a in edits[2].added && a.0 == l && a.1 == f;
    assert !NotAgain(edits[2].added, a.0, a.1);
  }

  lemma OneAdded(ls: LevelState, f: File, l: nat)
    ensures ApplyLevel(ls, Edit({}, [(l, f)]), l) ==
        LevelState(ls.deletedFiles - {f.number}, SetInsert(ls.addedFiles, f))
  {
    var added := [(l, f)];
    assert DeletedAt({}, l) == {};
    var start := ls.(deletedFiles := ls.deletedFiles + {});
    assert start == ls;
    assert added[..0] == [];
    assert ApplyAdds(ls, added[..0], l) == ls;
  }
}

/** The user-facing iterator: one row per visible user key, in both directions
    (db/db_iter.cc). */
module DbIterators {
  import opened Wrappers
  import opened DbFormat
  import opened Versions
  import opened Iterators
  import opened Merger
  import opened CompactionReads

  // Which user keys a search is after.
  datatype Range = All | From(key: UserKey) | Above(key: UserKey) | Below(key: UserKey) {
    predicate Has(k: UserKey) {
      match this
      case All => true
      case From(key) => k >= key
      case Above(key) => k > key
      case Below(key) => k < key
    }
  }

  // `e` is the row the iterator must show for its user key.
  ghost predicate Yields(u: set<Entry>, s: SequenceNumber, e: Entry) {
    Newest(u, e.key.ukey, s, e) && e.key.kind.Put?
  }

  // The cursor specification, on the map from user keys to visible values.
  ghost predicate IsFirstIn(u: set<Entry>, s: SequenceNumber, r: Range, k: UserKey, v: Value) {
    r.Has(k) && Lookup(u, k, s) == Some(v) && forall j :: r.Has(j) && j < k ==> Lookup(u, j, s) == None
  }

  ghost predicate IsLastIn(u: set<Entry>, s: SequenceNumber, r: Range, k: UserKey, v: Value) {
    r.Has(k) && Lookup(u, k, s) == Some(v) && forall j :: r.Has(j) && j > k ==> Lookup(u, j, s) == None
  }

  ghost predicate NothingIn(u: set<Entry>, s: SequenceNumber, r: Range) {
    forall j :: r.Has(j) ==> Lookup(u, j, s) == None
  }

  lemma YieldIsLookup(u: set<Entry>, s: SequenceNumber, e: Entry)
    requires UniqueVersions(u) && Yields(u, s, e)
    ensures Lookup(u, e.key.ukey, s) == Some(e.value)
  {
    LookupIs(u, e.key.ukey, s, e);
  }

  lemma LookupIsYield(u: set<Entry>, s: SequenceNumber, k: UserKey) returns (e: Entry)
    requires UniqueVersions(u) && Lookup(u, k, s).Some?
    ensures Yields(u, s, e) && e.key.ukey == k
  {
    e :| Newest(u, k, s, e);
    LookupIs(u, k, s, e);
  }

  // ----- forward scan -----

  // With the inner iterator on `cur`: no wanted row was passed; visible rows still to come are
  // either skippable and not wanted, or wanted with no newer visible version passed.
  ghost predicate Scanning(u: set<Entry>, s: SequenceNumber, r: Range, cur: Entry, skipping: bool, skip: UserKey) {
    && cur in u
    && (forall e :: Yields(u, s, e) && r.Has(e.key.ukey) ==> LessEq(cur.key, e.key))
    && (forall x :: x in u && x.key.sn <= s && LessEq(cur.key, x.key) ==> Pending(u, s, r, cur, skipping, skip, x))
  }

  ghost predicate Pending(u: set<Entry>, s: SequenceNumber, r: Range, cur: Entry, skipping: bool, skip: UserKey,
                          x: Entry) {
    && (skipping ==> skip <= x.key.ukey)
    && if skipping && x.key.ukey <= skip then !(Yields(u, s, x) && r.Has(x.key.ukey))
       else r.Has(x.key.ukey) && forall y :: y in u && Visible(y, x.key.ukey, s) ==> LessEq(cur.key, y.key)
  }

  lemma ScanFinds(u: set<Entry>, s: SequenceNumber, r: Range, cur: Entry, skipping: bool, skip: UserKey)
    requires UniqueVersions(u) && Scanning(u, s, r, cur, skipping, skip)
    requires cur.key.sn <= s && cur.key.kind.Put? && !(skipping && cur.key.ukey <= skip)
    ensures Yields(u, s, cur) && IsFirstIn(u, s, r, cur.key.ukey, cur.value)
  {
    assert Pending(u, s, r, cur, skipping, skip, cur);
    forall y | y in u && Visible(y, cur.key.ukey, s) ensures y.key.sn <= cur.key.sn {
    }
    YieldIsLookup(u, s, cur);
    forall j | r.Has(j) && j < cur.key.ukey ensures Lookup(u, j, s) == None {
      if Lookup(u, j, s).Some? {
        var e := LookupIsYield(u, s, j);
      }
    }
  }

  // Stepping past a row that is invisible, hidden, or a tombstone.
  lemma ScanSteps(u: set<Entry>, s: SequenceNumber, r: Range, cur: Entry, skipping: bool, skip: UserKey, next: Entry,
                  skipping': bool, skip': UserKey)
    requires UniqueVersions(u) && Scanning(u, s, r, cur, skipping, skip) && IsFirstAfter(u, AfterKey(cur.key), next)
    requires forall x :: x in u && x.key == cur.key ==> x == cur
    requires if cur.key.sn <= s && cur.key.kind.Deletion? then skipping' && skip' == cur.key.ukey
             else skipping' == skipping && skip' == skip && (cur.key.sn <= s ==> skipping && cur.key.ukey <= skip)
    ensures Scanning(u, s, r, next, skipping', skip')
  {
    assert cur.key.sn <= s ==> Pending(u, s, r, cur, skipping, skip, cur);
    forall e | e in u && LessEq(cur.key, e.key) && e != cur ensures LessEq(next.key, e.key) {
      LessIsTotalOrder(cur.key, e.key);
    }
    forall x | x in u && x.key.sn <= s && LessEq(next.key, x.key)
      ensures Pending(u, s, r, next, skipping', skip', x)
    {
      assert Less(cur.key, x.key);
      assert Pending(u, s, r, cur, skipping, skip, x);
    }
  }

  lemma ScanEnds(u: set<Entry>, s: SequenceNumber, r: Range, cur: Entry, skipping: bool, skip: UserKey)
    requires UniqueVersions(u) && Scanning(u, s, r, cur, skipping, skip) && NothingAfter(u, AfterKey(cur.key))
    requires forall x :: x in u && x.key == cur.key ==> x == cur
    requires cur.key.sn <= s && cur.key.kind.Put? ==> skipping && cur.key.ukey <= skip
    ensures NothingIn(u, s, r)
  {
    assert cur.key.sn <= s ==> Pending(u, s, r, cur, skipping, skip, cur);
    forall j | r.Has(j) ensures Lookup(u, j, s) == None {
      if Lookup(u, j, s).Some? {
        var e := LookupIsYield(u, s, j);
        LessIsTotalOrder(cur.key, e.key);
      }
    }
  }

  // ----- where a forward scan may start -----

  lemma SeekStarts(u: set<Entry>, s: SequenceNumber, target: UserKey, cur: Entry, skip: UserKey)
    requires IsFirstAfter(u, BeforeKey(SeekKey(target, s)), cur)
    ensures Scanning(u, s, From(target), cur, false, skip)
  {
    forall x | x in u && x.key.sn <= s && x.key.ukey >= target ensures LessEq(cur.key, x.key) {
      assert !Less(x.key, SeekKey(target, s));
    }
    forall x | x in u && x.key.sn <= s && LessEq(cur.key, x.key) ensures x.key.ukey >= target {
      assert !Less(cur.key, SeekKey(target, s));
    }
  }

  lemma NothingFrom(u: set<Entry>, s: SequenceNumber, target: UserKey)
    requires NothingAfter(u, BeforeKey(SeekKey(target, s)))
    ensures NothingIn(u, s, From(target))
  {
    forall j | j >= target ensures Lookup(u, j, s) == None {
      forall x | x in u && x.key.ukey == j ensures x.key.sn > s {
        assert Less(x.key, SeekKey(target, s));
      }
      LookupAbsent(u, j, s);
    }
  }

  lemma FirstStarts(u: set<Entry>, s: SequenceNumber, cur: Entry, skip: UserKey)
    requires IsFirstAfter(u, BeforeAll, cur)
    ensures Scanning(u, s, All, cur, false, skip)
  {
  }

  // Going on from a shown row: every version of its user key is to be skipped.
  lemma NextStarts(u: set<Entry>, s: SequenceNumber, cur: Entry)
    requires Yields(u, s, cur)
    ensures Scanning(u, s, Above(cur.key.ukey), cur, true, cur.key.ukey)
  {
  }

  // Coming back from a reverse scan: everything visible from here on is at the key or above it.
  lemma ResumeStarts(u: set<Entry>, s: SequenceNumber, k: UserKey, at: Cut, cur: Entry)
    requires IsFirstAfter(u, at, cur) && AllVisibleBelowPassed(u, s, k, at)
    requires forall x :: x in u && x.key.ukey >= k ==> !at.Passed(x.key)
    ensures Scanning(u, s, Above(k), cur, true, k)
  {
    forall x | x in u && x.key.sn <= s && LessEq(cur.key, x.key) ensures x.key.ukey >= k {
      if at.Passed(x.key) {
        at.PassedIsDownwardClosed(cur.key, x.key);
      }
    }
  }

  // ----- backward scan -----

  // The rows of the range the scan has passed on its way down to `at`.
  ghost function Seen(u: set<Entry>, r: Range, at: Cut): set<Entry> {
    set x | x in u && r.Has(x.key.ukey) && !at.Passed(x.key)
  }

  // `kind` is Put with the newest seen value of the lowest seen visible key, or Deletion when no
  // seen key has a value.
  ghost predicate BackScan(seen: set<Entry>, s: SequenceNumber, r: Range, kind: Kind, key: UserKey, value: Value) {
    && (kind.Deletion? ==> forall j :: Lookup(seen, j, s) == None)
    && (kind.Put? ==> r.Has(key) && Lookup(seen, key, s) == Some(value))
    && (kind.Put? ==> forall j :: j > key ==> Lookup(seen, j, s) == None)
    && (kind.Put? ==> forall x :: x in seen && x.key.sn <= s ==> x.key.ukey >= key)
  }

  lemma SeenSteps(u: set<Entry>, r: Range, cur: Entry)
    requires forall x :: x in u && x.key == cur.key ==> x == cur
    requires cur in u && r.Has(cur.key.ukey)
    ensures Seen(u, r, BeforeKey(cur.key)) == Seen(u, r, AfterKey(cur.key)) + {cur}
  {
    var before, after := Seen(u, r, BeforeKey(cur.key)), Seen(u, r, AfterKey(cur.key));
    forall x ensures x in before <==> x in after || x == cur {
      LessIsTotalOrder(cur.key, x.key);
    }
  }

  // Meeting one more row below everything seen.
  lemma BackSteps(seen: set<Entry>, s: SequenceNumber, r: Range, cur: Entry, kind: Kind, key: UserKey, value: Value,
                  kind': Kind, key': UserKey, value': Value)
    requires UniqueVersions(seen + {cur}) && BackScan(seen, s, r, kind, key, value) && r.Has(cur.key.ukey)
    requires forall x :: x in seen ==> Less(cur.key, x.key)
    requires cur.key.sn <= s && kind.Put? ==> cur.key.ukey >= key
    requires if cur.key.sn > s then kind' == kind && key' == key && value' == value
             else kind' == cur.key.kind && (kind'.Put? ==> key' == cur.key.ukey && value' == cur.value)
    ensures BackScan(seen + {cur}, s, r, kind', key', value')
  {
    var seen' := seen + {cur};
    UniqueInPart(seen', seen);
    forall j | j != cur.key.ukey || cur.key.sn > s ensures Lookup(seen', j, s) == Lookup(seen, j, s) {
      SameNewest(seen', seen, j, s);
    }
    if cur.key.sn <= s {
      assert Newest(seen', cur.key.ukey, s, cur);
      LookupIs(seen', cur.key.ukey, s, cur);
      if kind.Put? {
        LookupNeedsRow(seen, s, key);
      }
    }
  }

  lemma LookupNeedsRow(u: set<Entry>, s: SequenceNumber, k: UserKey)
    requires Lookup(u, k, s).Some?
    ensures exists e :: e in u && Visible(e, k, s)
  {
    var e :| Newest(u, k, s, e);
    assert Visible(e, k, s);
  }

  lemma NothingSeenYet(u: set<Entry>, s: SequenceNumber, r: Range, at: Cut, key: UserKey, value: Value)
    requires forall x :: x in u && x.key.sn <= s && r.Has(x.key.ukey) ==> at.Passed(x.key)
    ensures BackScan(Seen(u, r, at), s, r, Deletion, key, value)
  {
    forall j ensures Lookup(Seen(u, r, at), j, s) == None {
      LookupAbsent(Seen(u, r, at), j, s);
    }
  }

  // Nothing lies between one row and the row before it.
  lemma SeenAgain(u: set<Entry>, r: Range, e: Entry, at: Cut)
    requires (exists x :: IsLastBefore(u, BeforeKey(e.key), x) && at == AfterKey(x.key))
        || (NothingBefore(u, BeforeKey(e.key)) && at == BeforeAll)
    ensures Seen(u, r, at) == Seen(u, r, BeforeKey(e.key))
  {
    var a, b := Seen(u, r, at), Seen(u, r, BeforeKey(e.key));
    forall x | x in u ensures at.Passed(x.key) <==> Less(x.key, e.key) {
    }
    assert a == b;
  }

  // A scan that stops at the first visible row below its key has found the last key of the range.
  lemma BackFinds(u: set<Entry>, s: SequenceNumber, r: Range, at: Cut, key: UserKey, value: Value)
    requires UniqueVersions(u) && BackScan(Seen(u, r, at), s, r, Put, key, value) && (r.All? || r.Below?)
    requires forall x :: x in u && x.key.ukey >= key ==> !at.Passed(x.key)
    ensures IsLastIn(u, s, r, key, value) && Lookup(u, key, s) == Some(value)
    ensures AllVisibleBelowPassed(u, s, key, at)
  {
    var seen := Seen(u, r, at);
    UniqueInPart(u, seen);
    forall j | r.Has(j) && j >= key ensures Lookup(u, j, s) == Lookup(seen, j, s) {
      SameNewest(u, seen, j, s);
    }
  }

  lemma BackEnds(u: set<Entry>, s: SequenceNumber, r: Range, at: Cut, key: UserKey, value: Value)
    requires UniqueVersions(u) && BackScan(Seen(u, r, at), s, r, Deletion, key, value)
    requires forall x :: x in u && x.key.sn <= s && r.Has(x.key.ukey) ==> !at.Passed(x.key)
    ensures NothingIn(u, s, r)
  {
    var seen := Seen(u, r, at);
    UniqueInPart(u, seen);
    forall j | r.Has(j) ensures Lookup(u, j, s) == None {
      SameNewest(u, seen, j, s);
    }
  }

  // ----- the iterator -----

  ghost predicate AllVisibleBelowPassed(u: set<Entry>, s: SequenceNumber, k: UserKey, at: Cut) {
    forall x :: x in u && x.key.sn <= s && x.key.ukey < k ==> at.Passed(x.key)
  }

  ghost function RemainingBelow(it: MergingIterator): set<Entry>
    reads it
  {
    if it.Valid() then set e | e in Union(it.children) && LessEq(e.key, it.Current().key) else {}
  }

  class DBIter {
    const iter: MergingIterator
    const sequence: SequenceNumber
    var direction: Direction
    var valid: bool
    var savedKey: UserKey   // the current key when moving in reverse
    var savedValue: Value   // the current value when moving in reverse

    ghost function Whole(): set<Entry>
      reads iter
    {
      Union(iter.children)
    }

    ghost predicate Inv()
      reads this, iter
    {
      && iter.Inv() && UniqueVersions(Whole())
      && (valid && direction.Forward? ==> iter.Valid() && Yields(Whole(), sequence, iter.Current()))
      && (valid && direction.Reverse? ==>
            Lookup(Whole(), savedKey, sequence) == Some(savedValue) && JustBelow(savedKey))
    }

    // The inner iterator is below `k`, and nothing visible lies between it and `k`.
    ghost predicate JustBelow(k: UserKey)
      reads iter
    {
      && (iter.Valid() ==> iter.Current() in Whole() && iter.Current().key.ukey < k)
      && AllVisibleBelowPassed(Whole(), sequence, k, Here())
    }

    function Key(): UserKey
      requires valid && (direction.Forward? ==> iter.Valid())
      reads this, iter
    {
      if direction.Forward? then iter.Current().key.ukey else savedKey
    }

    function Value(): Value
      requires valid && (direction.Forward? ==> iter.Valid())
      reads this, iter
    {
      if direction.Forward? then iter.Current().value else savedValue
    }

    ghost predicate AtFirst(r: Range)
      reads this, iter
    {
      && Inv()
      && (valid ==> IsFirstIn(Whole(), sequence, r, Key(), Value()))
      && (!valid ==> NothingIn(Whole(), sequence, r))
    }

    ghost predicate AtLast(r: Range)
      reads this, iter
    {
      && Inv()
      && (valid ==> IsLastIn(Whole(), sequence, r, Key(), Value()))
      && (!valid ==> NothingIn(Whole(), sequence, r))
    }

    constructor (iter: MergingIterator, sequence: SequenceNumber)
      requires iter.Inv() && UniqueVersions(Union(iter.children))
      ensures Inv() && !valid && this.iter == iter && this.sequence == sequence
    {
      this.iter, this.sequence := iter, sequence;
      direction, valid := Forward, false;
      savedKey, savedValue := 0, "";
    }

    method FindNextUserEntry(startSkipping: bool, startSkip: UserKey, ghost r: Range)
      requires iter.Inv() && UniqueVersions(Whole()) && iter.Valid() && direction.Forward?
      requires Scanning(Whole(), sequence, r, iter.Current(), startSkipping, startSkip)
      modifies this, iter
      ensures Whole() == old(Whole()) && direction.Forward? && AtFirst(r)
    {
      hide Scanning, NothingIn, IsFirstIn, UniqueVersions, Lookup, Newest, IsFirstAfter, NothingAfter, Union;
      ghost var u := Whole();
      var skipping, skip := startSkipping, startSkip;
      while iter.Valid()
        invariant iter.Inv() && Whole() == u && direction.Forward?
        invariant iter.Valid() ==> Scanning(u, sequence, r, iter.Current(), skipping, skip)
        invariant !iter.Valid() ==> NothingIn(u, sequence, r)
        decreases Remaining(iter)
      {
        var e := iter.Current();
        ghost var skipped, skippedTo := skipping, skip;
        if e.key.sn <= sequence {
          match e.key.kind
          case Deletion =>
            skip := e.key.ukey;
            skipping := true;
          case Put =>
            if skipping && e.key.ukey <= skip {
            } else {
              ScanFinds(u, sequence, r, e, skipping, skip);
              valid := true;
              savedKey := 0;
              return;
            }
        }
        Advance();
        CurrentIsAlone(u, e);
        if iter.Valid() {
          ScanSteps(u, sequence, r, e, skipped, skippedTo, iter.Current(), skipping, skip);
        } else {
          ScanEnds(u, sequence, r, e, skipped, skippedTo);
        }
      }
      savedKey := 0;
      valid := false;
    }

    lemma CurrentIsAlone(u: set<Entry>, e: Entry)
      requires iter.Inv() && u == Whole() && e in u
      ensures forall x :: x in u && x.key == e.key ==> x == e
    {
      forall x | x in u && x.key == e.key ensures x == e {
        UnionKeysAreUnique(iter.children, x, e);
      }
    }

    // One step of the inner iterator, with the measure the scans run on.
    method Advance()
      requires iter.Inv() && iter.Valid()
      modifies iter
      ensures iter.Inv() && Whole() == old(Whole()) && Remaining(iter) < old(Remaining(iter))
      ensures old(iter.Current()) in Whole()
      ensures if iter.Valid() then IsFirstAfter(Whole(), AfterKey(old(iter.Current().key)), iter.Current())
              else NothingAfter(Whole(), AfterKey(old(iter.Current().key)))
    {
      ghost var cur, children := iter.Current(), iter.children;
      assert cur in children[iter.current].es;
      iter.Next();
      SameRunsSameUnion(iter.children, children);
      assert cur !in Remaining(iter) && cur in old(Remaining(iter));
    }

    method Retreat()
      requires iter.Inv() && iter.Valid()
      modifies iter
      ensures iter.Inv() && Whole() == old(Whole()) && RemainingBelow(iter) < old(RemainingBelow(iter))
      ensures old(iter.Current()) in Whole()
      ensures if iter.Valid() then IsLastBefore(Whole(), BeforeKey(old(iter.Current().key)), iter.Current())
              else NothingBefore(Whole(), BeforeKey(old(iter.Current().key)))
    {
      ghost var cur, children := iter.Current(), iter.children;
      assert cur in children[iter.current].es;
      iter.Prev();
      SameRunsSameUnion(iter.children, children);
      assert cur !in RemainingBelow(iter) && cur in old(RemainingBelow(iter));
    }

    method Seek(target: UserKey)
      requires Inv()
      modifies this, iter
      ensures Whole() == old(Whole()) && AtFirst(From(target))
    {
      ghost var u, children := Whole(), iter.children;
      direction := Forward;
      savedValue := "";
      savedKey := target;
      iter.Seek(SeekKey(target, sequence));
      SameRunsSameUnion(iter.children, children);
      if iter.Valid() {
        SeekStarts(u, sequence, target, iter.Current(), savedKey);
        FindNextUserEntry(false, savedKey, From(target));
      } else {
        valid := false;
        NothingFrom(u, sequence, target);
      }
    }

    method SeekToFirst()
      requires Inv()
      modifies this, iter
      ensures Whole() == old(Whole()) && AtFirst(All)
    {
      ghost var u, children := Whole(), iter.children;
      direction := Forward;
      savedValue := "";
      iter.SeekToFirst();
      SameRunsSameUnion(iter.children, children);
      if iter.Valid() {
        FirstStarts(u, sequence, iter.Current(), savedKey);
        FindNextUserEntry(false, savedKey, All);
      } else {
        valid := false;
        forall j ensures Lookup(u, j, sequence) == None {
          LookupAbsent(u, j, sequence);
        }
      }
    }

    method Next()
      requires Inv() && valid
      modifies this, iter
      ensures Whole() == old(Whole()) && AtFirst(Above(old(Key())))
    {
      ghost var u, k := Whole(), Key();
      if direction.Reverse? {
        ghost var at := Here();
        direction := Forward;
        if !iter.Valid() {
          ghost var children := iter.children;
          iter.SeekToFirst();
          SameRunsSameUnion(iter.children, children);
        } else {
          Advance();
        }
        // If the inner iterator had run out, Next would end the iteration. It cannot have: the row
        // shown so far is still ahead.
        assert iter.Valid();
        ResumeStarts(u, sequence, k, at, iter.Current());
      } else {
        savedKey := iter.Current().key.ukey;
        NextStarts(u, sequence, iter.Current());
      }
      FindNextUserEntry(true, savedKey, Above(k));
    }

    // What the backward scan saves of one row.
    method TakeRow(e: Entry, kind: Kind, ghost u: set<Entry>, ghost r: Range) returns (kind': Kind)
      requires UniqueVersions(u) && e in u && r.Has(e.key.ukey) && forall x :: x in u && x.key == e.key ==> x == e
      requires BackScan(Seen(u, r, AfterKey(e.key)), sequence, r, kind, savedKey, savedValue)
      requires e.key.sn <= sequence && kind.Put? ==> e.key.ukey >= savedKey
      modifies this`savedKey, this`savedValue
      ensures BackScan(Seen(u, r, BeforeKey(e.key)), sequence, r, kind', savedKey, savedValue)
    {
      ghost var seen, key, value := Seen(u, r, AfterKey(e.key)), savedKey, savedValue;
      kind' := kind;
      if e.key.sn <= sequence {
        kind' := e.key.kind;
        if kind'.Deletion? {
          savedKey, savedValue := 0, "";
        } else {
          savedKey, savedValue := e.key.ukey, e.value;
        }
      }
      SeenSteps(u, r, e);
      UniqueInPart(u, seen + {e});
      BackSteps(seen, sequence, r, e, kind, key, value, kind', savedKey, savedValue);
    }

    // Everything the inner iterator has not moved below of yet lies past this place.
    ghost function Here(): Cut
      reads iter
    {
      if iter.Valid() then AfterKey(iter.Current().key) else BeforeAll
    }

    // The loop of FindPrevUserEntry.
    method ScanBack(ghost r: Range) returns (kind: Kind)
      requires iter.Inv() && UniqueVersions(Whole()) && BackReady(r) && (r.All? || r.Below?)
      modifies this`savedKey, this`savedValue, iter
      ensures iter.Inv() && Whole() == old(Whole())
      ensures BackScan(Seen(Whole(), r, Here()), sequence, r, kind, savedKey, savedValue)
      ensures iter.Valid() ==> kind.Put? && iter.Current() in Whole() && iter.Current().key.ukey < savedKey
    {
      ghost var u := Whole();
      kind := Deletion;
      NothingSeenYet(u, sequence, r, Here(), savedKey, savedValue);
      while iter.Valid()
        invariant iter.Inv() && Whole() == u
        invariant iter.Valid() ==> iter.Current() in u && r.Has(iter.Current().key.ukey)
        invariant BackScan(Seen(u, r, Here()), sequence, r, kind, savedKey, savedValue)
        decreases RemainingBelow(iter)
      {
        var e := iter.Current();
        if e.key.sn <= sequence && kind.Put? && e.key.ukey < savedKey {
          break;
        }
        CurrentIsAlone(u, e);
        kind := TakeRow(e, kind, u, r);
        Retreat();
        SeenAgain(u, r, e, Here());
      }
    }

    method FindPrevUserEntry(ghost r: Range)
      requires iter.Inv() && UniqueVersions(Whole()) && direction.Reverse? && BackReady(r) && (r.All? || r.Below?)
      modifies this, iter
      ensures Whole() == old(Whole()) && AtLast(r)
    {
      hide BackScan, NothingIn, IsLastIn, UniqueVersions, Lookup, Newest, Seen, Union, AllVisibleBelowPassed;
      var kind := ScanBack(r);
      if kind.Deletion? {
        BackEnds(Whole(), sequence, r, Here(), savedKey, savedValue);
        valid := false;
        savedKey, savedValue := 0, "";
        direction := Forward;
        assert AtLast(r);
      } else {
        BackFinds(Whole(), sequence, r, Here(), savedKey, savedValue);
        valid := true;
        assert JustBelow(savedKey) && Inv();
        assert AtLast(r);
      }
    }

    // Below everything in the range that is visible, and inside the range.
    ghost predicate BackReady(r: Range)
      reads iter
    {
      && (iter.Valid() ==> iter.Current() in Whole() && r.Has(iter.Current().key.ukey))
      && forall x :: x in Whole() && x.key.sn <= sequence && r.Has(x.key.ukey) ==> Here().Passed(x.key)
    }

    method SeekToLast()
      requires Inv()
      modifies this, iter
      ensures Whole() == old(Whole()) && AtLast(All)
    {
      ghost var u, children := Whole(), iter.children;
      direction := Reverse;
      savedValue := "";
      iter.SeekToLast();
      SameRunsSameUnion(iter.children, children);
      FindPrevUserEntry(All);
    }

    // Switching to reverse: down past every row of the shown user key.
    method LeaveKey(ghost k: UserKey) returns (below: bool)
      requires iter.Inv() && iter.Valid() && iter.Current().key.ukey == savedKey == k
      modifies iter
      ensures iter.Inv() && Whole() == old(Whole())
      ensures if below then BackReady(Below(k)) else NothingIn(Whole(), sequence, Below(k))
    {
      ghost var u := Whole();
      below := false;
      while !below
        invariant iter.Inv() && Whole() == u && iter.Valid()
        invariant if below then BackReady(Below(k)) else iter.Current().key.ukey >= k
        decreases !below, RemainingBelow(iter)
      {
        ghost var last := iter.Current();
        Retreat();
        if !iter.Valid() {
          NothingBelow(u, sequence, last, k);
          return;
        }
        below := iter.Current().key.ukey < savedKey;
      }
    }

    method Prev()
      requires Inv() && valid
      modifies this, iter
      ensures Whole() == old(Whole()) && AtLast(Below(old(Key())))
    {
      ghost var k := Key();
      if direction.Forward? {
        savedKey := iter.Current().key.ukey;
        var below := LeaveKey(k);
        if !below {
          valid := false;
          savedKey, savedValue := 0, "";
          return;
        }
        direction := Reverse;
      }
      FindPrevUserEntry(Below(k));
    }
  }

  lemma NothingBelow(u: set<Entry>, s: SequenceNumber, last: Entry, k: UserKey)
    requires NothingBefore(u, BeforeKey(last.key)) && last.key.ukey >= k
    ensures NothingIn(u, s, Below(k))
  {
    forall j | j < k ensures Lookup(u, j, s) == None {
      LookupAbsent(u, j, s);
    }
  }
}

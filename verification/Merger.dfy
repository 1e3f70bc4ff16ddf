/** Iterators over sorted runs, and the iterator that merges several of them
    (include/leveldb/iterator.h, table/merger.cc). */
module Iterators {
  import opened DbFormat
  import opened Versions

  // A place between rows: before or after all of them, or just before or after a key.
  datatype Cut = BeforeAll | BeforeKey(key: InternalKey) | AfterKey(key: InternalKey) | AfterAll {
    ghost predicate Passed(k: InternalKey) {
      match this
      case BeforeAll => false
      case BeforeKey(key) => Less(k, key)
      case AfterKey(key) => LessEq(k, key)
      case AfterAll => true
    }

    lemma PassedIsDownwardClosed(a: InternalKey, b: InternalKey)
      requires LessEq(a, b) && Passed(b)
      ensures Passed(a)
    {
    }
  }

  // A positioned iterator over one ascending run; `pos == |es|` is the single invalid position.
  datatype Cursor = Cursor(es: seq<Entry>, pos: nat) {
    ghost predicate Ok() {
      pos <= |es| && Ascending(es)
    }

    predicate Valid() {
      pos < |es|
    }

    function Current(): Entry
      requires Valid()
    {
      es[pos]
    }

    function SeekToFirst(): Cursor {
      Cursor(es, 0)
    }

    function SeekToLast(): Cursor {
      Cursor(es, if es == [] then 0 else |es| - 1)
    }

    function Seek(target: InternalKey): Cursor {
      Cursor(es, LowerBound(es, target))
    }

    function Next(): Cursor
      requires Valid()
    {
      Cursor(es, pos + 1)
    }

    function Prev(): Cursor
      requires Valid()
    {
      Cursor(es, if pos == 0 then |es| else pos - 1)
    }

    // Standing on the first row past the cut, or invalid if there is none.
    ghost predicate FirstAfter(cut: Cut) {
      Ok() && forall i :: 0 <= i < |es| ==> (cut.Passed(es[i].key) <==> i < pos)
    }

    // Standing on the last row the cut has passed, or invalid if there is none.
    ghost predicate LastBefore(cut: Cut) {
      Ok() && forall i :: 0 <= i < |es| ==> (cut.Passed(es[i].key) <==> i <= pos < |es|)
    }

    lemma SeekLands(k: InternalKey)
      requires Ok()
      ensures Seek(k).FirstAfter(BeforeKey(k))
    {
      var c := Seek(k);
      forall i | c.pos < i < |es| ensures !Less(es[i].key, k) {
        assert Less(es[c.pos].key, es[i].key);
      }
    }

    // On its own row a cursor is at that key's place in both directions.
    lemma OnOwnRow()
      requires Ok() && Valid()
      ensures FirstAfter(BeforeKey(Current().key)) && LastBefore(AfterKey(Current().key))
    {
      forall i | 0 <= i < |es|
        ensures Less(es[i].key, Current().key) <==> i < pos
        ensures LessEq(es[i].key, Current().key) <==> i <= pos
      {
        assert i < pos ==> Less(es[i].key, es[pos].key);
        assert pos < i ==> Less(es[pos].key, es[i].key);
      }
    }

    lemma StepForward()
      requires Ok() && Valid()
      ensures Next().FirstAfter(AfterKey(Current().key))
    {
      OnOwnRow();
    }

    lemma StepBackward()
      requires Ok() && Valid()
      ensures Prev().LastBefore(BeforeKey(Current().key))
    {
      OnOwnRow();
    }

    // Without a row at `k`, being before it and being past it are the same place.
    lemma NoRowAt(k: InternalKey)
      requires forall i :: 0 <= i < |es| ==> es[i].key != k
      ensures FirstAfter(BeforeKey(k)) <==> FirstAfter(AfterKey(k))
      ensures LastBefore(BeforeKey(k)) <==> LastBefore(AfterKey(k))
    {
      forall i | 0 <= i < |es| ensures Less(es[i].key, k) <==> LessEq(es[i].key, k) {
        LessIsTotalOrder(es[i].key, k);
      }
    }

    // Stepping over the row at `k`, if there, is being past it.
    lemma StepOver(k: InternalKey)
      requires FirstAfter(BeforeKey(k))
      ensures (if Valid() && Current().key == k then Next() else this).FirstAfter(AfterKey(k))
    {
      if Valid() && Current().key == k {
        StepForward();
      } else {
        forall i | 0 <= i < |es| ensures LessEq(es[i].key, k) <==> i < pos {
          LessIsTotalOrder(es[i].key, k);
          assert pos < i ==> Less(es[pos].key, es[i].key);
        }
      }
    }

    // One row back from the first row past a cut is the last row the cut has passed.
    lemma BackAcross(cut: Cut)
      requires FirstAfter(cut)
      ensures (if Valid() then Prev() else SeekToLast()).LastBefore(cut)
    {
    }
  }
}

module Merger {
  import opened DbFormat
  import opened Iterators

  datatype Direction = Forward | Reverse

  ghost function Union(children: seq<Cursor>): set<Entry> {
    set i, e | 0 <= i < |children| && e in children[i].es :: e
  }

  // `e` is the first row of `u` past the cut; `Nothing` says there is none.
  ghost predicate IsFirstAfter(u: set<Entry>, cut: Cut, e: Entry) {
    e in u && !cut.Passed(e.key) && forall x :: x in u && !cut.Passed(x.key) ==> LessEq(e.key, x.key)
  }

  ghost predicate NothingAfter(u: set<Entry>, cut: Cut) {
    forall x :: x in u ==> cut.Passed(x.key)
  }

  ghost predicate IsLastBefore(u: set<Entry>, cut: Cut, e: Entry) {
    e in u && cut.Passed(e.key) && forall x :: x in u && cut.Passed(x.key) ==> LessEq(x.key, e.key)
  }

  ghost predicate NothingBefore(u: set<Entry>, cut: Cut) {
    forall x :: x in u ==> !cut.Passed(x.key)
  }

  ghost predicate AllOk(children: seq<Cursor>) {
    forall i :: 0 <= i < |children| ==> children[i].Ok()
  }

  // No two runs share a key.
  ghost predicate Distinct(children: seq<Cursor>) {
    forall i, j, x, y ::
      0 <= i < |children| && 0 <= j < |children| && i != j && 0 <= x < |children[i].es| && 0 <= y < |children[j].es| ==>
        children[i].es[x].key != children[j].es[y].key
  }

  ghost predicate AllFirstAfter(children: seq<Cursor>, cut: Cut) {
    forall i :: 0 <= i < |children| ==> children[i].FirstAfter(cut)
  }

  ghost predicate AllLastBefore(children: seq<Cursor>, cut: Cut) {
    forall i :: 0 <= i < |children| ==> children[i].LastBefore(cut)
  }

  ghost predicate SameRuns(a: seq<Cursor>, b: seq<Cursor>) {
    |a| == |b| && forall i :: 0 <= i < |a| ==> a[i].es == b[i].es
  }

  lemma SameRunsSameUnion(a: seq<Cursor>, b: seq<Cursor>)
    requires SameRuns(a, b)
    ensures Union(a) == Union(b) && (Distinct(a) <==> Distinct(b))
  {
    assert forall i :: 0 <= i < |a| ==> a[i].es == b[i].es;
  }

  // `c` is the index of a child with the smallest current row, or -1 if no child is valid.
  ghost predicate IsSmallest(children: seq<Cursor>, c: int) {
    && -1 <= c < |children|
    && (c == -1 ==> forall i :: 0 <= i < |children| ==> !children[i].Valid())
    && (c >= 0 ==> children[c].Valid())
    && (c >= 0 ==> forall i :: 0 <= i < |children| && children[i].Valid() ==>
          LessEq(children[c].Current().key, children[i].Current().key))
  }

  ghost predicate IsLargest(children: seq<Cursor>, c: int) {
    && -1 <= c < |children|
    && (c == -1 ==> forall i :: 0 <= i < |children| ==> !children[i].Valid())
    && (c >= 0 ==> children[c].Valid())
    && (c >= 0 ==> forall i :: 0 <= i < |children| && children[i].Valid() ==>
          LessEq(children[i].Current().key, children[c].Current().key))
  }

  lemma RowIndex(children: seq<Cursor>, e: Entry) returns (i: nat, x: nat)
    requires e in Union(children)
    ensures i < |children| && x < |children[i].es| && children[i].es[x] == e
  {
    i :| 0 <= i < |children| && e in children[i].es;
    x :| 0 <= x < |children[i].es| && children[i].es[x] == e;
  }

  // A child past a cut stays put when the cut moves up to a key no child is beyond.
  lemma FirstAfterMovesUp(c: Cursor, cut: Cut, k: InternalKey)
    requires c.FirstAfter(cut) && !cut.Passed(k) && (c.Valid() ==> LessEq(k, c.Current().key))
    ensures c.FirstAfter(BeforeKey(k))
  {
    forall i | 0 <= i < |c.es| ensures Less(c.es[i].key, k) <==> i < c.pos {
      if i < c.pos {
        if LessEq(k, c.es[i].key) {
          cut.PassedIsDownwardClosed(k, c.es[i].key);
        }
      } else {
        assert c.pos < i ==> Less(c.es[c.pos].key, c.es[i].key);
      }
    }
  }

  lemma LastBeforeMovesDown(c: Cursor, cut: Cut, k: InternalKey)
    requires c.LastBefore(cut) && cut.Passed(k) && (c.Valid() ==> LessEq(c.Current().key, k))
    ensures c.LastBefore(AfterKey(k))
  {
    forall i | 0 <= i < |c.es| ensures LessEq(c.es[i].key, k) <==> i <= c.pos < |c.es| {
      if i <= c.pos < |c.es| {
        assert i < c.pos ==> Less(c.es[i].key, c.es[c.pos].key);
      } else {
        if LessEq(c.es[i].key, k) {
          cut.PassedIsDownwardClosed(c.es[i].key, k);
        }
      }
    }
  }

  // With every child on its first row past a cut, the smallest of them is the union's first row
  // past it.
  lemma SmallestIsFirst(children: seq<Cursor>, cut: Cut, c: int)
    requires AllFirstAfter(children, cut) && IsSmallest(children, c)
    ensures c == -1 ==> NothingAfter(Union(children), cut)
    ensures c >= 0 ==> IsFirstAfter(Union(children), cut, children[c].Current())
    ensures c >= 0 ==> AllFirstAfter(children, BeforeKey(children[c].Current().key))
  {
    var u := Union(children);
    forall e | e in u && !cut.Passed(e.key) ensures c >= 0 && LessEq(children[c].Current().key, e.key) {
      var i, x := RowIndex(children, e);
      assert children[i].FirstAfter(cut) && children[i].pos <= x;
      assert children[i].pos < x ==> Less(children[i].Current().key, e.key);
    }
    if c >= 0 {
      assert children[c].Current() in children[c].es;
      assert children[c].FirstAfter(cut);
      forall i | 0 <= i < |children| ensures children[i].FirstAfter(BeforeKey(children[c].Current().key)) {
        FirstAfterMovesUp(children[i], cut, children[c].Current().key);
      }
    }
  }

  lemma LargestIsLast(children: seq<Cursor>, cut: Cut, c: int)
    requires AllLastBefore(children, cut) && IsLargest(children, c)
    ensures c == -1 ==> NothingBefore(Union(children), cut)
    ensures c >= 0 ==> IsLastBefore(Union(children), cut, children[c].Current())
    ensures c >= 0 ==> AllLastBefore(children, AfterKey(children[c].Current().key))
  {
    var u := Union(children);
    forall e | e in u && cut.Passed(e.key) ensures c >= 0 && LessEq(e.key, children[c].Current().key) {
      var i, x := RowIndex(children, e);
      assert children[i].LastBefore(cut) && x <= children[i].pos < |children[i].es|;
      assert x < children[i].pos ==> Less(e.key, children[i].Current().key);
    }
    if c >= 0 {
      assert children[c].Current() in children[c].es;
      assert children[c].LastBefore(cut);
      forall i | 0 <= i < |children| ensures children[i].LastBefore(AfterKey(children[c].Current().key)) {
        LastBeforeMovesDown(children[i], cut, children[c].Current().key);
      }
    }
  }

  class MergingIterator {
    var children: seq<Cursor>
    var current: int // index of the current child, or -1
    var direction: Direction

    predicate Valid()
      reads this
    {
      0 <= current < |children| && children[current].Valid()
    }

    function Current(): Entry
      requires Valid()
      reads this
    {
      children[current].Current()
    }

    // While valid, every child stands at the current key's place for the current direction.
    ghost predicate Inv()
      reads this
    {
      && AllOk(children) && Distinct(children) && -1 <= current < |children|
      && (current >= 0 ==> Valid())
      && (current >= 0 && direction.Forward? ==> AllFirstAfter(children, BeforeKey(Current().key)))
      && (current >= 0 && direction.Reverse? ==> AllLastBefore(children, AfterKey(Current().key)))
    }

    constructor (runs: seq<Cursor>)
      requires AllOk(runs) && Distinct(runs)
      ensures Inv() && !Valid() && children == runs
    {
      children, current, direction := runs, -1, Forward;
    }

    method FindSmallest()
      modifies this`current
      ensures IsSmallest(children, current)
    {
      var smallest := -1;
      for i := 0 to |children|
        invariant -1 <= smallest < i
        invariant smallest == -1 ==> forall j :: 0 <= j < i ==> !children[j].Valid()
        invariant smallest >= 0 ==> children[smallest].Valid()
        invariant smallest >= 0 ==> forall j :: 0 <= j < i && children[j].Valid() ==>
                    LessEq(children[smallest].Current().key, children[j].Current().key)
      {
        if children[i].Valid() {
          if smallest == -1 {
            smallest := i;
          } else if Less(children[i].Current().key, children[smallest].Current().key) {
            smallest := i;
          }
        }
      }
      current := smallest;
    }

    method FindLargest()
      modifies this`current
      ensures IsLargest(children, current)
    {
      var largest := -1;
      for i := |children| downto 0
        invariant -1 <= largest < |children|
        invariant largest == -1 ==> forall j :: i <= j < |children| ==> !children[j].Valid()
        invariant largest >= 0 ==> children[largest].Valid()
        invariant largest >= 0 ==> forall j :: i <= j < |children| && children[j].Valid() ==>
                    LessEq(children[j].Current().key, children[largest].Current().key)
      {
        if children[i].Valid() {
          if largest == -1 {
            largest := i;
          } else if Less(children[largest].Current().key, children[i].Current().key) {
            largest := i;
          }
        }
      }
      current := largest;
    }

    method SeekToFirst()
      requires Inv()
      modifies this
      ensures Inv() && SameRuns(children, old(children)) && direction.Forward?
      ensures if Valid() then IsFirstAfter(Union(children), BeforeAll, Current())
              else NothingAfter(Union(children), BeforeAll)
    {
      ghost var before := children;
      children := seq(|children|, i requires 0 <= i < |children| reads this => children[i].SeekToFirst());
      SameRunsSameUnion(children, before);
      FindSmallest();
      direction := Forward;
      SmallestIsFirst(children, BeforeAll, current);
    }

    method SeekToLast()
      requires Inv()
      modifies this
      ensures Inv() && SameRuns(children, old(children)) && direction.Reverse?
      ensures if Valid() then IsLastBefore(Union(children), AfterAll, Current())
              else NothingBefore(Union(children), AfterAll)
    {
      ghost var before := children;
      children := seq(|children|, i requires 0 <= i < |children| reads this => children[i].SeekToLast());
      SameRunsSameUnion(children, before);
      FindLargest();
      direction := Reverse;
      LargestIsLast(children, AfterAll, current);
    }

    method Seek(target: InternalKey)
      requires Inv()
      modifies this
      ensures Inv() && SameRuns(children, old(children)) && direction.Forward?
      ensures if Valid() then IsFirstAfter(Union(children), BeforeKey(target), Current())
              else NothingAfter(Union(children), BeforeKey(target))
    {
      ghost var before := children;
      children := seq(|children|, i requires 0 <= i < |children| reads this => children[i].Seek(target));
      SameRunsSameUnion(children, before);
      forall i | 0 <= i < |children| ensures children[i].FirstAfter(BeforeKey(target)) {
        before[i].SeekLands(target);
      }
      FindSmallest();
      direction := Forward;
      SmallestIsFirst(children, BeforeKey(target), current);
    }

    // Direction switch of Next: reposition every other child past the current key.
    method ForwardOthers()
      requires Inv() && Valid()
      modifies this`children, this`direction
      ensures AllOk(children) && SameRuns(children, old(children)) && children[current] == old(children[current])
      ensures direction.Forward?
      ensures forall j :: 0 <= j < |children| && j != current ==> children[j].FirstAfter(AfterKey(old(Current().key)))
    {
      ghost var before, k := children, Current().key;
      if direction.Reverse? {
        var i := 0;
        while i < |children|
          invariant i <= |children| && SameRuns(children, before) && children[current] == before[current]
          invariant forall j :: i <= j < |children| ==> children[j] == before[j]
          invariant forall j :: 0 <= j < i && j != current ==> children[j].FirstAfter(AfterKey(k))
        {
          if i != current {
            before[i].SeekLands(k);
            var child := children[i].Seek(Current().key);
            child.StepOver(k);
            if child.Valid() && child.Current().key == Current().key {
              child := child.Next();
            }
            children := children[i := child];
          }
          i := i + 1;
        }
        direction := Forward;
      } else {
        forall j | 0 <= j < |children| && j != current ensures children[j].FirstAfter(AfterKey(k)) {
          OthersHaveNoRow(before, current, j, k);
          children[j].NoRowAt(k);
        }
      }
    }

    method Next()
      requires Inv() && Valid()
      modifies this
      ensures Inv() && SameRuns(children, old(children)) && direction.Forward?
      ensures if Valid() then IsFirstAfter(Union(children), AfterKey(old(Current().key)), Current())
              else NothingAfter(Union(children), AfterKey(old(Current().key)))
    {
      ghost var before, k := children, Current().key;
      ForwardOthers();
      children[current].StepForward();
      children := children[current := children[current].Next()];
      SameRunsSameUnion(children, before);
      FindSmallest();
      SmallestIsFirst(children, AfterKey(k), current);
    }

    // Direction switch of Prev: reposition every other child before the current key.
    method BackwardOthers()
      requires Inv() && Valid()
      modifies this`children, this`direction
      ensures AllOk(children) && SameRuns(children, old(children)) && children[current] == old(children[current])
      ensures direction.Reverse?
      ensures forall j :: 0 <= j < |children| && j != current ==> children[j].LastBefore(BeforeKey(old(Current().key)))
    {
      ghost var before, k := children, Current().key;
      if direction.Forward? {
        var i := 0;
        while i < |children|
          invariant i <= |children| && SameRuns(children, before) && children[current] == before[current]
          invariant forall j :: i <= j < |children| ==> children[j] == before[j]
          invariant forall j :: 0 <= j < i && j != current ==> children[j].LastBefore(BeforeKey(k))
        {
          if i != current {
            before[i].SeekLands(k);
            var child := children[i].Seek(Current().key);
            child.BackAcross(BeforeKey(k));
            child := if child.Valid() then child.Prev() else child.SeekToLast();
            children := children[i := child];
          }
          i := i + 1;
        }
        direction := Reverse;
      } else {
        forall j | 0 <= j < |children| && j != current ensures children[j].LastBefore(BeforeKey(k)) {
          OthersHaveNoRow(before, current, j, k);
          children[j].NoRowAt(k);
        }
      }
    }

    method Prev()
      requires Inv() && Valid()
      modifies this
      ensures Inv() && SameRuns(children, old(children)) && direction.Reverse?
      ensures if Valid() then IsLastBefore(Union(children), BeforeKey(old(Current().key)), Current())
              else NothingBefore(Union(children), BeforeKey(old(Current().key)))
    {
      ghost var before, k := children, Current().key;
      BackwardOthers();
      children[current].StepBackward();
      children := children[current := children[current].Prev()];
      SameRunsSameUnion(children, before);
      FindLargest();
      LargestIsLast(children, BeforeKey(k), current);
    }
  }

  lemma OthersHaveNoRow(children: seq<Cursor>, c: nat, i: nat, k: InternalKey)
    requires Distinct(children) && c < |children| && i < |children| && i != c && children[c].Valid()
    requires children[c].Current().key == k
    ensures forall x :: 0 <= x < |children[i].es| ==> children[i].es[x].key != k
  {
  }

  lemma UnionKeysAreUnique(children: seq<Cursor>, a: Entry, b: Entry)
    requires AllOk(children) && Distinct(children) && a in Union(children) && b in Union(children) && a.key == b.key
    ensures a == b
  {
    var i, x := RowIndex(children, a);
    var j, y := RowIndex(children, b);
    assert i == j;
    assert x < y ==> Less(a.key, b.key);
    assert y < x ==> Less(b.key, a.key);
  }

  // `out` lists, in order, the rows of `u` the cut has passed.
  ghost predicate Emitted(u: set<Entry>, cut: Cut, out: seq<Entry>) {
    Ascending(out) && forall e :: e in out <==> e in u && cut.Passed(e.key)
  }

  lemma EmitCurrent(children: seq<Cursor>, out: seq<Entry>, cur: Entry)
    requires AllOk(children) && Distinct(children) && cur in Union(children)
    requires Emitted(Union(children), BeforeKey(cur.key), out)
    ensures Emitted(Union(children), AfterKey(cur.key), out + [cur])
  {
    var u := Union(children);
    forall i | 0 <= i < |out| ensures Less(out[i].key, cur.key) {
      assert out[i] in out;
    }
    forall e | e in u ensures LessEq(e.key, cur.key) <==> Less(e.key, cur.key) || e == cur {
      LessIsTotalOrder(e.key, cur.key);
      if e.key == cur.key {
        UnionKeysAreUnique(children, e, cur);
      }
    }
  }

  lemma EmittedUpToNext(u: set<Entry>, k: InternalKey, next: Entry, out: seq<Entry>)
    requires Emitted(u, AfterKey(k), out) && IsFirstAfter(u, AfterKey(k), next)
    ensures Emitted(u, BeforeKey(next.key), out)
  {
    forall e | e in u ensures LessEq(e.key, k) <==> Less(e.key, next.key) {
    }
  }

  ghost function Remaining(it: MergingIterator): set<Entry>
    reads it
  {
    if it.Valid() then set e | e in Union(it.children) && LessEq(it.Current().key, e.key) else {}
  }

  ghost predicate Sweeping(it: MergingIterator, u: set<Entry>, out: seq<Entry>)
    reads it
  {
    && it.Inv() && Union(it.children) == u
    && (it.Valid() ==> it.Current() in u && Emitted(u, BeforeKey(it.Current().key), out))
    && (!it.Valid() ==> Emitted(u, AfterAll, out))
  }

  // A full forward sweep lists the union in order: what a compaction reads.
  method Drain(runs: seq<Cursor>) returns (out: seq<Entry>)
    requires AllOk(runs) && Distinct(runs)
    ensures Emitted(Union(runs), AfterAll, out)
  {
    ghost var u := Union(runs);
    var it := new MergingIterator(runs);
    it.SeekToFirst();
    SameRunsSameUnion(it.children, runs);
    out := [];
    while it.Valid()
      invariant Sweeping(it, u, out)
      decreases Remaining(it)
    {
      out := Emit(it, u, out);
    }
  }

  method Emit(it: MergingIterator, ghost u: set<Entry>, out: seq<Entry>) returns (out': seq<Entry>)
    requires it.Valid() && Sweeping(it, u, out)
    modifies it
    ensures Sweeping(it, u, out') && Remaining(it) < old(Remaining(it))
  {
    ghost var cur, children := it.Current(), it.children;
    EmitCurrent(children, out, cur);
    out' := out + [it.Current()];
    it.Next();
    SameRunsSameUnion(it.children, children);
    assert cur !in Remaining(it) && cur in old(Remaining(it));
    if it.Valid() {
      EmittedUpToNext(u, cur.key, it.Current(), out');
      forall e | e in Remaining(it) ensures e in old(Remaining(it)) {
      }
    }
  }
}

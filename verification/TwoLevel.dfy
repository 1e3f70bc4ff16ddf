/** The iterator over a list of blocks, opened one at a time (table/two_level_iterator.cc). */
module TwoLevel {
  import opened Wrappers
  import opened DbFormat
  import opened Versions
  import opened Iterators

  // The rows of the blocks one after the other.
  function Flat(blocks: seq<seq<Entry>>): seq<Entry> {
    if blocks == [] then [] else blocks[0] + Flat(blocks[1..])
  }

  // Rows in the blocks before the i-th.
  function Before(blocks: seq<seq<Entry>>, i: nat): nat
    requires i <= |blocks|
  {
    if i == 0 then 0 else Before(blocks, i - 1) + |blocks[i - 1]|
  }

  lemma {:induction false} FlatTail(blocks: seq<seq<Entry>>, i: nat)
    requires i <= |blocks|
    ensures Before(blocks, i) <= |Flat(blocks)| && Flat(blocks)[Before(blocks, i)..] == Flat(blocks[i..])
    decreases i
  {
    if i > 0 {
      FlatTail(blocks, i - 1);
      var rest := blocks[i - 1..];
      assert rest[0] == blocks[i - 1] && rest[1..] == blocks[i..];
      assert Flat(rest)[|rest[0]|..] == Flat(rest[1..]);
    } else {
      assert blocks[0..] == blocks;
    }
  }

  lemma FlatAt(blocks: seq<seq<Entry>>, i: nat, p: nat)
    requires i < |blocks| && p < |blocks[i]|
    ensures Before(blocks, i) + p < |Flat(blocks)| && Flat(blocks)[Before(blocks, i) + p] == blocks[i][p]
  {
    FlatTail(blocks, i);
    assert blocks[i..][0] == blocks[i];
    assert Flat(blocks[i..])[p] == blocks[i][p];
  }

  lemma FlatLength(blocks: seq<seq<Entry>>)
    ensures |Flat(blocks)| == Before(blocks, |blocks|)
  {
    FlatTail(blocks, |blocks|);
    assert blocks[|blocks|..] == [];
  }

  // The keys an index leads by: at or after every row of their block, before every later row.
  ghost predicate Indexes(blocks: seq<seq<Entry>>, index: seq<InternalKey>) {
    && |index| == |blocks|
    && (forall i, p :: 0 <= i < |blocks| && 0 <= p < |blocks[i]| ==> LessEq(blocks[i][p].key, index[i]))
    && (forall i, j, p :: 0 <= i < j < |blocks| && 0 <= p < |blocks[j]| ==> Less(index[i], blocks[j][p].key))
  }

  // First position whose index key is at or after the target.
  function SeekIndex(index: seq<InternalKey>, target: InternalKey): (i: nat)
    ensures i <= |index| && forall j :: 0 <= j < i ==> Less(index[j], target)
    ensures i < |index| ==> !Less(index[i], target)
  {
    if index == [] || !Less(index[0], target) then 0 else 1 + SeekIndex(index[1..], target)
  }

  class TwoLevelIterator {
    const blocks: seq<seq<Entry>>
    const index: seq<InternalKey>
    var indexPos: nat          // |blocks| when the index iterator is invalid
    var data: Option<Cursor>   // the open block's iterator, if any
    var handle: nat            // which block `data` iterates over

    ghost predicate Shaped()
      reads this
    {
      && Ascending(Flat(blocks)) && |index| == |blocks| && indexPos <= |blocks|
      && (data.Some? ==> handle < |blocks| && data.value.es == blocks[handle] && data.value.pos <= |blocks[handle]|)
      && (data.Some? && indexPos < |blocks| ==> handle == indexPos)
    }

    predicate Positioned()
      reads this
    {
      data.Some? && data.value.Valid()
    }

    // Valid means standing on a row; otherwise no block is open.
    ghost predicate Valid()
      reads this
    {
      Shaped() && if Positioned() then indexPos < |blocks| else data.None?
    }

    // The place in the concatenation of all blocks.
    ghost function Pos(): nat
      requires Shaped()
      reads this
    {
      if Positioned() && indexPos < |blocks| then Before(blocks, indexPos) + data.value.pos else |Flat(blocks)|
    }

    function Current(): Entry
      requires Positioned()
      reads this
    {
      data.value.Current()
    }

    lemma ShowsRow()
      requires Valid() && Positioned()
      ensures Pos() < |Flat(blocks)| && Current() == Flat(blocks)[Pos()]
    {
      FlatAt(blocks, indexPos, data.value.pos);
    }

    constructor (blocks: seq<seq<Entry>>, index: seq<InternalKey>)
      requires Ascending(Flat(blocks)) && |index| == |blocks|
      ensures Valid() && !Positioned() && this.blocks == blocks && this.index == index
    {
      this.blocks, this.index := blocks, index;
      indexPos, data, handle := |blocks|, None, 0;
    }

    // InitDataBlock: open the block the index stands on, unless it is open already.
    method InitDataBlock()
      requires Shaped() || (Ascending(Flat(blocks)) && |index| == |blocks| && indexPos <= |blocks| && OpenIsSome())
      modifies this`data, this`handle
      ensures Shaped() && (data.Some? <==> indexPos < |blocks|)
    {
      if indexPos >= |blocks| {
        data := None;
      } else if data.Some? && handle == indexPos {
      } else {
        data := Some(Cursor(blocks[indexPos], |blocks[indexPos]|));
        handle := indexPos;
      }
    }

    // Whatever block is open, its iterator belongs to it.
    ghost predicate OpenIsSome()
      reads this
    {
      data.Some? ==> handle < |blocks| && data.value.es == blocks[handle] && data.value.pos <= |blocks[handle]|
    }

    // Where a forward move has got to: the end of one block is the start of the next.
    ghost function Place(): nat
      requires Shaped()
      reads this
    {
      if data.Some? && indexPos < |blocks| then Before(blocks, indexPos) + data.value.pos else |Flat(blocks)|
    }

    // SkipEmptyDataBlocksForward: same place, standing on a row unless there is none.
    method SkipEmptyDataBlocksForward()
      requires Shaped() && (data.Some? <==> indexPos < |blocks|)
      modifies this
      ensures Valid() && Pos() == old(Place())
    {
      ghost var place := Place();
      while data.None? || !data.value.Valid()
        invariant Shaped() && (data.Some? <==> indexPos < |blocks|) && Place() == place
        decreases |blocks| - indexPos
      {
        if indexPos >= |blocks| {
          data := None;
          return;
        }
        FlatLength(blocks);
        indexPos := indexPos + 1;
        InitDataBlock();
        if data.Some? {
          data := Some(data.value.SeekToFirst());
        }
      }
    }

    // SkipEmptyDataBlocksBackward: with no row under the data iterator, the last row of the blocks
    // before the current one, or none.
    method SkipEmptyDataBlocksBackward()
      requires Shaped() && (data.Some? <==> indexPos < |blocks|)
      modifies this
      ensures Valid()
      ensures old(Positioned()) ==> Positioned() && Pos() == old(Pos())
      ensures !old(Positioned()) ==>
                var bound := if old(indexPos) < |blocks| then Before(blocks, old(indexPos)) else 0;
                if bound == 0 then !Positioned() else Positioned() && Pos() == bound - 1
    {
      ghost var bound := if indexPos < |blocks| then Before(blocks, indexPos) else 0;
      ghost var start, moved := Pos(), Positioned();
      while data.None? || !data.value.Valid()
        invariant Shaped() && (data.Some? <==> indexPos < |blocks|)
        invariant moved ==> Positioned() && Pos() == start
        invariant !moved && Positioned() ==> bound > 0 && Pos() == bound - 1
        invariant !moved && !Positioned() ==> bound == if indexPos < |blocks| then Before(blocks, indexPos) else 0
        decreases if indexPos < |blocks| then indexPos + 1 else 0
      {
        if indexPos >= |blocks| {
          data := None;
          return;
        }
        indexPos := if indexPos == 0 then |blocks| else indexPos - 1;
        InitDataBlock();
        if data.Some? {
          data := Some(data.value.SeekToLast());
        }
      }
    }

    method SeekToFirst()
      requires Valid()
      modifies this
      ensures Valid() && Pos() == 0
    {
      indexPos := 0;
      InitDataBlock();
      if data.Some? {
        data := Some(data.value.SeekToFirst());
      }
      FlatLength(blocks);
      SkipEmptyDataBlocksForward();
    }

    method SeekToLast()
      requires Valid()
      modifies this
      ensures Valid() && (if Flat(blocks) == [] then !Positioned() else Positioned() && Pos() == |Flat(blocks)| - 1)
    {
      FlatLength(blocks);
      indexPos := if blocks == [] then 0 else |blocks| - 1;
      InitDataBlock();
      if data.Some? {
        data := Some(data.value.SeekToLast());
      }
      SkipEmptyDataBlocksBackward();
    }

    method Next()
      requires Valid() && Positioned()
      modifies this
      ensures Valid() && Pos() == old(Pos()) + 1
    {
      data := Some(data.value.Next());
      SkipEmptyDataBlocksForward();
    }

    method Prev()
      requires Valid() && Positioned()
      modifies this
      ensures Valid() && (if old(Pos()) == 0 then !Positioned() else Positioned() && Pos() == old(Pos()) - 1)
    {
      data := Some(data.value.Prev());
      SkipEmptyDataBlocksBackward();
    }

    // Seek lands on the first row at or after the target of all blocks together.
    method Seek(target: InternalKey)
      requires Valid() && Indexes(blocks, index)
      modifies this
      ensures Valid() && Pos() <= |Flat(blocks)|
      ensures forall q :: 0 <= q < Pos() ==> Less(Flat(blocks)[q].key, target)
      ensures Pos() < |Flat(blocks)| ==> !Less(Flat(blocks)[Pos()].key, target)
    {
      indexPos := SeekIndex(index, target);
      InitDataBlock();
      if data.Some? {
        data := Some(data.value.Seek(target));
      }
      SeekIsGlobal(blocks, index, target, indexPos, if data.Some? then data.value.pos else 0);
      SkipEmptyDataBlocksForward();
    }
  }

  // Position in the concatenation, taken apart.
  lemma {:induction false} Locate(blocks: seq<seq<Entry>>, n: nat, q: nat) returns (i: nat, p: nat)
    requires n <= |blocks| && q < Before(blocks, n)
    ensures i < n && p < |blocks[i]| && q == Before(blocks, i) + p
  {
    if q >= Before(blocks, n - 1) {
      i, p := n - 1, q - Before(blocks, n - 1);
    } else {
      i, p := Locate(blocks, n - 1, q);
    }
  }

  lemma {:induction false} BeforeGrows(blocks: seq<seq<Entry>>, i: nat, j: nat)
    requires i <= j <= |blocks|
    ensures Before(blocks, i) <= Before(blocks, j) && (i < j ==> Before(blocks, i) + |blocks[i]| <= Before(blocks, j))
    decreases j - i
  {
    if i < j {
      BeforeGrows(blocks, i, j - 1);
    }
  }

  lemma SeekIsGlobal(blocks: seq<seq<Entry>>, index: seq<InternalKey>, target: InternalKey, i: nat, p: nat)
    requires Ascending(Flat(blocks)) && Indexes(blocks, index) && i <= |blocks|
    requires (forall j :: 0 <= j < i ==> Less(index[j], target)) && (i < |blocks| ==> !Less(index[i], target))
    requires if i < |blocks| then p == LowerBound(blocks[i], target) else p == 0
    ensures var place := if i < |blocks| then Before(blocks, i) + p else |Flat(blocks)|;
            && place <= |Flat(blocks)|
            && (forall q :: 0 <= q < place ==> Less(Flat(blocks)[q].key, target))
            && (place < |Flat(blocks)| ==> !Less(Flat(blocks)[place].key, target))
  {
    var place := if i < |blocks| then Before(blocks, i) + p else |Flat(blocks)|;
    FlatLength(blocks);
    BeforeGrows(blocks, i, |blocks|);
    forall q | 0 <= q < |Flat(blocks)| ensures Less(Flat(blocks)[q].key, target) <==> q < place {
      var j, x := Locate(blocks, |blocks|, q);
      FlatAt(blocks, j, x);
      var row := blocks[j][x];
      if j < i {
        BeforeGrows(blocks, j, i);
        assert LessEq(row.key, index[j]) && Less(index[j], target);
      } else if j == i {
        LowerBoundSplits(blocks, i, target, x);
      } else {
        BeforeGrows(blocks, i, j);
        assert Less(index[i], row.key);
      }
    }
  }

  lemma LowerBoundSplits(blocks: seq<seq<Entry>>, i: nat, target: InternalKey, x: nat)
    requires Ascending(Flat(blocks)) && i < |blocks| && x < |blocks[i]|
    ensures Less(blocks[i][x].key, target) <==> x < LowerBound(blocks[i], target)
  {
    var p := LowerBound(blocks[i], target);
    if p < x {
      FlatAt(blocks, i, p);
      FlatAt(blocks, i, x);
    }
  }
}

/** Reading a block: the iterator is a cursor over the rows the block was built from
    (table/block.cc: Block::Iter). */
module BlockIterators {
  import opened Wrappers
  import opened Coding
  import opened Blocks

  // The entry header at offset `off`, if a whole entry lies before `limit`.
  function DecodeAt(data: Bytes, off: nat, limit: nat): Option<Decoded>
    requires limit <= |data|
  {
    if off > limit then None else DecodeEntry(data[off..limit])
  }

  lemma DecodedFits(data: Bytes, off: nat, limit: nat)
    requires limit <= |data| && DecodeAt(data, off, limit).Some?
    ensures var d := DecodeAt(data, off, limit).value;
            d.header >= 3 && off + d.header + d.nonShared + d.valueLength <= limit
  {
    DecodedHeaderFits(data[off..limit]);
  }

  ghost predicate KeepsPrefix(a: Bytes, b: Bytes, n: nat) {
    n <= |a| && n <= |b| && a[..n] == b[..n]
  }

  // `i` is the first row at or after `target`.
  ghost predicate IsLowerBound(lt: Order, rows: seq<Row>, target: Bytes, i: nat) {
    && i <= |rows| && (forall j :: 0 <= j < i ==> lt(rows[j].key, target))
    && (i < |rows| ==> !lt(rows[i].key, target))
  }

  class BlockIter {
    const lt: Order
    const data: Bytes
    const limit: nat // offset of the restart array
    const count: nat // its length
    var current: nat
    var restartIndex: nat
    var key: Bytes
    var valueStart: nat
    var valueEnd: nat
    var corrupt: bool
    ghost const layout: Layout // what the block was built from, if it was
    ghost const built: bool
    ghost var pos: nat        // index of the current row; the number of rows when invalid

    ghost predicate Shaped()
      reads this
    {
      && count > 0 && limit + 4 * count <= |data|
      && (built ==> Laid(data, limit, count, layout) && StrictTotal(lt) && RowsAscend(lt, layout.rows))
    }

    predicate Positioned()
      reads this
    {
      current < limit
    }

    // The iterator stands on row `pos` of a properly built block. The restart index may lag one
    // behind exactly when the row is itself a restart point.
    ghost predicate Standing()
      requires Shaped() && built
      reads this
    {
      && !corrupt && pos <= |layout.rows|
      && if pos == |layout.rows| then !Positioned() else StandingOn(pos)
    }

    ghost predicate StandingOn(i: nat)
      requires Shaped() && built && i < |layout.rows|
      reads this
    {
      && current == layout.at[i] && key == layout.rows[i].key && valueEnd == layout.at[i + 1]
      && valueStart + |layout.rows[i].value| == valueEnd && InRestart(i)
    }

    ghost predicate InRestart(i: nat)
      requires Shaped() && built
      reads this
    {
      && restartIndex < count && layout.restarts[restartIndex] <= i
      && (restartIndex + 1 < count ==> i <= layout.restarts[restartIndex + 1])
    }

    ghost predicate Valid()
      reads this
    {
      && Shaped()
      && (Positioned() ==> restartIndex < count && valueStart <= valueEnd <= limit && current < valueEnd)
      && (built ==> Standing())
    }

    // About to parse the entry of row `i`: key and restart index fit.
    ghost predicate Ready(i: nat)
      requires Shaped() && built
      reads this
    {
      && i <= |layout.rows| && valueEnd == layout.at[i] && restartIndex < count && !corrupt
      && layout.restarts[restartIndex] <= i
      && (i < |layout.rows| ==> KeepsPrefix(key, layout.rows[i].key, layout.shared[i]))
      && (restartIndex + 1 < count ==> i <= layout.restarts[restartIndex + 1] + 1)
    }

    function CurrentKey(): Bytes
      requires Positioned()
      reads this
    {
      key
    }

    function CurrentValue(): Bytes
      requires Positioned() && valueStart <= valueEnd <= |data|
      reads this
    {
      data[valueStart..valueEnd]
    }

    // The cursor is positioned exactly when it is on a row, and shows that row's key and value.
    lemma ShowsRow()
      requires Valid() && built
      ensures pos <= |layout.rows| && (Positioned() <==> pos < |layout.rows|)
      ensures pos < |layout.rows| ==>
                valueStart <= valueEnd <= |data| && CurrentKey() == layout.rows[pos].key
                    && CurrentValue() == layout.rows[pos].value
    {
      hide StrictTotal, RowsAscend, RestartPoint, RestartsOk, DecodeEntry, EntryBytes;
      if pos < |layout.rows| {
        EntryDecodes(data, limit, layout, pos);
      }
    }

    constructor (lt: Order, data: Bytes, limit: nat, count: nat, ghost layout: Layout, ghost built: bool)
      requires count > 0 && limit + 4 * count <= |data|
      requires built ==> Laid(data, limit, count, layout) && StrictTotal(lt) && RowsAscend(lt, layout.rows)
      ensures Valid() && !Positioned() && this.lt == lt && this.data == data && this.limit == limit
      ensures this.count == count
      ensures this.layout == layout && this.built == built && (built ==> pos == |layout.rows|)
    {
      this.lt, this.data, this.limit, this.count := lt, data, limit, count;
      this.layout, this.built, pos := layout, built, |layout.rows|;
      current, restartIndex, key, valueStart, valueEnd, corrupt := limit, count, [], 0, 0, false;
    }

    function GetRestartPoint(j: nat): nat
      requires j < count && limit + 4 * count <= |data|
      reads this
    {
      RestartPoint(data, limit, j)
    }

    method CorruptionError()
      requires Shaped() && !built
      modifies this
      ensures Valid() && !Positioned() && corrupt
    {
      current, restartIndex, corrupt := limit, count, true;
      key, valueStart, valueEnd := [], 0, 0;
    }

    method SeekToRestartPoint(j: nat)
      requires Shaped() && j < count && (built ==> !corrupt)
      modifies this
      ensures Shaped() && restartIndex == j && key == [] && valueEnd == GetRestartPoint(j) && corrupt == old(corrupt)
      ensures built ==> Ready(layout.restarts[j])
    {
      key, restartIndex := [], j;
      valueStart, valueEnd := GetRestartPoint(j), GetRestartPoint(j);
    }

    // Put the current entry's key and value together.
    method TakeEntry(d: Decoded, ghost i: nat)
      requires Shaped() && DecodeAt(data, current, limit) == Some(d) && |key| >= d.shared
      requires built ==> i < |layout.rows| && current == layout.at[i] && d.shared == layout.shared[i]
                         && KeepsPrefix(key, layout.rows[i].key, d.shared)
      modifies this`key, this`valueStart, this`valueEnd
      ensures Shaped() && valueStart <= valueEnd <= limit && current < valueEnd
      ensures built ==>
                && key == layout.rows[i].key && valueEnd == layout.at[i + 1]
                && valueStart + |layout.rows[i].value| == valueEnd
    {
      hide Laid, EntryAt, DecodeAt, EntriesLaid, RowsAscend, StrictTotal, RestartPoint;
      DecodedFits(data, current, limit);
      if built {
        LaidHasEntries(data, limit, count, layout);
        EntryDecodesAt(data, limit, layout, i);
        KeyIsWhole(data, limit, layout, i, current + d.header, d.nonShared);
      }
      var p := current + d.header;
      key := key[..d.shared] + data[p..p + d.nonShared];
      valueStart := p + d.nonShared;
      valueEnd := valueStart + d.valueLength;
    }

    lemma EntryIsThere(i: nat)
      requires Shaped() && built && Ready(i)
      ensures valueEnd < limit <==> i < |layout.rows|
      ensures i < |layout.rows| ==> var d := DecodeAt(data, valueEnd, limit);
              d.Some? && d.value.shared == layout.shared[i]
    {
      RowStarts(data, limit, layout, i);
      if i < |layout.rows| {
        EntryDecodes(data, limit, layout, i);
      }
    }

    // The entry right behind the current value becomes the current entry.
    method ParseNextKey(ghost i: nat) returns (ok: bool)
      requires Shaped() && restartIndex < count && (built ==> Ready(i))
      modifies this
      ensures Valid() && ok == Positioned() && (ok ==> valueEnd > old(valueEnd) && current == old(valueEnd))
      ensures built ==> pos == i && (ok <==> i < |layout.rows|)
    {
      if built {
        EntryIsThere(i);
      }
      hide Laid, EntriesLaid, DecodeAt, StrictTotal, RowsAscend;
      pos := i;
      current := valueEnd;
      if current >= limit {
        current, restartIndex := limit, count;
        return false;
      }
      var d := DecodeAt(data, current, limit);
      if d.None? || |key| < d.value.shared {
        CorruptionError();
        return false;
      }
      TakeEntry(d.value, i);
      AdvanceRestartIndex(i);
      return true;
    }

    method AdvanceRestartIndex(ghost i: nat)
      requires Shaped() && restartIndex < count && Positioned()
      requires built ==> i < |layout.rows| && current == layout.at[i] && layout.restarts[restartIndex] <= i
      modifies this`restartIndex
      ensures restartIndex < count && (built ==> InRestart(i))
    {
      hide EntriesLaid, StrictTotal, RowsAscend, RestartPoint;
      while restartIndex + 1 < count && GetRestartPoint(restartIndex + 1) < current
        invariant restartIndex < count && (built ==> layout.restarts[restartIndex] <= i)
        decreases count - restartIndex
      {
        if built {
          RestartBefore(data, limit, count, layout, restartIndex + 1, i);
        }
        restartIndex := restartIndex + 1;
      }
      if built && restartIndex + 1 < count {
        RestartBefore(data, limit, count, layout, restartIndex + 1, i);
      }
    }

    // On a row, the entry behind its value is the next row's.
    lemma NextIsReady()
      requires Valid() && built && pos < |layout.rows|
      ensures Ready(pos + 1) && (valueEnd < limit <==> pos + 1 < |layout.rows|)
    {
      RowStarts(data, limit, layout, pos + 1);
      SharedFits(data, limit, layout, pos);
    }

    method Next()
      requires Valid() && Positioned()
      modifies this
      ensures Valid() && (built ==> pos == old(pos) + 1)
    {
      if built {
        NextIsReady();
      }
      hide Laid, RowsAscend, StrictTotal;
      var _ := ParseNextKey(pos + 1);
    }

    method Prev()
      requires Valid() && Positioned()
      modifies this
      ensures Valid() && (built ==> pos == if old(pos) == 0 then |layout.rows| else old(pos) - 1)
    {
      hide RowsAscend, StrictTotal, EntriesLaid, KeepsPrefix, RestartPoint;
      var original := current;
      ghost var from := pos;
      while GetRestartPoint(restartIndex) >= original
        invariant Shaped() && restartIndex < count && (built ==> InRestart(from) && !corrupt)
        decreases restartIndex
      {
        if built {
          RestartBefore(data, limit, count, layout, restartIndex, from);
        }
        if restartIndex == 0 {
          current, restartIndex, pos := limit, count, |layout.rows|;
          return;
        }
        restartIndex := restartIndex - 1;
      }
      if built {
        RestartBefore(data, limit, count, layout, restartIndex, from);
      }
      SeekToRestartPoint(restartIndex);
      ScanUpTo(original, from, if built then layout.restarts[restartIndex] else 0);
    }

    // The second part of Prev: parse until the next entry is the one we came from.
    method ScanUpTo(original: nat, ghost from: nat, ghost start: nat)
      requires Shaped() && restartIndex < count && valueEnd < original < limit
      requires built ==> Ready(start) && start < from < |layout.rows| && original == layout.at[from]
      modifies this
      ensures Valid() && (built ==> pos + 1 == from)
    {
      ghost var i: nat := start;
      var more := true;
      while more
        invariant Shaped() && (more ==> restartIndex < count && valueEnd < original && (built ==> Ready(i) && i < from))
        invariant !more ==> Valid() && (built ==> pos + 1 == from)
        decreases if more then limit - valueEnd else 0
      {
        if built {
          StrictlyBefore(data, limit, layout, i, from);
        }
        var ok := ParseNextKey(i);
        i := i + 1;
        more := ok && valueEnd < original;
      }
    }

    method SeekToFirst()
      requires Valid()
      modifies this
      ensures Valid() && (built ==> pos == 0)
    {
      SeekToRestartPoint(0);
      var _ := ParseNextKey(0);
    }

    method SeekToLast()
      requires Valid()
      modifies this
      ensures Valid() && (built ==> pos == LastRow())
    {
      hide *;
      SeekLastRestart();
      ghost var i: nat := if built then layout.restarts[count - 1] else 0;
      var more := true;
      while more
        invariant Shaped() && (more ==> restartIndex < count && (built ==> Ready(i) && LastOrBefore(i)))
        invariant !more ==> Valid() && (built ==> pos == LastRow())
        decreases more, limit - valueEnd
      {
        var ok := ParseNextKey(i);
        StillShaped();
        if built {
          AfterRow(i);
        }
        i := i + 1;
        more := ok && valueEnd < limit;
      }
    }

    // The last restart point is a row, unless there are none.
    method SeekLastRestart()
      requires Valid()
      modifies this
      ensures Shaped() && restartIndex < count
      ensures built ==>
                && count > 0 && count == |layout.restarts| && Ready(layout.restarts[count - 1])
                && LastOrBefore(layout.restarts[count - 1])
    {
      SeekToRestartPoint(count - 1);
    }

    ghost predicate LastOrBefore(i: nat) {
      i < |layout.rows| || (i == 0 && layout.rows == [])
    }

    ghost function LastRow(): nat {
      if layout.rows == [] then 0 else |layout.rows| - 1
    }

    lemma StillShaped()
      requires Valid()
      ensures Shaped() && (Positioned() ==> restartIndex < count && valueEnd <= limit)
    {
    }

    // Row `i` was parsed: the scan is at the last row or the next one is ready.
    lemma AfterRow(i: nat)
      requires Valid() && built && LastOrBefore(i) && pos == i && (Positioned() <==> i < |layout.rows|)
      ensures Positioned() && valueEnd < limit ==> Ready(i + 1) && LastOrBefore(i + 1)
      ensures !(Positioned() && valueEnd < limit) ==> pos == LastRow()
    {
      hide Laid, RowsAscend, StrictTotal;
      if i < |layout.rows| {
        NextIsReady();
      }
    }

    // The full key stored at a restart point.
    method RestartKeyAt(j: nat) returns (r: Option<Bytes>)
      requires Shaped() && 0 < j < count
      ensures built ==> layout.restarts[j] < |layout.rows| && r == Some(layout.rows[layout.restarts[j]].key)
    {
      hide StrictTotal, RowsAscend;
      var off := GetRestartPoint(j);
      var d := DecodeAt(data, off, limit);
      if built {
        EntryDecodes(data, limit, layout, layout.restarts[j]);
      }
      if d.None? || d.value.shared != 0 {
        return None;
      }
      DecodedFits(data, off, limit);
      r := Some(data[off + d.value.header..off + d.value.header + d.value.nonShared]);
      if built {
        RestartKey(data, limit, layout, layout.restarts[j], r.value, off + d.value.header);
      }
    }

    // Binary search among the restart points, then a scan. Lands on the first row at or after
    // the target.
    method Seek(target: Bytes)
      requires Valid()
      modifies this
      ensures Valid() && (built ==> IsLowerBound(lt, layout.rows, target, pos))
    {
      var left: nat, right: nat := 0, count - 1;
      while left < right
        invariant left <= right < count && Valid()
        invariant built && left > 0 ==>
            layout.restarts[left] < |layout.rows| && lt(layout.rows[layout.restarts[left]].key, target)
      {
        hide Laid, StrictTotal, RowsAscend;
        var mid := (left + right + 1) / 2;
        var midKey := RestartKeyAt(mid);
        if midKey.None? {
          CorruptionError();
          return;
        }
        if lt(midKey.value, target) {
          left := mid;
        } else {
          right := mid - 1;
        }
      }
      SeekToRestartPoint(left);
      ScanFrom(target, if built then layout.restarts[left] else 0);
    }

    // The linear part of Seek.
    method ScanFrom(target: Bytes, ghost start: nat)
      requires Shaped() && restartIndex < count && (built ==> Ready(start))
      requires built ==> forall j :: 0 <= j < start && j < |layout.rows| ==> lt(layout.rows[j].key, target)
      modifies this
      ensures Valid() && (built ==> IsLowerBound(lt, layout.rows, target, pos))
    {
      hide Laid, RowsAscend, StrictTotal, EntriesLaid, KeepsPrefix, EntryAt, RestartPoint;
      ghost var i: nat := start;
      while true
        invariant Shaped() && restartIndex < count && (built ==> Ready(i))
        invariant built ==> forall j :: 0 <= j < i ==> lt(layout.rows[j].key, target)
        decreases limit - valueEnd
      {
        var ok := ParseNextKey(i);
        if !ok {
          return;
        }
        assert built ==> key == layout.rows[i].key;
        if !lt(key, target) {
          return;
        }
        if built {
          NextIsReady();
        }
        i := i + 1;
      }
    }
  }

  // ----- from the builder to the reader -----

  // Block::NewIterator on the bytes the builder finished with.
  method OpenBuilt(builder: BlockBuilder, lt: Order) returns (it: BlockIter)
    requires builder.Valid() && |builder.restarts| < TWO_32 && StrictTotal(lt) && RowsAscend(lt, builder.layout.rows)
    ensures it.Valid() && fresh(it) && it.built && it.layout == builder.layout && it.lt == lt
  {
    var data := builder.Finish();
    var handle := OpenBlock(data);
    it := new BlockIter(lt, data, handle.value.0, handle.value.1, builder.layout, true);
  }

  // Block::NewIterator on any bytes; `built` says that they are a block of `rows`.
  method NewIterator(data: Bytes, lt: Order, ghost rows: seq<Row>, ghost built: bool) returns (it: BlockIter?)
    requires built ==> IsBlock(data, rows) && StrictTotal(lt) && RowsAscend(lt, rows)
    ensures it != null ==>
              fresh(it) && it.Valid() && it.lt == lt && it.built == built && (built ==> it.layout.rows == rows)
    ensures built ==> it != null
  {
    hide StrictTotal, RowsAscend;
    var o := OpenBlock(data);
    if o.None? || o.value.1 == 0 {
      return null;
    }
    ghost var layout :| built ==> Laid(data, o.value.0, o.value.1, layout) && layout.rows == rows;
    hide Laid, OpenBlock, IsBlock;
    it := new BlockIter(lt, data, o.value.0, o.value.1, layout, built);
  }

  // A scan of the finished block shows the rows that were added, in order.
  method ReadBack(builder: BlockBuilder, lt: Order) returns (rows: seq<Row>)
    requires builder.Valid() && |builder.restarts| < TWO_32 && StrictTotal(lt) && RowsAscend(lt, builder.layout.rows)
    ensures rows == builder.layout.rows
  {
    hide *;
    var it := OpenBuilt(builder, lt);
    it.SeekToFirst();
    it.ShowsRow();
    rows := [];
    while it.Positioned()
      invariant it.Valid() && it.built && it.layout == builder.layout && fresh(it)
      invariant it.pos <= |it.layout.rows| && rows == it.layout.rows[..it.pos]
      invariant it.Positioned() <==> it.pos < |it.layout.rows|
      decreases |it.layout.rows| - it.pos
    {
      it.ShowsRow();
      rows := rows + [Row(it.CurrentKey(), it.CurrentValue())];
      it.Next();
      it.ShowsRow();
    }
  }

  // A search in the finished block finds the first row at or after the target.
  method SeekBuilt(builder: BlockBuilder, lt: Order, target: Bytes) returns (r: Option<Row>)
    requires builder.Valid() && |builder.restarts| < TWO_32 && StrictTotal(lt) && RowsAscend(lt, builder.layout.rows)
    ensures match r
            case Some(row) =>
              exists i: nat ::
                && IsLowerBound(lt, builder.layout.rows, target, i)
                && i < |builder.layout.rows| && builder.layout.rows[i] == row
            case None => IsLowerBound(lt, builder.layout.rows, target, |builder.layout.rows|)
  {
    hide *;
    var it := OpenBuilt(builder, lt);
    it.Seek(target);
    it.ShowsRow();
    if it.Positioned() {
      return Some(Row(it.CurrentKey(), it.CurrentValue()));
    }
    return None;
  }

  // ----- facts about layouts -----

  lemma RowStarts(data: Bytes, limit: nat, layout: Layout, i: nat)
    requires EntriesLaid(data, limit, layout) && i <= |layout.rows|
    ensures layout.at[i] < limit <==> i < |layout.rows|
    ensures layout.at[i] <= limit
  {
    OffsetsAscend(data, limit, layout, i, |layout.rows|);
  }

  lemma LaidHasEntries(data: Bytes, limit: nat, count: nat, layout: Layout)
    requires limit + 4 * count <= |data| && Laid(data, limit, count, layout)
    ensures EntriesLaid(data, limit, layout)
  {
  }

  lemma EntryDecodesAt(data: Bytes, limit: nat, layout: Layout, i: nat)
    requires EntriesLaid(data, limit, layout) && i < |layout.rows|
    ensures layout.at[i] < limit && DecodeAt(data, layout.at[i], limit).Some?
    ensures var d, row := DecodeAt(data, layout.at[i], limit).value, layout.rows[i];
            && d.shared == layout.shared[i] <= |row.key| && d.nonShared == |row.key| - layout.shared[i]
            && d.valueLength == |row.value|
            && layout.at[i] + d.header + d.nonShared + d.valueLength == layout.at[i + 1] <= limit
  {
    OffsetsAscend(data, limit, layout, i + 1, |layout.rows|);
    assert EntryAt(data, layout, i);
    hide DecodeEntry, EntryBytes;
    EntryDecodes(data, limit, layout, i);
  }

  lemma KeyIsWhole(data: Bytes, limit: nat, layout: Layout, i: nat, p: nat, n: nat)
    requires EntriesLaid(data, limit, layout) && i < |layout.rows|
    requires var d := DecodeAt(data, layout.at[i], limit);
             d.Some? && p == layout.at[i] + d.value.header && n == d.value.nonShared && p + n <= limit
    ensures layout.shared[i] <= |layout.rows[i].key|
    ensures layout.rows[i].key[..layout.shared[i]] + data[p..p + n] == layout.rows[i].key
  {
    hide DecodeEntry, EntryBytes;
    EntryDecodes(data, limit, layout, i);
    assert SharesPrefix(layout.rows, i, layout.shared[i]) by {
      assert EntryAt(data, layout, i);
    }
    hide EntriesLaid, EntryAt;
    var from, h := layout.at[i], p - layout.at[i];
    SliceOfSlice(data, from, limit, h, h + n);
  }

  lemma RestartKey(data: Bytes, limit: nat, layout: Layout, i: nat, key: Bytes, p: nat)
    requires EntriesLaid(data, limit, layout) && i < |layout.rows| && layout.shared[i] == 0
    requires var d := DecodeAt(data, layout.at[i], limit);
             d.Some? && p == layout.at[i] + d.value.header && p + d.value.nonShared <= limit
                 && key == data[p..p + d.value.nonShared]
    ensures key == layout.rows[i].key
  {
    KeyIsWhole(data, limit, layout, i, p, |key|);
  }

  // With row `i` parsed, the scan has reached the row before `from` or must go on.
  lemma StrictlyBefore(data: Bytes, limit: nat, layout: Layout, i: nat, from: nat)
    requires EntriesLaid(data, limit, layout) && i < from < |layout.rows|
    ensures layout.at[i] < limit && layout.at[i + 1] <= layout.at[from] < limit
    ensures layout.at[i + 1] < layout.at[from] <==> i + 1 < from
    ensures KeepsPrefix(layout.rows[i].key, layout.rows[i + 1].key, layout.shared[i + 1])
  {
    OffsetsAscend(data, limit, layout, i, i + 1);
    OffsetsAscend(data, limit, layout, i + 1, from);
    OffsetsAscend(data, limit, layout, from, |layout.rows|);
    SharedFits(data, limit, layout, i);
  }

  // Restart offsets compare as the rows they stand for.
  lemma RestartBefore(data: Bytes, limit: nat, count: nat, layout: Layout, j: nat, i: nat)
    requires limit + 4 * count <= |data| && Laid(data, limit, count, layout) && j < count && i < |layout.rows|
    ensures RestartPoint(data, limit, j) < layout.at[i] <==> layout.restarts[j] < i
  {
    var r := layout.restarts[j];
    if r < i {
      OffsetsAscend(data, limit, layout, r, i);
    } else {
      OffsetsAscend(data, limit, layout, i, r);
    }
  }

  // The next key shares no more than the current key has.
  lemma SharedFits(data: Bytes, limit: nat, layout: Layout, i: nat)
    requires EntriesLaid(data, limit, layout) && i < |layout.rows|
    ensures i + 1 < |layout.rows| ==> KeepsPrefix(layout.rows[i].key, layout.rows[i + 1].key, layout.shared[i + 1])
  {
    if i + 1 < |layout.rows| {
      assert EntryAt(data, layout, i + 1);
    }
  }
}

/** A table file, byte for byte: data blocks, an index of separators, a filter block and a footer, and
    the lookup that opens one block only (table/table_builder.cc, table/table.cc). */
module Tables {
  import opened Wrappers
  import opened Coding
  import opened BloomFilters
  import FilterBlocks
  import opened ByteKeys
  import Blocks
  import opened TableFormat

  datatype Row = Row(key: InternalKey, value: Bytes)

  ghost predicate Ascending(rows: seq<Row>) {
    forall i, j :: 0 <= i < j < |rows| ==> KeyLess(rows[i].key, rows[j].key)
  }

  // One data block with its place in the file.
  datatype Block = Block(handle: Handle, rows: seq<Row>)

  // What a table file says: the i-th separator leads to the i-th block.
  datatype Table = Table(blocks: seq<Block>, separators: seq<InternalKey>, filter: Option<Bytes>)

  function Rows(blocks: seq<Block>): seq<Row> {
    if blocks == [] then [] else Rows(blocks[..|blocks| - 1]) + blocks[|blocks| - 1].rows
  }

  // At or after every key of a block, and before every row of the next user key on: a separator is
  // the last key of its block, or its user key lies strictly between the neighbours'.
  ghost predicate Separates(last: InternalKey, separator: InternalKey, next: InternalKey) {
    separator == last || (Less(last.ukey, separator.ukey) && Less(separator.ukey, next.ukey))
  }

  ghost predicate SeparatedFrom(blocks: seq<Block>, separators: seq<InternalKey>, i: nat, next: seq<Row>)
    requires i < |blocks| && i < |separators| && blocks[i].rows != []
  {
    var last := blocks[i].rows[|blocks[i].rows| - 1].key;
    if i + 1 < |blocks| then blocks[i + 1].rows != [] && Separates(last, separators[i], blocks[i + 1].rows[0].key)
    else if next != [] then Separates(last, separators[i], next[0].key)
    else separators[i] == last || Less(last.ukey, separators[i].ukey)
  }

  ghost predicate BlocksFull(blocks: seq<Block>) {
    forall i :: 0 <= i < |blocks| ==> blocks[i].rows != []
  }

  // The index covers the first blocks; `next` are rows not in a block yet.
  ghost predicate Indexed(blocks: seq<Block>, separators: seq<InternalKey>, next: seq<Row>) {
    && BlocksFull(blocks) && |separators| <= |blocks|
    && forall i :: 0 <= i < |separators| ==> SeparatedFrom(blocks, separators, i, next)
  }

  ghost predicate FilterAllows(hash: Hash, blocks: seq<Block>, filter: Bytes) {
    forall i, row :: 0 <= i < |blocks| && row in blocks[i].rows ==>
        FilterBlocks.KeyAllowed(hash, filter, blocks[i].handle.offset, row.key.ukey)
  }

  // A finished table holding `rows`.
  ghost predicate Holds(hash: Hash, t: Table, rows: seq<Row>) {
    && Ascending(rows) && Rows(t.blocks) == rows
    && Indexed(t.blocks, t.separators, []) && |t.separators| == |t.blocks|
    && (t.filter.Some? ==> FilterAllows(hash, t.blocks, t.filter.value))
  }

  // ----- a table as bytes -----

  // Keys whose trailers are 64-bit numbers.
  ghost predicate KeysFit(rows: seq<Row>, separators: seq<InternalKey>) {
    && (forall row :: row in rows ==> row.key.trailer < TWO_64)
    && (forall i :: 0 <= i < |separators| ==> separators[i].trailer < TWO_64)
  }

  function EncodeRow(row: Row): Blocks.Row {
    Blocks.Row(EncodeKey(row.key), row.value)
  }

  function DataRows(rows: seq<Row>): seq<Blocks.Row> {
    seq(|rows|, i requires 0 <= i < |rows| => EncodeRow(rows[i]))
  }

  function IndexRow(separator: InternalKey, b: Block): Blocks.Row {
    Blocks.Row(EncodeKey(separator), EncodeHandle(b.handle))
  }

  function IndexRows(blocks: seq<Block>, separators: seq<InternalKey>): seq<Blocks.Row>
    requires |separators| <= |blocks|
  {
    seq(|separators|, i requires 0 <= i < |separators| => IndexRow(separators[i], blocks[i]))
  }

  // Reading at the handle gives a block of these rows.
  ghost predicate Stored(c: Codec, file: Bytes, h: Handle, rows: seq<Blocks.Row>) {
    ReadBlock(c, file, h).Some? && Blocks.IsBlock(ReadBlock(c, file, h).value, rows)
  }

  ghost predicate BlocksStored(c: Codec, file: Bytes, blocks: seq<Block>) {
    forall i :: 0 <= i < |blocks| ==> Stored(c, file, blocks[i].handle, DataRows(blocks[i].rows))
  }

  lemma BlocksStayStored(c: Codec, file: Bytes, file': Bytes, blocks: seq<Block>)
    requires BlocksStored(c, file, blocks) && file <= file'
    ensures BlocksStored(c, file', blocks)
  {
    hide Stored, DataRows;
    forall i | 0 <= i < |blocks| ensures Stored(c, file', blocks[i].handle, DataRows(blocks[i].rows)) {
      StaysStored(c, file, file', blocks[i].handle, DataRows(blocks[i].rows));
    }
  }

  lemma OneMoreStored(c: Codec, before: Bytes, file: Bytes, blocks: seq<Block>, b: Block)
    requires BlocksStored(c, before, blocks) && before <= file && Stored(c, file, b.handle, DataRows(b.rows))
    ensures BlocksStored(c, file, blocks + [b])
  {
    BlocksStayStored(c, before, file, blocks);
    hide Stored, DataRows;
  }

  lemma IndexRowsStay(blocks: seq<Block>, b: Block, separators: seq<InternalKey>)
    requires |separators| <= |blocks|
    ensures IndexRows(blocks + [b], separators) == IndexRows(blocks, separators)
  {
  }

  lemma IndexRowsGrow(blocks: seq<Block>, separators: seq<InternalKey>, separator: InternalKey)
    requires |separators| < |blocks|
    ensures IndexRows(blocks, separators + [separator]) ==
              IndexRows(blocks, separators) + [IndexRow(separator, blocks[|separators|])]
  {
  }

  lemma DataRowsGrow(rows: seq<Row>, row: Row)
    ensures DataRows(rows + [row]) == DataRows(rows) + [EncodeRow(row)]
  {
  }

  // "filter." and the policy's name.
  function FilterKey(policy: Bytes): Bytes {
    [102, 105, 108, 116, 101, 114, 46] + policy
  }

  // The metaindex block has one entry if there is a filter.
  ghost predicate MetaStored(c: Codec, policy: Bytes, file: Bytes, meta: Handle, filter: Option<Bytes>) {
    match filter
    case None => Stored(c, file, meta, [])
    case Some(contents) =>
      exists h: Handle ::
        && Stored(c, file, meta, [Blocks.Row(FilterKey(policy), EncodeHandle(h))])
        && ReadBlock(c, file, h) == Some(contents)
  }

  ghost predicate FooterLeadsTo(file: Bytes, meta: Handle, index: Handle) {
    |file| >= FOOTER && DecodeFooter(file[|file| - FOOTER..]) == Some((meta, index))
  }

  lemma StaysStored(c: Codec, file: Bytes, file': Bytes, h: Handle, rows: seq<Blocks.Row>)
    requires Stored(c, file, h, rows) && file <= file'
    ensures Stored(c, file', h, rows)
  {
    hide ReadBlock, Blocks.IsBlock;
    assert file' == file + file'[|file|..];
    ReadStays(c, file, file'[|file|..], h);
  }

  lemma MetaStaysStored(c: Codec, policy: Bytes, file: Bytes, file': Bytes, meta: Handle, filter: Option<Bytes>)
    requires MetaStored(c, policy, file, meta, filter) && file <= file'
    ensures MetaStored(c, policy, file', meta, filter)
  {
    hide ReadBlock, Stored;
    match filter
    case None => StaysStored(c, file, file', meta, []);
    case Some(contents) =>
      var h: Handle :| Stored(c, file, meta, [Blocks.Row(FilterKey(policy), EncodeHandle(h))])
                       && ReadBlock(c, file, h) == Some(contents);
      StaysStored(c, file, file', meta, [Blocks.Row(FilterKey(policy), EncodeHandle(h))]);
      assert file' == file + file'[|file|..];
      ReadStays(c, file, file'[|file|..], h);
  }

  lemma MetaFinished(c: Codec, policy: Bytes, before: Bytes, file: Bytes, h: Handle, contents: Bytes, meta: Handle)
    requires ReadBlock(c, before, h) == Some(contents) && before <= file
    requires Stored(c, file, meta, [Blocks.Row(FilterKey(policy), EncodeHandle(h))])
    ensures MetaStored(c, policy, file, meta, Some(contents))
  {
    hide ReadBlock, Stored;
    assert file == before + file[|before|..];
    ReadStays(c, before, file[|before|..], h);
  }

  lemma StoredFits(c: Codec, file: Bytes, h: Handle)
    requires ReadBlock(c, file, h).Some? && |file| < TWO_64
    ensures HandleFits(h)
  {
  }

  // The file holds the table.
  ghost predicate IsFileOf(c: Codec, policy: Bytes, file: Bytes, t: Table) {
    && |t.separators| == |t.blocks| && KeysFit(Rows(t.blocks), t.separators) && BlocksStored(c, file, t.blocks)
    && exists meta, index ::
         && FooterLeadsTo(file, meta, index)
         && Stored(c, file, index, IndexRows(t.blocks, t.separators))
         && MetaStored(c, policy, file, meta, t.filter)
  }

  lemma FileFinished(c: Codec, policy: Bytes, file: Bytes, t: Table, meta: Handle, index: Handle)
    requires |t.separators| == |t.blocks| && KeysFit(Rows(t.blocks), t.separators) && BlocksStored(c, file, t.blocks)
    requires Stored(c, file, index, IndexRows(t.blocks, t.separators)) && MetaStored(c, policy, file, meta, t.filter)
    requires |file| < TWO_64
    ensures IsFileOf(c, policy, file + EncodeFooter(meta, index), t)
  {
    var footer := EncodeFooter(meta, index);
    var file' := file + footer;
    BlocksStayStored(c, file, file', t.blocks);
    StaysStored(c, file, file', index, IndexRows(t.blocks, t.separators));
    MetaStaysStored(c, policy, file, file', meta, t.filter);
    MetaIsStored(c, policy, file, meta, t.filter);
    StoredFits(c, file, meta);
    StoredFits(c, file, index);
    FooterRoundTrip(meta, index);
    hide ReadBlock, BlocksStored, KeysFit, IndexRows, Rows, MetaStored, DecodeFooter, EncodeFooter, Blocks.IsBlock;
    assert file'[|file'| - FOOTER..] == footer;
    assert FooterLeadsTo(file', meta, index);
  }

  lemma MetaIsStored(c: Codec, policy: Bytes, file: Bytes, meta: Handle, filter: Option<Bytes>)
    requires MetaStored(c, policy, file, meta, filter)
    ensures ReadBlock(c, file, meta).Some?
  {
    hide ReadBlock;
  }

  // ----- building -----

  lemma RowsGrow(blocks: seq<Block>, b: Block)
    ensures Rows(blocks + [b]) == Rows(blocks) + b.rows
  {
    assert (blocks + [b])[..|blocks|] == blocks;
  }

  lemma AscendingGrows(rows: seq<Row>, row: Row)
    requires Ascending(rows) && (rows != [] ==> KeyLess(rows[|rows| - 1].key, row.key))
    ensures Ascending(rows + [row])
  {
    forall i | 0 <= i < |rows| ensures KeyLess(rows[i].key, row.key) {
      if i < |rows| - 1 {
        KeyLessIsTransitive(rows[i].key, rows[|rows| - 1].key, row.key);
      }
    }
  }

  // Closing a data block changes no separation.
  lemma StillIndexed(blocks: seq<Block>, separators: seq<InternalKey>, b: Block)
    requires Indexed(blocks, separators, b.rows) && b.rows != []
    ensures Indexed(blocks + [b], separators, [])
  {
    var blocks' := blocks + [b];
    forall i | 0 <= i < |separators| ensures SeparatedFrom(blocks', separators, i, []) {
      assert SeparatedFrom(blocks, separators, i, b.rows);
    }
  }

  // A row behind an open data block changes none either.
  lemma IndexedWithMore(blocks: seq<Block>, separators: seq<InternalKey>, next: seq<Row>, row: Row)
    requires Indexed(blocks, separators, next) && (|separators| == |blocks| > 0 ==> next != [])
    ensures Indexed(blocks, separators, next + [row])
  {
    forall i | 0 <= i < |separators| ensures SeparatedFrom(blocks, separators, i, next + [row]) {
      assert SeparatedFrom(blocks, separators, i, next);
    }
  }

  // The entry for the last block, once the next row is known, or known not to come.
  lemma IndexedByOneMore(blocks: seq<Block>, separators: seq<InternalKey>, separator: InternalKey, next: seq<Row>)
    requires Indexed(blocks, separators, []) && |separators| + 1 == |blocks|
    requires var rows := blocks[|blocks| - 1].rows;
             var last := rows[|rows| - 1].key;
             if next != [] then Separates(last, separator, next[0].key)
             else separator == last || Less(last.ukey, separator.ukey)
    ensures Indexed(blocks, separators + [separator], next)
  {
    forall i | 0 <= i < |separators| + 1 ensures SeparatedFrom(blocks, separators + [separator], i, next) {
      if i < |separators| {
        assert SeparatedFrom(blocks, separators, i, []);
      }
    }
  }

  lemma LastOfLastBlock(blocks: seq<Block>)
    requires BlocksFull(blocks) && blocks != []
    ensures var rows := blocks[|blocks| - 1].rows;
            Rows(blocks) != [] && Rows(blocks)[|Rows(blocks)| - 1] == rows[|rows| - 1]
  {
  }

  // The state of a builder: rows written to blocks, rows of the open block, and an index entry for
  // every block but, if one is pending, the last.
  ghost predicate Built(blocks: seq<Block>, separators: seq<InternalKey>, dataBlock: seq<Row>, lastKey: InternalKey,
                        pending: bool)
  {
    var all := Rows(blocks) + dataBlock;
    && Ascending(all) && Indexed(blocks, separators, dataBlock)
    && (if pending then |separators| + 1 == |blocks| && dataBlock == []
        else |separators| == |blocks| && (blocks != [] ==> dataBlock != []))
    && (all != [] ==> lastKey == all[|all| - 1].key)
  }

  // The index grows by the entry of the block before, if one is due; the open block by the row.
  lemma {:induction false} RowAdded(blocks: seq<Block>, separators: seq<InternalKey>, dataBlock: seq<Row>,
                                    lastKey: InternalKey, pending: bool, separator: InternalKey, row: Row)
    requires Built(blocks, separators, dataBlock, lastKey, pending)
    requires pending ==> Separates(lastKey, separator, row.key)
    requires var all := Rows(blocks) + dataBlock; all != [] ==> KeyLess(all[|all| - 1].key, row.key)
    ensures var separators' := if pending then separators + [separator] else separators;
            Built(blocks, separators', dataBlock + [row], row.key, false)
  {
    var all := Rows(blocks) + dataBlock;
    AscendingGrows(all, row);
    assert Rows(blocks) + (dataBlock + [row]) == all + [row];
    if pending {
      LastOfLastBlock(blocks);
      assert Rows(blocks) + [] == Rows(blocks);
      IndexedByOneMore(blocks, separators, separator, [row]);
      assert [] + [row] == [row];
    } else {
      IndexedWithMore(blocks, separators, dataBlock, row);
    }
    hide Ascending, Indexed, Rows;
  }

  lemma {:induction false} LastAdded(blocks: seq<Block>, separators: seq<InternalKey>, dataBlock: seq<Row>,
                                     lastKey: InternalKey, pending: bool)
    requires Built(blocks, separators, dataBlock, lastKey, pending)
    ensures var all := Rows(blocks) + dataBlock; if all != [] then lastKey == all[|all| - 1].key else !pending
  {
    if pending {
      LastOfLastBlock(blocks);
    }
  }

  lemma PendingIsLast(blocks: seq<Block>, separators: seq<InternalKey>, open: seq<Row>, lastKey: InternalKey)
    requires Built(blocks, separators, open, lastKey, true)
    ensures open == [] && |separators| + 1 == |blocks|
  {
  }

  lemma NoBlockOpen(blocks: seq<Block>, separators: seq<InternalKey>, lastKey: InternalKey, pending: bool)
    requires Built(blocks, separators, [], lastKey, pending)
    ensures blocks != [] ==> pending
  {
  }

  lemma BlocksHold(blocks: seq<Block>, separators: seq<InternalKey>, lastKey: InternalKey, pending: bool)
    requires Built(blocks, separators, [], lastKey, pending)
    ensures Ascending(Rows(blocks)) && Indexed(blocks, separators, [])
    ensures |blocks| == |separators| + if pending then 1 else 0
    ensures pending ==> var rows := blocks[|blocks| - 1].rows; rows != [] && lastKey == rows[|rows| - 1].key
  {
    assert Rows(blocks) + [] == Rows(blocks);
    if pending {
      LastOfLastBlock(blocks);
    }
  }

  lemma {:induction false} BlockClosed(blocks: seq<Block>, separators: seq<InternalKey>, dataBlock: seq<Row>,
                                       lastKey: InternalKey, pending: bool, b: Block)
    requires Built(blocks, separators, dataBlock, lastKey, pending) && dataBlock != [] && b.rows == dataBlock
    ensures Built(blocks + [b], separators, [], lastKey, true)
    ensures Rows(blocks + [b]) + [] == Rows(blocks) + dataBlock
  {
    RowsGrow(blocks, b);
    StillIndexed(blocks, separators, b);
    hide Ascending, Indexed, Rows;
  }

  // The bytes written and the rows in the block builders are those of the table under way.
  ghost predicate Recorded(c: Codec, file: Bytes, blocks: seq<Block>, open: seq<Row>, separators: seq<InternalKey>,
                           lastKey: InternalKey, pending: bool, handle: Handle, dataRows: seq<Blocks.Row>,
                           indexRows: seq<Blocks.Row>)
  {
    && BlocksStored(c, file, blocks) && dataRows == DataRows(open)
    && |separators| <= |blocks| && indexRows == IndexRows(blocks, separators)
    && (pending ==> blocks != [] && handle == blocks[|blocks| - 1].handle)
    && KeysFit(Rows(blocks) + open, separators) && lastKey.trailer < TWO_64 && |lastKey.ukey| + 8 < TWO_32
  }

  lemma BlockRecorded(c: Codec, file: Bytes, blocks: seq<Block>, open: seq<Row>, separators: seq<InternalKey>,
                      lastKey: InternalKey, pending: bool, handle: Handle, dataRows: seq<Blocks.Row>,
                      indexRows: seq<Blocks.Row>, file': Bytes, h: Handle)
    requires Recorded(c, file, blocks, open, separators, lastKey, pending, handle, dataRows, indexRows)
    requires file <= file' && Stored(c, file', h, dataRows)
    ensures Recorded(c, file', blocks + [Block(h, open)], [], separators, lastKey, true, h, [], indexRows)
  {
    hide Stored;
    OneMoreStored(c, file, file', blocks, Block(h, open));
    IndexRowsStay(blocks, Block(h, open), separators);
    RowsGrow(blocks, Block(h, open));
    hide BlocksStored, IndexRows, Rows;
    assert Rows(blocks + [Block(h, open)]) + [] == Rows(blocks) + open;
  }

  lemma EntryRecorded(c: Codec, file: Bytes, blocks: seq<Block>, open: seq<Row>, separators: seq<InternalKey>,
                      lastKey: InternalKey, handle: Handle, dataRows: seq<Blocks.Row>, indexRows: seq<Blocks.Row>,
                      separator: InternalKey)
    requires Recorded(c, file, blocks, open, separators, lastKey, true, handle, dataRows, indexRows)
    requires |separators| + 1 == |blocks| && separator.trailer < TWO_64 && |separator.ukey| + 8 < TWO_32
    ensures Recorded(c, file, blocks, open, separators + [separator], separator, false, handle, dataRows,
                     indexRows + [Blocks.Row(EncodeKey(separator), EncodeHandle(handle))])
  {
    IndexRowsGrow(blocks, separators, separator);
    hide BlocksStored, IndexRows, Rows, DataRows;
  }

  lemma RowRecorded(c: Codec, file: Bytes, blocks: seq<Block>, open: seq<Row>, separators: seq<InternalKey>,
                    lastKey: InternalKey, handle: Handle, dataRows: seq<Blocks.Row>, indexRows: seq<Blocks.Row>,
                    row: Row)
    requires Recorded(c, file, blocks, open, separators, lastKey, false, handle, dataRows, indexRows)
    requires row.key.trailer < TWO_64 && |row.key.ukey| + 8 < TWO_32
    ensures Recorded(c, file, blocks, open + [row], separators, row.key, false, handle, dataRows + [EncodeRow(row)],
                     indexRows)
  {
    DataRowsGrow(open, row);
    hide BlocksStored, IndexRows, Rows, DataRows, EncodeRow;
    assert Rows(blocks) + (open + [row]) == Rows(blocks) + open + [row];
  }

  lemma RecordedEmpty(c: Codec, file: Bytes, blocks: seq<Block>, open: seq<Row>, separators: seq<InternalKey>,
                      lastKey: InternalKey, pending: bool, handle: Handle, dataRows: seq<Blocks.Row>,
                      indexRows: seq<Blocks.Row>)
    requires Recorded(c, file, blocks, open, separators, lastKey, pending, handle, dataRows, indexRows)
    ensures open == [] <==> dataRows == []
    ensures lastKey.trailer < TWO_64 && |lastKey.ukey| + 8 < TWO_32
  {
    hide BlocksStored, IndexRows, Rows, KeysFit;
    assert |dataRows| == |open|;
  }

  lemma RecordedLonger(c: Codec, file: Bytes, blocks: seq<Block>, open: seq<Row>, separators: seq<InternalKey>,
                       lastKey: InternalKey, pending: bool, handle: Handle, dataRows: seq<Blocks.Row>,
                       indexRows: seq<Blocks.Row>, file': Bytes)
    requires Recorded(c, file, blocks, open, separators, lastKey, pending, handle, dataRows, indexRows)
    requires file <= file'
    ensures Recorded(c, file', blocks, open, separators, lastKey, pending, handle, dataRows, indexRows)
  {
    BlocksStayStored(c, file, file', blocks);
    hide BlocksStored, IndexRows, Rows, KeysFit;
  }

  lemma NothingBuilt(c: Codec, lastKey: InternalKey, handle: Handle)
    requires lastKey == InternalKey([], 0)
    ensures Built([], [], [], lastKey, false) && Rows([]) + [] == []
    ensures Recorded(c, [], [], [], [], lastKey, false, handle, [], [])
  {
  }

  class TableBuilder {
    const codec: Codec
    const hash: Hash
    const policy: Bytes     // name of the filter policy
    const blockSize: nat
    const interval: nat
    var file: Bytes
    var offset: nat
    const dataBlock: Blocks.BlockBuilder
    const indexBlock: Blocks.BlockBuilder
    const filter: FilterBlocks.FilterBlockBuilder?
    var lastKey: InternalKey
    var pendingIndexEntry: bool
    var pendingHandle: Handle
    ghost var open: seq<Row>               // rows of the data block under way
    ghost var blocks: seq<Block>           // written so far
    ghost var separators: seq<InternalKey> // of the index block

    ghost function All(): seq<Row>
      reads this
    {
      Rows(blocks) + open
    }

    ghost predicate Valid()
      reads this, filter, dataBlock, indexBlock
    {
      && Built(blocks, separators, open, lastKey, pendingIndexEntry)
      && FilterValid() && BytesValid()
      && (open != [] ==> dataBlock.CurrentSizeEstimate() < blockSize)
    }

    // The bytes written, and those in the block builders, are those of the rows.
    ghost predicate BytesValid()
      reads this, dataBlock, indexBlock
    {
      && Lossless(codec) && interval >= 1 && |policy| < TWO_32 - 7 && blockSize < TWO_32
      && dataBlock != indexBlock && dataBlock.Valid() && indexBlock.Valid() && offset == |file|
      && Recorded(codec, file, blocks, open, separators, lastKey, pendingIndexEntry, pendingHandle,
                  dataBlock.layout.rows, indexBlock.layout.rows)
    }

    // The index block has room for another entry.
    predicate RoomInIndex()
      reads this, indexBlock
    {
      indexBlock.CurrentSizeEstimate() < TWO_32
    }

    ghost predicate FilterValid()
      reads this`blocks, this`open, this`offset, filter
    {
      filter != null ==> filter.Valid() && filter.hash == hash && FilterCovers()
    }

    // Every row's user key is in the filter of its block's offset.
    ghost predicate FilterCovers()
      requires filter != null
      reads this`blocks, this`open, this`offset, filter
    {
      && (forall i, row :: 0 <= i < |blocks| && row in blocks[i].rows ==>
            filter.Holds(FilterBlocks.FilterIndex(blocks[i].handle.offset), row.key.ukey))
      && (forall row :: row in open ==> filter.Holds(FilterBlocks.FilterIndex(offset), row.key.ukey))
      && |filter.offsets| == FilterBlocks.FilterIndex(offset)
    }

    constructor (codec: Codec, hash: Hash, policy: Bytes, useFilter: bool, bitsPerKey: nat, k: nat, blockSize: nat,
                 interval: nat)
      requires Lossless(codec) && |policy| < TWO_32 - 7 && 1 <= k <= 30 && blockSize < TWO_32 && interval >= 1
      ensures Valid() && All() == [] && file == [] && this.codec == codec && this.hash == hash && this.policy == policy
      ensures fresh(dataBlock) && fresh(indexBlock) && (filter != null ==> fresh(filter))
    {
      this.codec, this.hash, this.policy, this.blockSize, this.interval := codec, hash, policy, blockSize, interval;
      file, offset, open, blocks, separators, pendingIndexEntry := [], 0, [], [], [], false;
      lastKey, pendingHandle := InternalKey([], 0), Handle(0, 0);
      dataBlock := new Blocks.BlockBuilder(interval);
      indexBlock := new Blocks.BlockBuilder(1);
      if useFilter {
        filter := new FilterBlocks.FilterBlockBuilder(hash, bitsPerKey, k);
      } else {
        filter := null;
      }
      new;
      NothingBuilt(codec, lastKey, pendingHandle);
      hide Built, Recorded, Rows, Lossless, FilterBlocks.FiltersOk;
      assert FilterValid();
    }

    // WriteRawBlock: the contents sealed with type and checksum.
    method WriteRawBlock(contents: Bytes, kind: Byte) returns (h: Handle)
      requires offset == |file|
      modifies this`file, this`offset
      ensures h == Handle(|old(file)|, |contents|) && offset == |file|
      ensures file == old(file) + Sealed(codec, kind, contents)
    {
      h := Handle(offset, |contents|);
      file := file + Sealed(codec, kind, contents);
      offset := offset + |contents| + TRAILER;
    }

    // WriteBlock: finish the block, compress it if that pays, write it, start over.
    method WriteBlock(block: Blocks.BlockBuilder) returns (h: Handle)
      requires block.Valid() && |block.restarts| < TWO_32 && offset == |file| && Lossless(codec)
      modifies this`file, this`offset, block
      ensures block.Valid() && block.layout.rows == [] && offset == |file| && old(file) <= file
      ensures h.offset == |old(file)| && Stored(codec, file, h, old(block.layout.rows))
    {
      hide Blocks.IsBlock, Lossless, ReadBlock, Unpacked;
      var raw := block.Finish();
      var packed := Packed(codec, raw);
      PackedUnpacks(codec, raw);
      SealedReadsBack(codec, file, packed.0, packed.1);
      h := WriteRawBlock(packed.1, packed.0);
      block.Reset();
    }

    method Flush()
      requires Built(blocks, separators, open, lastKey, pendingIndexEntry) && FilterValid() && BytesValid()
      requires |dataBlock.restarts| < TWO_32
      modifies this`file, this`offset, this`open, this`blocks, this`pendingIndexEntry, this`pendingHandle
      modifies filter, dataBlock
      ensures Valid() && All() == old(All()) && open == [] && (blocks != [] ==> pendingIndexEntry)
      ensures old(file) <= file && if old(open) == [] then blocks == old(blocks) else Closed(old(blocks), old(open))
    {
      hide Built, Rows, Recorded, Stored, Lossless, FilterBlocks.FiltersOk, FilterBlocks.FilterIndex;
      dataBlock.EmptyHasNoRows();
      RecordedEmpty(codec, file, blocks, open, separators, lastKey, pendingIndexEntry, pendingHandle,
        dataBlock.layout.rows, indexBlock.layout.rows);
      if dataBlock.Empty() {
        NoBlockOpen(blocks, separators, lastKey, pendingIndexEntry);
        return;
      }
      ghost var before, start, rows := file, offset, dataBlock.layout.rows;
      var h := WriteBlock(dataBlock);
      BlockClosed(blocks, separators, open, lastKey, pendingIndexEntry, Block(h, open));
      BlockRecorded(codec, before, blocks, open, separators, lastKey, pendingIndexEntry, pendingHandle, rows,
        indexBlock.layout.rows, file, h);
      blocks := blocks + [Block(h, open)];
      open := [];
      pendingIndexEntry, pendingHandle := true, h;
      if filter != null {
        FilterBlocks.IndexGrows(start, offset);
        filter.StartBlock(offset);
      }
    }

    // The rows of the open block became the last block written.
    ghost predicate Closed(before: seq<Block>, rows: seq<Row>)
      reads this`blocks
    {
      |blocks| == |before| + 1 && blocks[..|before|] == before && blocks[|before|].rows == rows
    }

    // Enough rows for a block.
    ghost predicate Fills(rows: seq<Row>)
    {
      exists size: nat :: Blocks.TakesUp(DataRows(rows), dataBlock.interval, size) && size >= blockSize
    }

    lemma OpenFills()
      requires BytesValid() && dataBlock.CurrentSizeEstimate() >= blockSize
      ensures Fills(open)
    {
      hide Blocks.TakesUp;
      dataBlock.EstimateIsExact();
    }

    // The index entry of the last block, under a separator.
    method AddIndexEntry(separator: InternalKey)
      requires BytesValid() && RoomInIndex() && pendingIndexEntry && |separators| + 1 == |blocks|
      requires separator.trailer < TWO_64 && |separator.ukey| + 8 < TWO_32
      modifies this`lastKey, this`separators, this`pendingIndexEntry, indexBlock
      ensures BytesValid() && !pendingIndexEntry && lastKey == separator && separators == old(separators) + [separator]
      ensures |indexBlock.restarts| <= old(|indexBlock.restarts|) + 1
    {
      hide Rows, Recorded, Lossless;
      EntryRecorded(codec, file, blocks, open, separators, lastKey, pendingHandle, dataBlock.layout.rows,
        indexBlock.layout.rows, separator);
      indexBlock.Add(EncodeKey(separator), EncodeHandle(pendingHandle));
      lastKey := separator;
      separators := separators + [separator];
      pendingIndexEntry := false;
    }

    // The row itself, and its user key in the filter.
    method AppendRow(row: Row)
      requires Built(blocks, separators, open + [row], row.key, false) && !pendingIndexEntry && FilterValid()
      requires BytesValid() && (open != [] ==> dataBlock.CurrentSizeEstimate() < blockSize)
      requires row.key.trailer < TWO_64 && |row.key.ukey| + 8 < TWO_32 && |row.value| < TWO_32
      modifies this`lastKey, this`open, filter, dataBlock
      ensures Built(blocks, separators, open, lastKey, pendingIndexEntry) && FilterValid() && BytesValid()
      ensures All() == old(All()) + [row] && open == old(open) + [row] && |dataBlock.restarts| < TWO_32
    {
      hide Built, Rows, Recorded, Lossless, FilterBlocks.FiltersOk, FilterBlocks.FilterIndex;
      dataBlock.EmptyHasNoRows();
      RecordedEmpty(codec, file, blocks, open, separators, lastKey, pendingIndexEntry, pendingHandle,
        dataBlock.layout.rows, indexBlock.layout.rows);
      RowRecorded(codec, file, blocks, open, separators, lastKey, pendingHandle, dataBlock.layout.rows,
        indexBlock.layout.rows, row);
      if filter != null {
        filter.AddKey(row.key.ukey);
      }
      lastKey := row.key;
      dataBlock.Add(EncodeKey(row.key), row.value);
      open := open + [row];
      assert Rows(blocks) + open == old(Rows(blocks) + open) + [row];
    }

    // The index entry of the block before, if one is due.
    method FinishIndexEntry(row: Row)
      requires Valid() && RoomInIndex() && (All() != [] ==> KeyLess(All()[|All()| - 1].key, row.key))
      modifies this`lastKey, this`separators, this`pendingIndexEntry, indexBlock
      ensures Built(blocks, separators, open + [row], row.key, false) && !pendingIndexEntry
      ensures FilterValid() && BytesValid()
    {
      hide Built, Rows, Recorded, Lossless, FilterValid, KeyLess, Blocks.BlockBuilder.Valid;
      LastAdded(blocks, separators, open, lastKey, pendingIndexEntry);
      RecordedEmpty(codec, file, blocks, open, separators, lastKey, pendingIndexEntry, pendingHandle,
        dataBlock.layout.rows, indexBlock.layout.rows);
      if pendingIndexEntry {
        PendingIsLast(blocks, separators, open, lastKey);
        var separator := InternalSeparator(lastKey, row.key);
        RowAdded(blocks, separators, open, lastKey, true, separator, row);
        AddIndexEntry(separator);
      } else {
        RowAdded(blocks, separators, open, lastKey, false, lastKey, row);
      }
    }

    // Add; a block large enough is written.
    method Add(key: InternalKey, value: Bytes)
      requires Valid() && RoomInIndex() && (All() != [] ==> KeyLess(All()[|All()| - 1].key, key))
      requires key.trailer < TWO_64 && |key.ukey| + 8 < TWO_32 && |value| < TWO_32
      modifies this, filter, dataBlock, indexBlock
      ensures Valid() && All() == old(All()) + [Row(key, value)]
      ensures var rows := old(open) + [Row(key, value)];
              if open != [] then blocks == old(blocks) && open == rows else Closed(old(blocks), rows) && Fills(rows)
    {
      hide Built, Rows, Recorded, Lossless, FilterValid;
      FinishIndexEntry(Row(key, value));
      AppendRow(Row(key, value));
      if dataBlock.CurrentSizeEstimate() >= blockSize {
        OpenFills();
        Flush();
      }
    }

    // The filter block, and the metaindex block that names it.
    method FinishFilter() returns (meta: Handle, ghost contents: Option<Bytes>)
      requires FilterValid() && Lossless(codec) && offset == |file| && interval >= 1 && |policy| < TWO_32 - 7
      modifies this`file, this`offset, filter
      ensures offset == |file| && old(file) <= file && MetaStored(codec, policy, file, meta, contents)
      ensures contents.Some? <==> filter != null
      ensures contents.Some? && |contents.value| < TWO_32 ==> FilterAllows(hash, blocks, contents.value)
    {
      hide Lossless, ReadBlock, FilterBlocks.FiltersOk, FilterBlocks.FilterIndex, FilterBlocks.KeyAllowed;
      var metaBlock := new Blocks.BlockBuilder(interval);
      metaBlock.EmptyHasNoRows();
      contents := None;
      if filter == null {
        meta := WriteBlock(metaBlock);
      } else {
        var filterBlock := filter.Finish();
        contents := Some(filterBlock);
        SealedReadsBack(codec, file, PLAIN, filterBlock);
        var h := WriteRawBlock(filterBlock, PLAIN);
        ghost var before := file;
        metaBlock.Add(FilterKey(policy), EncodeHandle(h));
        meta := WriteBlock(metaBlock);
        MetaFinished(codec, policy, before, file, h, filterBlock, meta);
      }
    }

    // The index block, complete.
    method FinishIndex() returns (index: Handle)
      requires BytesValid() && RoomInIndex() && pendingIndexEntry == (blocks != [])
      requires |blocks| == |separators| + if pendingIndexEntry then 1 else 0
      modifies this`file, this`offset, this`lastKey, this`separators, this`pendingIndexEntry, indexBlock
      ensures offset == |file| && old(file) <= file && |separators| == |blocks|
      ensures Stored(codec, file, index, IndexRows(blocks, separators)) && BlocksStored(codec, file, blocks)
      ensures KeysFit(Rows(blocks) + open, separators)
      ensures old(pendingIndexEntry) ==>
                separators == old(separators) + [lastKey]
                && (lastKey == old(lastKey) || Less(old(lastKey).ukey, lastKey.ukey))
      ensures !old(pendingIndexEntry) ==> separators == old(separators)
    {
      hide Lossless, Stored, BlocksStored, KeysFit, Rows, IndexRows, DataRows;
      if pendingIndexEntry {
        var separator := InternalSuccessor(lastKey);
        AddIndexEntry(separator);
      }
      ghost var before := file;
      index := WriteBlock(indexBlock);
      BlocksStayStored(codec, before, file, blocks);
    }

    // Finish: filter, metaindex, index, footer. The file holds exactly the rows added.
    method Finish() returns (ghost t: Table)
      requires Valid() && RoomInIndex()
      modifies this, filter, dataBlock, indexBlock
      ensures t.filter.Some? <==> filter != null
      ensures |file| < TWO_64 ==> IsFileOf(codec, policy, file, t)
      ensures (t.filter.Some? ==> |t.filter.value| < TWO_32) ==> Holds(hash, t, old(All()))
    {
      hide FilterAllows, Lossless, Recorded, Stored, BlocksStored, KeysFit, IndexRows, MetaStored, IsFileOf, Built,
          Rows, Holds, Indexed, Ascending, FilterValid, Blocks.BlockBuilder.Valid;
      DataBlockIsSmall();
      Flush();
      BlocksHold(blocks, separators, lastKey, pendingIndexEntry);
      NoneOpen(blocks);
      ghost var first, last, due, rows, before := separators, lastKey, pendingIndexEntry, dataBlock.layout.rows, file;
      assert FilterValid();
      var meta, contents := FinishFilter();
      RecordedLonger(codec, before, blocks, open, separators, lastKey, pendingIndexEntry, pendingHandle,
        rows, indexBlock.layout.rows, file);
      before := file;
      var index := FinishIndex();
      t := Table(blocks, separators, contents);
      if contents.Some? ==> |contents.value| < TWO_32 {
        TableHolds(hash, t, first, last, lastKey, due);
      }
      if |file| < TWO_64 {
        MetaStaysStored(codec, policy, before, file, meta, contents);
        FileFinished(codec, policy, file, t, meta, index);
      }
      file := file + EncodeFooter(meta, index);
      offset := offset + FOOTER;
    }

    lemma DataBlockIsSmall()
      requires Valid()
      ensures |dataBlock.restarts| < TWO_32
    {
      hide Built, FilterValid, Recorded, Lossless;
      dataBlock.EmptyHasNoRows();
      RecordedEmpty(codec, file, blocks, open, separators, lastKey, pendingIndexEntry, pendingHandle,
        dataBlock.layout.rows, indexBlock.layout.rows);
    }
  }

  lemma NoneOpen(blocks: seq<Block>)
    ensures Rows(blocks) + [] == Rows(blocks)
  {
  }

  // With the last entry made, the table holds the rows of its blocks.
  lemma TableHolds(hash: Hash, t: Table, separators: seq<InternalKey>, last: InternalKey, separator: InternalKey,
                   pending: bool)
    requires Built(t.blocks, separators, [], last, pending)
    requires t.separators == separators + if pending then [separator] else []
    requires pending ==> separator == last || Less(last.ukey, separator.ukey)
    requires t.filter.Some? ==> FilterAllows(hash, t.blocks, t.filter.value)
    ensures Holds(hash, t, Rows(t.blocks))
  {
    BlocksHold(t.blocks, separators, last, pending);
    hide Ascending, Rows, FilterAllows;
    if pending {
      IndexedByOneMore(t.blocks, separators, separator, []);
    } else {
      assert separators + [] == separators;
    }
  }
}

/** Opening a table file and looking up in it: footer, index, filter, and one data block at most
    (table/table.cc). */
module TableReaders {
  import opened Wrappers
  import opened Coding
  import opened BloomFilters
  import FilterBlocks
  import opened ByteKeys
  import Blocks
  import opened BlockIterators
  import opened TableFormat
  import opened Tables

  // ----- looking up -----

  lemma {:induction false} RowsAreInBlocks(blocks: seq<Block>, x: Row)
    ensures x in Rows(blocks) <==> exists i :: 0 <= i < |blocks| && x in blocks[i].rows
  {
    if blocks != [] {
      var n := |blocks| - 1;
      RowsAreInBlocks(blocks[..n], x);
      if x in blocks[n].rows {
        assert 0 <= n < |blocks|;
      }
      if x in Rows(blocks[..n]) {
        var i :| 0 <= i < n && x in blocks[..n][i].rows;
        assert x in blocks[i].rows;
      }
      if i :| 0 <= i < |blocks| && x in blocks[i].rows {
        assert i < n ==> x in blocks[..n][i].rows;
      }
    }
  }

  lemma PartsAscend(a: seq<Row>, b: seq<Row>)
    requires Ascending(a + b)
    ensures Ascending(a) && Ascending(b)
    ensures forall x, y :: x in a && y in b ==> KeyLess(x.key, y.key)
  {
    forall i, j | 0 <= i < |a| && 0 <= j < |b| ensures KeyLess(a[i].key, b[j].key) {
      assert a[i] == (a + b)[i] && b[j] == (a + b)[|a| + j];
    }
    forall i, j | 0 <= i < j < |b| ensures KeyLess(b[i].key, b[j].key) {
      assert b[i] == (a + b)[|a| + i] && b[j] == (a + b)[|a| + j];
    }
    forall i, j | 0 <= i < j < |a| ensures KeyLess(a[i].key, a[j].key) {
      assert a[i] == (a + b)[i] && a[j] == (a + b)[j];
    }
  }

  // Blocks follow one another, each ascending.
  lemma {:induction false} BlocksAscend(blocks: seq<Block>, i: nat, j: nat)
    requires Ascending(Rows(blocks)) && i <= j < |blocks|
    ensures Ascending(blocks[i].rows)
    ensures i < j ==> forall x, y :: x in blocks[i].rows && y in blocks[j].rows ==> KeyLess(x.key, y.key)
  {
    var n := |blocks| - 1;
    PartsAscend(Rows(blocks[..n]), blocks[n].rows);
    if j < n {
      BlocksAscend(blocks[..n], i, j);
    } else if i < n {
      BlocksAscend(blocks[..n], i, i);
      forall x | x in blocks[i].rows ensures x in Rows(blocks[..n]) {
        assert x in blocks[..n][i].rows;
        RowsAreInBlocks(blocks[..n], x);
      }
    }
  }

  // `r` is the newest version of k's user key at or behind k, or there is none.
  ghost predicate IsAnswer(rows: seq<Row>, k: InternalKey, r: Option<Row>) {
    match r
    case Some(row) =>
      && row in rows && row.key.ukey == k.ukey && !KeyLess(row.key, k)
      && forall x :: x in rows && x.key.ukey == k.ukey && !KeyLess(x.key, k) ==> !KeyLess(x.key, row.key)
    case None => forall x :: x in rows && x.key.ukey == k.ukey ==> KeyLess(x.key, k)
  }

  // Everything in the blocks before the one the index leads to sorts before the key.
  ghost predicate IndexLeadsTo(t: Table, k: InternalKey, i: nat) {
    && i <= |t.separators|
    && (forall j :: 0 <= j < i ==> KeyLess(t.separators[j], k))
    && (i < |t.separators| ==> !KeyLess(t.separators[i], k))
  }

  lemma LastRowIsGreatest(rows: seq<Row>, x: Row)
    requires Ascending(rows) && x in rows
    ensures !KeyLess(rows[|rows| - 1].key, x.key)
  {
    var i :| 0 <= i < |rows| && rows[i] == x;
    KeyLessIsTotal(rows[|rows| - 1].key, x.key);
  }

  lemma FirstRowIsLeast(rows: seq<Row>, x: Row)
    requires Ascending(rows) && x in rows
    ensures !KeyLess(x.key, rows[0].key)
  {
    var i :| 0 <= i < |rows| && rows[i] == x;
    KeyLessIsTotal(rows[0].key, x.key);
  }

  lemma NotAbove(a: InternalKey, b: InternalKey, c: InternalKey)
    requires !KeyLess(b, a) && KeyLess(b, c)
    ensures KeyLess(a, c)
  {
    KeyLessIsTotal(a, b);
    if a != b {
      KeyLessIsTransitive(a, b, c);
    }
  }

  // A separator lies behind its block and before the next.
  lemma {:induction false} BetweenBlocks(blocks: seq<Block>, separators: seq<InternalKey>, i: nat)
    requires Ascending(Rows(blocks)) && Indexed(blocks, separators, []) && i < |separators| && i < |blocks|
    requires blocks[i].rows != []
    ensures var here := blocks[i].rows; !KeyLess(separators[i], here[|here| - 1].key)
    ensures i + 1 < |blocks| ==> blocks[i + 1].rows != [] && KeyLess(separators[i], blocks[i + 1].rows[0].key)
  {
    var here := blocks[i].rows;
    var last := here[|here| - 1];
    assert SeparatedFrom(blocks, separators, i, []);
    LessIsTotal(last.key.ukey, separators[i].ukey);
    KeyLessIsTotal(last.key, separators[i]);
    assert last in here;
    if i + 1 < |blocks| {
      BlocksAscend(blocks, i, i + 1);
      assert blocks[i + 1].rows[0] in blocks[i + 1].rows;
    }
  }

  lemma FullBlocks(blocks: seq<Block>, separators: seq<InternalKey>, i: nat)
    requires Indexed(blocks, separators, []) && i < |blocks|
    ensures BlocksFull(blocks) && blocks[i].rows != []
  {
  }

  // Blocks the index passes over hold only smaller keys.
  lemma {:induction false} PassedBlocks(hash: Hash, t: Table, rows: seq<Row>, k: InternalKey, i: nat, j: nat, x: Row)
    requires Holds(hash, t, rows) && IndexLeadsTo(t, k, i) && j < i && x in t.blocks[j].rows
    ensures KeyLess(x.key, k)
  {
    BlocksAscend(t.blocks, j, j);
    BetweenBlocks(t.blocks, t.separators, j);
    var here := t.blocks[j].rows;
    LastRowIsGreatest(here, x);
    assert KeyLess(t.separators[j], k);
    hide Holds, IndexLeadsTo, KeyLess;
    NotAbove(here[|here| - 1].key, t.separators[j], k);
    NotAbove(x.key, here[|here| - 1].key, k);
  }

  // No row of a block or of a later one lies before the block's first row.
  lemma {:induction false} BehindFirst(blocks: seq<Block>, i: nat, j: nat, x: Row)
    requires Ascending(Rows(blocks)) && BlocksFull(blocks) && i <= j < |blocks| && x in blocks[j].rows
    ensures !KeyLess(x.key, blocks[i].rows[0].key)
  {
    BlocksAscend(blocks, i, j);
    hide Ascending, Rows;
    var first := blocks[i].rows[0];
    assert first in blocks[i].rows;
    if i == j {
      FirstRowIsLeast(blocks[i].rows, x);
    } else {
      KeyLessIsTotal(first.key, x.key);
    }
  }

  lemma LastBeforeKey(blocks: seq<Block>, separators: seq<InternalKey>, i: nat, k: InternalKey)
    requires Indexed(blocks, separators, []) && i < |separators| && i + 1 < |blocks|
    requires !KeyLess(separators[i], k) && forall y :: y in blocks[i].rows ==> KeyLess(y.key, k)
    ensures blocks[i + 1].rows != []
    ensures Less(separators[i].ukey, blocks[i + 1].rows[0].key.ukey)
  {
    var here := blocks[i].rows;
    assert SeparatedFrom(blocks, separators, i, []);
    assert here[|here| - 1] in here;
  }

  // If the block the index leads to has no key at or behind k, later blocks hold no version of k's
  // user key: the separator does not fall between two versions of one user key.
  lemma {:induction false} LaterBlocksHaveNone(hash: Hash, t: Table, rows: seq<Row>, k: InternalKey, i: nat, j: nat,
                                               x: Row)
    requires Holds(hash, t, rows) && IndexLeadsTo(t, k, i) && i < j < |t.blocks| && x in t.blocks[j].rows
    requires forall y :: y in t.blocks[i].rows ==> KeyLess(y.key, k)
    ensures x.key.ukey != k.ukey
  {
    var sep := t.separators[i];
    LastBeforeKey(t.blocks, t.separators, i, k);
    BehindFirst(t.blocks, i + 1, j, x);
    hide Holds, Indexed, IndexLeadsTo;
    var next := t.blocks[i + 1].rows[0].key;
    LessIsTotal(k.ukey, sep.ukey);
    UserKeyBeyond(k.ukey, sep.ukey, next.ukey, x.key.ukey);
  }

  lemma UserKeyBeyond(k: Bytes, sep: Bytes, next: Bytes, x: Bytes)
    requires (Less(k, sep) || k == sep) && Less(sep, next) && !Less(x, next)
    ensures x != k
  {
    LessIsTotal(x, next);
    if Less(k, sep) {
      LessIsTransitive(k, sep, next);
    }
  }

  // A row at or behind k in the block is the first such row of the whole table.
  lemma FirstInBlock(hash: Hash, t: Table, rows: seq<Row>, k: InternalKey, i: nat, p: nat)
    requires Holds(hash, t, rows) && IndexLeadsTo(t, k, i) && i < |t.blocks| && p < |t.blocks[i].rows|
    requires forall q :: 0 <= q < p ==> KeyLess(t.blocks[i].rows[q].key, k)
    requires !KeyLess(t.blocks[i].rows[p].key, k)
    ensures var row := t.blocks[i].rows[p];
            row in rows && forall x :: x in rows && !KeyLess(x.key, k) ==> !KeyLess(x.key, row.key)
  {
    var row := t.blocks[i].rows[p];
    assert row in t.blocks[i].rows;
    RowsAreInBlocks(t.blocks, row);
    forall x | x in rows && !KeyLess(x.key, k) ensures !KeyLess(x.key, row.key) {
      RowsAreInBlocks(t.blocks, x);
      var j :| 0 <= j < |t.blocks| && x in t.blocks[j].rows;
      if j < i {
        PassedBlocks(hash, t, rows, k, i, j, x);
      } else {
        BlocksAscend(t.blocks, i, j);
        if j == i {
          var q :| 0 <= q < |t.blocks[i].rows| && t.blocks[i].rows[q] == x;
          assert q >= p;
        }
        KeyLessIsTotal(x.key, row.key);
      }
    }
  }

  lemma AnswerFromBlock(hash: Hash, t: Table, rows: seq<Row>, k: InternalKey, i: nat, p: nat)
    requires Holds(hash, t, rows) && IndexLeadsTo(t, k, i) && i < |t.blocks| && p <= |t.blocks[i].rows|
    requires forall q :: 0 <= q < p ==> KeyLess(t.blocks[i].rows[q].key, k)
    requires p < |t.blocks[i].rows| ==> !KeyLess(t.blocks[i].rows[p].key, k)
    ensures IsAnswer(rows, k, if p < |t.blocks[i].rows|
        && t.blocks[i].rows[p].key.ukey == k.ukey then Some(t.blocks[i].rows[p]) else None)
  {
    var here := t.blocks[i].rows;
    if p < |here| {
      FirstInBlock(hash, t, rows, k, i, p);
      if here[p].key.ukey != k.ukey {
        forall x | x in rows && x.key.ukey == k.ukey ensures KeyLess(x.key, k) {
          LessIsTotal(here[p].key.ukey, k.ukey);
        }
      }
    } else {
      forall y | y in here ensures KeyLess(y.key, k) {
        var q :| 0 <= q < |here| && here[q] == y;
      }
      forall x | x in rows && x.key.ukey == k.ukey ensures KeyLess(x.key, k) {
        RowsAreInBlocks(t.blocks, x);
        var j :| 0 <= j < |t.blocks| && x in t.blocks[j].rows;
        if j < i {
          PassedBlocks(hash, t, rows, k, i, j, x);
        } else if j > i {
          LaterBlocksHaveNone(hash, t, rows, k, i, j, x);
        }
      }
    }
  }

  // A denial by the filter means no version of the user key in that block, so none to find.
  lemma DeniedByFilter(hash: Hash, t: Table, rows: seq<Row>, k: InternalKey, i: nat)
    requires Holds(hash, t, rows) && IndexLeadsTo(t, k, i) && i < |t.blocks|
    requires t.filter.Some? && !FilterBlocks.KeyAllowed(hash, t.filter.value, t.blocks[i].handle.offset, k.ukey)
    ensures IsAnswer(rows, k, None)
  {
    var here := t.blocks[i].rows;
    forall y | y in here ensures y.key.ukey != k.ukey {
      assert FilterBlocks.KeyAllowed(hash, t.filter.value, t.blocks[i].handle.offset, y.key.ukey);
    }
    var p := LowerBound(here, k);
    AnswerFromBlock(hash, t, rows, k, i, p);
  }

  // The first row at or behind the key.
  function LowerBound(rows: seq<Row>, k: InternalKey): (p: nat)
    ensures p <= |rows| && forall q :: 0 <= q < p ==> KeyLess(rows[q].key, k)
    ensures p < |rows| ==> !KeyLess(rows[p].key, k)
  {
    if rows == [] || !KeyLess(rows[0].key, k) then 0 else 1 + LowerBound(rows[1..], k)
  }

  // ----- the same on encoded keys -----

  lemma EncodedLessIsTotal()
    ensures Blocks.StrictTotal(EncodedLess)
  {
    forall a, b ensures EncodedLess(a, b) ==> !EncodedLess(b, a) {
      KeyLessIsTotal(SplitKey(a), SplitKey(b));
    }
    forall a, b, c | EncodedLess(a, b) && EncodedLess(b, c) ensures EncodedLess(a, c) {
      KeyLessIsTransitive(SplitKey(a), SplitKey(b), SplitKey(c));
    }
    forall a, b | a != b ensures EncodedLess(a, b) || EncodedLess(b, a) {
      KeyLessIsTotal(SplitKey(a), SplitKey(b));
      if SplitKey(a) == SplitKey(b) {
        SplitIsInjective(a, b);
      }
    }
  }

  lemma BytewiseIsTotal()
    ensures Blocks.StrictTotal(Less)
  {
    forall a, b ensures (Less(a, b) ==> !Less(b, a)) && (a != b ==> Less(a, b) || Less(b, a)) {
      LessIsTotal(a, b);
    }
    forall a, b, c | Less(a, b) && Less(b, c) ensures Less(a, c) {
      LessIsTransitive(a, b, c);
    }
  }

  lemma EncodedCompare(a: InternalKey, b: InternalKey)
    requires a.trailer < TWO_64 && b.trailer < TWO_64
    ensures EncodedLess(EncodeKey(a), EncodeKey(b)) <==> KeyLess(a, b)
  {
    KeyRoundTrip(a);
    KeyRoundTrip(b);
  }

  lemma {:induction false} DataRowsAscend(rows: seq<Row>)
    requires Ascending(rows) && KeysFit(rows, [])
    ensures Blocks.RowsAscend(EncodedLess, DataRows(rows))
  {
    hide EncodeKey, EncodedLess, KeyLess;
    forall i, j | 0 <= i < j < |rows| ensures EncodedLess(DataRows(rows)[i].key, DataRows(rows)[j].key) {
      assert rows[i] in rows && rows[j] in rows;
      EncodedCompare(rows[i].key, rows[j].key);
    }
  }

  lemma {:induction false} SeparatorsAscend(blocks: seq<Block>, separators: seq<InternalKey>, i: nat, j: nat)
    requires Ascending(Rows(blocks)) && Indexed(blocks, separators, []) && i < j < |separators| == |blocks|
    ensures KeyLess(separators[i], separators[j])
  {
    hide *;
    FullBlocks(blocks, separators, i);
    FullBlocks(blocks, separators, j);
    BetweenBlocks(blocks, separators, i);
    BetweenBlocks(blocks, separators, j);
    var first, last := blocks[i + 1].rows[0], blocks[j].rows[|blocks[j].rows| - 1];
    BehindFirst(blocks, i + 1, j, last);
    NotBelow(separators[i], first.key, last.key);
    NotBelow(separators[i], last.key, separators[j]);
  }

  lemma NotBelow(a: InternalKey, b: InternalKey, c: InternalKey)
    requires KeyLess(a, b) && !KeyLess(c, b)
    ensures KeyLess(a, c)
  {
    KeyLessIsTotal(b, c);
    if b != c {
      KeyLessIsTransitive(a, b, c);
    }
  }

  lemma {:induction false} IndexRowsAscend(blocks: seq<Block>, separators: seq<InternalKey>)
    requires Ascending(Rows(blocks)) && Indexed(blocks, separators, []) && |separators| == |blocks|
    requires KeysFit([], separators)
    ensures Blocks.RowsAscend(EncodedLess, IndexRows(blocks, separators))
  {
    var rows := IndexRows(blocks, separators);
    hide EncodeKey, EncodedLess, KeyLess, Indexed, Ascending, Rows;
    forall i, j | 0 <= i < j < |rows| ensures EncodedLess(rows[i].key, rows[j].key) {
      SeparatorsAscend(blocks, separators, i, j);
      EncodedCompare(separators[i], separators[j]);
    }
  }

  // Where a seek among encoded rows lands, on the rows themselves.
  lemma BoundInBlock(rows: seq<Row>, k: InternalKey, p: nat)
    requires KeysFit(rows, []) && k.trailer < TWO_64
    requires IsLowerBound(EncodedLess, DataRows(rows), EncodeKey(k), p)
    ensures p <= |rows| && (forall q :: 0 <= q < p ==> KeyLess(rows[q].key, k))
    ensures p < |rows| ==> !KeyLess(rows[p].key, k)
  {
    hide EncodeKey, EncodedLess, KeyLess;
    forall q | 0 <= q < |rows|
      ensures EncodedLess(DataRows(rows)[q].key, EncodeKey(k)) <==> KeyLess(rows[q].key, k)
    {
      assert rows[q] in rows;
      EncodedCompare(rows[q].key, k);
    }
  }

  lemma BoundInIndex(t: Table, k: InternalKey, i: nat)
    requires |t.separators| == |t.blocks| && KeysFit([], t.separators) && k.trailer < TWO_64
    requires IsLowerBound(EncodedLess, IndexRows(t.blocks, t.separators), EncodeKey(k), i)
    ensures IndexLeadsTo(t, k, i)
  {
    hide EncodeKey, EncodedLess, KeyLess;
    forall j | 0 <= j < |t.separators|
      ensures EncodedLess(IndexRows(t.blocks, t.separators)[j].key, EncodeKey(k)) <==> KeyLess(t.separators[j], k)
    {
      EncodedCompare(t.separators[j], k);
    }
  }

  // ----- opening -----

  // What Table::Open keeps: the file, the index block and the filter block.
  datatype OpenTable = OpenTable(file: Bytes, index: Bytes, filter: Option<Bytes>)

  ghost predicate Serves(c: Codec, o: OpenTable, t: Table) {
    && |t.separators| == |t.blocks| && KeysFit(Rows(t.blocks), t.separators) && BlocksStored(c, o.file, t.blocks)
    && |o.file| < TWO_64 && Blocks.IsBlock(o.index, IndexRows(t.blocks, t.separators))
    && (o.filter.Some? ==> o.filter == t.filter)
  }

  method ReadFilter(c: Codec, file: Bytes, value: Bytes) returns (r: Option<Bytes>)
    ensures r == match DecodeHandle(value) case None => None case Some(p) => ReadBlock(c, file, p.0)
  {
    var h := DecodeHandle(value);
    r := if h.None? then None else ReadBlock(c, file, h.value.0);
  }

  ghost function MetaRows(c: Codec, name: Bytes, file: Bytes, meta: Handle, filter: Option<Bytes>): (r: seq<Blocks.Row>)
    requires MetaStored(c, name, file, meta, filter) && |file| < TWO_64
    ensures Stored(c, file, meta, r) && |r| == if filter.Some? then 1 else 0
    ensures filter.Some? ==>
              && r[0].key == FilterKey(name) && DecodeHandle(r[0].value).Some?
              && ReadBlock(c, file, DecodeHandle(r[0].value).value.0) == filter
  {
    if filter.None? then []
    else
      var h: Handle :| Stored(c, file, meta, [Blocks.Row(FilterKey(name), EncodeHandle(h))])
                       && ReadBlock(c, file, h) == filter;
      StoredFits(c, file, h);
      HandleRoundTrip(h, []);
      assert EncodeHandle(h) + [] == EncodeHandle(h);
      [Blocks.Row(FilterKey(name), EncodeHandle(h))]
  }

  // ReadMeta: the filter block of the policy in use, if the file has it. `whole` says that the file is
  // one that was written under the policy `name`.
  method ReadMeta(c: Codec, policy: Bytes, file: Bytes, meta: Handle, ghost name: Bytes, ghost filter: Option<Bytes>,
                  ghost whole: bool) returns (r: Option<Bytes>)
    requires whole ==> MetaStored(c, name, file, meta, filter) && |file| < TWO_64
    ensures whole ==> r == if policy == name then filter else None
  {
    BytewiseIsTotal();
    hide Less, MetaStored, ReadBlock, Blocks.IsBlock, Blocks.StrictTotal, FilterKey;
    ghost var rows := if whole then MetaRows(c, name, file, meta, filter) else [];
    KeysDiffer(policy, name);
    var data := ReadBlock(c, file, meta);
    if data.None? {
      return None;
    }
    var iter := NewIterator(data.value, Less, rows, whole);
    if iter == null {
      return None;
    }
    iter.Seek(FilterKey(policy));
    if whole {
      iter.ShowsRow();
      KeyIsFound(rows, FilterKey(policy), iter.pos);
    }
    if !iter.Positioned() || iter.CurrentKey() != FilterKey(policy) {
      return None;
    }
    r := ReadFilter(c, file, iter.CurrentValue());
  }

  lemma KeysDiffer(a: Bytes, b: Bytes)
    ensures FilterKey(a) == FilterKey(b) <==> a == b
  {
    assert FilterKey(a)[7..] == a && FilterKey(b)[7..] == b;
  }

  lemma KeyIsFound(rows: seq<Blocks.Row>, key: Bytes, pos: nat)
    requires |rows| <= 1 && IsLowerBound(Less, rows, key, pos)
    ensures rows != [] && rows[0].key == key ==> pos == 0
  {
    LessIsTotal(key, key);
  }

  // Table::Open.
  method Open(c: Codec, policy: Option<Bytes>, file: Bytes, ghost name: Bytes, ghost t: Table, ghost whole: bool)
    returns (r: Option<OpenTable>)
    requires whole ==> IsFileOf(c, name, file, t) && |file| < TWO_64
    ensures whole ==> r.Some? && r.value.file == file && Serves(c, r.value, t)
    ensures whole ==> r.value.filter == if policy == Some(name) then t.filter else None
  {
    hide Stored, MetaStored, KeysFit, BlocksStored, Rows, IndexRows, DecodeFooter;
    if |file| < FOOTER {
      return None;
    }
    var footer := DecodeFooter(file[|file| - FOOTER..]);
    if footer.None? {
      return None;
    }
    var meta, index := footer.value.0, footer.value.1;
    if whole {
      assert MetaStored(c, name, file, meta, t.filter) && Stored(c, file, index, IndexRows(t.blocks, t.separators));
      StoredIsBlock(c, file, index, IndexRows(t.blocks, t.separators));
    }
    hide ReadBlock, Blocks.IsBlock, IsFileOf;
    var contents := ReadBlock(c, file, index);
    if contents.None? {
      return None;
    }
    var filter: Option<Bytes> := None;
    if policy.Some? {
      filter := ReadMeta(c, policy.value, file, meta, name, t.filter, whole);
    }
    r := Some(OpenTable(file, contents.value, filter));
  }

  lemma StoredIsBlock(c: Codec, file: Bytes, h: Handle, rows: seq<Blocks.Row>)
    requires Stored(c, file, h, rows)
    ensures ReadBlock(c, file, h).Some? && Blocks.IsBlock(ReadBlock(c, file, h).value, rows)
  {
  }

  // ----- one lookup -----

  // The index entry for a key: where its block is, or that there is none. `i` is the block's index.
  method SeekIndex(o: OpenTable, c: Codec, k: InternalKey, ghost t: Table, ghost whole: bool)
    returns (ok: bool, h: Option<Handle>, ghost i: nat)
    requires k.trailer < TWO_64
    requires whole ==> Serves(c, o, t) && Ascending(Rows(t.blocks)) && Indexed(t.blocks, t.separators, [])
    ensures whole ==> ok && IndexLeadsTo(t, k, i)
    ensures whole ==> h == if i < |t.blocks| then Some(t.blocks[i].handle) else None
  {
    EncodedLessIsTotal();
    ghost var entries := if whole then IndexRows(t.blocks, t.separators) else [];
    if whole {
      FitsApart(Rows(t.blocks), t.separators);
      IndexRowsAscend(t.blocks, t.separators);
      assert |entries| == |t.separators|;
    }
    hide Blocks.StrictTotal, Blocks.RowsAscend, Blocks.IsBlock, Indexed, Ascending, Rows, EncodedLess, EncodeKey,
        BlocksStored, KeysFit, IndexLeadsTo, DecodeHandle;
    var iter := NewIterator(o.index, EncodedLess, entries, whole);
    if iter == null {
      return false, None, 0;
    }
    iter.Seek(EncodeKey(k));
    i := iter.pos;
    if whole {
      iter.ShowsRow();
      BoundInIndex(t, k, iter.pos);
    }
    if !iter.Positioned() {
      return !iter.corrupt, None, i;
    }
    var handle := DecodeHandle(iter.CurrentValue());
    if whole {
      EntryLeadsToBlock(c, o, t, i);
    }
    ok, h := handle.Some?, if handle.Some? then Some(handle.value.0) else None;
  }

  lemma FitsApart(rows: seq<Row>, separators: seq<InternalKey>)
    requires KeysFit(rows, separators)
    ensures KeysFit([], separators)
  {
  }

  lemma {:induction false} EntryLeadsToBlock(c: Codec, o: OpenTable, t: Table, i: nat)
    requires Serves(c, o, t) && i < |t.blocks|
    ensures DecodeHandle(IndexRows(t.blocks, t.separators)[i].value) == Some((t.blocks[i].handle, []))
  {
    var h := t.blocks[i].handle;
    assert Stored(c, o.file, h, DataRows(t.blocks[i].rows));
    StoredFits(c, o.file, h);
    HandleRoundTrip(h, []);
    assert EncodeHandle(h) + [] == EncodeHandle(h);
  }

  // The first row at or behind a key in one data block.
  method SeekBlock(c: Codec, file: Bytes, h: Handle, k: InternalKey, ghost rows: seq<Row>, ghost whole: bool)
    returns (ok: bool, r: Option<Row>, ghost p: nat)
    requires k.trailer < TWO_64
    requires whole ==> Stored(c, file, h, DataRows(rows)) && Ascending(rows) && KeysFit(rows, [])
    ensures whole ==> ok && p <= |rows| && forall q :: 0 <= q < p ==> KeyLess(rows[q].key, k)
    ensures whole && p < |rows| ==> !KeyLess(rows[p].key, k)
    ensures whole ==> r == if p < |rows| then Some(rows[p]) else None
  {
    EncodedLessIsTotal();
    ghost var entries := if whole then DataRows(rows) else [];
    if whole {
      DataRowsAscend(rows);
      StoredIsBlock(c, file, h, entries);
      assert |entries| == |rows|;
    }
    hide Blocks.StrictTotal, Blocks.RowsAscend, Blocks.IsBlock, Ascending, EncodedLess, EncodeKey, KeysFit, ReadBlock,
        KeyLess, SplitKey;
    var contents := ReadBlock(c, file, h);
    if contents.None? {
      return false, None, 0;
    }
    var iter := NewIterator(contents.value, EncodedLess, entries, whole);
    if iter == null {
      return false, None, 0;
    }
    iter.Seek(EncodeKey(k));
    p := iter.pos;
    if whole {
      iter.ShowsRow();
      BoundInBlock(rows, k, p);
    }
    if !iter.Positioned() {
      return !iter.corrupt, None, p;
    }
    if whole {
      RowReadsBack(rows, p);
    }
    if |iter.CurrentKey()| < 8 {
      return false, None, p;
    }
    ok, r := true, Some(Row(SplitKey(iter.CurrentKey()), iter.CurrentValue()));
  }

  lemma RowReadsBack(rows: seq<Row>, p: nat)
    requires KeysFit(rows, []) && p < |rows|
    ensures |DataRows(rows)[p].key| >= 8 && Row(SplitKey(DataRows(rows)[p].key), DataRows(rows)[p].value) == rows[p]
  {
    assert rows[p] in rows;
    KeyRoundTrip(rows[p].key);
  }

  // A data block has to be read: the index leads to one, and no filter rules the key out.
  ghost predicate MustOpen(hash: Hash, filter: Option<Bytes>, t: Table, k: InternalKey) {
    exists i :: 0 <= i < |t.blocks| && IndexLeadsTo(t, k, i) && Admits(hash, filter, t.blocks[i].handle.offset, k.ukey)
  }

  ghost predicate Admits(hash: Hash, filter: Option<Bytes>, offset: nat, key: Bytes) {
    filter.Some? ==> FilterBlocks.KeyAllowed(hash, filter.value, offset, key)
  }

  lemma LeadsToOne(hash: Hash, filter: Option<Bytes>, t: Table, k: InternalKey, i: nat)
    requires IndexLeadsTo(t, k, i) && |t.separators| == |t.blocks|
    ensures MustOpen(hash, filter, t, k) <==>
              i < |t.blocks| && Admits(hash, filter, t.blocks[i].handle.offset, k.ukey)
  {
    hide Admits;
    forall j | 0 <= j < |t.blocks| && IndexLeadsTo(t, k, j) ensures j == i {
    }
  }

  // InternalGet with SaveValue: one index seek, the filter, one block seek. The answer is the one a
  // scan of all the rows would give, and no data block is read when the filter rules the key out.
  method InternalGet(hash: Hash, c: Codec, o: OpenTable, k: InternalKey, ghost t: Table, ghost rows: seq<Row>,
                     ghost whole: bool) returns (ok: bool, r: Option<Row>, ghost blockRead: bool)
    requires k.trailer < TWO_64 && (whole ==> Serves(c, o, t) && Holds(hash, t, rows))
    ensures whole ==> ok && IsAnswer(rows, k, r)
    ensures whole ==> (blockRead <==> MustOpen(hash, o.filter, t, k))
  {
    hide IsAnswer, FilterAllows, Indexed, Ascending, Rows, IndexLeadsTo, FilterBlocks.KeyAllowed, KeyLess, MustOpen;
    blockRead := false;
    ghost var i: nat;
    var h: Option<Handle>;
    ok, h, i := SeekIndex(o, c, k, t, whole);
    if whole {
      LeadsToOne(hash, o.filter, t, k, i);
    }
    if !ok || h.None? {
      if whole {
        NothingBehind(hash, t, rows, k, i);
      }
      return ok, None, blockRead;
    }
    if o.filter.Some? {
      var allowed := FilterBlocks.KeyMayMatch(hash, o.filter.value, h.value.offset, k.ukey);
      if !allowed {
        if whole {
          DeniedByFilter(hash, t, rows, k, i);
        }
        return true, None, blockRead;
      }
    }
    ghost var p: nat;
    if whole {
      BlockFits(c, o, hash, t, rows, i);
    }
    blockRead := true;
    ok, r, p := SeekBlock(c, o.file, h.value, k, if whole then t.blocks[i].rows else [], whole);
    if whole {
      AnswerFromBlock(hash, t, rows, k, i, p);
    }
    if r.Some? && r.value.key.ukey != k.ukey {
      r := None;
    }
  }

  lemma {:induction false} BlockFits(c: Codec, o: OpenTable, hash: Hash, t: Table, rows: seq<Row>, i: nat)
    requires Serves(c, o, t) && Holds(hash, t, rows) && i < |t.blocks|
    ensures var here := t.blocks[i].rows;
            Stored(c, o.file, t.blocks[i].handle, DataRows(here)) && Ascending(here) && KeysFit(here, [])
  {
    BlocksAscend(t.blocks, i, i);
    hide Ascending, Indexed, FilterAllows, Stored;
    forall row | row in t.blocks[i].rows ensures row.key.trailer < TWO_64 {
      RowsAreInBlocks(t.blocks, row);
    }
  }

  lemma NothingBehind(hash: Hash, t: Table, rows: seq<Row>, k: InternalKey, i: nat)
    requires Holds(hash, t, rows) && IndexLeadsTo(t, k, i) && i >= |t.blocks|
    ensures IsAnswer(rows, k, None)
  {
    forall x | x in rows && x.key.ukey == k.ukey ensures KeyLess(x.key, k) {
      RowsAreInBlocks(t.blocks, x);
      var j :| 0 <= j < |t.blocks| && x in t.blocks[j].rows;
      PassedBlocks(hash, t, rows, k, i, j, x);
    }
  }

  // From rows to bytes and back: a table built, written, blockRead under any policy and searched
  // answers as its rows do, as long as the file's offsets fit 64 bits and the filter's 32.
  method GetFromBuilt(builder: TableBuilder, policy: Option<Bytes>, k: InternalKey)
    returns (ok: bool, r: Option<Row>, ghost t: Table)
    requires builder.Valid() && builder.RoomInIndex() && k.trailer < TWO_64
    modifies builder, builder.filter, builder.dataBlock, builder.indexBlock
    ensures t.filter.Some? <==> builder.filter != null
    ensures |builder.file| < TWO_64 && (t.filter.Some? ==> |t.filter.value| < TWO_32) ==>
              ok && IsAnswer(old(builder.All()), k, r)
  {
    hide *;
    ghost var rows := builder.All();
    t := builder.Finish();
    ghost var whole := |builder.file| < TWO_64 && (t.filter.Some? ==> |t.filter.value| < TWO_32);
    var o := Open(builder.codec, policy, builder.file, builder.policy, t, whole);
    if o.None? {
      return false, None, t;
    }
    ghost var blockRead: bool;
    ok, r, blockRead := InternalGet(builder.hash, builder.codec, o.value, k, t, rows, whole);
  }
}

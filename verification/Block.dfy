/** Data blocks: prefix-compressed entries with restart points, built and read back byte for byte
    (table/block_builder.cc, table/block.cc).

    Keys are byte strings under any strict total order; sizes stay below 2^32, as the 32-bit
    fields of the format demand. */
module Blocks {
  import opened Wrappers
  import opened Coding

  type Order = (Bytes, Bytes) -> bool

  ghost predicate StrictTotal(lt: Order) {
    && (forall a, b :: lt(a, b) ==> !lt(b, a))
    && (forall a, b, c :: lt(a, b) && lt(b, c) ==> lt(a, c))
    && (forall a, b :: a != b ==> lt(a, b) || lt(b, a))
  }

  datatype Row = Row(key: Bytes, value: Bytes)

  ghost predicate RowsAscend(lt: Order, rows: seq<Row>) {
    forall i, j :: 0 <= i < j < |rows| ==> lt(rows[i].key, rows[j].key)
  }

  // ----- one entry -----

  function Delta(shared: nat, row: Row): Bytes
    requires shared <= |row.key|
  {
    row.key[shared..]
  }

  function EntryHeader(shared: nat, row: Row): Bytes
    requires shared <= |row.key|
  {
    Varint(shared) + Varint(|row.key| - shared) + Varint(|row.value|)
  }

  function EntryBytes(shared: nat, row: Row): Bytes
    requires shared <= |row.key|
  {
    EntryHeader(shared, row) + Delta(shared, row) + row.value
  }

  // Sizes of the three parts, and how many bytes the header takes.
  datatype Decoded = Decoded(shared: nat, nonShared: nat, valueLength: nat, header: nat)

  function Low32(n: nat): nat {
    n % TWO_32
  }

  // The general path: three varints in a row.
  function ThreeVarints(b: Bytes): Option<Decoded> {
    match ParseVarint(b, 5)
    case None => None
    case Some(p) =>
      ParsedWithin(b, 5);
      match ParseVarint(b[p.1..], 5)
      case None => None
      case Some(q) =>
        ParsedWithin(b[p.1..], 5);
        match ParseVarint(b[p.1..][q.1..], 5)
        case None => None
        case Some(r) => Some(Decoded(Low32(p.0), Low32(q.0), Low32(r.0), p.1 + q.1 + r.1))
  }

  function DecodeHeader(b: Bytes): Option<Decoded> {
    if |b| < 3 then None
    else if b[0] < 128 && b[1] < 128 && b[2] < 128 then Some(Decoded(b[0], b[1], b[2], 3))
    else ThreeVarints(b)
  }

  // The fast path gives what the general path would.
  lemma FastPathIsExact(b: Bytes)
    requires |b| >= 3 && b[0] < 128 && b[1] < 128 && b[2] < 128
    ensures ThreeVarints(b) == Some(Decoded(b[0], b[1], b[2], 3))
  {
    assert b[1..][0] == b[1] && b[1..][1..][0] == b[2];
    assert ParseVarint(b, 5) == Some((b[0], 1)) && ParseVarint(b[1..], 5) == Some((b[1], 1));
  }

  lemma DecodedHeaderFits(b: Bytes)
    requires DecodeHeader(b).Some?
    ensures 3 <= DecodeHeader(b).value.header <= |b|
  {
    if !(b[0] < 128 && b[1] < 128 && b[2] < 128) {
      ParsedWithin(b, 5);
      var p := ParseVarint(b, 5).value.1;
      ParsedWithin(b[p..], 5);
      ParsedWithin(b[p..][ParseVarint(b[p..], 5).value.1..], 5);
    }
  }

  // DecodeEntry: the header, if key delta and value fit behind it.
  function DecodeEntry(b: Bytes): Option<Decoded> {
    match DecodeHeader(b)
    case None => None
    case Some(d) => if |b| - d.header < d.nonShared + d.valueLength then None else Some(d)
  }

  lemma VarintStep(v: nat, rest: Bytes)
    requires v < TWO_32
    ensures var all := Varint(v) + rest;
            && ParseVarint(all, 5) == Some((v, |Varint(v)|)) && all[|Varint(v)|..] == rest && Low32(v) == v
  {
    assert Power128(5) == 0x8_0000_0000;
    VarintRoundTrip(v, rest, 5);
  }

  lemma ParsedTwice(a: Bytes, s: nat, b: Bytes, n: nat, c: Bytes, v: nat)
    requires ParseVarint(a, 5) == Some((s, |Varint(s)|)) && |Varint(s)| <= |a| && a[|Varint(s)|..] == b && Low32(s) == s
    requires ParseVarint(b, 5) == Some((n, |Varint(n)|)) && |Varint(n)| <= |b| && b[|Varint(n)|..] == c && Low32(n) == n
    requires ParseVarint(c, 5) == Some((v, |Varint(v)|)) && Low32(v) == v
    ensures ThreeVarints(a) == Some(Decoded(s, n, v, |Varint(s)| + |Varint(n)| + |Varint(v)|))
  {
    hide Varint, ParseVarint, Low32;
  }

  lemma ThreeRoundTrip(s: nat, n: nat, v: nat, rest: Bytes)
    requires s < TWO_32 && n < TWO_32 && v < TWO_32
    ensures ThreeVarints(Varint(s) + (Varint(n) + (Varint(v) + rest))) ==
            Some(Decoded(s, n, v, |Varint(s)| + |Varint(n)| + |Varint(v)|))
  {
    VarintStep(v, rest);
    VarintStep(n, Varint(v) + rest);
    VarintStep(s, Varint(n) + (Varint(v) + rest));
    hide Varint, ParseVarint, Low32;
    ParsedTwice(Varint(s) + (Varint(n) + (Varint(v) + rest)), s, Varint(n) + (Varint(v) + rest), n, Varint(v) + rest,
        v);
  }

  lemma HeaderRoundTrip(s: nat, n: nat, v: nat, rest: Bytes)
    requires s < TWO_32 && n < TWO_32 && v < TWO_32
    ensures DecodeHeader(Varint(s) + (Varint(n) + (Varint(v) + rest))) ==
            Some(Decoded(s, n, v, |Varint(s)| + |Varint(n)| + |Varint(v)|))
  {
    ThreeRoundTrip(s, n, v, rest);
    hide Varint, ThreeVarints;
    var all := Varint(s) + (Varint(n) + (Varint(v) + rest));
    if all[0] < 128 && all[1] < 128 && all[2] < 128 {
      FastPathIsExact(all);
    }
  }

  lemma EntryParts(shared: nat, row: Row, rest: Bytes)
    requires shared <= |row.key|
    ensures var h, n := |EntryHeader(shared, row)|, |row.key| - shared;
            && h == |Varint(shared)| + |Varint(n)| + |Varint(|row.value|)| >= 3
            && |EntryBytes(shared, row)| == h + n + |row.value|
            && (EntryBytes(shared, row) + rest)[h..h + n] == Delta(shared, row)
            && EntryBytes(shared, row)[h + n..] == row.value
  {
    hide Varint;
  }

  lemma EntryRegrouped(shared: nat, row: Row, rest: Bytes)
    requires shared <= |row.key|
    ensures EntryBytes(shared, row) + rest ==
            Varint(shared) + (Varint(|row.key| - shared) + (Varint(|row.value|)
                + (Delta(shared, row) + row.value + rest)))
  {
    hide Varint;
  }

  lemma EntryLength(shared: nat, row: Row)
    requires shared <= |row.key|
    ensures |EntryHeader(shared, row)| == |Varint(shared)| + |Varint(|row.key| - shared)| + |Varint(|row.value|)|
    ensures |EntryBytes(shared, row)| == |EntryHeader(shared, row)| + (|row.key| - shared) + |row.value|
  {
    hide Varint;
  }

  lemma EntryRoundTrip(shared: nat, row: Row, rest: Bytes)
    requires shared <= |row.key| < TWO_32 && |row.value| < TWO_32
    ensures DecodeEntry(EntryBytes(shared, row) + rest) ==
            Some(Decoded(shared, |row.key| - shared, |row.value|, |EntryHeader(shared, row)|))
  {
    hide Varint, DecodeHeader, EntryBytes, EntryHeader, Delta, DecodeEntry;
    var all, body := EntryBytes(shared, row) + rest, Delta(shared, row) + row.value + rest;
    var n, v := |row.key| - shared, |row.value|;
    assert DecodeHeader(all) == Some(Decoded(shared, n, v, |Varint(shared)| + |Varint(n)| + |Varint(v)|)) by {
      EntryRegrouped(shared, row, rest);
      HeaderRoundTrip(shared, n, v, body);
    }
    EntryLength(shared, row);
    WholeEntryDecodes(all, Decoded(shared, n, v, |EntryHeader(shared, row)|));
  }

  lemma WholeEntryDecodes(b: Bytes, d: Decoded)
    requires DecodeHeader(b) == Some(d) && |b| - d.header >= d.nonShared + d.valueLength
    ensures DecodeEntry(b) == Some(d)
  {
  }

  // ----- a whole block -----

  // Where each entry starts, how much of its key it shares, and which entries are restart points.
  datatype Layout = Layout(rows: seq<Row>, at: seq<nat>, shared: seq<nat>, restarts: seq<nat>)

  ghost predicate SharesPrefix(rows: seq<Row>, i: nat, shared: nat)
    requires i < |rows|
  {
    && shared <= |rows[i].key|
    && (if i == 0 then shared == 0
        else shared <= |rows[i - 1].key| && rows[i].key[..shared] == rows[i - 1].key[..shared])
  }

  ghost predicate EntryAt(data: Bytes, layout: Layout, i: nat)
    requires i < |layout.rows| && |layout.at| == |layout.rows| + 1 && |layout.shared| == |layout.rows|
  {
    var row := layout.rows[i];
    && SharesPrefix(layout.rows, i, layout.shared[i])
    && |row.key| < TWO_32 && |row.value| < TWO_32
    && layout.at[i] < layout.at[i + 1] <= |data|
    && data[layout.at[i]..layout.at[i + 1]] == EntryBytes(layout.shared[i], row)
  }

  // `data` up to `limit` is the entries of the layout, each where the layout says.
  ghost predicate EntriesLaid(data: Bytes, limit: nat, layout: Layout) {
    && |layout.at| == |layout.rows| + 1 && |layout.shared| == |layout.rows|
    && layout.at[0] == 0 && layout.at[|layout.rows|] == limit <= |data|
    && forall i :: 0 <= i < |layout.rows| ==> EntryAt(data, layout, i)
  }

  // Restart points are entries with a full key, in order, the first entry among them.
  ghost predicate RestartsOk(layout: Layout) {
    && |layout.shared| == |layout.rows|
    && |layout.restarts| > 0 && layout.restarts[0] == 0
    && (forall j, k :: 0 <= j < k < |layout.restarts| ==> layout.restarts[j] < layout.restarts[k])
    && (forall j :: 0 <= j < |layout.restarts| ==> layout.restarts[j] < |layout.rows| || (j == 0 && layout.rows == []))
    && (forall j :: 0 <= j < |layout.restarts| && layout.restarts[j] < |layout.rows| ==>
        layout.shared[layout.restarts[j]] == 0)
  }

  function RestartPoint(data: Bytes, limit: nat, j: nat): Uint32
    requires limit + 4 * j + 4 <= |data|
  {
    DecodeFixed32(data[limit + 4 * j..])
  }

  ghost predicate Laid(data: Bytes, limit: nat, count: nat, layout: Layout)
    requires limit + 4 * count <= |data|
  {
    && EntriesLaid(data, limit, layout) && RestartsOk(layout) && |layout.restarts| == count
    && forall j :: 0 <= j < count ==> RestartPoint(data, limit, j) == layout.at[layout.restarts[j]]
  }

  lemma {:induction false} OffsetsAscend(data: Bytes, limit: nat, layout: Layout, i: nat, j: nat)
    requires EntriesLaid(data, limit, layout) && i <= j <= |layout.rows|
    ensures layout.at[i] <= layout.at[j] && (i < j ==> layout.at[i] < layout.at[j])
    decreases j - i
  {
    if i < j {
      OffsetsAscend(data, limit, layout, i, j - 1);
      assert EntryAt(data, layout, j - 1);
    }
  }

  lemma EntryDecodes(data: Bytes, limit: nat, layout: Layout, i: nat)
    requires EntriesLaid(data, limit, layout) && i < |layout.rows|
    ensures layout.at[i] < limit
    ensures var b, d := data[layout.at[i]..limit], DecodeEntry(data[layout.at[i]..limit]);
            var row, shared := layout.rows[i], layout.shared[i];
            && d.Some? && d.value.shared == shared && d.value.nonShared == |row.key| - shared
            && d.value.valueLength == |row.value| && d.value.header + d.value.nonShared <= |b|
            && b[d.value.header..d.value.header + d.value.nonShared] == row.key[shared..]
            && layout.at[i] + d.value.header + d.value.nonShared + d.value.valueLength == layout.at[i + 1]
            && data[layout.at[i + 1] - |row.value|..layout.at[i + 1]] == row.value
  {
    OffsetsAscend(data, limit, layout, i + 1, |layout.rows|);
    assert EntryAt(data, layout, i);
    var row, shared, from, to := layout.rows[i], layout.shared[i], layout.at[i], layout.at[i + 1];
    hide EntryAt, EntriesLaid, EntryBytes, EntryHeader, DecodeEntry, Delta;
    EntryInside(data, from, to, limit, shared, row);
  }

  // An entry followed by whatever else comes before the limit.
  lemma EntryInside(data: Bytes, from: nat, to: nat, limit: nat, shared: nat, row: Row)
    requires from < to <= limit <= |data| && shared <= |row.key| < TWO_32 && |row.value| < TWO_32
    requires data[from..to] == EntryBytes(shared, row)
    ensures var b, d := data[from..limit], DecodeEntry(data[from..limit]);
            && d.Some? && d.value.shared == shared && d.value.nonShared == |row.key| - shared
            && d.value.valueLength == |row.value| && d.value.header + d.value.nonShared <= |b|
            && b[d.value.header..d.value.header + d.value.nonShared] == row.key[shared..]
            && from + d.value.header + d.value.nonShared + d.value.valueLength == to
            && |row.value| <= to && data[to - |row.value|..to] == row.value
  {
    var bytes, rest := EntryBytes(shared, row), data[to..limit];
    Cut(data, from, to, limit);
    EntryRoundTrip(shared, row, rest);
    EntryParts(shared, row, rest);
    hide EntryBytes, EntryHeader, DecodeEntry;
    SliceOfSlice(data, from, to, |bytes| - |row.value|, |bytes|);
  }

  lemma Cut(data: Bytes, from: nat, to: nat, limit: nat)
    requires from <= to <= limit <= |data|
    ensures data[from..limit] == data[from..to] + data[to..limit]
  {
  }

  // ----- building -----

  function AddRow(layout: Layout, row: Row, shared: nat, end: nat, restart: bool): Layout {
    Layout(layout.rows + [row], layout.at + [end], layout.shared + [shared],
           if restart then layout.restarts + [|layout.rows|] else layout.restarts)
  }

  lemma EntriesGrow(buffer: Bytes, layout: Layout, row: Row, shared: nat, restart: bool)
    requires EntriesLaid(buffer, |buffer|, layout) && |row.key| < TWO_32 && |row.value| < TWO_32
    requires SharesPrefix(layout.rows + [row], |layout.rows|, shared)
    ensures var buffer' := buffer + EntryBytes(shared, row);
            EntriesLaid(buffer', |buffer'|, AddRow(layout, row, shared, |buffer'|, restart))
  {
    var buffer' := buffer + EntryBytes(shared, row);
    var layout' := AddRow(layout, row, shared, |buffer'|, restart);
    EntryParts(shared, row, []);
    hide EntryBytes;
    forall i | 0 <= i < |layout'.rows| ensures EntryAt(buffer', layout', i) {
      if i < |layout.rows| {
        assert EntryAt(buffer, layout, i);
        assert buffer'[layout.at[i]..layout.at[i + 1]] == buffer[layout.at[i]..layout.at[i + 1]];
      } else {
        assert buffer'[|buffer|..|buffer'|] == EntryBytes(shared, row);
      }
    }
  }

  lemma LastOffset(buffer: Bytes, layout: Layout)
    requires EntriesLaid(buffer, |buffer|, layout)
    ensures |layout.at| == |layout.rows| + 1 && layout.at[|layout.rows|] == |buffer|
  {
  }

  // Restart offsets as the builder records them.
  ghost predicate RestartsRecorded(layout: Layout, restarts: seq<nat>) {
    && |layout.at| == |layout.rows| + 1 && RestartsOk(layout) && |restarts| == |layout.restarts|
    && forall j :: 0 <= j < |restarts| ==> restarts[j] == layout.at[layout.restarts[j]] < TWO_32
  }

  lemma RestartsGrow(layout: Layout, restarts: seq<nat>, row: Row, shared: nat, end: nat, restart: bool)
    requires RestartsRecorded(layout, restarts)
    requires restart ==> layout.rows != [] && shared == 0 && layout.at[|layout.rows|] < TWO_32
    requires layout.rows == [] ==> shared == 0
    ensures RestartsRecorded(AddRow(layout, row, shared, end, restart),
                             if restart then restarts + [layout.at[|layout.rows|]] else restarts)
  {
  }

  // `n` is how many bytes two keys have in common at the front.
  ghost predicate CommonPrefix(a: Bytes, b: Bytes, n: nat) {
    n <= |a| && n <= |b| && a[..n] == b[..n] && (n < |a| && n < |b| ==> a[n] != b[n])
  }

  // A restart every `interval` rows, and in between every row leaves out all it can.
  ghost predicate Compressed(layout: Layout, interval: nat) {
    && |layout.shared| == |layout.rows| && layout.restarts != [] && layout.restarts[0] == 0
    && (forall j :: 0 <= j < |layout.restarts| - 1 ==> layout.restarts[j + 1] == layout.restarts[j] + interval)
    && SinceRestart(layout) <= interval
    && forall i :: 0 < i < |layout.rows| && i !in layout.restarts ==>
        CommonPrefix(layout.rows[i - 1].key, layout.rows[i].key, layout.shared[i])
  }

  ghost function SinceRestart(layout: Layout): int
    requires layout.restarts != []
  {
    |layout.rows| - layout.restarts[|layout.restarts| - 1]
  }

  lemma CompressedGrows(layout: Layout, interval: nat, row: Row, shared: nat, end: nat, restart: bool)
    requires Compressed(layout, interval) && interval >= 1 && (restart <==> SinceRestart(layout) == interval)
    requires !restart && layout.rows != [] ==>
               CommonPrefix(layout.rows[|layout.rows| - 1].key, row.key, shared)
    ensures var layout' := AddRow(layout, row, shared, end, restart);
            Compressed(layout', interval) && SinceRestart(layout') == if restart then 1 else SinceRestart(layout) + 1
  {
    var layout' := AddRow(layout, row, shared, end, restart);
    assert restart ==> layout'.restarts[|layout.restarts|] == |layout.rows|;
    forall i | 0 < i < |layout'.rows| && i !in layout'.restarts
      ensures CommonPrefix(layout'.rows[i - 1].key, layout'.rows[i].key, layout'.shared[i])
    {
      assert i !in layout.restarts;
    }
  }

  // How the rows of a block lie, and how much room they take with the restart array.
  ghost predicate IsLayoutOf(layout: Layout, rows: seq<Row>, interval: nat) {
    && layout.rows == rows && Compressed(layout, interval) && |layout.at| == |rows| + 1 && layout.at[0] == 0
    && forall i :: 0 <= i < |rows| ==>
        layout.shared[i] <= |rows[i].key| && layout.at[i + 1] == layout.at[i] + |EntryBytes(layout.shared[i], rows[i])|
  }

  ghost predicate TakesUp(rows: seq<Row>, interval: nat, size: nat) {
    exists layout :: IsLayoutOf(layout, rows, interval) && size == layout.at[|rows|] + 4 * |layout.restarts| + 4
  }

  lemma EntrySize(data: Bytes, limit: nat, layout: Layout, i: nat)
    requires EntriesLaid(data, limit, layout) && i < |layout.rows|
    ensures layout.shared[i] <= |layout.rows[i].key|
    ensures layout.at[i + 1] == layout.at[i] + |EntryBytes(layout.shared[i], layout.rows[i])|
  {
    assert EntryAt(data, layout, i);
  }

  class BlockBuilder {
    const interval: nat
    var buffer: Bytes
    var restarts: seq<nat>
    var counter: nat
    var lastKey: Bytes
    ghost var layout: Layout

    ghost predicate Valid()
      reads this
    {
      && interval >= 1 && counter <= interval
      && EntriesLaid(buffer, |buffer|, layout) && RestartsRecorded(layout, restarts)
      && Compressed(layout, interval) && SinceRestart(layout) == counter
      && (if layout.rows == [] then lastKey == [] && counter == 0 else lastKey == layout.rows[|layout.rows| - 1].key)
    }

    constructor (interval: nat)
      requires interval >= 1
      ensures Valid() && layout.rows == [] && this.interval == interval
    {
      this.interval := interval;
      buffer, restarts, counter, lastKey := [], [0], 0, [];
      layout := Layout([], [0], [], [0]);
    }

    method Reset()
      modifies this
      requires interval >= 1
      ensures Valid() && layout.rows == []
    {
      buffer, restarts, counter, lastKey := [], [0], 0, [];
      layout := Layout([], [0], [], [0]);
    }

    function CurrentSizeEstimate(): nat
      reads this
    {
      |buffer| + 4 * |restarts| + 4
    }

    lemma EstimateIsExact()
      requires Valid()
      ensures TakesUp(layout.rows, interval, CurrentSizeEstimate())
    {
      hide Compressed, EntryAt;
      forall i | 0 <= i < |layout.rows| ensures layout.shared[i] <= |layout.rows[i].key|
          && layout.at[i + 1] == layout.at[i] + |EntryBytes(layout.shared[i], layout.rows[i])| {
        EntrySize(buffer, |buffer|, layout, i);
      }
      assert IsLayoutOf(layout, layout.rows, interval);
    }

    predicate Empty()
      reads this
    {
      buffer == []
    }

    lemma EmptyHasNoRows()
      requires Valid()
      ensures Empty() <==> layout.rows == []
      ensures Empty() ==> CurrentSizeEstimate() == 8
    {
      OffsetsAscend(buffer, |buffer|, layout, 0, |layout.rows|);
      var last := |restarts| - 1;
      assert restarts[last] == layout.at[layout.restarts[last]];
    }

    // How much of the key repeats the start of the previous key.
    method SharedWithLast(key: Bytes) returns (shared: nat)
      ensures CommonPrefix(lastKey, key, shared)
    {
      var minLength := if |lastKey| < |key| then |lastKey| else |key|;
      shared := 0;
      while shared < minLength && lastKey[shared] == key[shared]
        invariant shared <= minLength && key[..shared] == lastKey[..shared]
      {
        shared := shared + 1;
      }
    }

    // Add: one entry more in the layout, encoded at the end of the buffer.
    method Add(key: Bytes, value: Bytes)
      requires Valid() && |key| < TWO_32 && |value| < TWO_32 && |buffer| < TWO_32
      modifies this
      ensures Valid() && layout.rows == old(layout.rows) + [Row(key, value)]
      ensures |restarts| <= old(|restarts|) + 1
    {
      hide EntriesLaid, RestartsRecorded, Varint, Compressed;
      LastOffset(buffer, layout);
      ghost var row := Row(key, value);
      var shared := 0;
      ghost var restart := counter == interval;
      if counter < interval {
        shared := SharedWithLast(key);
      } else {
        restarts := restarts + [|buffer|];
        counter := 0;
      }
      EntriesGrow(buffer, layout, row, shared, restart);
      CompressedGrows(layout, interval, row, shared, |buffer + EntryBytes(shared, row)|, restart);
      RestartsGrow(layout, old(restarts), row, shared, |buffer + EntryBytes(shared, row)|, restart);
      buffer := buffer + (Varint(shared) + Varint(|key| - shared) + Varint(|value|) + key[shared..] + value);
      layout := AddRow(layout, row, shared, |buffer|, restart);
      lastKey := lastKey[..shared] + key[shared..];
      counter := counter + 1;
    }

    // Finish: the restart array and its length end the block.
    method Finish() returns (data: Bytes)
      requires Valid() && |restarts| < TWO_32
      ensures |buffer| + 4 * |restarts| + 4 == |data| && Laid(data, |buffer|, |restarts|, layout)
      ensures OpenBlock(data) == Some((|buffer|, |restarts|)) && IsBlock(data, layout.rows)
      ensures Compressed(layout, interval)
    {
      data := buffer + Fixed32Array(restarts) + Fixed32(|restarts|);
      BlockIsLaid(buffer, restarts, layout);
    }
  }

  lemma SliceOfSlice(b: Bytes, from: nat, to: nat, lo: nat, hi: nat)
    requires from <= to <= |b| && lo <= hi <= to - from
    ensures b[from..to][lo..hi] == b[from + lo..from + hi]
  {
    var whole := b[from..to];
    var a, c := whole[lo..hi], b[from + lo..from + hi];
    assert forall k :: 0 <= k < |a| ==> a[k] == whole[lo + k] == b[from + lo + k] == c[k];
  }

  lemma RestartsReadBack(buffer: Bytes, restarts: seq<nat>, j: nat)
    requires j < |restarts| < TWO_32 && forall k :: 0 <= k < |restarts| ==> restarts[k] < TWO_32
    ensures var data := buffer + Fixed32Array(restarts) + Fixed32(|restarts|);
            |data| == |buffer| + 4 * |restarts| + 4 && RestartPoint(data, |buffer|, j) == restarts[j]
  {
    Fixed32ArrayLength(restarts);
    ArrayReadsBack(buffer, restarts, Fixed32(|restarts|), j);
    hide Fixed32Array, DecodeFixed32, Fixed32;
  }

  lemma EntriesReadBack(buffer: Bytes, tail: Bytes, layout: Layout)
    requires EntriesLaid(buffer, |buffer|, layout)
    ensures EntriesLaid(buffer + tail, |buffer|, layout)
  {
    hide EntryBytes;
    forall i | 0 <= i < |layout.rows| ensures EntryAt(buffer + tail, layout, i) {
      assert EntryAt(buffer, layout, i);
      assert (buffer + tail)[layout.at[i]..layout.at[i + 1]] == buffer[layout.at[i]..layout.at[i + 1]];
    }
  }

  lemma OpensAsBuilt(front: Bytes, count: Uint32)
    requires |front| >= 4 * count
    ensures OpenBlock(front + Fixed32(count)) == Some((|front| - 4 * count, count))
  {
    var data := front + Fixed32(count);
    assert data[|data| - 4..] == Fixed32(count) + [];
    Fixed32RoundTrip(count, []);
  }

  lemma BlockIsLaid(buffer: Bytes, restarts: seq<nat>, layout: Layout)
    requires EntriesLaid(buffer, |buffer|, layout) && RestartsRecorded(layout, restarts) && |restarts| < TWO_32
    ensures var data := buffer + Fixed32Array(restarts) + Fixed32(|restarts|);
            && |buffer| + 4 * |restarts| + 4 == |data| && Laid(data, |buffer|, |restarts|, layout)
            && OpenBlock(data) == Some((|buffer|, |restarts|))
  {
    Fixed32ArrayLength(restarts);
    EntriesReadBack(buffer, Fixed32Array(restarts) + Fixed32(|restarts|), layout);
    OpensAsBuilt(buffer + Fixed32Array(restarts), |restarts|);
    hide EntriesLaid, RestartPoint, Fixed32Array, OpenBlock, RestartsOk, Fixed32;
    var data := buffer + Fixed32Array(restarts) + Fixed32(|restarts|);
    assert data == buffer + (Fixed32Array(restarts) + Fixed32(|restarts|));
    forall j | 0 <= j < |restarts| ensures RestartPoint(data, |buffer|, j) == restarts[j] {
      RestartsReadBack(buffer, restarts, j);
    }
  }

  // ----- opening -----

  // Block::Block: the offset of the restart array and its length, unless the block is too small.
  function OpenBlock(data: Bytes): (r: Option<(nat, nat)>)
    ensures r.Some? ==> r.value.0 + 4 * r.value.1 + 4 == |data|
  {
    if |data| < 4 then None
    else
      var count := DecodeFixed32(data[|data| - 4..]);
      if count > (|data| - 4) / 4 then None else Some((|data| - (1 + count) * 4, count))
  }

  // `data` opens as a block of these rows.
  ghost predicate IsBlock(data: Bytes, rows: seq<Row>) {
    var o := OpenBlock(data);
    && o.Some? && o.value.1 > 0
    && exists layout: Layout :: Laid(data, o.value.0, o.value.1, layout) && layout.rows == rows
  }
}

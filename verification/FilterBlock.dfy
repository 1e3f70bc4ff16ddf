/** One filter for every 2 KB of table file, and the offsets to find them by
    (table/filter_block.cc). */
module FilterBlocks {
  import opened Coding
  import opened BloomFilters

  const BASE_LG: nat := 11
  const BASE: nat := 2048

  // The filter for the block of a file that starts at this offset.
  function FilterIndex(blockOffset: nat): nat {
    blockOffset / BASE
  }

  lemma IndexGrows(a: nat, b: nat)
    requires a <= b
    ensures FilterIndex(a) <= FilterIndex(b)
  {
  }

  // The bytes of a filter, and a filter's bits.
  function Octets(filter: seq<bv8>): Bytes {
    seq(|filter|, i requires 0 <= i < |filter| => filter[i] as nat)
  }

  function Bits(b: Bytes): seq<bv8> {
    seq(|b|, i requires 0 <= i < |b| => b[i] as bv8)
  }

  lemma BitsOfOctets(filter: seq<bv8>)
    ensures Bits(Octets(filter)) == filter
  {
  }

  // Where the i-th filter ends.
  function FilterEnd(result: Bytes, offsets: seq<nat>, i: nat): nat {
    if i + 1 < |offsets| then offsets[i + 1] else |result|
  }

  // The filter policy: hash, bits a key, probes.
  datatype Policy = Policy(hash: Hash, bitsPerKey: nat, k: nat)

  // What the filter of a group of keys answers: no if there are none.
  ghost predicate GroupAllows(p: Policy, keys: seq<Bytes>, key: Bytes) {
    keys != [] && Allows(p.hash, p.bitsPerKey, p.k, keys, key)
  }

  // The i-th filter answers for the i-th group, exactly.
  ghost predicate FilterOk(p: Policy, result: Bytes, offsets: seq<nat>, groups: seq<seq<Bytes>>, i: nat)
    requires i < |offsets| == |groups|
  {
    && offsets[i] <= FilterEnd(result, offsets, i) <= |result|
    && forall key :: MayMatch(p.hash, key, Bits(result[offsets[i]..FilterEnd(result, offsets, i)])) <==>
                       GroupAllows(p, groups[i], key)
  }

  ghost predicate FiltersOk(p: Policy, result: Bytes, offsets: seq<nat>, groups: seq<seq<Bytes>>) {
    |groups| == |offsets| && forall i :: 0 <= i < |offsets| ==> FilterOk(p, result, offsets, groups, i)
  }

  lemma FiltersGrow(p: Policy, result: Bytes, offsets: seq<nat>, groups: seq<seq<Bytes>>, filter: seq<bv8>,
                    keys: seq<Bytes>)
    requires FiltersOk(p, result, offsets, groups)
    requires forall key :: MayMatch(p.hash, key, filter) <==> GroupAllows(p, keys, key)
    ensures FiltersOk(p, result + Octets(filter), offsets + [|result|], groups + [keys])
  {
    BitsOfOctets(filter);
    hide MayMatch, Bits, Octets, GroupAllows;
    var result', offsets', groups' := result + Octets(filter), offsets + [|result|], groups + [keys];
    forall i | 0 <= i < |offsets'| ensures FilterOk(p, result', offsets', groups', i) {
      if i < |offsets| {
        assert FilterOk(p, result, offsets, groups, i);
        assert FilterEnd(result', offsets', i) == FilterEnd(result, offsets, i);
        assert result'[offsets[i]..FilterEnd(result, offsets, i)] == result[offsets[i]..FilterEnd(result, offsets, i)];
      } else {
        assert result'[offsets'[i]..FilterEnd(result', offsets', i)] == Octets(filter);
      }
    }
  }

  class FilterBlockBuilder {
    const hash: Hash
    const bitsPerKey: nat
    const k: nat
    var keys: seq<Bytes>          // keys of the filter under way
    var result: Bytes
    var offsets: seq<nat>
    ghost var groups: seq<seq<Bytes>> // keys of the finished filters

    ghost predicate Valid()
      reads this
    {
      && 1 <= k <= 30 && |groups| == |offsets|
      && (|result| < TWO_32 ==> FiltersOk(Settings(), result, offsets, groups))
    }

    function Settings(): Policy {
      Policy(hash, bitsPerKey, k)
    }

    // The key went into the filter of index `i`, finished or under way.
    ghost predicate Holds(i: nat, key: Bytes)
      reads this
    {
      (i < |groups| && key in groups[i]) || (i == |groups| && key in keys)
    }

    constructor (hash: Hash, bitsPerKey: nat, k: nat)
      requires 1 <= k <= 30
      ensures Valid() && offsets == [] && keys == [] && this.hash == hash
    {
      this.hash, this.bitsPerKey, this.k := hash, bitsPerKey, k;
      keys, result, offsets, groups := [], [], [], [];
    }

    method GenerateFilter()
      requires Valid()
      modifies this
      ensures Valid() && |offsets| == old(|offsets|) + 1 && keys == [] && groups == old(groups) + [old(keys)]
      ensures forall i, key :: old(Holds(i, key)) ==> Holds(i, key)
    {
      hide FiltersOk, Octets, Allows;
      var filter: seq<bv8> := [];
      if keys != [] {
        filter := CreateFilter(hash, bitsPerKey, k, keys);
      }
      if |result| < TWO_32 {
        FiltersGrow(Settings(), result, offsets, groups, filter, keys);
      }
      offsets := offsets + [|result| % TWO_32];
      result := result + Octets(filter);
      groups := groups + [keys];
      keys := [];
    }

    // StartBlock: filters for the stretches of the file that are complete.
    method StartBlock(blockOffset: nat)
      requires Valid() && FilterIndex(blockOffset) >= |offsets|
      modifies this
      ensures Valid() && |offsets| == FilterIndex(blockOffset)
      ensures groups == old(groups) + Started(old(keys), FilterIndex(blockOffset) - old(|offsets|))
      ensures keys == if FilterIndex(blockOffset) > old(|offsets|) then [] else old(keys)
      ensures forall i, key :: old(Holds(i, key)) ==> Holds(i, key)
    {
      hide FiltersOk;
      var filterIndex := FilterIndex(blockOffset);
      while filterIndex > |offsets|
        invariant Valid() && old(|offsets|) <= |offsets| <= filterIndex
        invariant groups == old(groups) + Started(old(keys), |offsets| - old(|offsets|))
        invariant keys == if |offsets| > old(|offsets|) then [] else old(keys)
        invariant forall i, key :: old(Holds(i, key)) ==> Holds(i, key)
        decreases filterIndex - |offsets|
      {
        GenerateFilter();
      }
    }

    method AddKey(key: Bytes)
      requires Valid()
      modifies this`keys
      ensures Valid() && Holds(|offsets|, key) && keys == old(keys) + [key]
      ensures forall i, other :: old(Holds(i, other)) ==> Holds(i, other)
    {
      keys := keys + [key];
    }

    // Finish: filters, their offsets, the offset of that array, the base. At a block's offset exactly
    // the keys its group's filter stands for are allowed, those added there among them.
    method Finish() returns (contents: Bytes)
      requires Valid()
      modifies this
      ensures groups == old(groups) + if old(keys) == [] then [] else [old(keys)]
      ensures |contents| < TWO_32 ==> forall off: nat, key ::
                KeyAllowed(hash, contents, off, key) <==>
                  (FilterIndex(off) < |groups| ==> GroupAllows(Settings(), groups[FilterIndex(off)], key))
      ensures |contents| < TWO_32 ==>
                forall off: nat, key :: old(Holds(FilterIndex(off), key)) ==> KeyAllowed(hash, contents, off, key)
    {
      hide FiltersOk, GroupAllows, FilterIndex, BlockBytes, KeyAllowed;
      if keys != [] {
        GenerateFilter();
      }
      assert groups == old(groups) + if old(keys) == [] then [] else [old(keys)];
      contents := BlockBytes(result, offsets);
      BlockLength(result, offsets);
      if |contents| < TWO_32 {
        forall off: nat, key
          ensures KeyAllowed(hash, contents, off, key) <==>
                    (FilterIndex(off) < |groups| ==> GroupAllows(Settings(), groups[FilterIndex(off)], key))
        {
          FinishedAllows(Settings(), result, offsets, groups, off, key);
        }
        forall off: nat, key | old(Holds(FilterIndex(off), key)) ensures KeyAllowed(hash, contents, off, key) {
          assert Holds(FilterIndex(off), key);
          GroupAllowsOwn(Settings(), groups[FilterIndex(off)], key);
        }
      }
    }
  }

  // The groups that starting a block finishes: the keys at hand, then empty ones.
  function Started(keys: seq<Bytes>, n: nat): seq<seq<Bytes>> {
    if n == 0 then [] else Started(keys, n - 1) + [if n == 1 then keys else []]
  }

  lemma GroupAllowsOwn(p: Policy, keys: seq<Bytes>, key: Bytes)
    requires key in keys
    ensures GroupAllows(p, keys, key)
  {
    OwnKeysAllowed(p.hash, p.bitsPerKey, p.k, keys);
  }

  function BlockBytes(result: Bytes, offsets: seq<nat>): Bytes {
    var all := seq(|offsets|, i requires 0 <= i < |offsets| => offsets[i] % TWO_32) + [|result| % TWO_32];
    result + Fixed32Array(all) + [BASE_LG]
  }

  lemma BlockLength(result: Bytes, offsets: seq<nat>)
    ensures |BlockBytes(result, offsets)| == |result| + 4 * |offsets| + 5
  {
    Fixed32ArrayLength(seq(|offsets|, i requires 0 <= i < |offsets| => offsets[i] % TWO_32) + [|result| % TWO_32]);
  }

  // ----- reading -----

  // What FilterBlockReader keeps of the block; no filters if it is out of shape.
  datatype FilterReader = FilterReader(contents: Bytes, start: nat, num: nat, baseLg: nat)

  function OpenFilter(contents: Bytes): (r: FilterReader)
    ensures r.contents == contents && r.start + 4 * r.num + (if r.num > 0 then 5 else 0) <= |contents|
  {
    var n := |contents|;
    if n < 5 then FilterReader(contents, 0, 0, 0)
    else
      var lastWord := DecodeFixed32(contents[n - 5..]);
      if lastWord > n - 5 then FilterReader(contents, 0, 0, contents[n - 1])
      else FilterReader(contents, lastWord, (n - 5 - lastWord) / 4, contents[n - 1])
  }

  // block_offset >> base_lg
  function IndexAt(blockOffset: nat, baseLg: nat): nat {
    if baseLg == 0 then blockOffset else IndexAt(blockOffset, baseLg - 1) / 2
  }

  lemma IndexIsFilterIndex(off: nat)
    ensures IndexAt(off, BASE_LG) == FilterIndex(off)
  {
    assert IndexAt(off, 0) == off && IndexAt(off, 1) == off / 2 && IndexAt(off, 2) == off / 4;
    assert IndexAt(off, 3) == off / 8 && IndexAt(off, 4) == off / 16 && IndexAt(off, 5) == off / 32;
    assert IndexAt(off, 6) == off / 64 && IndexAt(off, 7) == off / 128 && IndexAt(off, 8) == off / 256;
    assert IndexAt(off, 9) == off / 512 && IndexAt(off, 10) == off / 1024;
  }

  // What FilterBlockReader::KeyMayMatch answers; anything out of shape counts as a match.
  ghost predicate KeyAllowed(hash: Hash, contents: Bytes, blockOffset: nat, key: Bytes) {
    var reader := OpenFilter(contents);
    var index := IndexAt(blockOffset, reader.baseLg);
    index < reader.num ==>
      var start := DecodeFixed32(contents[reader.start + 4 * index..]);
      var limit := DecodeFixed32(contents[reader.start + 4 * index + 4..]);
      if start <= limit <= reader.start then MayMatch(hash, key, Bits(contents[start..limit])) else start != limit
  }

  method KeyMayMatch(hash: Hash, contents: Bytes, blockOffset: nat, key: Bytes) returns (r: bool)
    ensures r <==> KeyAllowed(hash, contents, blockOffset, key)
  {
    hide IndexAt, DecodeFixed32, MayMatch, Bits, OpenFilter;
    var reader := OpenFilter(contents);
    var index := IndexAt(blockOffset, reader.baseLg);
    if index < reader.num {
      var start := DecodeFixed32(contents[reader.start + 4 * index..]);
      var limit := DecodeFixed32(contents[reader.start + 4 * index + 4..]);
      if start <= limit <= reader.start {
        r := BloomFilters.KeyMayMatch(hash, key, Bits(contents[start..limit]));
        return;
      } else if start == limit {
        return false;
      }
    }
    return true;
  }

  lemma OpensAt(contents: Bytes, start: nat, num: nat)
    requires |contents| == start + 4 * num + 5 && DecodeFixed32(contents[start + 4 * num..]) == start
    ensures OpenFilter(contents) == FilterReader(contents, start, num, contents[|contents| - 1])
  {
    hide DecodeFixed32;
  }

  lemma BlockOpens(result: Bytes, offsets: seq<nat>)
    requires |result| < TWO_32 && forall i :: 0 <= i < |offsets| ==> offsets[i] < TWO_32
    ensures var contents := BlockBytes(result, offsets);
            OpenFilter(contents) == FilterReader(contents, |result|, |offsets|, BASE_LG)
  {
    var all := offsets + [|result|];
    assert all == seq(|offsets|, i requires 0 <= i < |offsets| => offsets[i] % TWO_32) + [|result| % TWO_32];
    BlockLength(result, offsets);
    ArrayReadsBack(result, all, [BASE_LG], |offsets|);
    hide Fixed32Array, DecodeFixed32, OpenFilter;
    OpensAt(BlockBytes(result, offsets), |result|, |offsets|);
  }

  // The reader finds the offsets where the builder put them.
  lemma OffsetsReadBack(result: Bytes, offsets: seq<nat>, index: nat)
    requires |result| < TWO_32 && (forall i :: 0 <= i < |offsets| ==> offsets[i] < TWO_32) && index < |offsets|
    ensures var contents := BlockBytes(result, offsets);
            && |result| + 4 * index + 8 <= |contents|
            && DecodeFixed32(contents[|result| + 4 * index..]) == offsets[index]
            && DecodeFixed32(contents[|result| + 4 * index + 4..]) == FilterEnd(result, offsets, index)
  {
    var all := offsets + [|result|];
    assert all == seq(|offsets|, i requires 0 <= i < |offsets| => offsets[i] % TWO_32) + [|result| % TWO_32];
    ArrayReadsBack(result, all, [BASE_LG], index);
    ArrayReadsBack(result, all, [BASE_LG], index + 1);
    BlockLength(result, offsets);
    hide Fixed32Array, DecodeFixed32;
  }

  lemma OffsetsFit(p: Policy, result: Bytes, offsets: seq<nat>, groups: seq<seq<Bytes>>)
    requires |result| < TWO_32 && FiltersOk(p, result, offsets, groups)
    ensures |groups| == |offsets| && forall i :: 0 <= i < |offsets| ==> offsets[i] < TWO_32
  {
    forall i | 0 <= i < |offsets| ensures offsets[i] < TWO_32 {
      assert FilterOk(p, result, offsets, groups, i);
    }
  }

  lemma FinishedAllows(p: Policy, result: Bytes, offsets: seq<nat>, groups: seq<seq<Bytes>>, off: nat, key: Bytes)
    requires |result| < TWO_32 && FiltersOk(p, result, offsets, groups)
    ensures KeyAllowed(p.hash, BlockBytes(result, offsets), off, key) <==>
              (FilterIndex(off) < |groups| ==> GroupAllows(p, groups[FilterIndex(off)], key))
  {
    var index, contents := FilterIndex(off), BlockBytes(result, offsets);
    OffsetsFit(p, result, offsets, groups);
    BlockOpens(result, offsets);
    BlockLength(result, offsets);
    IndexIsFilterIndex(off);
    if index < |groups| {
      OffsetsReadBack(result, offsets, index);
      assert FilterOk(p, result, offsets, groups, index);
      var start, limit := offsets[index], FilterEnd(result, offsets, index);
      hide MayMatch, DecodeFixed32, IndexAt, FilterIndex, OpenFilter, Bits, FiltersOk, FilterEnd, GroupAllows;
      assert contents[start..limit] == result[start..limit];
      hide BlockBytes;
      AllowedIf(p.hash, contents, off, key, index, start, limit);
    }
    hide FiltersOk, IndexAt, FilterIndex, OpenFilter, BlockBytes, GroupAllows;
  }

  lemma AllowedIf(hash: Hash, contents: Bytes, off: nat, key: Bytes, index: nat, start: nat, limit: nat)
    requires var reader := OpenFilter(contents);
             && index == IndexAt(off, reader.baseLg) && index < reader.num
             && start == DecodeFixed32(contents[reader.start + 4 * index..])
             && limit == DecodeFixed32(contents[reader.start + 4 * index + 4..])
             && start <= limit <= reader.start
    ensures KeyAllowed(hash, contents, off, key) <==> MayMatch(hash, key, Bits(contents[start..limit]))
  {
    hide MayMatch, DecodeFixed32, IndexAt, OpenFilter, Bits;
  }
}

/** The Bloom filter: its bits are exactly the probes of its keys, so it denies none of them, and no
    more than it must of the others (util/bloom.cc). The hash is any function of the key. */
module BloomFilters {
  import opened Coding

  type Hash = Bytes -> Uint32

  // ----- bits of a byte -----

  // 1 << i.
  function Mask(i: nat): bv8
    requires i < 8
  {
    if i == 0 then 1 else if i == 1 then 2 else if i == 2 then 4 else if i == 3 then 8
    else if i == 4 then 16 else if i == 5 then 32 else if i == 6 then 64 else 128
  }

  predicate CellBit(cells: seq<bv8>, a: nat, i: nat)
    requires a < |cells| && i < 8
  {
    cells[a] & Mask(i) != 0
  }

  function SetCellBit(cells: seq<bv8>, a: nat, i: nat): seq<bv8>
    requires a < |cells| && i < 8
  {
    cells[a := cells[a] | Mask(i)]
  }

  predicate Bit(cells: seq<bv8>, pos: nat)
    requires pos < 8 * |cells|
  {
    CellBit(cells, pos / 8, pos % 8)
  }

  function SetBit(cells: seq<bv8>, pos: nat): (r: seq<bv8>)
    requires pos < 8 * |cells|
    ensures |r| == |cells|
  {
    SetCellBit(cells, pos / 8, pos % 8)
  }

  lemma MasksAreBits(b: bv8, i: nat, j: nat)
    requires i < 8 && j < 8
    ensures (b | Mask(i)) & Mask(j) != 0 <==> i == j || b & Mask(j) != 0
  {
  }

  lemma CellBitSets(cells: seq<bv8>, a: nat, i: nat, b: nat, j: nat)
    requires a < |cells| && b < |cells| && i < 8 && j < 8
    ensures CellBit(SetCellBit(cells, a, i), b, j) <==> (a == b && i == j) || CellBit(cells, b, j)
  {
    MasksAreBits(cells[a], i, j);
    hide Mask;
  }

  lemma SamePosition(p: nat, q: nat)
    ensures p / 8 == q / 8 && p % 8 == q % 8 <==> p == q
  {
    assert p == 8 * (p / 8) + p % 8 && q == 8 * (q / 8) + q % 8;
  }

  lemma SetBitSets(cells: seq<bv8>, pos: nat, q: nat)
    requires pos < 8 * |cells| && q < 8 * |cells|
    ensures Bit(SetBit(cells, pos), q) <==> q == pos || Bit(cells, q)
  {
    SamePosition(pos, q);
    CellBitSets(cells, pos / 8, pos % 8, q / 8, q % 8);
    hide CellBit, SetCellBit;
  }

  // ----- probes -----

  // (h >> 17) | (h << 15) in 32 bits.
  function Delta(h: Uint32): Uint32 {
    h / 0x2_0000 + (h % 0x2_0000) * 0x8000
  }

  // The hash value of the j-th probe: double hashing, in 32 bits.
  function Probe(h: Uint32, j: nat): Uint32 {
    if j == 0 then h else (Probe(h, j - 1) + Delta(h)) % TWO_32
  }

  ghost predicate AllProbesSet(cells: seq<bv8>, h: Uint32, k: nat)
    requires |cells| > 0
  {
    forall j :: 0 <= j < k ==> ProbeSet(cells, h, j)
  }

  predicate ProbeSet(cells: seq<bv8>, h: Uint32, j: nat)
    requires |cells| > 0
  {
    Bit(cells, Probe(h, j) % (8 * |cells|))
  }

  // What KeyMayMatch answers: short filters match nothing, reserved encodings everything.
  ghost predicate MayMatch(hash: Hash, key: Bytes, filter: seq<bv8>) {
    && |filter| >= 2
    && var k := filter[|filter| - 1] as nat;
       k > 30 || AllProbesSet(filter[..|filter| - 1], hash(key), k)
  }

  // The size of the filter: at least 64 bits, in whole bytes.
  function FilterBytes(n: nat, bitsPerKey: nat): (bytes: nat)
    ensures bytes >= 8 && 8 * bytes >= n * bitsPerKey
  {
    var bits := n * bitsPerKey;
    ((if bits < 64 then 64 else bits) + 7) / 8
  }

  // CreateFilter: every key's probes are set, so no key is denied. The number of probes `k` is 0.69
  // times the bits per key, brought between 1 and 30; here it is any number in that range.
  method CreateFilter(hash: Hash, bitsPerKey: nat, k: nat, keys: seq<Bytes>) returns (filter: seq<bv8>)
    requires 1 <= k <= 30
    ensures FilterOf(hash, bitsPerKey, k, keys, filter)
    ensures forall key :: MayMatch(hash, key, filter) <==> Allows(hash, bitsPerKey, k, keys, key)
    ensures forall key :: key in keys ==> MayMatch(hash, key, filter)
  {
    var bytes := FilterBytes(|keys|, bitsPerKey);
    var cells := seq(bytes, i => 0 as bv8);
    hide FilterBytes, MayMatch, Allows, Bit, HitBy;
    NothingHit(cells, hash, keys, k);
    for i := 0 to |keys|
      invariant |cells| == bytes
      invariant forall q :: 0 <= q < 8 * bytes ==> (Bit(cells, q) <==> HitBy(hash, keys[..i], k, 8 * bytes, q))
    {
      ghost var before := cells;
      cells := AddProbes(cells, hash(keys[i]), k);
      assert keys[..i + 1] == keys[..i] + [keys[i]];
      OneMoreKey(hash, keys[..i], keys[i], k, 8 * bytes);
    }
    assert keys[..|keys|] == keys;
    filter := cells + [k as bv8];
    ProbesAreStored(k);
    assert filter[..|filter| - 1] == cells;
    FilterIsExact(hash, bitsPerKey, k, keys, filter);
  }

  // ----- what a filter is -----

  // Some probe of the hash value falls on bit `q` of `bits`.
  ghost predicate Hit(h: Uint32, k: nat, bits: nat, q: nat)
    requires bits > 0
  {
    exists j :: 0 <= j < k && Probe(h, j) % bits == q
  }

  ghost predicate HitBy(hash: Hash, keys: seq<Bytes>, k: nat, bits: nat, q: nat)
    requires bits > 0
  {
    exists m :: 0 <= m < |keys| && Hit(hash(keys[m]), k, bits, q)
  }

  // The bits set are the probes of the keys, exactly; the last byte is their number.
  ghost predicate FilterOf(hash: Hash, bitsPerKey: nat, k: nat, keys: seq<Bytes>, filter: seq<bv8>) {
    var bytes := FilterBytes(|keys|, bitsPerKey);
    && |filter| == bytes + 1 && filter[bytes] as nat == k <= 30
    && forall q :: 0 <= q < 8 * bytes ==> (Bit(filter[..bytes], q) <==> HitBy(hash, keys, k, 8 * bytes, q))
  }

  // Every probe of the key falls on a probe of one of the keys.
  ghost predicate Allows(hash: Hash, bitsPerKey: nat, k: nat, keys: seq<Bytes>, key: Bytes) {
    var bits := 8 * FilterBytes(|keys|, bitsPerKey);
    forall j :: 0 <= j < k ==> HitBy(hash, keys, k, bits, Probe(hash(key), j) % bits)
  }

  lemma NothingHit(cells: seq<bv8>, hash: Hash, keys: seq<Bytes>, k: nat)
    requires cells == seq(|cells|, i => 0 as bv8)
    ensures forall q :: 0 <= q < 8 * |cells| ==> (Bit(cells, q) <==> HitBy(hash, keys[..0], k, 8 * |cells|, q))
  {
    forall q | 0 <= q < 8 * |cells| ensures !Bit(cells, q) {
      assert cells[q / 8] == 0;
    }
  }

  lemma OneMoreKey(hash: Hash, keys: seq<Bytes>, key: Bytes, k: nat, bits: nat)
    requires bits > 0
    ensures forall q :: HitBy(hash, keys + [key], k, bits, q) <==>
                          HitBy(hash, keys, k, bits, q) || Hit(hash(key), k, bits, q)
  {
    hide Hit;
    var all := keys + [key];
    forall q ensures HitBy(hash, all, k, bits, q) <==> HitBy(hash, keys, k, bits, q) || Hit(hash(key), k, bits, q) {
      if m :| 0 <= m < |all| && Hit(hash(all[m]), k, bits, q) {
        assert m < |keys| ==> all[m] == keys[m];
      }
      if m :| 0 <= m < |keys| && Hit(hash(keys[m]), k, bits, q) {
        assert all[m] == keys[m];
      }
      if Hit(hash(key), k, bits, q) {
        assert all[|keys|] == key;
      }
    }
  }

  // What a filter answers: yes exactly to keys whose every probe is one of its keys'.
  lemma FilterIsExact(hash: Hash, bitsPerKey: nat, k: nat, keys: seq<Bytes>, filter: seq<bv8>)
    requires FilterOf(hash, bitsPerKey, k, keys, filter)
    ensures forall key :: MayMatch(hash, key, filter) <==> Allows(hash, bitsPerKey, k, keys, key)
    ensures forall key :: key in keys ==> Allows(hash, bitsPerKey, k, keys, key)
  {
    hide FilterBytes, Bit, HitBy, Probe;
    var bits := 8 * FilterBytes(|keys|, bitsPerKey);
    var cells := filter[..|filter| - 1];
    forall key ensures MayMatch(hash, key, filter) <==> Allows(hash, bitsPerKey, k, keys, key) {
      forall j | 0 <= j < k
        ensures ProbeSet(cells, hash(key), j) <==> HitBy(hash, keys, k, bits, Probe(hash(key), j) % bits)
      {
      }
    }
    OwnKeysAllowed(hash, bitsPerKey, k, keys);
  }

  lemma OwnKeysAllowed(hash: Hash, bitsPerKey: nat, k: nat, keys: seq<Bytes>)
    ensures forall key :: key in keys ==> Allows(hash, bitsPerKey, k, keys, key)
  {
    hide FilterBytes, HitBy, Probe;
    forall key | key in keys ensures Allows(hash, bitsPerKey, k, keys, key) {
      OwnKeyAllowed(hash, keys, key, k, 8 * FilterBytes(|keys|, bitsPerKey));
    }
  }

  lemma OwnKeyAllowed(hash: Hash, keys: seq<Bytes>, key: Bytes, k: nat, bits: nat)
    requires key in keys && bits > 0
    ensures forall j :: 0 <= j < k ==> HitBy(hash, keys, k, bits, Probe(hash(key), j) % bits)
  {
    var m :| 0 <= m < |keys| && keys[m] == key;
    forall j | 0 <= j < k ensures HitBy(hash, keys, k, bits, Probe(hash(key), j) % bits) {
      assert Hit(hash(keys[m]), k, bits, Probe(hash(key), j) % bits);
    }
  }

  lemma ProbesAreStored(k: nat)
    requires k <= 30
    ensures (k as bv8) as nat == k
  {
  }

  // The inner loop, for one key: its probes are set and nothing else changes.
  method AddProbes(start: seq<bv8>, h0: Uint32, k: nat) returns (cells: seq<bv8>)
    requires |start| > 0
    ensures |cells| == |start|
    ensures forall q :: 0 <= q < 8 * |start| ==> (Bit(cells, q) <==> Bit(start, q) || Hit(h0, k, 8 * |start|, q))
  {
    hide Bit, SetBit, Delta;
    cells := start;
    var h, delta := h0, Delta(h0);
    assert Probe(h0, 0) == h0;
    for j := 0 to k
      invariant |cells| == |start| && h == Probe(h0, j)
      invariant forall q :: 0 <= q < 8 * |start| ==> (Bit(cells, q) <==> Bit(start, q) || Hit(h0, j, 8 * |start|, q))
    {
      var bitpos := h % (8 * |cells|);
      ghost var before := cells;
      cells := SetBit(cells, bitpos);
      forall q | 0 <= q < 8 * |start|
        ensures Bit(cells, q) <==> Bit(start, q) || Hit(h0, j + 1, 8 * |start|, q)
      {
        SetBitSets(before, bitpos, q);
        OneMoreHit(h0, j, 8 * |start|, q);
      }
      assert Probe(h0, j + 1) == (Probe(h0, j) + Delta(h0)) % TWO_32;
      h := (h + delta) % TWO_32;
    }
  }

  lemma OneMoreHit(h: Uint32, j: nat, bits: nat, q: nat)
    requires bits > 0
    ensures Hit(h, j + 1, bits, q) <==> Hit(h, j, bits, q) || Probe(h, j) % bits == q
  {
    hide Probe;
  }

  lemma NoProbeYet(cells: seq<bv8>, h: Uint32)
    requires |cells| > 0
    ensures AllProbesSet(cells, h, 0)
  {
  }

  lemma OneMoreProbe(cells: seq<bv8>, h: Uint32, j: nat, k: nat)
    requires |cells| > 0 && AllProbesSet(cells, h, j) && j < k
    ensures ProbeSet(cells, h, j) <==> AllProbesSet(cells, h, j + 1)
    ensures !ProbeSet(cells, h, j) ==> !AllProbesSet(cells, h, k)
  {
    hide ProbeSet;
  }

  // KeyMayMatch computes the predicate.
  method KeyMayMatch(hash: Hash, key: Bytes, filter: seq<bv8>) returns (r: bool)
    ensures r <==> MayMatch(hash, key, filter)
  {
    if |filter| < 2 {
      return false;
    }
    var cells := filter[..|filter| - 1];
    var k := filter[|filter| - 1] as nat;
    if k > 30 {
      return true;
    }
    hide Bit, Delta, AllProbesSet;
    NoProbeYet(cells, hash(key));
    var h := hash(key);
    var delta := Delta(h);
    for j := 0 to k
      invariant h == Probe(hash(key), j) && AllProbesSet(cells, hash(key), j)
    {
      var bitpos := h % (8 * |cells|);
      OneMoreProbe(cells, hash(key), j, k);
      if !Bit(cells, bitpos) {
        return false;
      }
      h := (h + delta) % TWO_32;
    }
    return true;
  }
}

/** Byte-string user keys: bytewise order, shortest separators, and the same for internal keys
    (util/comparator.cc, db/dbformat.cc). */
module ByteKeys {
  import opened Coding

  // Slice::compare < 0.
  predicate Less(a: Bytes, b: Bytes) {
    if b == [] then false
    else if a == [] then true
    else if a[0] != b[0] then a[0] < b[0]
    else Less(a[1..], b[1..])
  }

  lemma {:induction false} LessIsTotal(a: Bytes, b: Bytes)
    ensures !(Less(a, b) && Less(b, a))
    ensures Less(a, b) || Less(b, a) || a == b
    ensures a == b ==> !Less(a, b)
  {
    if a != [] && b != [] && a[0] == b[0] {
      LessIsTotal(a[1..], b[1..]);
      assert a == [a[0]] + a[1..] && b == [b[0]] + b[1..];
    }
  }

  lemma {:induction false} LessIsTransitive(a: Bytes, b: Bytes, c: Bytes)
    requires Less(a, b) && Less(b, c)
    ensures Less(a, c)
  {
    if a != [] && a[0] == b[0] && b[0] == c[0] {
      LessIsTransitive(a[1..], b[1..], c[1..]);
    }
  }

  // The first differing byte decides.
  lemma {:induction false} FirstDifference(a: Bytes, b: Bytes, d: nat)
    requires d < |a| && d < |b| && a[..d] == b[..d] && a[d] < b[d]
    ensures Less(a, b)
  {
    if d > 0 {
      assert a[0] == a[..d][0] == b[..d][0] == b[0];
      assert a[1..][..d - 1] == a[..d][1..] && b[1..][..d - 1] == b[..d][1..];
      FirstDifference(a[1..], b[1..], d - 1);
    }
  }

  // The first byte in which `a` and `b` differ, and it can be raised without reaching b's.
  ghost predicate Raisable(a: Bytes, b: Bytes, d: nat) {
    d < |a| && d < |b| && a[..d] == b[..d] && a[d] as nat + 1 < b[d]
  }

  function RaisedAt(a: Bytes, d: nat): Bytes
    requires d < |a| && a[d] < 0xff
  {
    a[..d] + [a[d] + 1]
  }

  // Nothing shorter lies between: what does starts with the common prefix and goes on.
  lemma {:induction false} RaisedIsShortest(a: Bytes, b: Bytes, d: nat, x: Bytes)
    requires Raisable(a, b, d) && Less(a, x) && Less(x, b)
    ensures |x| >= d + 1
  {
    if d > 0 {
      assert a[0] == a[..d][0] == b[..d][0] == b[0];
      assert a[1..][..d - 1] == a[..d][1..] && b[1..][..d - 1] == b[..d][1..];
      RaisedIsShortest(a[1..], b[1..], d - 1, x[1..]);
    }
  }

  lemma PrefixAgrees(a: Bytes, b: Bytes, n: nat, i: nat)
    requires n <= |a| && n <= |b| && a[..n] == b[..n]
    ensures i < n ==> a[i] == b[i]
  {
    if i < n {
      assert a[..n][i] == b[..n][i];
    }
  }

  // FindShortestSeparator: where the first difference leaves room, one of the shortest byte strings
  // strictly between the key and the limit; the key itself otherwise.
  method FindShortestSeparator(start: Bytes, limit: Bytes) returns (r: Bytes)
    ensures forall d: nat :: Raisable(start, limit, d) ==> r == RaisedAt(start, d)
    ensures r != start ==> exists d: nat :: Raisable(start, limit, d)
    ensures r != start ==> Less(start, r) && Less(r, limit) && |r| <= |start|
    ensures r != start ==> forall x :: Less(start, x) && Less(x, limit) ==> |x| >= |r|
  {
    var minLength := if |start| < |limit| then |start| else |limit|;
    var diff := 0;
    while diff < minLength && start[diff] == limit[diff]
      invariant diff <= minLength && start[..diff] == limit[..diff]
    {
      diff := diff + 1;
    }
    r := start;
    if diff < minLength {
      var diffByte := start[diff];
      if diffByte < 0xff && diffByte + 1 < limit[diff] {
        r := start[..diff] + [diffByte + 1];
        assert r[..diff] == start[..diff] && Raisable(start, limit, diff);
        FirstDifference(start, r, diff);
        FirstDifference(r, limit, diff);
        forall x | Less(start, x) && Less(x, limit) ensures |x| >= |r| {
          RaisedIsShortest(start, limit, diff, x);
        }
      }
    }
    forall d: nat | Raisable(start, limit, d) ensures d == diff {
      PrefixAgrees(start, limit, diff, d);
      PrefixAgrees(start, limit, d, diff);
    }
  }

  // The first byte that can be raised at all.
  ghost predicate FirstBelowMax(key: Bytes, i: nat) {
    i < |key| && key[i] < 0xff && forall j :: 0 <= j < i ==> key[j] == 0xff
  }

  // FindShortSuccessor: the key up to its first byte below 0xff, raised; a run of 0xff stays.
  method FindShortSuccessor(key: Bytes) returns (r: Bytes)
    ensures forall i: nat :: FirstBelowMax(key, i) ==> r == RaisedAt(key, i)
    ensures r != key ==> (exists i: nat :: FirstBelowMax(key, i)) && Less(key, r) && |r| <= |key|
  {
    var i := 0;
    while i < |key|
      invariant i <= |key| && forall j :: 0 <= j < i ==> key[j] == 0xff
    {
      var byte := key[i];
      if byte != 0xff {
        r := key[..i] + [byte + 1];
        assert r[..i] == key[..i] && FirstBelowMax(key, i);
        FirstDifference(key, r, i);
        return;
      }
      i := i + 1;
    }
    return key;
  }

  // ----- internal keys -----

  // The trailer is (sequence << 8) | type.
  datatype InternalKey = InternalKey(ukey: Bytes, trailer: nat)

  // kMaxSequenceNumber with kValueTypeForSeek: nothing of the user key sorts before it.
  const MAX_TRAILER: nat := 0xFF_FFFF_FFFF_FFFF * 256 + 1

  predicate KeyLess(a: InternalKey, b: InternalKey) {
    Less(a.ukey, b.ukey) || (a.ukey == b.ukey && a.trailer > b.trailer)
  }

  lemma KeyLessIsTotal(a: InternalKey, b: InternalKey)
    ensures !(KeyLess(a, b) && KeyLess(b, a))
    ensures KeyLess(a, b) || KeyLess(b, a) || a == b
    ensures a == b ==> !KeyLess(a, b)
  {
    LessIsTotal(a.ukey, b.ukey);
  }

  lemma KeyLessIsTransitive(a: InternalKey, b: InternalKey, c: InternalKey)
    requires KeyLess(a, b) && KeyLess(b, c)
    ensures KeyLess(a, c)
  {
    if a.ukey != b.ukey && b.ukey != c.ukey {
      LessIsTransitive(a.ukey, b.ukey, c.ukey);
    }
  }

  // The separator: a user key strictly between the two, if the byte to raise is not the last of its
  // key, else the key itself. It never falls between two versions of one user key.
  method InternalSeparator(start: InternalKey, limit: InternalKey) returns (r: InternalKey)
    ensures r == start || (Less(start.ukey, r.ukey) && Less(r.ukey, limit.ukey) && r.trailer == MAX_TRAILER)
    ensures forall d: nat :: Raisable(start.ukey, limit.ukey, d) && d + 1 < |start.ukey| ==>
              r.ukey == RaisedAt(start.ukey, d)
    ensures r == start || (|r.ukey| < |start.ukey| && exists d: nat :: Raisable(start.ukey, limit.ukey, d))
  {
    var tmp := FindShortestSeparator(start.ukey, limit.ukey);
    if |tmp| < |start.ukey| && Less(start.ukey, tmp) {
      LessIsTotal(start.ukey, start.ukey);
      return InternalKey(tmp, MAX_TRAILER);
    }
    return start;
  }

  method InternalSuccessor(key: InternalKey) returns (r: InternalKey)
    ensures r == key || (Less(key.ukey, r.ukey) && r.trailer == MAX_TRAILER && |r.ukey| < |key.ukey|)
    ensures forall i: nat :: FirstBelowMax(key.ukey, i) && i + 1 < |key.ukey| ==> r.ukey == RaisedAt(key.ukey, i)
  {
    var tmp := FindShortSuccessor(key.ukey);
    if |tmp| < |key.ukey| && Less(key.ukey, tmp) {
      return InternalKey(tmp, MAX_TRAILER);
    }
    return key;
  }

  // ----- internal keys as bytes -----

  // AppendInternalKey.
  function EncodeKey(k: InternalKey): (r: Bytes)
    ensures |r| == |k.ukey| + 8
  {
    k.ukey + Fixed64(k.trailer)
  }

  // User key and trailer. Where the code asserts that there is room for a trailer, a shorter string
  // here is a user key with a trailer no key has, which keeps the order below total.
  function SplitKey(b: Bytes): InternalKey {
    if |b| < 8 then InternalKey(b, TWO_64)
    else InternalKey(b[..|b| - 8], DecodeFixed64(b[|b| - 8..]))
  }

  lemma KeyRoundTrip(k: InternalKey)
    requires k.trailer < TWO_64
    ensures SplitKey(EncodeKey(k)) == k
  {
    Fixed64RoundTrip(k.trailer, []);
    hide Fixed64, DecodeFixed64;
    assert Fixed64(k.trailer) + [] == Fixed64(k.trailer);
    assert EncodeKey(k)[|k.ukey|..] == Fixed64(k.trailer);
  }

  lemma SplitIsInjective(a: Bytes, b: Bytes)
    requires SplitKey(a) == SplitKey(b)
    ensures a == b
  {
    if |a| >= 8 && |b| >= 8 {
      Fixed64Back(a[|a| - 8..]);
      Fixed64Back(b[|b| - 8..]);
      hide Fixed64, DecodeFixed64;
      assert a == a[..|a| - 8] + a[|a| - 8..] && b == b[..|b| - 8] + b[|b| - 8..];
    }
  }

  // InternalKeyComparator::Compare(a, b) < 0 on keys as bytes.
  predicate EncodedLess(a: Bytes, b: Bytes) {
    KeyLess(SplitKey(a), SplitKey(b))
  }
}

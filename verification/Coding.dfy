/** Fixed-width and variable-length integers as bytes, and the masked checksum
    (util/coding.h, util/coding.cc, util/crc32c.h). */
module Coding {
  import opened Wrappers

  type Byte = b: int | 0 <= b < 256

  type Bytes = seq<Byte>

  const TWO_32: nat := 0x1_0000_0000
  const TWO_64: nat := 0x1_0000_0000_0000_0000

  type Uint32 = n: nat | n < TWO_32

  function Zeros(n: nat): (r: Bytes)
    ensures |r| == n
  {
    seq(n, _ => 0)
  }

  function Power2(n: nat): (r: nat)
    ensures r > 0
  {
    if n == 0 then 1 else 2 * Power2(n - 1)
  }

  // ----- fixed width, little endian -----

  function Fixed32(v: Uint32): (r: Bytes)
    ensures |r| == 4
  {
    [v % 256, (v / 256) % 256, (v / 0x1_0000) % 256, v / 0x100_0000]
  }

  function DecodeFixed32(b: Bytes): Uint32
    requires |b| >= 4
  {
    b[0] as nat + 256 * b[1] as nat + 0x1_0000 * b[2] as nat + 0x100_0000 * b[3] as nat
  }

  lemma Fixed32RoundTrip(v: Uint32, rest: Bytes)
    ensures DecodeFixed32(Fixed32(v) + rest) == v
  {
    var b := Fixed32(v) + rest;
    assert b[0] == v % 256 && b[1] == (v / 256) % 256 && b[2] == (v / 0x1_0000) % 256 && b[3] == v / 0x100_0000;
    assert v / 0x1_0000 == (v / 256) / 256 && v / 0x100_0000 == (v / 0x1_0000) / 256;
  }

  lemma Fixed32Back(b: Bytes)
    requires |b| == 4
    ensures Fixed32(DecodeFixed32(b)) == b
  {
    var v := DecodeFixed32(b);
    var hi := b[2] as nat + 256 * b[3] as nat;
    var mid := b[1] as nat + 256 * hi;
    assert v == b[0] as nat + 256 * mid;
    LowByte(b[0], mid);
    LowByte(b[1], hi);
    LowByte(b[2], b[3]);
    assert v / 0x1_0000 == (v / 256) / 256 && v / 0x100_0000 == (v / 0x1_0000) / 256;
  }

  lemma LowByte(low: Byte, rest: nat)
    ensures (low + 256 * rest) % 256 == low && (low + 256 * rest) / 256 == rest
  {
  }

  function Fixed64(v: nat): (r: Bytes)
    ensures |r| == 8
  {
    Fixed32(v % TWO_32) + Fixed32((v / TWO_32) % TWO_32)
  }

  function DecodeFixed64(b: Bytes): (v: nat)
    requires |b| >= 8
    ensures v < TWO_64
  {
    DecodeFixed32(b[..4]) + TWO_32 * DecodeFixed32(b[4..8])
  }

  lemma Fixed64RoundTrip(v: nat, rest: Bytes)
    requires v < TWO_64
    ensures DecodeFixed64(Fixed64(v) + rest) == v && (Fixed64(v) + rest)[8..] == rest
  {
    var b := Fixed64(v) + rest;
    assert b[..4] == Fixed32(v % TWO_32) + [] && b[4..8] == Fixed32((v / TWO_32) % TWO_32) + [];
    Fixed32RoundTrip(v % TWO_32, []);
    Fixed32RoundTrip((v / TWO_32) % TWO_32, []);
  }

  lemma Fixed64Back(b: Bytes)
    requires |b| == 8
    ensures Fixed64(DecodeFixed64(b)) == b
  {
    Fixed32Back(b[..4]);
    Fixed32Back(b[4..8]);
    hide Fixed32, DecodeFixed32;
    var lo, hi := DecodeFixed32(b[..4]), DecodeFixed32(b[4..8]);
    LowHalf(lo, hi);
    assert b == b[..4] + b[4..8];
  }

  lemma LowHalf(low: Uint32, rest: Uint32)
    ensures (low + TWO_32 * rest) % TWO_32 == low && ((low + TWO_32 * rest) / TWO_32) % TWO_32 == rest
  {
  }

  // One fixed-width number after the other.
  function Fixed32Array(offsets: seq<nat>): Bytes
    requires forall j :: 0 <= j < |offsets| ==> offsets[j] < TWO_32
  {
    if offsets == [] then [] else Fixed32Array(offsets[..|offsets| - 1]) + Fixed32(offsets[|offsets| - 1])
  }

  lemma {:induction false} Fixed32ArrayAt(offsets: seq<nat>, j: nat, rest: Bytes)
    requires j < |offsets| && forall k :: 0 <= k < |offsets| ==> offsets[k] < TWO_32
    ensures |Fixed32Array(offsets)| == 4 * |offsets|
    ensures 4 * j <= |Fixed32Array(offsets) + rest| - 4
    ensures DecodeFixed32((Fixed32Array(offsets) + rest)[4 * j..]) == offsets[j]
  {
    var n := |offsets| - 1;
    var front, last := Fixed32Array(offsets[..n]), Fixed32(offsets[n]);
    Fixed32ArrayLength(offsets[..n]);
    assert Fixed32Array(offsets) + rest == front + (last + rest);
    if j < n {
      Fixed32ArrayAt(offsets[..n], j, last + rest);
    } else {
      assert (front + (last + rest))[4 * n..] == last + rest;
      Fixed32RoundTrip(offsets[n], rest);
    }
  }

  lemma {:induction false} Fixed32ArrayLength(offsets: seq<nat>)
    requires forall k :: 0 <= k < |offsets| ==> offsets[k] < TWO_32
    ensures |Fixed32Array(offsets)| == 4 * |offsets|
  {
    if offsets != [] {
      Fixed32ArrayLength(offsets[..|offsets| - 1]);
    }
  }

  lemma ArrayReadsBack(front: Bytes, all: seq<nat>, last: Bytes, j: nat)
    requires (forall i :: 0 <= i < |all| ==> all[i] < TWO_32) && j < |all|
    ensures var c := front + Fixed32Array(all) + last;
            |front| + 4 * j + 4 <= |c| && DecodeFixed32(c[|front| + 4 * j..]) == all[j]
  {
    Fixed32ArrayAt(all, j, last);
    hide Fixed32Array, DecodeFixed32;
    var tail := Fixed32Array(all) + last;
    assert front + Fixed32Array(all) + last == front + tail;
    assert (front + tail)[|front| + 4 * j..] == tail[4 * j..];
  }

  // ----- varints -----

  // Seven bits a byte, low bits first; the high bit says that more follow.
  function Varint(v: nat): (r: Bytes)
    ensures |r| >= 1
  {
    if v < 128 then [v] else [128 + v % 128] + Varint(v / 128)
  }

  function Power128(n: nat): (r: nat)
    ensures r >= 1
  {
    if n == 0 then 1 else 128 * Power128(n - 1)
  }

  // What the decoding loop makes of up to `most` bytes: value and length, or nothing if the last
  // byte of the varint is not among them.
  function ParseVarint(b: Bytes, most: nat): Option<(nat, nat)> {
    if b == [] || most == 0 then None
    else if b[0] < 128 then Some((b[0], 1))
    else match ParseVarint(b[1..], most - 1)
         case None => None
         case Some(p) => Some((b[0] - 128 + 128 * p.0, p.1 + 1))
  }

  lemma {:induction false} VarintRoundTrip(v: nat, rest: Bytes, most: nat)
    requires v < Power128(most) && most > 0
    ensures ParseVarint(Varint(v) + rest, most) == Some((v, |Varint(v)|)) && |Varint(v)| <= most
  {
    if v >= 128 {
      assert most > 1 && Power128(most) == 128 * Power128(most - 1);
      VarintRoundTrip(v / 128, rest, most - 1);
      assert (Varint(v) + rest)[1..] == Varint(v / 128) + rest;
    }
  }

  // A parsed varint lies within the input.
  lemma {:induction false} ParsedWithin(b: Bytes, most: nat)
    requires ParseVarint(b, most).Some?
    ensures 1 <= ParseVarint(b, most).value.1 <= |b| && ParseVarint(b, most).value.1 <= most
  {
    if b[0] >= 128 {
      ParsedWithin(b[1..], most - 1);
    }
  }

  // EncodeVarint64, and the unrolled EncodeVarint32 alike.
  method EncodeVarint(v: nat) returns (r: Bytes)
    ensures r == Varint(v)
  {
    var left := v;
    r := [];
    while left >= 128
      invariant r + Varint(left) == Varint(v)
    {
      assert r + ([128 + left % 128] + Varint(left / 128)) == r + [128 + left % 128] + Varint(left / 128);
      r := r + [128 + left % 128];
      left := left / 128;
    }
    r := r + [left];
  }

  // The shift of the byte at index `i`.
  function Scaled(b: Bytes, n: nat): nat
    requires n <= |b|
  {
    if n == 0 then 0 else Scaled(b, n - 1) + (b[n - 1] % 128) * Power128(n - 1)
  }

  lemma {:induction false} ScaledTail(b: Bytes, n: nat)
    requires 0 < n <= |b|
    ensures Scaled(b, n) == b[0] % 128 + 128 * Scaled(b[1..], n - 1)
  {
    if n > 1 {
      ScaledTail(b, n - 1);
      var d: nat, p := b[n - 1] % 128, Power128(n - 2);
      assert b[1..][n - 2] == b[n - 1];
      assert Power128(n - 1) == 128 * p;
      Regroup(d, p);
    } else {
      assert Power128(0) == 1 && Scaled(b, 0) == 0 && Scaled(b[1..], 0) == 0;
    }
  }

  lemma Regroup(d: nat, p: nat)
    ensures d * (128 * p) == 128 * (d * p)
  {
  }

  lemma ScaledOne(b: Bytes)
    requires b != []
    ensures Scaled(b, 1) == b[0] % 128
  {
    assert Scaled(b, 1) == Scaled(b, 0) + (b[0] % 128) * Power128(0);
  }

  lemma {:induction false} ParseByIndex(b: Bytes, most: nat, n: nat)
    requires n <= |b| && n <= most && forall i :: 0 <= i < n ==> b[i] >= 128
    ensures n == |b| || n == most ==> ParseVarint(b, most) == None
    ensures n < |b| && n < most && b[n] < 128 ==> ParseVarint(b, most) == Some((Scaled(b, n + 1), n + 1))
  {
    hide Scaled, Power128;
    if n > 0 {
      ParseByIndex(b[1..], most - 1, n - 1);
      if n < |b| && n < most && b[n] < 128 {
        ScaledTail(b, n + 1);
        assert b[1..][n - 1] == b[n];
      }
    } else if b != [] && most > 0 {
      ScaledOne(b);
    }
  }

  // GetVarint64Ptr (most = 10, width = 2^64) and GetVarint32Ptr (most = 5, width = 2^32): the shift
  // loop, whose result keeps only the low bits of an oversized varint.
  method GetVarint(b: Bytes, most: nat, width: nat) returns (r: Option<(nat, Bytes)>)
    requires width > 0
    ensures match ParseVarint(b, most)
            case None => r == None
            case Some(p) => p.1 <= |b| && r == Some((p.0 % width, b[p.1..]))
  {
    var result, scale, p := 0, 1, 0;
    while p < most && p < |b|
      invariant p <= |b| && p <= most && scale == Power128(p) && result == Scaled(b, p)
      invariant forall i :: 0 <= i < p ==> b[i] >= 128
    {
      ParseByIndex(b, most, p);
      if b[p] < 128 {
        assert result + b[p] * scale == Scaled(b, p + 1);
        return Some(((result + b[p] * scale) % width, b[p + 1..]));
      }
      assert b[p] % 128 == b[p] - 128;
      result := result + (b[p] - 128) * scale;
      scale := 128 * scale;
      p := p + 1;
    }
    ParseByIndex(b, most, p);
    return None;
  }

  // What GetVarint32 and GetVarint64 take off the front.
  function TakeVarint32(b: Bytes): (r: Option<(nat, Bytes)>)
    ensures r.Some? ==> |r.value.1| < |b| && r.value.0 < TWO_32
  {
    match ParseVarint(b, 5)
    case None => None
    case Some(p) => ParsedWithin(b, 5); Some((p.0 % TWO_32, b[p.1..]))
  }

  function TakeVarint64(b: Bytes): (r: Option<(nat, Bytes)>)
    ensures r.Some? ==> |r.value.1| < |b| && r.value.0 < TWO_64
  {
    match ParseVarint(b, 10)
    case None => None
    case Some(p) => ParsedWithin(b, 10); Some((p.0 % TWO_64, b[p.1..]))
  }

  lemma TakeVarint32Encoded(v: nat, rest: Bytes)
    requires v < TWO_32
    ensures TakeVarint32(Varint(v) + rest) == Some((v, rest))
  {
    assert Power128(5) == 0x8_0000_0000;
    VarintRoundTrip(v, rest, 5);
  }

  lemma PowerTen()
    ensures Power128(10) > TWO_64
  {
    assert Power128(5) == 0x8_0000_0000;
    assert Power128(10) == 128 * 128 * 128 * 128 * 128 * Power128(5);
  }

  lemma TakeVarint64Encoded(v: nat, rest: Bytes)
    requires v < TWO_64
    ensures TakeVarint64(Varint(v) + rest) == Some((v, rest))
  {
    PowerTen();
    VarintRoundTrip(v, rest, 10);
  }

  // ----- length-prefixed slices -----

  function LengthPrefixed(s: Bytes): Bytes {
    Varint(|s|) + s
  }

  function ParseLengthPrefixed(b: Bytes): Option<(Bytes, Bytes)> {
    match ParseVarint(b, 5)
    case None => None
    case Some(p) => if p.1 + p.0 % TWO_32 <= |b| then Some((b[p.1..p.1 + p.0 % TWO_32], b[p.1 + p.0 % TWO_32..]))
                    else None
  }

  // GetLengthPrefixedSlice.
  method GetLengthPrefixedSlice(b: Bytes) returns (r: Option<(Bytes, Bytes)>)
    ensures r == ParseLengthPrefixed(b)
  {
    var len := GetVarint(b, 5, TWO_32);
    if len.Some? {
      ghost var p := ParseVarint(b, 5).value;
      ghost var n := p.0 % TWO_32;
      assert p.1 + n <= |b| ==> b[p.1..][..n] == b[p.1..p.1 + n] && b[p.1..][n..] == b[p.1 + n..];
    }
    if len.Some? && |len.value.1| >= len.value.0 {
      return Some((len.value.1[..len.value.0], len.value.1[len.value.0..]));
    }
    return None;
  }

  lemma LengthPrefixedRoundTrip(s: Bytes, rest: Bytes)
    requires |s| < TWO_32
    ensures ParseLengthPrefixed(LengthPrefixed(s) + rest) == Some((s, rest))
  {
    var head, b := Varint(|s|), LengthPrefixed(s) + rest;
    assert b == head + (s + rest);
    assert Power128(5) == 0x8_0000_0000;
    VarintRoundTrip(|s|, s + rest, 5);
  }

  // ----- masked checksums -----

  // The checksum of a type byte and a payload.
  type Sum = (Byte, Bytes) -> Uint32

  const MASK_DELTA: nat := 0xa282ead8

  // Rotate right by 15 bits, then add a constant, in 32 bits.
  function Mask(crc: Uint32): Uint32 {
    (crc / 0x8000 + (crc % 0x8000) * 0x2_0000 + MASK_DELTA) % TWO_32
  }

  function Unmask(masked: Uint32): Uint32 {
    var rot := (masked + TWO_32 - MASK_DELTA) % TWO_32;
    rot / 0x2_0000 + (rot % 0x2_0000) * 0x8000
  }

  lemma UnmaskUndoesMask(crc: Uint32)
    ensures Unmask(Mask(crc)) == crc
  {
    var hi, lo := crc / 0x8000, crc % 0x8000;
    var rot := hi + lo * 0x2_0000;
    assert (Mask(crc) + TWO_32 - MASK_DELTA) % TWO_32 == rot;
    assert rot / 0x2_0000 == lo && rot % 0x2_0000 == hi;
  }
}

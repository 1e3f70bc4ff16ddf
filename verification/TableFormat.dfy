/** The frame of a table file: block handles, sealed blocks and the footer (table/format.h,
    table/format.cc).

    The checksum is any function of type byte and contents, Snappy any pair of functions. */
module TableFormat {
  import opened Wrappers
  import opened Coding

  const TRAILER: nat := 5 // type byte and checksum
  const HANDLE_MAX: nat := 20
  const FOOTER: nat := 48
  const MAGIC: nat := 0xdb47_7524_8b80_fb57

  const PLAIN: Byte := 0
  const SNAPPY: Byte := 1

  // ----- handles -----

  datatype Handle = Handle(offset: nat, size: nat)

  // Offsets and sizes are 64-bit numbers.
  function EncodeHandle(h: Handle): (r: Bytes)
    ensures |r| <= HANDLE_MAX
  {
    PowerTen();
    VarintRoundTrip(h.offset % TWO_64, [], 10);
    VarintRoundTrip(h.size % TWO_64, [], 10);
    Varint(h.offset % TWO_64) + Varint(h.size % TWO_64)
  }

  function DecodeHandle(b: Bytes): Option<(Handle, Bytes)> {
    match TakeVarint64(b)
    case None => None
    case Some(p) =>
      match TakeVarint64(p.1)
      case None => None
      case Some(q) => Some((Handle(p.0, q.0), q.1))
  }

  ghost predicate HandleFits(h: Handle) {
    h.offset < TWO_64 && h.size < TWO_64
  }

  lemma HandleRoundTrip(h: Handle, rest: Bytes)
    requires HandleFits(h)
    ensures DecodeHandle(EncodeHandle(h) + rest) == Some((h, rest))
  {
    TakeVarint64Encoded(h.offset, Varint(h.size) + rest);
    TakeVarint64Encoded(h.size, rest);
    hide Varint, TakeVarint64;
    assert EncodeHandle(h) + rest == Varint(h.offset) + (Varint(h.size) + rest);
  }

  // ----- blocks -----

  // What depends on libraries and options: checksum, compression, and whether reads verify.
  datatype Codec = Codec(sum: Sum, compress: Bytes -> Option<Bytes>, uncompress: Bytes -> Option<Bytes>,
                         snappy: bool, verify: bool)

  ghost predicate Lossless(c: Codec) {
    forall b :: c.compress(b).Some? ==> c.uncompress(c.compress(b).value) == Some(b)
  }

  // WriteBlock: compressed only if that saves an eighth.
  function Packed(c: Codec, raw: Bytes): (Byte, Bytes) {
    var z := c.compress(raw);
    if c.snappy && z.Some? && |z.value| < |raw| - |raw| / 8 then (SNAPPY, z.value) else (PLAIN, raw)
  }

  function Unpacked(c: Codec, t: Byte, contents: Bytes): Option<Bytes> {
    if t == PLAIN then Some(contents) else if t == SNAPPY then c.uncompress(contents) else None
  }

  // WriteRawBlock: contents, type byte, masked checksum of both.
  function Sealed(c: Codec, t: Byte, contents: Bytes): (r: Bytes)
    ensures |r| == |contents| + TRAILER
  {
    contents + [t] + Fixed32(Mask(c.sum(t, contents)))
  }

  function ReadBlock(c: Codec, file: Bytes, h: Handle): Option<Bytes> {
    var end := h.offset + h.size;
    if end + TRAILER > |file| then None
    else
      var contents, t := file[h.offset..end], file[end];
      if c.verify && Unmask(DecodeFixed32(file[end + 1..])) != c.sum(t, contents) then None
      else Unpacked(c, t, contents)
  }

  lemma PackedUnpacks(c: Codec, raw: Bytes)
    requires Lossless(c)
    ensures Unpacked(c, Packed(c, raw).0, Packed(c, raw).1) == Some(raw)
  {
  }

  // A sealed block is read back from where it was appended.
  lemma SealedReadsBack(c: Codec, file: Bytes, t: Byte, contents: Bytes)
    ensures ReadBlock(c, file + Sealed(c, t, contents), Handle(|file|, |contents|)) == Unpacked(c, t, contents)
  {
    var all, end, crc := file + Sealed(c, t, contents), |file| + |contents|, Mask(c.sum(t, contents));
    assert all[|file|..end] == contents && all[end] == t;
    assert all[end + 1..] == Fixed32(crc) + [];
    Fixed32RoundTrip(crc, []);
    UnmaskUndoesMask(c.sum(t, contents));
    hide Fixed32, DecodeFixed32, Mask, Unmask;
  }

  // What is appended later changes no block.
  lemma ReadStays(c: Codec, file: Bytes, more: Bytes, h: Handle)
    requires ReadBlock(c, file, h).Some?
    ensures ReadBlock(c, file + more, h) == ReadBlock(c, file, h)
  {
    var all, end := file + more, h.offset + h.size;
    assert all[h.offset..end] == file[h.offset..end] && all[end] == file[end];
    hide Unmask, Unpacked;
    var a, b := all[end + 1..], file[end + 1..];
    assert a[0] == b[0] && a[1] == b[1] && a[2] == b[2] && a[3] == b[3];
  }

  // ----- the footer -----

  // Two handles padded to their largest size, and the magic number.
  function EncodeFooter(meta: Handle, index: Handle): (r: Bytes)
    ensures |r| == FOOTER
  {
    (EncodeHandle(meta) + EncodeHandle(index) + Zeros(2 * HANDLE_MAX))[..2 * HANDLE_MAX]
      + Fixed32(MAGIC % TWO_32) + Fixed32(MAGIC / TWO_32)
  }

  function DecodeFooter(b: Bytes): Option<(Handle, Handle)>
    requires |b| == FOOTER
  {
    var at := FOOTER - 8;
    if DecodeFixed32(b[at..]) + TWO_32 * DecodeFixed32(b[at + 4..]) != MAGIC then None
    else
      match DecodeHandle(b)
      case None => None
      case Some(p) =>
        match DecodeHandle(p.1)
        case None => None
        case Some(q) => Some((p.0, q.0))
  }

  lemma MagicReadsBack(front: Bytes)
    requires |front| == FOOTER - 8
    ensures var b := front + Fixed32(MAGIC % TWO_32) + Fixed32(MAGIC / TWO_32);
            DecodeFixed32(b[FOOTER - 8..]) + TWO_32 * DecodeFixed32(b[FOOTER - 4..]) == MAGIC
  {
    var lo, hi := Fixed32(MAGIC % TWO_32), Fixed32(MAGIC / TWO_32);
    var b := front + lo + hi;
    assert b[FOOTER - 8..] == lo + hi && b[FOOTER - 4..] == hi + [];
    Fixed32RoundTrip(MAGIC % TWO_32, hi);
    Fixed32RoundTrip(MAGIC / TWO_32, []);
  }

  lemma FooterRoundTrip(meta: Handle, index: Handle)
    requires HandleFits(meta) && HandleFits(index)
    ensures DecodeFooter(EncodeFooter(meta, index)) == Some((meta, index))
  {
    var m, i := EncodeHandle(meta), EncodeHandle(index);
    var front := (m + i + Zeros(2 * HANDLE_MAX))[..2 * HANDLE_MAX];
    MagicReadsBack(front);
    hide EncodeHandle, DecodeHandle, Fixed32, DecodeFixed32;
    var b := EncodeFooter(meta, index);
    var rest := b[|m| + |i|..];
    assert b == m + (i + rest);
    HandleRoundTrip(meta, i + rest);
    HandleRoundTrip(index, rest);
  }

  // A table ends in 0xdb4775248b80fb57, little-endian.
  lemma FooterEndsInMagic(meta: Handle, index: Handle)
    ensures EncodeFooter(meta, index)[40..] == [0x57, 0xfb, 0x80, 0x8b, 0x24, 0x75, 0x47, 0xdb]
  {
    hide EncodeHandle;
  }
}

/** The Protocol Buffers printer (nanopb: pb_encode.c). The specification is the list of bytes a
    message prints as; the methods write it to a stream that may only be counting. */
module PbEncoder {
  import opened Wrappers
  import opened Coding
  import opened PbMessages

  // ----- what is printed -----

  // The number in a field's storage.
  function Number(v: Value): int {
    if v.Num? then v.n else 0
  }

  // ~((uint64_t)v << 1) for negative numbers, v << 1 otherwise.
  function ZigZag(v: int): (r: nat)
    ensures r < TWO_64
  {
    if v < 0 then TWO_64 - 1 - (2 * (v % TWO_64)) % TWO_64 else (2 * v) % TWO_64
  }

  function TagBytes(wireType: nat, tag: nat): Bytes {
    Varint(8 * tag + wireType)
  }

  function Joined(a: Option<Bytes>, b: Option<Bytes>): Option<Bytes> {
    if a.None? || b.None? then None else Some(a.value + b.value)
  }

  // Length-prefixed.
  function StringBytes(b: Bytes): Bytes {
    Varint(|b|) + b
  }

  // One value, without its tag; nothing where the encoder reports an error.
  function ValueBytes(f: Field, v: Value): Option<Bytes>
    decreases f, 0, 0
  {
    match f.ltype
    case BoolType => Some(Varint(if Number(v) != 0 then 1 else 0))
    case VarintType => if IntSize(f.dataSize) then Some(Varint(Number(v) % TWO_64)) else None
    case UvarintType => if IntSize(f.dataSize) then Some(Varint(Number(v) % TWO_64)) else None
    case SvarintType => if IntSize(f.dataSize) then Some(Varint(ZigZag(Number(v)))) else None
    case Fixed32Type => Some(Fixed32(Number(v) % TWO_32))
    case Fixed64Type => Some(Fixed64(Number(v) % TWO_64))
    case BytesType => if v.Blob? && |v.data| <= (f.dataSize - BYTES_OFFSET) % TWO_64 then Some(StringBytes(v.data))
                      else None
    case StringType =>
      if v.Blob? then Some(StringBytes(UntilNul(if |v.data| > f.dataSize then v.data[..f.dataSize] else v.data)))
      else None
    case SubmessageType(fields) =>
      var inner := if v.Sub? then MessageBytes(fields, v.slots, |fields|) else None;
      if inner.Some? then Some(StringBytes(inner.value)) else None
    case FixedLengthBytesType => if v.Blob? && |v.data| == f.dataSize then Some(StringBytes(v.data)) else None
  }

  // The first `n` values of an array, back to back or each with its tag.
  function ItemsBytes(f: Field, items: seq<Value>, n: nat, tagged: bool): Option<Bytes>
    requires n <= |items|
    decreases f, 1, n
  {
    if n == 0 then Some([])
    else
      var item := ValueBytes(f, items[n - 1]);
      Joined(ItemsBytes(f, items, n - 1, tagged),
             if tagged then Joined(Some(TagBytes(WireType(f.ltype), f.tag)), item) else item)
  }

  // encode_array: packed where the type allows it.
  function ArrayBytes(f: Field, items: seq<Value>): Option<Bytes>
    decreases f, 2
  {
    if items == [] then Some([])
    else if |items| > f.arraySize then None
    else if Packable(f.ltype) then
      var packed := ItemsBytes(f, items, |items|, false);
      if packed.None? then None else Some(TagBytes(PB_WT_STRING, f.tag) + StringBytes(packed.value))
    else ItemsBytes(f, items, |items|, true)
  }

  function TaggedBytes(f: Field, v: Value): Option<Bytes>
    decreases f, 2
  {
    Joined(Some(TagBytes(WireType(f.ltype), f.tag)), ValueBytes(f, v))
  }

  // pb_check_proto3_default_value of the data of a singular field.
  predicate ZeroData(f: Field, v: Value)
    decreases f, 0
  {
    match f.ltype
    case BytesType => v.Blob? && v.data == []
    case StringType => v.Blob? && UntilNul(v.data) == []
    case FixedLengthBytesType => f.dataSize == 0
    case SubmessageType(fields) => v.Sub? && NothingUpTo(fields, v.slots, |fields|)
    case _ => v.Num? && v.n == 0
  }

  // The loop over the fields of such a submessage.
  predicate NothingUpTo(fields: seq<Field>, slots: seq<Slot>, n: nat)
    requires n <= |fields|
    decreases fields, 1, n
  {
    n == 0 || (NothingUpTo(fields, slots, n - 1) && HoldsNothing(fields, slots, n - 1))
  }

  ghost predicate NothingAnywhere(fields: seq<Field>, slots: seq<Slot>, n: nat)
    requires n <= |fields|
  {
    forall i :: 0 <= i < n ==> HoldsNothing(fields, slots, i)
  }

  lemma {:induction false} NothingUpToIs(fields: seq<Field>, slots: seq<Slot>, n: nat)
    requires n <= |fields|
    ensures NothingUpTo(fields, slots, n) <==> NothingAnywhere(fields, slots, n)
  {
    if n > 0 {
      NothingUpToIs(fields, slots, n - 1);
      OneFieldMore(fields, slots, n);
    }
  }

  lemma OneFieldMore(fields: seq<Field>, slots: seq<Slot>, n: nat)
    requires 0 < n <= |fields|
    ensures NothingAnywhere(fields, slots, n) <==>
              NothingAnywhere(fields, slots, n - 1) && HoldsNothing(fields, slots, n - 1)
  {
  }

  // pb_check_proto3_default_value of a field inside such a submessage.
  predicate HoldsNothing(fields: seq<Field>, slots: seq<Slot>, i: nat)
    requires i < |fields|
    decreases fields, 0
  {
    var f := fields[i];
    i < |slots| &&
    match f.htype
    case Required => false
    case Optional(hasFlag) => if hasFlag then slots[i].Opt? && !slots[i].has
                              else slots[i].One? && ZeroData(f, slots[i].v)
    case Repeated(counted) => counted && slots[i].Many? && slots[i].items == []
    case OneOf(home) => home < |slots| && slots[home].Which? && slots[home].tag == 0
  }

  // encode_basic_field.
  function FieldBytes(fields: seq<Field>, slots: seq<Slot>, i: nat): Option<Bytes>
    requires i < |fields|
    decreases fields, 0
  {
    var f := fields[i];
    if i >= |slots| then None
    else
      match f.htype
      case Required => if slots[i].One? then TaggedBytes(f, slots[i].v) else None
      case Optional(hasFlag) =>
        if hasFlag then
          if slots[i].Opt? then (if slots[i].has then TaggedBytes(f, slots[i].v) else Some([])) else None
        else
          if slots[i].One? then (if !ZeroData(f, slots[i].v) then TaggedBytes(f, slots[i].v) else Some([])) else None
      case Repeated(_) => if slots[i].Many? then ArrayBytes(f, slots[i].items) else None
      case OneOf(home) =>
        if home < |slots| && slots[home].Which? then
          if slots[home].tag == f.tag then TaggedBytes(f, slots[home].v) else Some([])
        else None
  }

  // pb_encode, the first `n` fields.
  function MessageBytes(fields: seq<Field>, slots: seq<Slot>, n: nat): Option<Bytes>
    requires n <= |fields|
    decreases fields, n, 1
  {
    if n == 0 then Some([]) else Joined(MessageBytes(fields, slots, n - 1), FieldBytes(fields, slots, n - 1))
  }

  // ----- printing -----

  datatype EncodeError =
    | StreamFull | ArrayMaxSizeExceeded | InvalidDataSize | BytesSizeExceeded | InvalidFieldType | SubmsgSizeChanged

  datatype Status = Ok | Fail(error: EncodeError)

  // `bytes` went from one state of a stream to another, whole, or else did not fit or do not exist.
  ghost predicate Emitted(r: Status, bytes: Option<Bytes>, sizing: bool, maxSize: nat, out: Bytes, written: nat,
                          out': Bytes, written': nat) {
    && (r.Ok? <==> bytes.Some? && (sizing || written + |bytes.value| <= maxSize))
    && (r.Ok? ==> written' == written + |bytes.value| && (!sizing ==> out' == out + bytes.value))
    && r != Fail(SubmsgSizeChanged)
    && (sizing || written' <= maxSize)
  }

  lemma EmittedBoth(r: Status, a: Option<Bytes>, b: Option<Bytes>, sizing: bool, maxSize: nat, out: Bytes, written: nat,
                    out': Bytes, written': nat, r': Status, out'': Bytes, written'': nat)
    requires Emitted(r, a, sizing, maxSize, out, written, out', written')
    requires if r.Ok? then Emitted(r', b, sizing, maxSize, out', written', out'', written'')
             else r' == r && out'' == out' && written'' == written'
    ensures Emitted(r', Joined(a, b), sizing, maxSize, out, written, out'', written'')
  {
    if r.Ok? && r'.Ok? && !sizing {
      assert out + a.value + b.value == out + (a.value + b.value);
    }
  }

  class OStream {
    const sizing: bool // no callback: the stream only counts
    var out: Bytes     // what the callback was given, of which the stream wrote the last bytes
    const maxSize: nat
    var bytesWritten: nat

    ghost predicate Valid()
      reads this
    {
      sizing || bytesWritten <= maxSize
    }

    // PB_OSTREAM_SIZING.
    constructor Sizing()
      ensures Valid() && sizing && bytesWritten == 0
    {
      sizing, out, maxSize, bytesWritten := true, [], 0, 0;
    }

    // pb_ostream_from_buffer, and the writing substreams.
    constructor Buffer(out: Bytes, maxSize: nat)
      ensures Valid() && !sizing && this.out == out && this.maxSize == maxSize && bytesWritten == 0
    {
      sizing, this.out, this.maxSize, bytesWritten := false, out, maxSize, 0;
    }

    // pb_write.
    method Write(buf: Bytes) returns (r: Status)
      requires Valid()
      modifies this
      ensures Emitted(r, Some(buf), sizing, maxSize, old(out), old(bytesWritten), out, bytesWritten)
    {
      var count := |buf|;
      if count > 0 && !sizing {
        if bytesWritten + count > maxSize {
          return Fail(StreamFull);
        }
        out := out + buf;
      }
      bytesWritten := bytesWritten + count;
      return Ok;
    }

    // pb_write of no buffer, on a stream that only counts.
    method Count(count: nat, ghost bytes: Bytes) returns (r: Status)
      requires sizing && |bytes| == count
      modifies this
      ensures Emitted(r, Some(bytes), sizing, maxSize, old(out), old(bytesWritten), out, bytesWritten)
    {
      bytesWritten := bytesWritten + count;
      return Ok;
    }
  }

  // Seven bits a byte, every byte marked as if more followed.
  function AllMarked(v: nat): (r: Bytes)
    ensures forall b :: b in r ==> b >= 128
  {
    if v == 0 then [] else [128 + v % 128] + AllMarked(v / 128)
  }

  lemma {:induction false} UnmarkLast(v: nat)
    requires v > 0
    ensures var m := AllMarked(v); m != [] && m[|m| - 1] >= 128 && m[|m| - 1 := m[|m| - 1] - 128] == Varint(v)
  {
    var m := AllMarked(v);
    if v >= 128 {
      UnmarkLast(v / 128);
      var rest := AllMarked(v / 128);
      assert m == [128 + v % 128] + rest;
      assert m[|m| - 1 := rest[|rest| - 1] - 128] == [128 + v % 128] + rest[|rest| - 1 := rest[|rest| - 1] - 128];
    } else {
      assert AllMarked(v / 128) == [];
    }
  }

  // The buffer of pb_encode_varint.
  method VarintBuffer(value: nat) returns (buffer: Bytes)
    ensures buffer == Varint(value)
  {
    if value <= 0x7F {
      return [value];
    }
    buffer := [];
    var left := value;
    while left != 0
      invariant buffer + AllMarked(left) == AllMarked(value)
    {
      ghost var rest := AllMarked(left / 128);
      assert buffer + ([128 + left % 128] + rest) == buffer + [128 + left % 128] + rest;
      buffer := buffer + [left % 128 + 128];
      left := left / 128;
    }
    UnmarkLast(value);
    assert buffer == AllMarked(value);
    buffer := buffer[|buffer| - 1 := buffer[|buffer| - 1] - 128];
  }

  method EncodeVarint(s: OStream, value: nat) returns (r: Status)
    requires s.Valid()
    modifies s
    ensures Emitted(r, Some(Varint(value)), s.sizing, s.maxSize, old(s.out), old(s.bytesWritten), s.out, s.bytesWritten)
  {
    var buffer := VarintBuffer(value);
    r := s.Write(buffer);
  }

  // pb_encode_string.
  method EncodeString(s: OStream, b: Bytes) returns (r: Status)
    requires s.Valid()
    modifies s
    ensures Emitted(r, Some(StringBytes(b)), s.sizing, s.maxSize, old(s.out), old(s.bytesWritten), s.out,
        s.bytesWritten)
  {
    hide Varint, Emitted;
    r := EncodeVarint(s, |b|);
    ghost var r0, out, written := r, s.out, s.bytesWritten;
    if r.Ok? {
      StillValid(r, Some(Varint(|b|)), s, old(s.out), old(s.bytesWritten));
      r := s.Write(b);
    }
    EmittedBoth(r0, Some(Varint(|b|)), Some(b), s.sizing, s.maxSize, old(s.out), old(s.bytesWritten), out, written, r,
        s.out, s.bytesWritten);
  }

  lemma StillValid(r: Status, bytes: Option<Bytes>, s: OStream, out: Bytes, written: nat)
    requires Emitted(r, bytes, s.sizing, s.maxSize, out, written, s.out, s.bytesWritten)
    ensures s.Valid()
  {
  }

  // pb_encode_tag_for_field.
  method EncodeTag(s: OStream, wireType: nat, tag: nat) returns (r: Status)
    requires s.Valid()
    modifies s
    ensures Emitted(r, Some(TagBytes(wireType, tag)), s.sizing, s.maxSize, old(s.out), old(s.bytesWritten), s.out,
        s.bytesWritten)
  {
    r := EncodeVarint(s, 8 * tag + wireType);
  }

  // PB_ENCODERS.
  method EncodeValue(s: OStream, f: Field, v: Value) returns (r: Status)
    requires s.Valid()
    modifies s
    ensures Emitted(r, ValueBytes(f, v), s.sizing, s.maxSize, old(s.out), old(s.bytesWritten), s.out, s.bytesWritten)
    decreases f, 0, 0
  {
    match f.ltype {
      case BoolType =>
        r := EncodeVarint(s, if Number(v) != 0 then 1 else 0);
      case VarintType =>
        if !IntSize(f.dataSize) {
          return Fail(InvalidDataSize);
        }
        r := EncodeVarint(s, Number(v) % TWO_64);
      case UvarintType =>
        if !IntSize(f.dataSize) {
          return Fail(InvalidDataSize);
        }
        r := EncodeVarint(s, Number(v) % TWO_64);
      case SvarintType =>
        if !IntSize(f.dataSize) {
          return Fail(InvalidDataSize);
        }
        r := EncodeVarint(s, ZigZag(Number(v)));
      case Fixed32Type =>
        r := s.Write(Fixed32(Number(v) % TWO_32));
      case Fixed64Type =>
        r := s.Write(Fixed64(Number(v) % TWO_64));
      case BytesType =>
        if !v.Blob? || |v.data| > (f.dataSize - BYTES_OFFSET) % TWO_64 {
          return Fail(BytesSizeExceeded);
        }
        r := EncodeString(s, v.data);
      case StringType =>
        if !v.Blob? {
          return Fail(InvalidFieldType);
        }
        var size := StringLength(v.data, f.dataSize);
        r := EncodeString(s, v.data[..size]);
      case SubmessageType(fields) =>
        if !v.Sub? {
          return Fail(InvalidFieldType);
        }
        r := EncodeSubmessage(s, fields, v.slots);
      case FixedLengthBytesType =>
        if !v.Blob? || |v.data| != f.dataSize {
          return Fail(InvalidFieldType);
        }
        r := EncodeString(s, v.data);
    }
  }

  lemma {:induction false} UntilNulAt(data: Bytes, n: nat)
    requires n <= |data| && (forall j :: 0 <= j < n ==> data[j] != 0) && (n == |data| || data[n] == 0)
    ensures UntilNul(data) == data[..n]
  {
    if n > 0 {
      UntilNulAt(data[1..], n - 1);
      assert data[..n] == [data[0]] + data[1..][..n - 1];
    }
  }

  // The loop standing in for strnlen.
  method StringLength(data: Bytes, maxSize: nat) returns (size: nat)
    ensures size <= |data| && data[..size] == UntilNul(if |data| > maxSize then data[..maxSize] else data)
  {
    hide UntilNul;
    size := 0;
    while size < maxSize && size < |data| && data[size] != 0
      invariant size <= maxSize && size <= |data| && forall j :: 0 <= j < size ==> data[j] != 0
    {
      size := size + 1;
    }
    ghost var limited := if |data| > maxSize then data[..maxSize] else data;
    UntilNulAt(limited, size);
    assert limited[..size] == data[..size];
  }

  // pb_encode_submessage: measure on a counting stream, then print under that very limit.
  method EncodeSubmessage(s: OStream, fields: seq<Field>, slots: seq<Slot>) returns (r: Status)
    requires s.Valid()
    modifies s
    ensures var bytes := MessageBytes(fields, slots, |fields|);
            Emitted(r, if bytes.Some? then Some(StringBytes(bytes.value)) else None, s.sizing, s.maxSize,
                    old(s.out), old(s.bytesWritten), s.out, s.bytesWritten)
    decreases fields, |fields| + 1
  {
    hide Varint, MessageBytes;
    ghost var bytes := MessageBytes(fields, slots, |fields|);
    var counter := new OStream.Sizing();
    r := Encode(counter, fields, slots);
    if !r.Ok? {
      return;
    }
    var size := counter.bytesWritten;
    r := EncodeVarint(s, size);
    if !r.Ok? {
      return;
    }
    if s.sizing {
      r := s.Count(size, bytes.value);
      return;
    }
    if s.bytesWritten + size > s.maxSize {
      return Fail(StreamFull);
    }
    var sub := new OStream.Buffer(s.out, size);
    r := Encode(sub, fields, slots);
    s.bytesWritten := s.bytesWritten + sub.bytesWritten;
    s.out := sub.out;
    if sub.bytesWritten != size {
      return Fail(SubmsgSizeChanged);
    }
  }

  // The first `i` items or fields fix how far the whole can get.
  ghost predicate Prefix(a: Option<Bytes>, b: Option<Bytes>) {
    if a.None? then b.None? else b.Some? ==> |a.value| <= |b.value|
  }

  lemma {:induction false} ItemsPrefix(f: Field, items: seq<Value>, i: nat, n: nat, tagged: bool)
    requires i <= n <= |items|
    ensures Prefix(ItemsBytes(f, items, i, tagged), ItemsBytes(f, items, n, tagged))
    decreases n
  {
    if i < n {
      ItemsPrefix(f, items, i, n - 1, tagged);
    }
  }

  lemma {:induction false} FieldsPrefix(fields: seq<Field>, slots: seq<Slot>, i: nat, n: nat)
    requires i <= n <= |fields|
    ensures Prefix(MessageBytes(fields, slots, i), MessageBytes(fields, slots, n))
    decreases n
  {
    if i < n {
      FieldsPrefix(fields, slots, i, n - 1);
    }
  }

  lemma EmittedPrefix(r: Status, a: Option<Bytes>, b: Option<Bytes>, sizing: bool, maxSize: nat, out: Bytes,
                      written: nat, out': Bytes, written': nat)
    requires Emitted(r, a, sizing, maxSize, out, written, out', written') && !r.Ok? && Prefix(a, b)
    ensures Emitted(r, b, sizing, maxSize, out, written, out', written')
  {
  }

  // The items one after another, each with its tag or not.
  method EncodeItems(s: OStream, f: Field, items: seq<Value>, tagged: bool) returns (r: Status)
    requires s.Valid()
    modifies s
    ensures Emitted(r, ItemsBytes(f, items, |items|, tagged), s.sizing, s.maxSize, old(s.out), old(s.bytesWritten),
        s.out, s.bytesWritten)
    decreases f, 1
  {
    hide ValueBytes, TagBytes, WireType;
    r := Ok;
    for i := 0 to |items|
      invariant r.Ok?
      invariant Emitted(r, ItemsBytes(f, items, i, tagged), s.sizing, s.maxSize, old(s.out), old(s.bytesWritten),
          s.out, s.bytesWritten)
    {
      ghost var out, written := s.out, s.bytesWritten;
      if tagged {
        r := EncodeTagged(s, f, items[i]);
      } else {
        r := EncodeValue(s, f, items[i]);
      }
      ghost var item := if tagged then Joined(Some(TagBytes(WireType(f.ltype), f.tag)), ValueBytes(f, items[i]))
                        else ValueBytes(f, items[i]);
      EmittedBoth(Ok, ItemsBytes(f, items, i, tagged), item, s.sizing, s.maxSize, old(s.out), old(s.bytesWritten),
          out, written, r, s.out, s.bytesWritten);
      if !r.Ok? {
        ItemsPrefix(f, items, i + 1, |items|, tagged);
        EmittedPrefix(r, ItemsBytes(f, items, i + 1, tagged), ItemsBytes(f, items, |items|, tagged), s.sizing,
            s.maxSize, old(s.out), old(s.bytesWritten), s.out, s.bytesWritten);
        return;
      }
    }
  }

  method EncodeTagged(s: OStream, f: Field, v: Value) returns (r: Status)
    requires s.Valid()
    modifies s
    ensures Emitted(r, Joined(Some(TagBytes(WireType(f.ltype), f.tag)), ValueBytes(f, v)), s.sizing, s.maxSize,
        old(s.out), old(s.bytesWritten), s.out, s.bytesWritten)
    decreases f, 0, 1
  {
    hide ValueBytes, TagBytes, WireType;
    r := EncodeTag(s, WireType(f.ltype), f.tag);
    ghost var r0, out, written := r, s.out, s.bytesWritten;
    if r.Ok? {
      r := EncodeValue(s, f, v);
    }
    EmittedBoth(r0, Some(TagBytes(WireType(f.ltype), f.tag)), ValueBytes(f, v), s.sizing, s.maxSize, old(s.out),
        old(s.bytesWritten), out, written, r, s.out, s.bytesWritten);
  }

  // The size of a packed array: known for fixed-width types, counted for the others.
  method PackedSize(f: Field, items: seq<Value>) returns (r: Status, size: nat)
    requires Packable(f.ltype)
    ensures r != Fail(SubmsgSizeChanged) && (r.Ok? <==> ItemsBytes(f, items, |items|, false).Some?)
    ensures r.Ok? ==> size == |ItemsBytes(f, items, |items|, false).value|
    decreases f, 2
  {
    if f.ltype.Fixed32Type? {
      FixedItems(f, items, |items|, 4);
      return Ok, 4 * |items|;
    } else if f.ltype.Fixed64Type? {
      FixedItems(f, items, |items|, 8);
      return Ok, 8 * |items|;
    } else {
      var counter := new OStream.Sizing();
      r := EncodeItems(counter, f, items, false);
      size := counter.bytesWritten;
    }
  }

  lemma {:induction false} FixedItems(f: Field, items: seq<Value>, n: nat, width: nat)
    requires n <= |items| && ((f.ltype.Fixed32Type? && width == 4) || (f.ltype.Fixed64Type? && width == 8))
    ensures ItemsBytes(f, items, n, false).Some? && |ItemsBytes(f, items, n, false).value| == width * n
  {
    if n > 0 {
      FixedItems(f, items, n - 1, width);
    }
  }

  // encode_array.
  method EncodeArray(s: OStream, f: Field, items: seq<Value>) returns (r: Status)
    requires s.Valid()
    modifies s
    ensures Emitted(r, ArrayBytes(f, items), s.sizing, s.maxSize, old(s.out), old(s.bytesWritten), s.out,
        s.bytesWritten)
    decreases f, 4
  {
    hide ValueBytes, Varint, TagBytes, WireType;
    if items == [] {
      return Ok;
    }
    if |items| > f.arraySize {
      return Fail(ArrayMaxSizeExceeded);
    }
    if !Packable(f.ltype) {
      r := EncodeItems(s, f, items, true);
      return;
    }
    r := EncodePacked(s, f, items);
  }

  // The packed branch of encode_array.
  method EncodePacked(s: OStream, f: Field, items: seq<Value>) returns (r: Status)
    requires s.Valid() && Packable(f.ltype)
    modifies s
    ensures var packed := ItemsBytes(f, items, |items|, false);
            Emitted(r, if packed.None? then None else Some(TagBytes(PB_WT_STRING, f.tag) + StringBytes(packed.value)),
                    s.sizing, s.maxSize, old(s.out), old(s.bytesWritten), s.out, s.bytesWritten)
    decreases f, 3
  {
    hide ValueBytes, Varint, TagBytes, ItemsBytes;
    ghost var packed := ItemsBytes(f, items, |items|, false);
    r := EncodeTag(s, PB_WT_STRING, f.tag);
    if !r.Ok? {
      return;
    }
    var size;
    r, size := PackedSize(f, items);
    if !r.Ok? {
      return;
    }
    r := EncodeVarint(s, size);
    if !r.Ok? {
      return;
    }
    if s.sizing {
      r := s.Count(size, packed.value);
      return;
    }
    r := EncodeItems(s, f, items, false);
  }

  // pb_encode.
  method Encode(s: OStream, fields: seq<Field>, slots: seq<Slot>) returns (r: Status)
    requires s.Valid()
    modifies s
    ensures Emitted(r, MessageBytes(fields, slots, |fields|), s.sizing, s.maxSize, old(s.out), old(s.bytesWritten),
        s.out, s.bytesWritten)
    decreases fields, |fields|
  {
    hide FieldBytes;
    r := Ok;
    for i := 0 to |fields|
      invariant r.Ok?
      invariant Emitted(r, MessageBytes(fields, slots, i), s.sizing, s.maxSize, old(s.out), old(s.bytesWritten),
          s.out, s.bytesWritten)
    {
      ghost var out, written := s.out, s.bytesWritten;
      r := EncodeField(s, fields, slots, i);
      EmittedBoth(Ok, MessageBytes(fields, slots, i), FieldBytes(fields, slots, i), s.sizing, s.maxSize, old(s.out),
          old(s.bytesWritten), out, written, r, s.out, s.bytesWritten);
      if !r.Ok? {
        FieldsPrefix(fields, slots, i + 1, |fields|);
        EmittedPrefix(r, MessageBytes(fields, slots, i + 1), MessageBytes(fields, slots, |fields|), s.sizing,
            s.maxSize, old(s.out), old(s.bytesWritten), s.out, s.bytesWritten);
        return;
      }
    }
  }

  // encode_basic_field.
  method EncodeField(s: OStream, fields: seq<Field>, slots: seq<Slot>, i: nat) returns (r: Status)
    requires s.Valid() && i < |fields|
    modifies s
    ensures Emitted(r, FieldBytes(fields, slots, i), s.sizing, s.maxSize, old(s.out), old(s.bytesWritten), s.out,
        s.bytesWritten)
    decreases fields, 0
  {
    hide ValueBytes, ArrayBytes, ZeroData, WireType, TagBytes;
    var f := fields[i];
    if i >= |slots| {
      return Fail(InvalidFieldType);
    }
    match f.htype {
      case Required =>
        if !slots[i].One? {
          return Fail(InvalidFieldType);
        }
        r := EncodeTagged(s, f, slots[i].v);
      case Optional(hasFlag) =>
        if (hasFlag && !slots[i].Opt?) || (!hasFlag && !slots[i].One?) {
          return Fail(InvalidFieldType);
        }
        var present := if hasFlag then slots[i].has else !ZeroData(f, slots[i].v);
        if !present {
          return Ok;
        }
        r := EncodeTagged(s, f, slots[i].v);
      case Repeated(_) =>
        if !slots[i].Many? {
          return Fail(InvalidFieldType);
        }
        r := EncodeArray(s, f, slots[i].items);
      case OneOf(home) =>
        if home >= |slots| || !slots[home].Which? {
          return Fail(InvalidFieldType);
        }
        if slots[home].tag != f.tag {
          return Ok;
        }
        r := EncodeTagged(s, f, slots[home].v);
    }
  }

  // pb_get_encoded_size.
  method GetEncodedSize(fields: seq<Field>, slots: seq<Slot>) returns (r: Option<nat>)
    ensures r == match MessageBytes(fields, slots, |fields|) { case None => None case Some(b) => Some(|b|) }
  {
    var counter := new OStream.Sizing();
    var status := Encode(counter, fields, slots);
    if !status.Ok? {
      return None;
    }
    return Some(counter.bytesWritten);
  }
}

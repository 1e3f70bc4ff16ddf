/** The Protocol Buffers parser at work: streams, substreams, the field iterator and the decoding
    loops (nanopb: pb_decode.c, pb_common.c). */
module PbParser {
  import opened Wrappers
  import opened Coding
  import opened PbMessages
  import opened PbDecoder
  import opened PbVarints

  // ----- the input stream -----

  // A reader took `value` off the front of its window as the specification says, and left what
  // lies beyond the window alone.
  ghost predicate Took<T>(r: Option<T>, spec: Option<(T, Bytes)>, left: Bytes, beyond: Bytes, beyond': Bytes) {
    && (r.Some? <==> spec.Some?)
    && (r.Some? ==> r.value == spec.value.0 && left == spec.value.1 && beyond' == beyond)
  }

  class IStream {
    var state: Bytes   // from the read position to the end of the buffer
    var bytesLeft: nat // how many of them this stream may read

    ghost predicate Valid()
      reads this
    {
      bytesLeft <= |state|
    }

    ghost function Left(): Bytes
      requires Valid()
      reads this
    {
      state[..bytesLeft]
    }

    ghost function Beyond(): Bytes
      requires Valid()
      reads this
    {
      state[bytesLeft..]
    }

    constructor (state: Bytes, bytesLeft: nat)
      requires bytesLeft <= |state|
      ensures Valid() && this.state == state && this.bytesLeft == bytesLeft
    {
      this.state, this.bytesLeft := state, bytesLeft;
    }

    // pb_read.
    method Read(count: nat) returns (r: Option<Bytes>)
      requires Valid()
      modifies this
      ensures Valid()
      ensures var left := old(Left());
              Took(r, if count <= |left| then Some((left[..count], left[count..])) else None, Left(),
                   old(Beyond()), Beyond())
    {
      if bytesLeft < count {
        return None;
      }
      r := Some(state[..count]);
      state := state[count..];
      bytesLeft := bytesLeft - count;
      assert r.value == old(Left())[..count] && Left() == old(Left())[count..] && Beyond() == old(Beyond());
    }

    // pb_readbyte.
    method ReadByte() returns (r: Option<Byte>)
      requires Valid()
      modifies this
      ensures Valid()
      ensures var left := old(Left());
              Took(r, if left != [] then Some((left[0], left[1..])) else None, Left(), old(Beyond()), Beyond())
    {
      if bytesLeft == 0 {
        return None;
      }
      r := Some(state[0]);
      state := state[1..];
      bytesLeft := bytesLeft - 1;
      assert Left() == old(Left())[1..] && Beyond() == old(Beyond());
    }

    // pb_decode_varint32.
    method DecodeVarint32() returns (r: Option<nat>)
      requires Valid()
      modifies this
      ensures Valid() && Took(r, Varint32(old(Left())), Left(), old(Beyond()), Beyond())
      ensures forall n :: Ends(old(Left()), n) && Right(old(Left()), n) ==>
                Took(r, Intended(old(Left()), n), Left(), old(Beyond()), Beyond())
    {
      hide Ends, Right, Intended;
      AllRight(Left());
      var first := ReadByte();
      if first.None? {
        return None;
      }
      if first.value < 128 {
        return Some(first.value);
      }
      var bitpos, result: nat, byte: Byte := 7, first.value - 128, first.value;
      ghost var k := 1;
      assert BitPosition(1) == 7;
      hide Varint32Rest, BitOr, ShiftLeft32, BitPosition;
      while byte >= 128
        invariant Valid() && Beyond() == old(Beyond()) && k >= 1 && bitpos == BitPosition(k)
        invariant if byte >= 128 then Varint32(old(Left())) == Varint32Rest(Left(), result, k)
                  else Varint32(old(Left())) == if bitpos == 35 && byte / 16 % 8 != 0 then None
                                                else Some((result, Left()))
        decreases byte >= 128, bytesLeft
      {
        Varint32Step(Left(), result, k);
        NextBitPosition(k);
        var next := ReadByte();
        if next.None? {
          return None;
        }
        byte := next.value;
        if bitpos >= 32 {
          var signExtension := if bitpos < 63 then 0xFF else 0x01;
          if byte % 128 != 0 && (result / 0x8000_0000 == 0 || byte != signExtension) {
            return None;
          }
        } else {
          result := BitOr(result, ShiftLeft32(byte % 128, bitpos));
        }
        bitpos := (bitpos + 7) % 256;
        k := k + 1;
      }
      if bitpos == 35 && byte / 16 % 8 != 0 {
        return None;
      }
      return Some(result);
    }

    // pb_decode_varint, its result kept unreduced until the end.
    method DecodeVarint() returns (r: Option<nat>)
      requires Valid()
      modifies this
      ensures Valid() && Took(r, TakeVarint64(old(Left())), Left(), old(Beyond()), Beyond())
    {
      ghost var b := Left();
      var bitpos, scale, result := 0, 1, 0;
      ghost var k := 0;
      while true
        invariant Valid() && Beyond() == old(Beyond()) && bitpos == 7 * k && k <= 10 && k <= |b| && Left() == b[k..]
        invariant scale == Power128(k) && result == Scaled(b, k) && forall i :: 0 <= i < k ==> b[i] >= 128
        decreases |b| - k
      {
        ParseByIndex(b, 10, k);
        if bitpos >= 64 {
          return None;
        }
        var byte := ReadByte();
        if byte.None? {
          return None;
        }
        assert byte.value == b[k];
        result := result + (byte.value % 128) * scale;
        scale := 128 * scale;
        bitpos := bitpos + 7;
        k := k + 1;
        if byte.value < 128 {
          return Some(result % TWO_64);
        }
      }
    }

    // pb_skip_varint.
    method SkipVarint() returns (ok: bool)
      requires Valid()
      modifies this
      ensures Valid() && Skipped(ok, PbDecoder.SkipVarint(old(Left())), Left(), old(Beyond()), Beyond())
    {
      var more := true;
      while more
        invariant Valid() && Beyond() == old(Beyond())
        invariant PbDecoder.SkipVarint(old(Left())) == if more then PbDecoder.SkipVarint(Left()) else Some(Left())
        decreases more, bytesLeft
      {
        var byte := ReadByte();
        if byte.None? {
          return false;
        }
        more := byte.value >= 128;
      }
      return true;
    }

    // pb_make_string_substream: the substream reads first, the parent only gives up its share.
    method MakeSubstream() returns (sub: IStream?)
      requires Valid()
      modifies this
      ensures Valid() && (sub != null <==> Delimited(old(Left())).Some?)
      ensures sub != null ==> fresh(sub) && sub.Valid() && sub.Left() == Delimited(old(Left())).value.0
                              && |sub.Beyond()| >= bytesLeft
                                  && sub.Beyond()[..bytesLeft] == Delimited(old(Left())).value.1
                              && sub.Beyond()[bytesLeft..] == old(Beyond())
    {
      var size := DecodeVarint32();
      if size.None? || bytesLeft < size.value {
        return null;
      }
      sub := new IStream(state, size.value);
      bytesLeft := bytesLeft - size.value;
      assert sub.Left() == Delimited(old(Left())).value.0;
      assert sub.Beyond()[..bytesLeft] == Delimited(old(Left())).value.1;
    }

    // pb_close_string_substream: skip what the substream did not read and go on after it.
    method CloseSubstream(sub: IStream)
      requires sub != this && sub.Valid() && bytesLeft <= |sub.Beyond()|
      modifies this, sub
      ensures Valid() && bytesLeft == old(bytesLeft) && Left() == old(sub.Beyond())[..old(bytesLeft)]
      ensures Beyond() == old(sub.Beyond())[old(bytesLeft)..]
    {
      if sub.bytesLeft != 0 {
        var skipped := sub.Read(sub.bytesLeft);
      }
      assert sub.state == old(sub.Beyond());
      state := sub.state;
    }

    // pb_skip_field.
    method SkipField(wireType: nat) returns (ok: bool)
      requires Valid()
      modifies this
      ensures Valid() && Skipped(ok, PbDecoder.SkipField(old(Left()), wireType), Left(), old(Beyond()), Beyond())
    {
      if wireType == PB_WT_VARINT {
        ok := SkipVarint();
      } else if wireType == PB_WT_64BIT {
        var r := Read(8);
        ok := r.Some?;
      } else if wireType == PB_WT_STRING {
        var length := DecodeVarint32();
        if length.None? {
          return false;
        }
        var r := Read(length.value);
        ok := r.Some?;
      } else if wireType == PB_WT_32BIT {
        var r := Read(4);
        ok := r.Some?;
      } else {
        ok := false;
      }
    }
  }

  ghost predicate Skipped(ok: bool, spec: Option<Bytes>, left: Bytes, beyond: Bytes, beyond': Bytes) {
    ok == spec.Some? && (ok ==> left == spec.value && beyond' == beyond)
  }

  lemma Varint32Step(b: Bytes, result: nat, k: nat)
    ensures b == [] ==> Varint32Rest(b, result, k) == None
    ensures b != [] ==>
              Varint32Rest(b, result, k) ==
                var byte, pos := b[0], BitPosition(k);
                if pos >= 32 && byte % 128 != 0
                   && (result / 0x8000_0000 == 0 || byte != if pos < 63 then 0xFF else 0x01) then None
                else
                  var result' := if pos >= 32 then result else BitOr(result, ShiftLeft32(byte % 128, pos));
                  if byte >= 128 then Varint32Rest(b[1..], result', k + 1)
                  else if BitPosition(k + 1) == 35 && byte / 16 % 8 != 0 then None
                  else Some((result', b[1..]))
  {
    hide BitPosition, BitOr, ShiftLeft32;
  }

  lemma NextBitPosition(k: nat)
    ensures (BitPosition(k) + 7) % 256 == BitPosition(k + 1)
  {
    SameRemainder(7 * k / 256, BitPosition(k) + 7);
    assert 7 * (k + 1) == 256 * (7 * k / 256) + (BitPosition(k) + 7);
  }

  lemma SameRemainder(q: nat, t: nat)
    ensures (256 * q + t) % 256 == t % 256
  {
  }

  // ----- the field iterator -----

  // pb_field_iter_t.
  class FieldIter {
    const fields: seq<Field>
    var pos: nat
    var requiredIndex: nat

    ghost predicate Valid()
      reads this
    {
      if fields == [] then pos == 0 && requiredIndex == 0
      else pos < |fields| && requiredIndex == RequiredBefore(fields, pos)
    }

    // pb_field_iter_begin.
    constructor (fields: seq<Field>)
      ensures Valid() && this.fields == fields && pos == 0
    {
      this.fields, pos, requiredIndex := fields, 0, 0;
    }

    // pb_field_iter_next: false when it wraps around, or there are no fields.
    method Next() returns (more: bool)
      requires Valid()
      modifies this
      ensures Valid() && more == (old(pos) + 1 < |fields|) && pos == if more then old(pos) + 1 else 0
    {
      if fields == [] {
        return false;
      }
      var previous := fields[pos];
      pos := pos + 1;
      if pos == |fields| {
        pos, requiredIndex := 0, 0;
        return false;
      }
      if previous.htype.Required? {
        requiredIndex := requiredIndex + 1;
      }
      return true;
    }

    // pb_field_iter_find. Among no fields it finds the terminator, whose tag is zero.
    method Find(tag: nat) returns (found: bool)
      requires Valid()
      modifies this
      ensures Valid()
      ensures fields == [] ==> found == (tag == 0)
      ensures fields != [] ==> found == PbDecoder.Find(fields, tag, old(pos), |fields|).Some?
                               && pos == if found then PbDecoder.Find(fields, tag, old(pos), |fields|).value
                                         else old(pos)
    {
      if fields == [] {
        return tag == 0;
      }
      var start := pos;
      ghost var left := |fields|;
      while true
        invariant Valid() && 0 < left <= |fields| && Around(start, pos, |fields| - left, |fields|)
        invariant PbDecoder.Find(fields, tag, start, |fields|) == PbDecoder.Find(fields, tag, pos, left)
        decreases left
      {
        if fields[pos].tag == tag {
          return true;
        }
        AroundNext(start, pos, |fields| - left, |fields|);
        var more := Next();
        left := left - 1;
        if pos == start {
          return false;
        }
      }
    }
  }

  // `pos` is `steps` fields after `start`, around the end.
  ghost predicate Around(start: nat, pos: nat, steps: nat, n: nat) {
    start < n && steps <= n && pos == if start + steps < n then start + steps else start + steps - n
  }

  lemma AroundNext(start: nat, pos: nat, steps: nat, n: nat)
    requires Around(start, pos, steps, n) && steps < n && pos < n
    ensures Around(start, if pos + 1 < n then pos + 1 else 0, steps + 1, n)
        && (pos + 1) % n == if pos + 1 < n then pos + 1 else 0
  {
    assert (pos + 1) % n == if pos + 1 == n then 0 else pos + 1;
  }

  // ----- decoding -----

  method DecodeInteger(s: IStream, f: Field) returns (r: Option<Value>)
    requires s.Valid() && (f.ltype.VarintType? || f.ltype.UvarintType? || f.ltype.SvarintType?)
    modifies s
    ensures s.Valid() && Took(r, ParseValue(f, old(s.Left()), Num(0)), s.Left(), old(s.Beyond()), s.Beyond())
  {
    hide TakeVarint64, Signed, Unsigned;
    var value := s.DecodeVarint();
    if value.None? {
      return None;
    }
    if f.ltype.VarintType? {
      // Fields of at most 32 bits are cast to int32_t first.
      var svalue := if f.dataSize == 8 then Signed(value.value, 8) else Signed(value.value, 4);
      if !IntSize(f.dataSize) || Signed(svalue, f.dataSize) != svalue {
        return None;
      }
      return Some(Num(svalue));
    } else if f.ltype.UvarintType? {
      if !IntSize(f.dataSize) || Unsigned(value.value, f.dataSize) != value.value {
        return None;
      }
      return Some(Num(value.value));
    } else {
      var half: int := value.value / 2;
      var svalue := if value.value % 2 == 1 then -half - 1 else half;
      if !IntSize(f.dataSize) || Signed(svalue, f.dataSize) != svalue {
        return None;
      }
      return Some(Num(svalue));
    }
  }

  method DecodeBlob(s: IStream, f: Field) returns (r: Option<Value>)
    requires s.Valid() && (f.ltype.BytesType? || f.ltype.StringType? || f.ltype.FixedLengthBytesType?)
    modifies s
    ensures s.Valid() && Took(r, ParseValue(f, old(s.Left()), Num(0)), s.Left(), old(s.Beyond()), s.Beyond())
  {
    hide PbDecoder.Varint32;
    var size := s.DecodeVarint32();
    if size.None? {
      return None;
    }
    match f.ltype {
      case BytesType =>
        if size.value + BYTES_OFFSET > f.dataSize {
          return None;
        }
      case StringType =>
        // The terminator needs a byte, and must not wrap the 32-bit size.
        if size.value + 1 >= TWO_32 || size.value + 1 > f.dataSize {
          return None;
        }
      case FixedLengthBytesType =>
        if size.value == 0 {
          return Some(Blob(ZeroBytes(f.dataSize)));
        }
        if size.value != f.dataSize {
          return None;
        }
    }
    var data := s.Read(size.value);
    if data.None? {
      return None;
    }
    return Some(Blob(data.value));
  }

  // PB_DECODERS.
  method DecodeValue(s: IStream, f: Field, old': Value) returns (r: Option<Value>)
    requires s.Valid()
    modifies s
    ensures s.Valid() && Took(r, ParseValue(f, old(s.Left()), old'), s.Left(), old(s.Beyond()), s.Beyond())
    decreases f, 0
  {
    match f.ltype {
      case BoolType =>
        var value := s.DecodeVarint32();
        if value.None? {
          return None;
        }
        return Some(Num(if value.value != 0 then 1 else 0));
      case Fixed32Type =>
        var bytes := s.Read(4);
        if bytes.None? {
          return None;
        }
        return Some(Num(DecodeFixed32(bytes.value)));
      case Fixed64Type =>
        var bytes := s.Read(8);
        if bytes.None? {
          return None;
        }
        FirstEight(old(s.Left()));
        return Some(Num(DecodeFixed64(bytes.value)));
      case SubmessageType(fields) => r := DecodeSubmessage(s, f, old');
      case BytesType => r := DecodeBlob(s, f);
      case StringType => r := DecodeBlob(s, f);
      case FixedLengthBytesType => r := DecodeBlob(s, f);
      case VarintType => r := DecodeInteger(s, f);
      case UvarintType => r := DecodeInteger(s, f);
      case SvarintType => r := DecodeInteger(s, f);
    }
  }

  lemma FirstEight(b: Bytes)
    requires |b| >= 8
    ensures DecodeFixed64(b[..8]) == DecodeFixed64(b)
  {
    assert b[..8][..4] == b[..4] && b[..8][4..8] == b[4..8];
  }

  // pb_dec_submessage. After an error the stream is not read again, so it is left unclosed.
  method DecodeSubmessage(s: IStream, f: Field, old': Value) returns (r: Option<Value>)
    requires s.Valid() && f.ltype.SubmessageType?
    modifies s
    ensures s.Valid() && Took(r, ParseValue(f, old(s.Left()), old'), s.Left(), old(s.Beyond()), s.Beyond())
    decreases f.ltype.fields, 4
  {
    hide Delimited, ParseMessage, Defaults;
    var fields := f.ltype.fields;
    var sub := s.MakeSubstream();
    if sub == null || !old'.Sub? {
      return None;
    }
    ghost var rest := Delimited(old(s.Left())).value.1;
    var slots := if f.htype.Repeated? then Defaults(fields, old'.slots, |old'.slots|) else old'.slots;
    var result := DecodeMessage(sub, fields, slots);
    if result.None? {
      return None;
    }
    s.CloseSubstream(sub);
    return Some(Sub(result.value));
  }

  // pb_decode_noinit.
  method DecodeMessage(s: IStream, fields: seq<Field>, slots: seq<Slot>) returns (r: Option<seq<Slot>>)
    requires s.Valid()
    modifies s
    ensures s.Valid() && r == ParseMessage(fields, old(s.Left()), slots)
    ensures r.Some? ==> s.Beyond() == old(s.Beyond())
    decreases fields, 3
  {
    hide ParseFields, ParseField, Enter, PbDecoder.Find, PbDecoder.SkipField, PbDecoder.Varint32, RequiredBefore, Found;
    var st := Start(slots);
    var iter := new FieldIter(fields);
    var ended := false;
    while s.bytesLeft != 0 && !ended
      invariant s.Valid() && s.Beyond() == old(s.Beyond()) && iter.Valid() && fresh(iter) && iter.fields == fields
      invariant iter.pos == st.pos
      invariant |st.seen| == MAX_REQUIRED_FIELDS && (st.fixedField.Some? ==> st.fixedField.value < |fields|)
      invariant ParseFields(fields, old(s.Left()), Start(slots)) ==
                  if ended then Some(st) else ParseFields(fields, s.Left(), st)
      decreases !ended, s.bytesLeft
    {
      ghost var b, st0 := s.Left(), st;
      var key := s.DecodeVarint32();
      OneTurn(fields, b, st0);
      if key.None? {
        return None;
      }
      if key.value == 0 {
        ended := true;
      } else {
        var tag, wireType := key.value / 8, key.value % 8;
        ghost var after := s.Left();
        var found := iter.Find(tag);
        TaggedTurn(fields, st0, tag, wireType, after);
        if !found {
          var ok := s.SkipField(wireType);
          if !ok {
            return None;
          }
        } else if fields == [] {
          var value := s.DecodeVarint32();
          if value.None? {
            return None;
          }
        } else {
          var next := DecodeFound(s, fields, st, iter, wireType);
          if next.None? {
            return None;
          }
          FoundKeeps(fields, st0, iter.pos, wireType, after);
          st := next.value;
        }
      }
    }
    if !ended {
      NothingLeft(fields, st);
      assert s.Left() == [];
    }
    if st.fixedField.Some? && st.fixedSize != fields[st.fixedField.value].arraySize {
      return None;
    }
    var count := CountRequired(iter);
    for k := 0 to if count > MAX_REQUIRED_FIELDS then MAX_REQUIRED_FIELDS else count
      invariant forall j :: 0 <= j < k ==> st.seen[j]
    {
      if !st.seen[k] {
        return None;
      }
    }
    return Some(st.slots);
  }

  // The packed branch of the repeated case.
  method DecodePacked(s: IStream, f: Field, items: seq<Value>, at: nat) returns (r: Option<(seq<Value>, nat)>)
    requires s.Valid() && Packable(f.ltype)
    modifies s
    ensures s.Valid()
    ensures Took(r, Paired(ParseRepeated(f, PB_WT_STRING, old(s.Left()), items, at)), s.Left(), old(s.Beyond()),
        s.Beyond())
    decreases f, 1
  {
    hide Delimited, ParseValue, ZeroValue, PutItem;
    var sub := s.MakeSubstream();
    if sub == null {
      return None;
    }
    label Made:
    var filled, size: nat := items, at;
    ghost var packed := sub.Left();
    while sub.bytesLeft > 0 && size < f.arraySize
      invariant sub.Valid() && s.Valid() && sub.Beyond() == old@Made(sub.Beyond())
      invariant ParsePacked(f, packed, items, at) == ParsePacked(f, sub.Left(), filled, size)
      decreases sub.bytesLeft
      modifies sub
    {
      var v := DecodeValue(sub, f, ZeroValue(f));
      if v.None? {
        return None;
      }
      filled := PutItem(filled, size, v.value);
      size := size + 1;
    }
    if sub.bytesLeft != 0 {
      return None;
    }
    s.CloseSubstream(sub);
    return Some((filled, size));
  }

  ghost function Paired(r: Option<(seq<Value>, nat, Bytes)>): Option<((seq<Value>, nat), Bytes)> {
    match r
    case None => None
    case Some(p) => Some(((p.0, p.1), p.2))
  }

  // The repeated case of decode_static_field.
  method DecodeRepeated(s: IStream, f: Field, wireType: nat, items: seq<Value>, at: nat)
    returns (r: Option<(seq<Value>, nat)>)
    requires s.Valid()
    modifies s
    ensures s.Valid()
    ensures Took(r, Paired(ParseRepeated(f, wireType, old(s.Left()), items, at)), s.Left(), old(s.Beyond()), s.Beyond())
    decreases f, 2
  {
    hide Delimited, ParseValue, ZeroValue, PutItem, ParsePacked;
    if wireType == PB_WT_STRING && Packable(f.ltype) {
      r := DecodePacked(s, f, items, at);
      return;
    }
    if at >= f.arraySize {
      return None;
    }
    var v := DecodeValue(s, f, ZeroValue(f));
    if v.None? {
      return None;
    }
    return Some((PutItem(items, at, v.value), at + 1));
  }

  // decode_static_field.
  method DecodeField(s: IStream, fields: seq<Field>, st: State, i: nat, wireType: nat) returns (r: Option<State>)
    requires s.Valid() && i < |fields|
    modifies s
    ensures s.Valid()
    ensures Took(r, PbDecoder.ParseField(fields, st, i, wireType, old(s.Left())), s.Left(), old(s.Beyond()), s.Beyond())
    decreases fields, 0
  {
    hide ParseValue, ParseRepeated, DefaultValue, ZeroValue;
    var f := fields[i];
    if i >= |st.slots| {
      return None;
    }
    var slot := st.slots[i];
    match f.htype {
      case Required =>
        if !slot.One? {
          return None;
        }
        var v := DecodeValue(s, f, slot.v);
        return if v.Some? then Some(st.(slots := st.slots[i := One(v.value)])) else None;
      case Optional(hasFlag) =>
        if (hasFlag && !slot.Opt?) || (!hasFlag && !slot.One?) {
          return None;
        }
        var v := DecodeValue(s, f, slot.v);
        if v.None? {
          return None;
        }
        return Some(st.(slots := st.slots[i := if hasFlag then Opt(true, v.value) else One(v.value)]));
      case Repeated(counted) =>
        if !slot.Many? {
          return None;
        }
        var items := DecodeRepeated(s, f, wireType, slot.items, if counted then |slot.items| else st.fixedSize);
        if items.None? {
          return None;
        }
        return Some(st.(slots := st.slots[i := Many(items.value.0)],
                        fixedSize := if counted then st.fixedSize else items.value.1));
      case OneOf(home) =>
        if home >= |st.slots| || !st.slots[home].Which? {
          return None;
        }
        var u := st.slots[home];
        var old' := if f.ltype.SubmessageType? && u.tag != f.tag then DefaultValue(f, ZeroValue(f)) else u.v;
        var v := DecodeValue(s, f, old');
        return if v.Some? then Some(st.(slots := st.slots[home := Which(f.tag, v.value)])) else None;
    }
  }

  // What becomes of a field the iterator found.
  function Found(fields: seq<Field>, st: State, i: nat, wireType: nat, b: Bytes): Option<(State, Bytes)>
    requires i < |fields|
  {
    match Enter(fields, st, i)
    case None => None
    case Some(st') => PbDecoder.ParseField(fields, st', i, wireType, b)
  }

  lemma FoundKeeps(fields: seq<Field>, st: State, i: nat, wireType: nat, b: Bytes)
    requires i < |fields| && Found(fields, st, i, wireType, b).Some?
    ensures var st' := Found(fields, st, i, wireType, b).value.0; st'.pos == i && |st'.seen| == |st.seen|
    ensures st.fixedField.Some? && st.fixedField.value < |fields| ==>
              var st' := Found(fields, st, i, wireType, b).value.0;
              st'.fixedField.Some? && st'.fixedField.value < |fields|
    ensures st.fixedField.None? ==> var st' := Found(fields, st, i, wireType, b).value.0;
            st'.fixedField.None? || st'.fixedField.value < |fields|
  {
    hide ParseValue, ParseRepeated;
  }

  // The checks before decode_field, and decode_field.
  method DecodeFound(s: IStream, fields: seq<Field>, st: State, iter: FieldIter, wireType: nat)
    returns (r: Option<State>)
    requires s.Valid() && iter.Valid() && iter.fields == fields && fields != [] && |st.seen| == MAX_REQUIRED_FIELDS
    requires st.fixedField.Some? ==> st.fixedField.value < |fields|
    modifies s
    ensures s.Valid()
    ensures Took(r, Found(fields, st, iter.pos, wireType, old(s.Left())), s.Left(), old(s.Beyond()), s.Beyond())
    decreases fields, 2
  {
    hide PbDecoder.ParseField, RequiredBefore;
    var i := iter.pos;
    var f := fields[i];
    var entered := st.(pos := i);
    if f.htype == Repeated(false) && st.fixedField != Some(i) {
      if st.fixedField.Some? && st.fixedSize != fields[st.fixedField.value].arraySize {
        return None;
      }
      entered := entered.(fixedField := Some(i), fixedSize := 0);
    }
    if f.htype.Required? && iter.requiredIndex < MAX_REQUIRED_FIELDS {
      entered := entered.(seen := st.seen[iter.requiredIndex := true]);
    }
    r := DecodeField(s, fields, entered, i, wireType);
  }

  lemma RequiredStep(fields: seq<Field>, n: nat)
    requires n < |fields|
    ensures RequiredBefore(fields, n + 1) == RequiredBefore(fields, n) + if fields[n].htype.Required? then 1 else 0
  {
  }

  // How many fields are required: the iterator walked to the end.
  method CountRequired(iter: FieldIter) returns (n: nat)
    requires iter.Valid()
    modifies iter
    ensures iter.Valid() && n == RequiredBefore(iter.fields, |iter.fields|)
  {
    var fields := iter.fields;
    if fields == [] {
      return 0;
    }
    hide RequiredBefore;
    ghost var at: nat := iter.pos;
    var last := fields[iter.pos].htype;
    n := iter.requiredIndex;
    var more := iter.Next();
    while more
      invariant iter.Valid() && at < |fields| && n == RequiredBefore(fields, at) && last == fields[at].htype
      invariant if more then iter.pos == at + 1 else at + 1 == |fields|
      decreases more, |fields| - at
    {
      at := iter.pos;
      last := fields[iter.pos].htype;
      n := iter.requiredIndex;
      more := iter.Next();
    }
    RequiredStep(fields, at);
    if last.Required? {
      n := n + 1;
    }
  }

  // A step of the loop, and its end.
  lemma OneTurn(fields: seq<Field>, b: Bytes, st: State)
    requires b != []
    ensures ParseFields(fields, b, st) ==
            match Varint32(b)
            case None => None
            case Some(p) =>
              if p.0 == 0 then Some(st)
              else match ParseTagged(fields, st, p.0 / 8, p.0 % 8, p.1)
                   case None => None
                   case Some(q) => ParseFields(fields, q.1, q.0)
  {
  }

  lemma TaggedTurn(fields: seq<Field>, st: State, tag: nat, wireType: nat, b: Bytes)
    ensures ParseTagged(fields, st, tag, wireType, b) ==
            if fields == [] && tag == 0 then
              match Varint32(b) { case None => None case Some(p) => Some((st, p.1)) }
            else
              match PbDecoder.Find(fields, tag, st.pos, |fields|)
              case None => (match PbDecoder.SkipField(b, wireType) { case None => None
                            case Some(rest) => Some((st, rest)) })
              case Some(i) => Found(fields, st, i, wireType, b)
    ensures fields == [] ==> PbDecoder.Find(fields, tag, st.pos, |fields|) == None
  {
  }

  lemma NothingLeft(fields: seq<Field>, st: State)
    ensures ParseFields(fields, [], st) == Some(st)
  {
  }

  // pb_decode.
  method Decode(s: IStream, fields: seq<Field>, storage: seq<Slot>) returns (r: Option<seq<Slot>>)
    requires s.Valid()
    modifies s
    ensures s.Valid() && r == Parse(fields, old(s.Left()), storage)
  {
    r := DecodeMessage(s, fields, Defaults(fields, storage, |storage|));
  }
}

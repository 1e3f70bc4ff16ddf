/** The Protocol Buffers parser (nanopb: pb_decode.c, pb_common.c). What the parser makes of every
    input, malformed ones included. */
module PbDecoder {
  import opened Wrappers
  import opened Coding
  import opened PbMessages

  // ----- varints -----

  function BitOr(a: nat, b: nat): nat {
    if a == 0 then b
    else if b == 0 then a
    else 2 * BitOr(a / 2, b / 2) + if a % 2 == 1 || b % 2 == 1 then 1 else 0
  }

  // n << pos in 32 bits.
  function ShiftLeft32(n: nat, pos: nat): nat {
    n * Power2(pos) % TWO_32
  }

  // The bit position of the k-th byte, counted in a uint_fast8_t of its usual width, 8 bits.
  function BitPosition(k: nat): nat {
    7 * k % 256
  }

  // The bytes of a 32-bit varint after the first `k`; those from bit 35 on may only repeat zero or
  // a sign extension.
  function Varint32Rest(b: Bytes, result: nat, k: nat): (r: Option<(nat, Bytes)>)
    ensures r.Some? ==> |r.value.1| < |b|
  {
    if b == [] then None
    else
      var byte, pos := b[0], BitPosition(k);
      if pos >= 32 && byte % 128 != 0 && (result / 0x8000_0000 == 0 || byte != if pos < 63 then 0xFF else 0x01) then
        None
      else
        var result' := if pos >= 32 then result else BitOr(result, ShiftLeft32(byte % 128, pos));
        if byte >= 128 then Varint32Rest(b[1..], result', k + 1)
        else if BitPosition(k + 1) == 35 && byte / 16 % 8 != 0 then None
        else Some((result', b[1..]))
  }

  // pb_decode_varint32.
  function Varint32(b: Bytes): (r: Option<(nat, Bytes)>)
    ensures r.Some? ==> |r.value.1| < |b|
  {
    if b == [] then None
    else if b[0] < 128 then Some((b[0], b[1..]))
    else Varint32Rest(b[1..], b[0] - 128, 1)
  }

  // pb_decode_varint is TakeVarint64 of Coding: at most ten bytes, the value modulo 2^64.

  // pb_skip_varint.
  function SkipVarint(b: Bytes): (r: Option<Bytes>)
    ensures r.Some? ==> |r.value| < |b|
  {
    if b == [] then None else if b[0] < 128 then Some(b[1..]) else SkipVarint(b[1..])
  }

  function SkipBytes(b: Bytes, n: nat): Option<Bytes> {
    if n <= |b| then Some(b[n..]) else None
  }

  // pb_make_string_substream: the delimited bytes and what follows them.
  function Delimited(b: Bytes): (r: Option<(Bytes, Bytes)>)
    ensures r.Some? ==> |r.value.0| + |r.value.1| < |b|
  {
    match Varint32(b)
    case None => None
    case Some(p) => if p.0 <= |p.1| then Some((p.1[..p.0], p.1[p.0..])) else None
  }

  // pb_skip_field.
  function SkipField(b: Bytes, wireType: nat): (r: Option<Bytes>)
    ensures r.Some? ==> |r.value| <= |b|
  {
    if wireType == PB_WT_VARINT then SkipVarint(b)
    else if wireType == PB_WT_64BIT then SkipBytes(b, 8)
    else if wireType == PB_WT_STRING then match Delimited(b) { case None => None case Some(p) => Some(p.1) }
    else if wireType == PB_WT_32BIT then SkipBytes(b, 4)
    else None
  }

  // ----- scalar values -----

  // pb_dec_varint: fields of at most 32 bits take the low 32 bits first, signed, then must fit.
  function SignedField(value: nat, size: nat): Option<Value> {
    var svalue := if size == 8 then Signed(value, 8) else Signed(value, 4);
    if IntSize(size) && Signed(svalue, size) == svalue then Some(Num(svalue)) else None
  }

  function UnsignedField(value: nat, size: nat): Option<Value> {
    if IntSize(size) && Unsigned(value, size) == value then Some(Num(value)) else None
  }

  function UnZigZag(value: nat): int {
    if value % 2 == 1 then -(value / 2) - 1 else value / 2
  }

  function ZigZagField(value: nat, size: nat): Option<Value> {
    var svalue := UnZigZag(value);
    if IntSize(size) && Signed(svalue, size) == svalue then Some(Num(svalue)) else None
  }

  // Attach a value, if there is one, to the bytes that follow it.
  function With(v: Option<Value>, rest: Bytes): Option<(Value, Bytes)> {
    match v
    case None => None
    case Some(x) => Some((x, rest))
  }

  // ----- messages -----

  // The local state of pb_decode_noinit: the struct, the iterator's position, the repeated field of
  // fixed count being filled and how far, and the required fields seen.
  datatype State = State(slots: seq<Slot>, pos: nat, fixedField: Option<nat>, fixedSize: nat, seen: seq<bool>)

  function Start(slots: seq<Slot>): State {
    State(slots, 0, None, 0, seq(MAX_REQUIRED_FIELDS, i => false))
  }

  // pb_field_iter_find: forward from the current field, around the end.
  function Find(fields: seq<Field>, tag: nat, pos: nat, left: nat): (r: Option<nat>)
    ensures r.Some? ==> r.value < |fields| && fields[r.value].tag == tag
    decreases left
  {
    if left == 0 || pos >= |fields| then None
    else if fields[pos].tag == tag then Some(pos)
    else Find(fields, tag, (pos + 1) % |fields|, left - 1)
  }

  // The iterator's required_field_index.
  function RequiredBefore(fields: seq<Field>, n: nat): (r: nat)
    requires n <= |fields|
    ensures r <= n
  {
    if n == 0 then 0 else RequiredBefore(fields, n - 1) + if fields[n - 1].htype.Required? then 1 else 0
  }

  // The checks between finding a field and decoding it.
  function Enter(fields: seq<Field>, st: State, i: nat): Option<State>
    requires i < |fields|
  {
    var f := fields[i];
    if f.htype == Repeated(false) then
      if st.fixedField == Some(i) then Some(st.(pos := i))
      else if st.fixedField.Some? && (st.fixedField.value >= |fields|
          || st.fixedSize != fields[st.fixedField.value].arraySize) then None
      else Some(st.(pos := i, fixedField := Some(i), fixedSize := 0))
    else if f.htype.Required? && RequiredBefore(fields, i) < |st.seen| then
      Some(st.(pos := i, seen := st.seen[RequiredBefore(fields, i) := true]))
    else Some(st.(pos := i))
  }

  // Every fixed array complete, every required field seen.
  predicate Complete(fields: seq<Field>, st: State) {
    && (st.fixedField.Some? ==> st.fixedField.value < |fields| && st.fixedSize == fields[st.fixedField.value].arraySize)
    && forall k :: 0 <= k < RequiredBefore(fields, |fields|) && k < MAX_REQUIRED_FIELDS ==> k < |st.seen| && st.seen[k]
  }

  function PutItem(items: seq<Value>, at: nat, v: Value): seq<Value> {
    if at < |items| then items[at := v] else items + [v]
  }

  // PB_DECODERS: one value, `old` being the storage it goes to.
  function ParseValue(f: Field, b: Bytes, old': Value): (r: Option<(Value, Bytes)>)
    ensures r.Some? ==> |r.value.1| < |b|
    decreases f, 0
  {
    match f.ltype
    case BoolType => (match Varint32(b) { case None => None
                      case Some(p) => Some((Num(if p.0 != 0 then 1 else 0), p.1)) })
    case VarintType => (match TakeVarint64(b) { case None => None
                        case Some(p) => With(SignedField(p.0, f.dataSize), p.1) })
    case UvarintType => (match TakeVarint64(b) { case None => None
                         case Some(p) => With(UnsignedField(p.0, f.dataSize), p.1) })
    case SvarintType => (match TakeVarint64(b) { case None => None
                         case Some(p) => With(ZigZagField(p.0, f.dataSize), p.1) })
    case Fixed32Type => if |b| < 4 then None else Some((Num(DecodeFixed32(b)), b[4..]))
    case Fixed64Type => if |b| < 8 then None else Some((Num(DecodeFixed64(b)), b[8..]))
    case BytesType =>
      (match Varint32(b) {
         case None => None
         case Some(p) => if p.0 + BYTES_OFFSET > f.dataSize || p.0 > |p.1| then None
                         else Some((Blob(p.1[..p.0]), p.1[p.0..]))
       })
    case StringType =>
      (match Varint32(b) {
         case None => None
         case Some(p) => if p.0 + 1 >= TWO_32 || p.0 + 1 > f.dataSize || p.0 > |p.1| then None
                         else Some((Blob(p.1[..p.0]), p.1[p.0..]))
       })
    case SubmessageType(fields) =>
      (match Delimited(b) {
         case None => None
         case Some(p) =>
           if !old'.Sub? then None
           else
             var slots := if f.htype.Repeated? then Defaults(fields, old'.slots, |old'.slots|) else old'.slots;
             match ParseMessage(fields, p.0, slots) { case None => None case Some(s) => Some((Sub(s), p.1)) }
       })
    case FixedLengthBytesType =>
      (match Varint32(b) {
         case None => None
         case Some(p) =>
           if p.0 == 0 then Some((Blob(ZeroBytes(f.dataSize)), p.1))
           else if p.0 != f.dataSize || p.0 > |p.1| then None
           else Some((Blob(p.1[..p.0]), p.1[p.0..]))
       })
  }

  // The loop over a packed array: until its bytes or the array end.
  function ParsePacked(f: Field, b: Bytes, items: seq<Value>, at: nat): (r: Option<(seq<Value>, nat, Bytes)>)
    decreases f, 1, |b|
  {
    if b == [] || at >= f.arraySize then Some((items, at, b))
    else
      match ParseValue(f, b, ZeroValue(f))
      case None => None
      case Some(p) => ParsePacked(f, p.1, PutItem(items, at, p.0), at + 1)
  }

  // The repeated case of decode_static_field: the array and how much of it is filled.
  function ParseRepeated(f: Field, wireType: nat, b: Bytes, items: seq<Value>,
                         at: nat): (r: Option<(seq<Value>, nat, Bytes)>)
    ensures r.Some? ==> |r.value.2| < |b|
    decreases f, 2
  {
    if wireType == PB_WT_STRING && Packable(f.ltype) then
      match Delimited(b)
      case None => None
      case Some(p) =>
        match ParsePacked(f, p.0, items, at)
        case None => None
        case Some(q) => if q.2 != [] then None else Some((q.0, q.1, p.1))
    else if at >= f.arraySize then None
    else
      match ParseValue(f, b, ZeroValue(f))
      case None => None
      case Some(p) => Some((PutItem(items, at, p.0), at + 1, p.1))
  }

  // decode_static_field of field `i`.
  function ParseField(fields: seq<Field>, st: State, i: nat, wireType: nat, b: Bytes): (r: Option<(State, Bytes)>)
    requires i < |fields|
    ensures r.Some? ==> |r.value.1| < |b|
    decreases fields, 0
  {
    var f := fields[i];
    if i >= |st.slots| then None
    else
      var s := st.slots[i];
      match f.htype
      case Required =>
        if !s.One? then None
        else (match ParseValue(f, b, s.v) { case None => None
              case Some(p) => Some((st.(slots := st.slots[i := One(p.0)]), p.1)) })
      case Optional(hasFlag) =>
        if hasFlag then
          if !s.Opt? then None
          else (match ParseValue(f, b, s.v) { case None => None
                case Some(p) => Some((st.(slots := st.slots[i := Opt(true, p.0)]), p.1)) })
        else if !s.One? then None
        else (match ParseValue(f, b, s.v) { case None => None
              case Some(p) => Some((st.(slots := st.slots[i := One(p.0)]), p.1)) })
      case Repeated(counted) =>
        if !s.Many? then None
        else
          (match ParseRepeated(f, wireType, b, s.items, if counted then |s.items| else st.fixedSize) {
             case None => None
             case Some(p) =>
               var size := if counted then st.fixedSize else p.1;
               Some((st.(slots := st.slots[i := Many(p.0)], fixedSize := size), p.2))
           })
      case OneOf(home) =>
        if home >= |st.slots| || !st.slots[home].Which? then None
        else
          var u := st.slots[home];
          var old' := if f.ltype.SubmessageType? && u.tag != f.tag then DefaultValue(f, ZeroValue(f)) else u.v;
          (match ParseValue(f, b, old') { case None => None
           case Some(p) => Some((st.(slots := st.slots[home := Which(f.tag, p.0)]), p.1)) })
  }

  // One turn of the loop of pb_decode_noinit, its tag already taken. A message type without fields
  // ends in a terminator that the search takes for a boolean field of tag zero.
  function ParseTagged(fields: seq<Field>, st: State, tag: nat, wireType: nat, b: Bytes): (r: Option<(State, Bytes)>)
    ensures r.Some? ==> |r.value.1| <= |b|
    decreases fields, 1
  {
    if fields == [] && tag == 0 then
      match Varint32(b) { case None => None case Some(p) => Some((st, p.1)) }
    else
      match Find(fields, tag, st.pos, |fields|)
      case None => (match SkipField(b, wireType) { case None => None case Some(rest) => Some((st, rest)) })
      case Some(i) =>
        match Enter(fields, st, i)
        case None => None
        case Some(st') => ParseField(fields, st', i, wireType, b)
  }

  // The loop, up to the end of input or a zero tag.
  function ParseFields(fields: seq<Field>, b: Bytes, st: State): Option<State>
    decreases fields, 2, |b|
  {
    if b == [] then Some(st)
    else
      match Varint32(b)
      case None => None
      case Some(p) =>
        if p.0 == 0 then Some(st)
        else
          match ParseTagged(fields, st, p.0 / 8, p.0 % 8, p.1)
          case None => None
          case Some(q) => ParseFields(fields, q.1, q.0)
  }

  // pb_decode_noinit.
  function ParseMessage(fields: seq<Field>, b: Bytes, slots: seq<Slot>): Option<seq<Slot>>
    decreases fields, 3
  {
    match ParseFields(fields, b, Start(slots))
    case None => None
    case Some(st) => if Complete(fields, st) then Some(st.slots) else None
  }

  // pb_decode.
  function Parse(fields: seq<Field>, b: Bytes, slots: seq<Slot>): Option<seq<Slot>> {
    ParseMessage(fields, b, Defaults(fields, slots, |slots|))
  }
}

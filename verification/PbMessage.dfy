/** Message descriptors and the messages they describe (nanopb: pb.h, pb_common.c), for statically
    allocated fields without callbacks or extensions. A message is one slot per descriptor field;
    the members of a oneof share the slot of its first member, their home. */
module PbMessages {
  import opened Wrappers
  import opened Coding

  // PB_LTYPE_*; a submessage carries its field descriptors.
  datatype LType =
    | BoolType | VarintType | UvarintType | SvarintType | Fixed32Type | Fixed64Type
    | BytesType | StringType | SubmessageType(fields: seq<Field>) | FixedLengthBytesType

  // PB_HTYPE_*. An optional field has a has_ flag, or none (a singular field of proto3). A repeated
  // field has a count, or always holds its full array.
  datatype HType = Required | Optional(hasFlag: bool) | Repeated(counted: bool) | OneOf(home: nat)

  datatype Field = Field(tag: nat, ltype: LType, htype: HType, dataSize: nat, arraySize: nat, default: Option<Value>)

  datatype Value = Num(n: int) | Blob(data: Bytes) | Sub(slots: seq<Slot>)

  datatype Slot =
    | One(v: Value) | Opt(has: bool, v: Value) | Many(items: seq<Value>)
    | Which(tag: nat, v: Value) // the oneof at its home: the member set, 0 for none, and the union
    | Shared                    // a later member of a oneof

  // LTYPE <= PB_LTYPE_LAST_PACKABLE.
  predicate Packable(t: LType) {
    t.BoolType? || t.VarintType? || t.UvarintType? || t.SvarintType? || t.Fixed32Type? || t.Fixed64Type?
  }

  const PB_WT_VARINT: nat := 0
  const PB_WT_64BIT: nat := 1
  const PB_WT_STRING: nat := 2
  const PB_WT_32BIT: nat := 5

  // offsetof(pb_bytes_array_t, bytes), with the 32-bit pb_size_t this build is configured for.
  const BYTES_OFFSET: nat := 4

  const MAX_REQUIRED_FIELDS: nat := 64

  function WireType(t: LType): nat {
    match t
    case Fixed32Type => PB_WT_32BIT
    case Fixed64Type => PB_WT_64BIT
    case BytesType => PB_WT_STRING
    case StringType => PB_WT_STRING
    case SubmessageType(_) => PB_WT_STRING
    case FixedLengthBytesType => PB_WT_STRING
    case _ => PB_WT_VARINT
  }

  // ----- C integers -----

  function Pow256(n: nat): (r: nat)
    ensures r >= 1
  {
    if n == 0 then 1 else 256 * Pow256(n - 1)
  }

  // A two's complement integer of `size` bytes holding the low bits of `v`.
  function Signed(v: int, size: nat): int {
    var w := v % Pow256(size);
    if 2 * w < Pow256(size) then w else w - Pow256(size)
  }

  function Unsigned(v: int, size: nat): nat {
    v % Pow256(size)
  }

  predicate IntSize(size: nat) {
    size == 1 || size == 2 || size == 4 || size == 8
  }

  // The characters of a string slot, up to the terminator the C string ends with.
  function UntilNul(data: Bytes): (r: Bytes)
    ensures |r| <= |data| && (forall c :: c in r ==> c != 0)
  {
    if data == [] || data[0] == 0 then [] else [data[0]] + UntilNul(data[1..])
  }

  lemma {:induction false} UntilNulIsAll(data: Bytes)
    requires forall c :: c in data ==> c != 0
    ensures UntilNul(data) == data
  {
    if data != [] {
      assert data[0] in data && forall c :: c in data[1..] ==> c in data;
      UntilNulIsAll(data[1..]);
    }
  }

  // ----- zero memory and default values -----

  function ZeroBytes(n: nat): (r: Bytes)
    ensures |r| == n && forall c :: c in r ==> c == 0
  {
    seq(n, i => 0)
  }

  // A field's storage after memset.
  function ZeroValue(f: Field): Value
    decreases f, 1
  {
    match f.ltype
    case SubmessageType(fields) => Sub(ZeroSlots(fields, |fields|))
    case BytesType => Blob([])
    case StringType => Blob([])
    case FixedLengthBytesType => Blob(ZeroBytes(f.dataSize))
    case _ => Num(0)
  }

  function ZeroSlot(f: Field, index: nat): Slot
    decreases f, 2
  {
    match f.htype
    case Required => One(ZeroValue(f))
    case Optional(hasFlag) => if hasFlag then Opt(false, ZeroValue(f)) else One(ZeroValue(f))
    case Repeated(counted) => Many(if counted then [] else seq(f.arraySize, i => ZeroValue(f)))
    case OneOf(home) => if home == index then Which(0, ZeroValue(f)) else Shared
  }

  function ZeroSlots(fields: seq<Field>, n: nat): (r: seq<Slot>)
    requires n <= |fields|
    ensures |r| == n
    decreases fields, n
  {
    if n == 0 then [] else ZeroSlots(fields, n - 1) + [ZeroSlot(fields[n - 1], n - 1)]
  }

  // pb_field_set_to_default of the data of a required or optional field.
  function DefaultValue(f: Field, v: Value): Value
    decreases f, 1
  {
    match f.ltype
    case SubmessageType(fields) => if v.Sub? then Sub(Defaults(fields, v.slots, |v.slots|)) else v
    case _ => if f.default.Some? then f.default.value else ZeroValue(f)
  }

  // pb_field_set_to_default. The contents of arrays and unions are left as they are.
  function DefaultSlot(f: Field, s: Slot): Slot
    decreases f, 2
  {
    match f.htype
    case Required => if s.One? then One(DefaultValue(f, s.v)) else s
    case Optional(hasFlag) => if s.Opt? then Opt(false, DefaultValue(f, s.v))
                              else if s.One? then One(DefaultValue(f, s.v)) else s
    case Repeated(counted) => if counted then Many([]) else s
    case OneOf(_) => if s.Which? then Which(0, s.v) else s
  }

  // pb_message_set_to_defaults.
  function Defaults(fields: seq<Field>, slots: seq<Slot>, n: nat): (r: seq<Slot>)
    requires n <= |slots|
    ensures |r| == n
    decreases fields, n
  {
    if n == 0 then []
    else
      var last := if n <= |fields| then DefaultSlot(fields[n - 1], slots[n - 1]) else slots[n - 1];
      Defaults(fields, slots, n - 1) + [last]
  }

  // ----- storage of the right shape -----

  // The C type of a field's data.
  ghost predicate Shaped(f: Field, v: Value)
    decreases f, 1
  {
    match f.ltype
    case SubmessageType(fields) => v.Sub? && ShapedSlots(fields, v.slots)
    case BytesType => v.Blob?
    case StringType => v.Blob?
    case FixedLengthBytesType => v.Blob? && |v.data| == f.dataSize
    case _ => v.Num?
  }

  ghost predicate ShapedSlot(fields: seq<Field>, i: nat, s: Slot)
    requires i < |fields|
    decreases fields, 0
  {
    var f := fields[i];
    match f.htype
    case Required => s.One? && Shaped(f, s.v)
    case Optional(hasFlag) => if hasFlag then s.Opt? && Shaped(f, s.v) else s.One? && Shaped(f, s.v)
    case Repeated(counted) => s.Many? && (!counted ==> |s.items| == f.arraySize) && forall k :: 0 <= k < |s.items| ==>
        Shaped(f, s.items[k])
    // A union holds data of the member it is set to; of any member when it is set to none.
    case OneOf(home) =>
      if home != i then s.Shared?
      else s.Which? && forall j :: 0 <= j < |fields| && fields[j].htype == OneOf(i) && fields[j].tag == s.tag ==>
          Shaped(fields[j], s.v)
  }

  ghost predicate ShapedSlots(fields: seq<Field>, slots: seq<Slot>)
    decreases fields, 1
  {
    |slots| == |fields| && forall i :: 0 <= i < |fields| ==> ShapedSlot(fields, i, slots[i])
  }

  // ----- storage within its bounds -----

  // In range of the C type, and no more bytes than the buffer of the field has room for.
  ghost predicate Fits(f: Field, v: Value)
    decreases f, 1
  {
    match f.ltype
    case BoolType => v == Num(0) || v == Num(1)
    case VarintType => v.Num? && Signed(v.n, f.dataSize) == v.n
    case UvarintType => v.Num? && Unsigned(v.n, f.dataSize) == v.n
    case SvarintType => v.Num? && Signed(v.n, f.dataSize) == v.n
    case Fixed32Type => v.Num? && 0 <= v.n < TWO_32
    case Fixed64Type => v.Num? && 0 <= v.n < TWO_64
    case BytesType => v.Blob? && |v.data| + BYTES_OFFSET <= f.dataSize
    case StringType => v.Blob? && |v.data| < f.dataSize
    case SubmessageType(fields) => v.Sub? && FitsSlots(fields, v.slots)
    case FixedLengthBytesType => v.Blob? && |v.data| == f.dataSize
  }

  ghost predicate FitsSlot(fields: seq<Field>, i: nat, s: Slot)
    requires i < |fields|
    decreases fields, 0
  {
    var f := fields[i];
    match f.htype
    case Required => s.One? && Fits(f, s.v)
    case Optional(hasFlag) => if hasFlag then s.Opt? && Fits(f, s.v) else s.One? && Fits(f, s.v)
    case Repeated(counted) =>
      && s.Many? && (if counted then |s.items| <= f.arraySize else |s.items| == f.arraySize)
      && forall k :: 0 <= k < |s.items| ==> Fits(f, s.items[k])
    case OneOf(home) =>
      if home != i then s.Shared? else s.Which? && (s.tag == 0 || exists j :: FitsMember(fields, i, s, j))
  }

  ghost predicate FitsMember(fields: seq<Field>, i: nat, s: Slot, j: nat)
    decreases fields, -1
  {
    j < |fields| && s.Which? && fields[j].htype == OneOf(i) && fields[j].tag == s.tag && Fits(fields[j], s.v)
  }

  ghost predicate FitsSlots(fields: seq<Field>, slots: seq<Slot>)
    decreases fields, 1
  {
    |slots| == |fields| && forall i :: 0 <= i < |fields| ==> FitsSlot(fields, i, slots[i])
  }

  // ----- well-formed descriptors -----

  ghost predicate WfField(f: Field)
    decreases f, 1
  {
    && 1 <= f.tag < 0x2000_0000 && f.dataSize < TWO_32
    && (f.htype == Optional(false) ==> f.default.None? || f.default.value == ZeroValue(f))
    && (f.default.Some? ==> Shaped(f, f.default.value) && Fits(f, f.default.value))
    && match f.ltype
       case SubmessageType(fields) => WfFields(fields)
       case VarintType => IntSize(f.dataSize)
       case UvarintType => IntSize(f.dataSize)
       case SvarintType => IntSize(f.dataSize)
       case BytesType => f.dataSize >= BYTES_OFFSET
       case StringType => f.dataSize >= 1
       case _ => true
  }

  // A oneof's members name the same home, its first member; tags tell fields apart.
  ghost predicate WfFields(fields: seq<Field>)
    decreases fields, 0
  {
    && (forall i :: 0 <= i < |fields| ==> WfField(fields[i]))
    && (forall i, j :: 0 <= i < j < |fields| ==> fields[i].tag != fields[j].tag)
    && (forall i :: 0 <= i < |fields| && fields[i].htype.OneOf? ==>
          fields[i].htype.home <= i && fields[fields[i].htype.home].htype == fields[i].htype)
  }

  // ----- well-formed messages -----

  // In range of the C type, bytes within the buffer, strings terminated within it.
  ghost predicate WfValue(f: Field, v: Value)
    decreases f, 1
  {
    match f.ltype
    case BoolType => v == Num(0) || v == Num(1)
    case VarintType => v.Num? && Signed(v.n, f.dataSize) == v.n
    case UvarintType => v.Num? && Unsigned(v.n, f.dataSize) == v.n
    case SvarintType => v.Num? && Signed(v.n, f.dataSize) == v.n
    case Fixed32Type => v.Num? && 0 <= v.n < TWO_32
    case Fixed64Type => v.Num? && 0 <= v.n < TWO_64
    case BytesType => v.Blob? && |v.data| + BYTES_OFFSET <= f.dataSize
    case StringType => v.Blob? && |v.data| < f.dataSize && forall c :: c in v.data ==> c != 0
    case SubmessageType(fields) => v.Sub? && WfSlots(fields, v.slots)
    case FixedLengthBytesType => v.Blob? && |v.data| == f.dataSize
  }

  ghost predicate WfSlot(fields: seq<Field>, i: nat, s: Slot)
    requires i < |fields|
    decreases fields, 0
  {
    var f := fields[i];
    match f.htype
    case Required => s.One? && WfValue(f, s.v)
    case Optional(hasFlag) => if hasFlag then s.Opt? && (s.has ==> WfValue(f, s.v)) else s.One? && WfValue(f, s.v)
    case Repeated(counted) =>
      && s.Many? && (if counted then |s.items| <= f.arraySize else |s.items| == f.arraySize)
      && forall k :: 0 <= k < |s.items| ==> WfValue(f, s.items[k])
    case OneOf(home) => if home != i then s.Shared? else s.Which? && (s.tag == 0 || exists j :: SetTo(fields, i, s, j))
  }

  // The oneof at `i` holds its member `j`.
  ghost predicate SetTo(fields: seq<Field>, i: nat, s: Slot, j: nat)
    decreases fields, -1
  {
    j < |fields| && s.Which? && fields[j].htype == OneOf(i) && fields[j].tag == s.tag && WfValue(fields[j], s.v)
  }

  ghost predicate WfSlots(fields: seq<Field>, slots: seq<Slot>)
    decreases fields, 1
  {
    |slots| == |fields| && forall i :: 0 <= i < |fields| ==> WfSlot(fields, i, slots[i])
  }

  // ----- the same message, up to the contents of what is absent -----

  ghost predicate SameValue(f: Field, v: Value, w: Value)
    decreases f, 1
  {
    match f.ltype
    case SubmessageType(fields) => v.Sub? && w.Sub? && SameSlots(fields, v.slots, w.slots)
    case _ => v == w
  }

  ghost predicate SameSlot(fields: seq<Field>, i: nat, s: Slot, t: Slot)
    requires i < |fields|
    decreases fields, 0
  {
    var f := fields[i];
    match f.htype
    case Required => s.One? && t.One? && SameValue(f, s.v, t.v)
    case Optional(hasFlag) =>
      if hasFlag then s.Opt? && t.Opt? && s.has == t.has && (s.has ==> SameValue(f, s.v, t.v))
      else s.One? && t.One? && SameValue(f, s.v, t.v)
    case Repeated(counted) => s.Many? && t.Many? && |s.items| == |t.items| && forall k :: 0 <= k < |s.items| ==>
        SameValue(f, s.items[k], t.items[k])
    case OneOf(home) =>
      if home != i then true
      else s.Which? && t.Which? && s.tag == t.tag
           && forall j :: 0 <= j < |fields| && fields[j].htype == OneOf(i) && fields[j].tag == s.tag ==>
               SameValue(fields[j], s.v, t.v)
  }

  ghost predicate SameSlots(fields: seq<Field>, a: seq<Slot>, b: seq<Slot>)
    decreases fields, 1
  {
    |a| == |b| == |fields| && forall i :: 0 <= i < |fields| ==> SameSlot(fields, i, a[i], b[i])
  }
}

/** Printed messages read without their description: the wire format by itself, and what the parser
    makes of fields it does not know and of required fields it does not meet (nanopb: pb_encode.c,
    pb_decode.c; the encoding of Protocol Buffers). */
module PbWires {
  import opened Wrappers
  import opened Coding
  import opened PbMessages
  import opened PbEncoder
  import opened PbDecoder
  import opened PbVarints
  import opened PbRoundTrips

  // ----- the wire format -----

  // A varint, eight bytes, a length-prefixed string, four bytes.
  datatype Payload = AVarint(n: nat) | EightBytes(b: Bytes) | Text(b: Bytes) | FourBytes(b: Bytes)

  datatype WireRecord = WireRecord(tag: nat, payload: Payload)

  function TakePayload(kind: nat, b: Bytes): (r: Option<(Payload, Bytes)>)
    ensures r.Some? ==> |r.value.1| <= |b|
  {
    if kind == 0 then
      match TakeVarint64(b)
      case None => None
      case Some(p) => Some((AVarint(p.0), p.1))
    else if kind == 1 then if |b| < 8 then None else Some((EightBytes(b[..8]), b[8..]))
    else if kind == 2 then
      match TakeVarint64(b)
      case None => None
      case Some(p) => if p.0 <= |p.1| then Some((Text(p.1[..p.0]), p.1[p.0..])) else None
    else if kind == 5 then if |b| < 4 then None else Some((FourBytes(b[..4]), b[4..]))
    else None
  }

  // Key, payload, key, payload, to the end.
  function Walk(b: Bytes): Option<seq<WireRecord>>
    decreases |b|
  {
    if b == [] then Some([])
    else
      match TakeVarint64(b)
      case None => None
      case Some(key) =>
        match TakePayload(key.0 % 8, key.1)
        case None => None
        case Some(p) => Before([WireRecord(key.0 / 8, p.0)], Walk(p.1))
  }

  function Before(front: seq<WireRecord>, rest: Option<seq<WireRecord>>): Option<seq<WireRecord>> {
    if rest.None? then None else Some(front + rest.value)
  }

  lemma BeforeTwice(a: seq<WireRecord>, b: seq<WireRecord>, rest: Option<seq<WireRecord>>)
    ensures Before(a, Before(b, rest)) == Before(a + b, rest)
    ensures Before([], rest) == rest
  {
    if rest.Some? {
      assert a + (b + rest.value) == a + b + rest.value;
      assert [] + rest.value == rest.value;
    }
  }

  // ----- what a message shows on the wire -----

  function PayloadOf(f: Field, v: Value): Payload
    requires WfShape(f, v)
  {
    match f.ltype
    case BoolType => AVarint(if v.n != 0 then 1 else 0)
    case VarintType => AVarint(v.n % TWO_64)
    case UvarintType => AVarint(v.n % TWO_64)
    case SvarintType => AVarint((if v.n < 0 then -2 * v.n - 1 else 2 * v.n) % TWO_64)
    case Fixed32Type => FourBytes(Fixed32(v.n % TWO_32))
    case Fixed64Type => EightBytes(Fixed64(v.n % TWO_64))
    case SubmessageType(fields) => Text(MessageBytes(fields, v.slots, |fields|).value)
    case _ => Text(v.data)
  }

  // The value is of the field's kind, and a submessage prints.
  predicate WfShape(f: Field, v: Value) {
    match f.ltype
    case SubmessageType(fields) => v.Sub? && MessageBytes(fields, v.slots, |fields|).Some?
    case BytesType => v.Blob?
    case StringType => v.Blob?
    case FixedLengthBytesType => v.Blob?
    case _ => v.Num?
  }

  function RecordOf(f: Field, v: Value): WireRecord {
    WireRecord(f.tag, if WfShape(f, v) then PayloadOf(f, v) else Text([]))
  }

  function ItemRecords(f: Field, items: seq<Value>, n: nat): seq<WireRecord>
    requires n <= |items|
  {
    if n == 0 then [] else ItemRecords(f, items, n - 1) + [RecordOf(f, items[n - 1])]
  }

  // A field is shown once if it is present, an array once if it is packed and item by item if not.
  function FieldRecords(fields: seq<Field>, slots: seq<Slot>, i: nat): seq<WireRecord>
    requires i < |fields| == |slots|
  {
    var f, s := fields[i], slots[i];
    match f.htype
    case Required => if s.One? then [RecordOf(f, s.v)] else []
    case Optional(hasFlag) =>
      if s.Opt? then if s.has then [RecordOf(f, s.v)] else []
      else if s.One? && !ZeroData(f, s.v) then [RecordOf(f, s.v)] else []
    case Repeated(_) =>
      if !s.Many? || s.items == [] then []
      else if Packable(f.ltype) then
        var packed := ItemsBytes(f, s.items, |s.items|, false);
        [WireRecord(f.tag, Text(if packed.Some? then packed.value else []))]
      else ItemRecords(f, s.items, |s.items|)
    case OneOf(home) =>
      if home < |slots| && slots[home].Which? && slots[home].tag == f.tag then [RecordOf(f, slots[home].v)] else []
  }

  function MessageRecords(fields: seq<Field>, slots: seq<Slot>, n: nat): seq<WireRecord>
    requires n <= |fields| == |slots|
  {
    if n == 0 then [] else MessageRecords(fields, slots, n - 1) + FieldRecords(fields, slots, n - 1)
  }

  // ----- one value -----

  lemma TextBack(data: Bytes, rest: Bytes)
    requires |data| < TWO_64
    ensures TakePayload(2, StringBytes(data) + rest) == Some((Text(data), rest))
  {
    hide Varint, TakeVarint64;
    assert StringBytes(data) + rest == Varint(|data|) + (data + rest);
    TakeVarint64Encoded(|data|, data + rest);
    assert (data + rest)[..|data|] == data && (data + rest)[|data|..] == rest;
  }

  lemma NumberWalks(f: Field, v: Value, rest: Bytes)
    requires WfField(f) && WfValue(f, v) && v.Num?
    ensures ValueBytes(f, v).Some? && WfShape(f, v)
    ensures TakePayload(WireType(f.ltype), ValueBytes(f, v).value + rest) == Some((PayloadOf(f, v), rest))
  {
    hide Signed, Unsigned, ZigZag, TakeVarint64, Fixed32, Fixed64, Varint, MessageBytes;
    match f.ltype
    case BoolType => TakeVarint64Encoded(v.n, rest);
    case VarintType => TakeVarint64Encoded(v.n % TWO_64, rest);
    case UvarintType => TakeVarint64Encoded(v.n % TWO_64, rest);
    case SvarintType =>
      SignedRange(v.n, f.dataSize);
      ZigZagIs(v.n);
      TakeVarint64Encoded(ZigZag(v.n), rest);
    case Fixed32Type =>
      assert (Fixed32(v.n) + rest)[..4] == Fixed32(v.n) && (Fixed32(v.n) + rest)[4..] == rest;
    case Fixed64Type =>
      assert (Fixed64(v.n) + rest)[..8] == Fixed64(v.n) && (Fixed64(v.n) + rest)[8..] == rest;
  }

  // The wire type printed with a value leads exactly to the end of its bytes, and to the payload.
  lemma ValueWalks(f: Field, v: Value, rest: Bytes)
    requires WfField(f) && WfValue(f, v) && ValueBytes(f, v).Some? && |ValueBytes(f, v).value| < TWO_64
    ensures WfShape(f, v)
    ensures TakePayload(WireType(f.ltype), ValueBytes(f, v).value + rest) == Some((PayloadOf(f, v), rest))
  {
    if v.Num? {
      NumberWalks(f, v, rest);
    } else if f.ltype.SubmessageType? {
      TextBack(MessageBytes(f.ltype.fields, v.slots, |f.ltype.fields|).value, rest);
    } else {
      if f.ltype.StringType? {
        UntilNulIsAll(v.data);
      }
      TextBack(v.data, rest);
    }
  }

  // ----- records -----

  lemma RecordWalks(tag: nat, kind: nat, body: Bytes, payload: Payload, rest: Bytes)
    requires 8 * tag + kind < TWO_64 && kind < 8
    requires TakePayload(kind, body + rest) == Some((payload, rest))
    ensures Walk(TagBytes(kind, tag) + body + rest) == Before([WireRecord(tag, payload)], Walk(rest))
  {
    var key := 8 * tag + kind;
    hide TakePayload, TakeVarint64, Varint;
    KeySplits(tag, kind);
    TakeVarint64Encoded(key, body + rest);
    assert TagBytes(kind, tag) + body + rest == Varint(key) + (body + rest);
  }

  lemma KeySplits(tag: nat, kind: nat)
    requires kind < 8
    ensures (8 * tag + kind) % 8 == kind && (8 * tag + kind) / 8 == tag
  {
  }

  lemma TaggedWalks(f: Field, v: Value, rest: Bytes)
    requires WfField(f) && WfValue(f, v) && TaggedBytes(f, v).Some? && |TaggedBytes(f, v).value| < TWO_64
    ensures Walk(TaggedBytes(f, v).value + rest) == Before([RecordOf(f, v)], Walk(rest))
  {
    var kind := WireType(f.ltype);
    assert kind < 8 && 8 * f.tag + kind < TWO_64;
    assert TaggedBytes(f, v).value == TagBytes(kind, f.tag) + ValueBytes(f, v).value;
    hide ValueBytes, TagBytes, TakePayload, WfValue;
    ValueWalks(f, v, rest);
    RecordWalks(f.tag, kind, ValueBytes(f, v).value, PayloadOf(f, v), rest);
  }

  lemma {:induction false} ItemsWalk(f: Field, items: seq<Value>, n: nat, rest: Bytes)
    requires WfField(f) && n <= |items| && (forall k :: 0 <= k < |items| ==> WfValue(f, items[k]))
    requires ItemsBytes(f, items, n, true).Some? && |ItemsBytes(f, items, n, true).value| < TWO_64
    ensures Walk(ItemsBytes(f, items, n, true).value + rest) == Before(ItemRecords(f, items, n), Walk(rest))
  {
    if n == 0 {
      assert [] + rest == rest;
      BeforeTwice([], [], Walk(rest));
    } else {
      ItemsIs(f, items, n);
      var front, last := ItemsBytes(f, items, n - 1, true).value, TaggedBytes(f, items[n - 1]).value;
      hide ItemsBytes, TaggedBytes, Walk, WfValue;
      assert front + last + rest == front + (last + rest);
      ItemsWalk(f, items, n - 1, last + rest);
      TaggedWalks(f, items[n - 1], rest);
      BeforeTwice(ItemRecords(f, items, n - 1), [RecordOf(f, items[n - 1])], Walk(rest));
    }
  }

  lemma PackedWalks(f: Field, items: seq<Value>, rest: Bytes)
    requires WfField(f) && Packable(f.ltype) && items != [] && |items| <= f.arraySize
    requires ArrayBytes(f, items).Some? && |ArrayBytes(f, items).value| < TWO_64
    ensures ItemsBytes(f, items, |items|, false).Some?
    ensures Walk(ArrayBytes(f, items).value + rest) ==
              Before([WireRecord(f.tag, Text(ItemsBytes(f, items, |items|, false).value))], Walk(rest))
  {
    var packed := ItemsBytes(f, items, |items|, false).value;
    hide ItemsBytes;
    TextBack(packed, rest);
    RecordWalks(f.tag, 2, StringBytes(packed), Text(packed), rest);
  }

  lemma ArrayWalks(f: Field, items: seq<Value>, rest: Bytes)
    requires WfField(f) && |items| <= f.arraySize && (forall k :: 0 <= k < |items| ==> WfValue(f, items[k]))
    requires ArrayBytes(f, items).Some? && |ArrayBytes(f, items).value| < TWO_64
    ensures var records := if items == [] then []
                           else if Packable(f.ltype) then
                             [WireRecord(f.tag, Text(ItemsBytes(f, items, |items|, false).value))]
                           else ItemRecords(f, items, |items|);
            Walk(ArrayBytes(f, items).value + rest) == Before(records, Walk(rest))
  {
    if items == [] {
      assert [] + rest == rest;
      BeforeTwice([], [], Walk(rest));
    } else if Packable(f.ltype) {
      PackedWalks(f, items, rest);
    } else {
      ItemsWalk(f, items, |items|, rest);
    }
  }

  // ----- messages -----

  lemma NothingWalks(rest: Bytes)
    ensures Walk([] + rest) == Before([], Walk(rest))
  {
    assert [] + rest == rest;
    BeforeTwice([], [], Walk(rest));
  }

  lemma FieldWalks(fields: seq<Field>, s: seq<Slot>, i: nat, rest: Bytes)
    requires WfFields(fields) && WfSlots(fields, s) && i < |fields|
    requires FieldBytes(fields, s, i).Some? && |FieldBytes(fields, s, i).value| < TWO_64
    ensures Walk(FieldBytes(fields, s, i).value + rest) == Before(FieldRecords(fields, s, i), Walk(rest))
  {
    var f := fields[i];
    assert WfField(f) && WfSlot(fields, i, s[i]);
    NothingWalks(rest);
    hide Walk, TaggedBytes, ArrayBytes, ItemRecords, RecordOf, Before, WfValue, ZeroData;
    match f.htype
    case Required => TaggedWalks(f, s[i].v, rest);
    case Optional(hasFlag) =>
      if (hasFlag && s[i].has) || (!hasFlag && !ZeroData(f, s[i].v)) {
        TaggedWalks(f, s[i].v, rest);
      }
    case Repeated(_) => ArrayWalks(f, s[i].items, rest);
    case OneOf(home) =>
      if s[home].tag == f.tag {
        ActiveMember(fields, s, i);
        TaggedWalks(f, s[home].v, rest);
      }
  }

  lemma {:induction false} FieldsWalk(fields: seq<Field>, s: seq<Slot>, n: nat, rest: Bytes)
    requires WfFields(fields) && WfSlots(fields, s) && n <= |fields|
    requires MessageBytes(fields, s, n).Some? && |MessageBytes(fields, s, n).value| < TWO_64
    ensures Walk(MessageBytes(fields, s, n).value + rest) == Before(MessageRecords(fields, s, n), Walk(rest))
  {
    if n == 0 {
      NothingWalks(rest);
    } else {
      MessageIs(fields, s, n);
      var front, last := MessageBytes(fields, s, n - 1).value, FieldBytes(fields, s, n - 1).value;
      hide MessageBytes, FieldBytes, Walk, WfFields, WfSlots, FieldRecords;
      assert front + last + rest == front + (last + rest);
      FieldsWalk(fields, s, n - 1, last + rest);
      FieldWalks(fields, s, n - 1, rest);
      BeforeTwice(MessageRecords(fields, s, n - 1), FieldRecords(fields, s, n - 1), Walk(rest));
    }
  }

  // Whatever a well-formed message prints can be read by anyone: a walk over the bytes that knows
  // nothing of the message ends exactly at their end, and meets exactly the fields present, in order,
  // each with its tag and its payload.
  lemma PrintedCanBeWalked(fields: seq<Field>, s: seq<Slot>)
    requires WfFields(fields) && WfSlots(fields, s)
    requires MessageBytes(fields, s, |fields|).Some? ==> |MessageBytes(fields, s, |fields|).value| < TWO_64
    ensures MessageBytes(fields, s, |fields|).Some?
    ensures Walk(MessageBytes(fields, s, |fields|).value) == Some(MessageRecords(fields, s, |fields|))
  {
    WellFormedPrints(fields, s, |fields|);
    FieldsWalk(fields, s, |fields|, []);
    hide MessageBytes;
    var b, rs := MessageBytes(fields, s, |fields|).value, MessageRecords(fields, s, |fields|);
    assert b + [] == b && rs + [] == rs;
  }

  // ----- what is left out -----

  // A singular number, bytes or string is left out exactly if it is what zero memory holds.
  lemma ZeroIsLeftOut(f: Field, v: Value)
    requires WfField(f) && WfValue(f, v) && !f.ltype.SubmessageType? && !f.ltype.FixedLengthBytesType?
    ensures ZeroData(f, v) <==> v == ZeroValue(f)
  {
    if f.ltype.StringType? {
      UntilNulIsAll(v.data);
    }
  }

  lemma {:induction false} SilentMessage(fields: seq<Field>, s: seq<Slot>, n: nat)
    requires n <= |fields| && MessageBytes(fields, s, n).Some?
    ensures forall i :: 0 <= i < n ==> FieldBytes(fields, s, i).Some?
    ensures MessageBytes(fields, s, n).value == [] <==> forall i :: 0 <= i < n ==> FieldBytes(fields, s, i).value == []
  {
    if n > 0 {
      MessageIs(fields, s, n);
      hide FieldBytes, MessageBytes;
      SilentMessage(fields, s, n - 1);
    } else {
      assert MessageBytes(fields, s, 0) == Some([]);
    }
  }

  // A field prints nothing exactly if it holds nothing; a oneof member, if it is not the one set.
  lemma SilentField(fields: seq<Field>, s: seq<Slot>, i: nat)
    requires WfFields(fields) && WfSlots(fields, s) && i < |fields| && FieldBytes(fields, s, i).Some?
    requires fields[i].htype == Repeated(false) ==> fields[i].arraySize > 0
    ensures FieldBytes(fields, s, i).value == [] <==>
              if fields[i].htype.OneOf? then s[fields[i].htype.home].tag != fields[i].tag
              else HoldsNothing(fields, s, i)
  {
    var f := fields[i];
    assert WfField(f) && WfSlot(fields, i, s[i]);
    if f.htype.Repeated? && s[i].items != [] {
      ArrayIsHeard(f, s[i].items);
    }
    hide ValueBytes, ZeroData, ArrayBytes, WfValue;
  }

  lemma ArrayIsHeard(f: Field, items: seq<Value>)
    requires items != [] && ArrayBytes(f, items).Some?
    ensures ArrayBytes(f, items).value != []
  {
    if !Packable(f.ltype) {
      ItemsIs(f, items, |items|);
    }
    hide ItemsBytes;
  }

  // So is a submessage, exactly if it would print nothing - unless it has an array of fixed length 0.
  lemma SilentIsLeftOut(f: Field, v: Value)
    requires WfField(f) && WfValue(f, v) && f.ltype.SubmessageType?
    requires forall i :: 0 <= i < |f.ltype.fields| && f.ltype.fields[i].htype == Repeated(false) ==>
               f.ltype.fields[i].arraySize > 0
    ensures MessageBytes(f.ltype.fields, v.slots, |f.ltype.fields|).Some?
    ensures ZeroData(f, v) <==> MessageBytes(f.ltype.fields, v.slots, |f.ltype.fields|).value == []
  {
    var fields, s := f.ltype.fields, v.slots;
    WellFormedPrints(fields, s, |fields|);
    SilentMessage(fields, s, |fields|);
    NothingUpToIs(fields, s, |fields|);
    var zero, silent := ZeroData(f, v), MessageBytes(fields, s, |fields|).value == [];
    assert zero <==> NothingAnywhere(fields, s, |fields|);
    hide MessageBytes, FieldBytes, NothingUpTo, WfField, ZeroData;
    if silent {
      forall i | 0 <= i < |fields| ensures HoldsNothing(fields, s, i) {
        SilentHoldsNothing(fields, s, i);
      }
      assert zero;
    }
    if zero {
      forall i | 0 <= i < |fields| ensures FieldBytes(fields, s, i).value == [] {
        NothingIsSilent(fields, s, i);
      }
      assert silent;
    }
  }

  lemma NothingIsSilent(fields: seq<Field>, s: seq<Slot>, i: nat)
    requires WfFields(fields) && WfSlots(fields, s) && i < |fields| && FieldBytes(fields, s, i).Some?
    requires fields[i].htype == Repeated(false) ==> fields[i].arraySize > 0
    requires HoldsNothing(fields, s, i)
    ensures FieldBytes(fields, s, i).value == []
  {
    SilentField(fields, s, i);
    TagsPositive(fields);
  }

  // A oneof none of whose members prints is set to none.
  lemma SilentHoldsNothing(fields: seq<Field>, s: seq<Slot>, i: nat)
    requires WfFields(fields) && WfSlots(fields, s) && i < |fields|
    requires forall j :: 0 <= j < |fields| ==> FieldBytes(fields, s, j).Some? && FieldBytes(fields, s, j).value == []
    requires fields[i].htype == Repeated(false) ==> fields[i].arraySize > 0
    ensures HoldsNothing(fields, s, i)
  {
    SilentField(fields, s, i);
    if fields[i].htype.OneOf? {
      var home := fields[i].htype.home;
      assert WfSlot(fields, home, s[home]);
      if s[home].tag != 0 {
        var j :| SetTo(fields, home, s[home], j);
        SilentField(fields, s, j);
      }
    }
    hide FieldBytes;
  }

  // ----- fields the parser does not know -----

  lemma {:induction false} VarintIsSkipped(n: nat, rest: Bytes)
    ensures SkipVarint(Varint(n) + rest) == Some(rest)
  {
    assert ([n % 128 as Byte] + rest)[1..] == rest;
    if n >= 128 {
      VarintIsSkipped(n / 128, rest);
      assert (Varint(n) + rest)[1..] == Varint(n / 128) + rest;
    } else {
      assert (Varint(n) + rest)[1..] == rest;
    }
  }

  lemma NumberIsSkipped(f: Field, v: Value, rest: Bytes)
    requires WfField(f) && WfValue(f, v) && v.Num?
    ensures ValueBytes(f, v).Some? && SkipField(ValueBytes(f, v).value + rest, WireType(f.ltype)) == Some(rest)
  {
    hide Signed, Unsigned, ZigZag, Fixed32, Fixed64, Varint, MessageBytes, SkipVarint;
    match f.ltype
    case BoolType => VarintIsSkipped(v.n, rest);
    case VarintType => VarintIsSkipped(v.n % TWO_64, rest);
    case UvarintType => VarintIsSkipped(v.n % TWO_64, rest);
    case SvarintType => VarintIsSkipped(ZigZag(v.n), rest);
    case Fixed32Type => assert (Fixed32(v.n) + rest)[4..] == rest;
    case Fixed64Type => assert (Fixed64(v.n) + rest)[8..] == rest;
  }

  lemma TextIsSkipped(data: Bytes, rest: Bytes)
    requires |data| < TWO_32
    ensures SkipField(StringBytes(data) + rest, PB_WT_STRING) == Some(rest)
  {
    DelimitedBack(data, rest);
    hide Delimited, StringBytes;
  }

  // Skipping by the printed wire type leads exactly past a printed value.
  lemma ValueIsSkipped(f: Field, v: Value, rest: Bytes)
    requires WfField(f) && WfValue(f, v) && ValueBytes(f, v).Some? && |ValueBytes(f, v).value| < TWO_32
    ensures SkipField(ValueBytes(f, v).value + rest, WireType(f.ltype)) == Some(rest)
  {
    if v.Num? {
      NumberIsSkipped(f, v, rest);
    } else if f.ltype.SubmessageType? {
      TextIsSkipped(MessageBytes(f.ltype.fields, v.slots, |f.ltype.fields|).value, rest);
    } else {
      if f.ltype.StringType? {
        UntilNulIsAll(v.data);
      }
      TextIsSkipped(v.data, rest);
    }
  }

  lemma {:induction false} NotFound(fields: seq<Field>, tag: nat, pos: nat, left: nat)
    requires forall i :: 0 <= i < |fields| ==> fields[i].tag != tag
    ensures Find(fields, tag, pos, left) == None
    decreases left
  {
    if left > 0 && pos < |fields| {
      NotFound(fields, tag, (pos + 1) % |fields|, left - 1);
    }
  }

  lemma SkippedRecord(fields: seq<Field>, tag: nat, kind: nat, body: Bytes, rest: Bytes, st: State)
    requires 1 <= tag && kind < 8 && 8 * tag + kind < TWO_32
    requires forall i :: 0 <= i < |fields| ==> fields[i].tag != tag
    requires SkipField(body + rest, kind) == Some(rest)
    ensures ParseFields(fields, TagBytes(kind, tag) + body + rest, st) == ParseFields(fields, rest, st)
  {
    var key := 8 * tag + kind;
    var b := TagBytes(kind, tag) + body + rest;
    hide SkipField, Varint32, Varint, ParseField, Enter;
    KeySplits(tag, kind);
    assert b == Varint(key) + (body + rest);
    Varint32Back(key, body + rest);
    NotFound(fields, tag, st.pos, |fields|);
    hide Find;
    assert b != [];
  }

  // A printed field that the description does not have changes nothing, wherever it stands between
  // two fields: the parser goes on behind it.
  lemma UnknownIsSkipped(fields: seq<Field>, f: Field, v: Value, rest: Bytes, st: State)
    requires WfField(f) && WfValue(f, v) && TaggedBytes(f, v).Some? && |TaggedBytes(f, v).value| < TWO_32
    requires forall i :: 0 <= i < |fields| ==> fields[i].tag != f.tag
    ensures ParseFields(fields, TaggedBytes(f, v).value + rest, st) == ParseFields(fields, rest, st)
  {
    var kind := WireType(f.ltype);
    assert kind < 8 && 8 * f.tag + kind < TWO_32;
    assert TaggedBytes(f, v).value == TagBytes(kind, f.tag) + ValueBytes(f, v).value;
    hide ValueBytes, TagBytes, SkipField, ParseFields, WfValue;
    ValueIsSkipped(f, v, rest);
    SkippedRecord(fields, f.tag, kind, ValueBytes(f, v).value, rest, st);
  }

  // ----- required fields -----

  // The tags the parser's loop takes.
  function Met(fields: seq<Field>, b: Bytes, st: State): seq<nat>
    decreases |b|
  {
    if b == [] then []
    else
      match Varint32(b)
      case None => []
      case Some(p) =>
        if p.0 == 0 then []
        else
          match ParseTagged(fields, st, p.0 / 8, p.0 % 8, p.1)
          case None => []
          case Some(q) => [p.0 / 8] + Met(fields, q.1, q.0)
  }

  lemma {:induction false} RequiredApart(fields: seq<Field>, i: nat, j: nat)
    requires i < j <= |fields| && fields[i].htype.Required?
    ensures RequiredBefore(fields, i) < RequiredBefore(fields, j)
    decreases j
  {
    if i < j - 1 {
      RequiredApart(fields, i, j - 1);
    }
  }

  // Decoding a field leaves the record of those seen alone.
  lemma FieldKeepsSeen(fields: seq<Field>, st: State, i: nat, wireType: nat, b: Bytes)
    requires i < |fields| && ParseField(fields, st, i, wireType, b).Some?
    ensures ParseField(fields, st, i, wireType, b).value.0.seen == st.seen
  {
    hide ParseValue, ParseRepeated;
  }

  lemma EnterSees(fields: seq<Field>, st: State, j: nat, i: nat)
    requires j < |fields| && i < |fields| && fields[i].htype.Required?
    requires |st.seen| == MAX_REQUIRED_FIELDS && RequiredBefore(fields, i) < MAX_REQUIRED_FIELDS
    requires Enter(fields, st, j).Some?
    ensures var seen, k := Enter(fields, st, j).value.seen, RequiredBefore(fields, i);
            |seen| == MAX_REQUIRED_FIELDS && (seen[k] <==> st.seen[k] || j == i)
  {
    if fields[j].htype.Required? && i < j {
      RequiredApart(fields, i, j);
    } else if fields[j].htype.Required? && j < i {
      RequiredApart(fields, j, i);
    }
  }

  lemma TaggedSees(fields: seq<Field>, st: State, tag: nat, wireType: nat, b: Bytes, i: nat)
    requires WfFields(fields) && i < |fields| && fields[i].htype.Required? && st.pos < |fields|
    requires |st.seen| == MAX_REQUIRED_FIELDS && RequiredBefore(fields, i) < MAX_REQUIRED_FIELDS
    requires ParseTagged(fields, st, tag, wireType, b).Some?
    ensures var st', k := ParseTagged(fields, st, tag, wireType, b).value.0, RequiredBefore(fields, i);
            && st'.pos < |fields| && |st'.seen| == MAX_REQUIRED_FIELDS
            && (st'.seen[k] <==> st.seen[k] || tag == fields[i].tag)
  {
    FindReaches(fields, i, st.pos, |fields|);
    hide Find, Enter, ParseField, SkipField, RequiredBefore;
    var found := Find(fields, tag, st.pos, |fields|);
    if found.Some? {
      var j := found.value;
      EnterSees(fields, st, j, i);
      var entered := Enter(fields, st, j).value;
      FieldKeepsSeen(fields, entered, j, wireType, b);
      EnteredAt(fields, st, j, wireType, b);
    }
  }

  lemma EnteredAt(fields: seq<Field>, st: State, j: nat, wireType: nat, b: Bytes)
    requires j < |fields| && Enter(fields, st, j).Some?
    requires ParseField(fields, Enter(fields, st, j).value, j, wireType, b).Some?
    ensures ParseField(fields, Enter(fields, st, j).value, j, wireType, b).value.0.pos == j
  {
    hide ParseValue, ParseRepeated;
  }

  lemma {:induction false} LoopSees(fields: seq<Field>, b: Bytes, st: State, i: nat)
    requires WfFields(fields) && i < |fields| && fields[i].htype.Required? && st.pos < |fields|
    requires |st.seen| == MAX_REQUIRED_FIELDS && RequiredBefore(fields, i) < MAX_REQUIRED_FIELDS
    requires ParseFields(fields, b, st).Some?
    ensures var st', k := ParseFields(fields, b, st).value, RequiredBefore(fields, i);
            |st'.seen| == MAX_REQUIRED_FIELDS && (st'.seen[k] <==> st.seen[k] || fields[i].tag in Met(fields, b, st))
    decreases |b|
  {
    hide ParseTagged, Varint32, RequiredBefore, WfFields;
    if b != [] && Varint32(b).value.0 != 0 {
      var key, rest := Varint32(b).value.0, Varint32(b).value.1;
      TaggedSees(fields, st, key / 8, key % 8, rest, i);
      var q := ParseTagged(fields, st, key / 8, key % 8, rest).value;
      LoopSees(fields, q.1, q.0, i);
    }
  }

  lemma {:induction false} RequiredAt(fields: seq<Field>, n: nat, k: nat) returns (i: nat)
    requires n <= |fields| && k < RequiredBefore(fields, n)
    ensures i < n && fields[i].htype.Required? && RequiredBefore(fields, i) == k
  {
    if fields[n - 1].htype.Required? && RequiredBefore(fields, n - 1) == k {
      i := n - 1;
    } else {
      i := RequiredAt(fields, n - 1, k);
    }
  }

  // Whenever the loop goes from one fixed array to another, the one it leaves is full.
  predicate LeftFull(fields: seq<Field>, b: Bytes, st: State)
    decreases |b|
  {
    b == [] || Varint32(b).None? || Varint32(b).value.0 == 0 ||
    var p := Varint32(b).value;
    match ParseTagged(fields, st, p.0 / 8, p.0 % 8, p.1)
    case None => true
    case Some(q) => (q.0.fixedField == st.fixedField || FixedArrayDone(fields, st)) && LeftFull(fields, q.1, q.0)
  }

  lemma {:induction false} FixedArraysAreLeftFull(fields: seq<Field>, b: Bytes, st: State)
    requires ParseFields(fields, b, st).Some?
    ensures LeftFull(fields, b, st)
    decreases |b|
  {
    hide ParseTagged, Varint32, FixedArrayDone;
    if b != [] && Varint32(b).value.0 != 0 {
      var key, rest := Varint32(b).value.0, Varint32(b).value.1;
      TaggedLeavesFull(fields, st, key / 8, key % 8, rest);
      var q := ParseTagged(fields, st, key / 8, key % 8, rest).value;
      FixedArraysAreLeftFull(fields, q.1, q.0);
    }
  }

  lemma TaggedLeavesFull(fields: seq<Field>, st: State, tag: nat, wireType: nat, b: Bytes)
    requires ParseTagged(fields, st, tag, wireType, b).Some?
    ensures ParseTagged(fields, st, tag, wireType, b).value.0.fixedField == st.fixedField || FixedArrayDone(fields, st)
  {
    var found := Find(fields, tag, st.pos, |fields|);
    if found.Some? && Enter(fields, st, found.value).Some? && !(fields == [] && tag == 0) {
      FieldKeepsFixed(fields, Enter(fields, st, found.value).value, found.value, wireType, b);
    }
    hide Find, ParseField, SkipField, RequiredBefore, Varint32;
  }

  lemma FieldKeepsFixed(fields: seq<Field>, st: State, i: nat, wireType: nat, b: Bytes)
    requires i < |fields| && ParseField(fields, st, i, wireType, b).Some?
    ensures ParseField(fields, st, i, wireType, b).value.0.fixedField == st.fixedField
  {
    hide ParseValue, ParseRepeated;
  }

  predicate FixedArrayDone(fields: seq<Field>, st: State) {
    st.fixedField.Some? ==> st.fixedField.value < |fields| && st.fixedSize == fields[st.fixedField.value].arraySize
  }

  ghost predicate RequiredMet(fields: seq<Field>, met: seq<nat>) {
    forall i :: 0 <= i < |fields| && fields[i].htype.Required? && RequiredBefore(fields, i) < MAX_REQUIRED_FIELDS ==>
      fields[i].tag in met
  }

  lemma CompleteIs(fields: seq<Field>, st: State, met: seq<nat>)
    requires |st.seen| == MAX_REQUIRED_FIELDS
    requires forall i :: 0 <= i < |fields| && fields[i].htype.Required? && RequiredBefore(fields, i) < |st.seen| ==>
               (st.seen[RequiredBefore(fields, i)] <==> fields[i].tag in met)
    ensures Complete(fields, st) <==> FixedArrayDone(fields, st) && RequiredMet(fields, met)
  {
    if Complete(fields, st) {
      forall i | 0 <= i < |fields| && fields[i].htype.Required? && RequiredBefore(fields, i) < MAX_REQUIRED_FIELDS
        ensures fields[i].tag in met
      {
        RequiredApart(fields, i, |fields|);
        assert st.seen[RequiredBefore(fields, i)];
      }
    }
    if RequiredMet(fields, met) {
      forall k | 0 <= k < RequiredBefore(fields, |fields|) && k < MAX_REQUIRED_FIELDS
        ensures k < |st.seen| && st.seen[k]
      {
        var i := RequiredAt(fields, |fields|, k);
      }
    }
  }

  // Decoding succeeds exactly if the loop does, the fixed array under way is full, and the tag of
  // every required field, of the first 64, was met.
  lemma RequiredMustBeMet(fields: seq<Field>, b: Bytes, slots: seq<Slot>)
    requires WfFields(fields)
    ensures var r := ParseFields(fields, b, Start(slots));
            ParseMessage(fields, b, slots).Some? <==>
              r.Some? && FixedArrayDone(fields, r.value) && RequiredMet(fields, Met(fields, b, Start(slots)))
    ensures ParseMessage(fields, b, slots).Some? ==> LeftFull(fields, b, Start(slots))
  {
    var st, r := Start(slots), ParseFields(fields, b, Start(slots));
    if r.Some? {
      SeenHasRoom(fields, b, st);
      FixedArraysAreLeftFull(fields, b, st);
      forall i | 0 <= i < |fields| && fields[i].htype.Required? && RequiredBefore(fields, i) < MAX_REQUIRED_FIELDS
        ensures r.value.seen[RequiredBefore(fields, i)] <==> fields[i].tag in Met(fields, b, st)
      {
        LoopSees(fields, b, st, i);
      }
      hide ParseFields, Met, LeftFull, Complete, RequiredBefore, FixedArrayDone, RequiredMet;
      CompleteIs(fields, r.value, Met(fields, b, st));
    }
  }

  lemma {:induction false} SeenHasRoom(fields: seq<Field>, b: Bytes, st: State)
    requires |st.seen| == MAX_REQUIRED_FIELDS && ParseFields(fields, b, st).Some?
    ensures |ParseFields(fields, b, st).value.seen| == MAX_REQUIRED_FIELDS
    decreases |b|
  {
    hide ParseTagged, Varint32;
    if b != [] && Varint32(b).value.0 != 0 {
      var key, rest := Varint32(b).value.0, Varint32(b).value.1;
      TaggedHasRoom(fields, st, key / 8, key % 8, rest);
      var q := ParseTagged(fields, st, key / 8, key % 8, rest).value;
      SeenHasRoom(fields, q.1, q.0);
    }
  }

  lemma TaggedHasRoom(fields: seq<Field>, st: State, tag: nat, wireType: nat, b: Bytes)
    requires ParseTagged(fields, st, tag, wireType, b).Some?
    ensures |ParseTagged(fields, st, tag, wireType, b).value.0.seen| == |st.seen|
  {
    var found := Find(fields, tag, st.pos, |fields|);
    if found.Some? && Enter(fields, st, found.value).Some? && !(fields == [] && tag == 0) {
      FieldKeepsSeen(fields, Enter(fields, st, found.value).value, found.value, wireType, b);
    }
    hide Find, ParseField, SkipField, RequiredBefore, Varint32;
  }
}

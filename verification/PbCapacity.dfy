/** What a message struct can hold, and that decoding any bytes leaves it within that: no count, no
    length and no number a stream contains gets past the struct it is decoded into (nanopb:
    pb_decode.c). */
module PbCapacities {
  import opened Wrappers
  import opened Coding
  import opened PbMessages
  import opened PbEncoder
  import opened PbDecoder
  import opened PbRoundTrips

  // ----- memory before decoding -----

  // A struct set to zero is within its bounds.
  lemma {:induction false} ZeroFits(f: Field)
    requires WfField(f)
    ensures Fits(f, ZeroValue(f))
    decreases f, 1
  {
    if f.ltype.SubmessageType? {
      ZeroSlotsFit(f.ltype.fields);
    }
  }

  lemma {:induction false} ZeroSlotsFit(fields: seq<Field>)
    requires WfFields(fields)
    ensures FitsSlots(fields, ZeroSlots(fields, |fields|))
    decreases fields, 0
  {
    forall i | 0 <= i < |fields| ensures FitsSlot(fields, i, ZeroSlots(fields, |fields|)[i]) {
      ZeroSlotsAt(fields, |fields|, i);
      ZeroFits(fields[i]);
    }
  }

  lemma {:induction false} DefaultFits(f: Field, v: Value)
    requires WfField(f) && Fits(f, v)
    ensures Fits(f, DefaultValue(f, v))
    decreases f, 1
  {
    if f.ltype.SubmessageType? {
      DefaultsFit(f.ltype.fields, v.slots);
    } else {
      ZeroFits(f);
    }
  }

  // pb_message_set_to_defaults keeps the struct within its bounds.
  lemma {:induction false} DefaultsFit(fields: seq<Field>, slots: seq<Slot>)
    requires WfFields(fields) && FitsSlots(fields, slots)
    ensures FitsSlots(fields, Defaults(fields, slots, |slots|))
    decreases fields, 0
  {
    forall i | 0 <= i < |fields| ensures FitsSlot(fields, i, Defaults(fields, slots, |slots|)[i]) {
      DefaultsAt(fields, slots, |slots|, i);
      assert FitsSlot(fields, i, slots[i]) && WfField(fields[i]);
      if fields[i].htype.Required? || fields[i].htype.Optional? {
        DefaultFits(fields[i], slots[i].v);
      }
    }
  }

  // ----- decoding -----

  // A decoded value is within the bounds of its field.
  lemma {:induction false} ValueFits(f: Field, b: Bytes, old': Value)
    requires WfField(f) && Fits(f, old') && ParseValue(f, b, old').Some?
    ensures Fits(f, ParseValue(f, b, old').value.0)
    decreases f, 0
  {
    if f.ltype.SubmessageType? {
      SubmessageFits(f, b, old');
    } else {
      ScalarFits(f, b, old');
    }
  }

  lemma ScalarFits(f: Field, b: Bytes, old': Value)
    requires WfField(f) && !f.ltype.SubmessageType? && ParseValue(f, b, old').Some?
    ensures Fits(f, ParseValue(f, b, old').value.0)
  {
    if f.ltype.VarintType? || f.ltype.UvarintType? || f.ltype.SvarintType? {
      IntegerFits(f, b, old');
    } else {
      hide Signed, Varint32Rest, TakeVarint64;
    }
  }

  lemma IntegerFits(f: Field, b: Bytes, old': Value)
    requires f.ltype.VarintType? || f.ltype.UvarintType? || f.ltype.SvarintType?
    requires ParseValue(f, b, old').Some?
    ensures Fits(f, ParseValue(f, b, old').value.0)
  {
    hide Signed, TakeVarint64, UnZigZag;
  }

  lemma {:induction false} SubmessageFits(f: Field, b: Bytes, old': Value)
    requires WfField(f) && f.ltype.SubmessageType? && Fits(f, old') && ParseValue(f, b, old').Some?
    ensures Fits(f, ParseValue(f, b, old').value.0)
    decreases f, -1
  {
    var fields, part := f.ltype.fields, Delimited(b).value.0;
    DefaultsFit(fields, old'.slots);
    var slots := if f.htype.Repeated? then Defaults(fields, old'.slots, |old'.slots|) else old'.slots;
    MessageFits(fields, part, slots);
  }

  // An array of `items`, full up to `at`.
  ghost predicate ArrayFits(f: Field, items: seq<Value>, at: nat) {
    && f.htype.Repeated? && |items| <= f.arraySize && (forall k :: 0 <= k < |items| ==> Fits(f, items[k]))
    && if f.htype.counted then at == |items| else |items| == f.arraySize
  }

  lemma PutItemFits(f: Field, items: seq<Value>, at: nat, v: Value)
    requires ArrayFits(f, items, at) && at < f.arraySize && Fits(f, v)
    ensures ArrayFits(f, PutItem(items, at, v), at + 1)
  {
  }

  lemma {:induction false} PackedFits(f: Field, b: Bytes, items: seq<Value>, at: nat)
    requires WfField(f) && ArrayFits(f, items, at) && ParsePacked(f, b, items, at).Some?
    ensures var p := ParsePacked(f, b, items, at).value; ArrayFits(f, p.0, p.1)
    decreases f, 1, |b|
  {
    if b != [] && at < f.arraySize {
      ZeroFits(f);
      ValueFits(f, b, ZeroValue(f));
      var p := ParseValue(f, b, ZeroValue(f)).value;
      PutItemFits(f, items, at, p.0);
      PackedFits(f, p.1, PutItem(items, at, p.0), at + 1);
    }
  }

  lemma {:induction false} RepeatedFits(f: Field, wireType: nat, b: Bytes, items: seq<Value>, at: nat)
    requires WfField(f) && ArrayFits(f, items, at) && ParseRepeated(f, wireType, b, items, at).Some?
    ensures var p := ParseRepeated(f, wireType, b, items, at).value; ArrayFits(f, p.0, p.1)
    decreases f, 2
  {
    if wireType == PB_WT_STRING && Packable(f.ltype) {
      PackedFits(f, Delimited(b).value.0, items, at);
    } else {
      ZeroFits(f);
      ValueFits(f, b, ZeroValue(f));
      PutItemFits(f, items, at, ParseValue(f, b, ZeroValue(f)).value.0);
    }
  }

  lemma SlotReplaced(fields: seq<Field>, slots: seq<Slot>, i: nat, s: Slot)
    requires FitsSlots(fields, slots) && i < |fields| && FitsSlot(fields, i, s)
    ensures FitsSlots(fields, slots[i := s])
  {
  }

  // One field decoded, its struct still within bounds.
  lemma {:induction false} FieldFits(fields: seq<Field>, st: State, i: nat, wireType: nat, b: Bytes)
    requires WfFields(fields) && FitsSlots(fields, st.slots) && i < |fields|
    requires ParseField(fields, st, i, wireType, b).Some?
    ensures FitsSlots(fields, ParseField(fields, st, i, wireType, b).value.0.slots)
    decreases fields, 0
  {
    var f := fields[i];
    assert WfField(f) && FitsSlot(fields, i, st.slots[i]);
    match f.htype
    case Required => SingularFits(fields, st, i, wireType, b);
    case Optional(_) => SingularFits(fields, st, i, wireType, b);
    case Repeated(counted) =>
      var at := if counted then |st.slots[i].items| else st.fixedSize;
      RepeatedFits(f, wireType, b, st.slots[i].items, at);
      SlotReplaced(fields, st.slots, i, Many(ParseRepeated(f, wireType, b, st.slots[i].items, at).value.0));
    case OneOf(home) => MemberFits(fields, st, i, wireType, b);
  }

  lemma {:induction false} SingularFits(fields: seq<Field>, st: State, i: nat, wireType: nat, b: Bytes)
    requires WfFields(fields) && FitsSlots(fields, st.slots) && i < |fields|
    requires fields[i].htype.Required? || fields[i].htype.Optional?
    requires ParseField(fields, st, i, wireType, b).Some?
    ensures FitsSlots(fields, ParseField(fields, st, i, wireType, b).value.0.slots)
    decreases fields, -1
  {
    assert WfField(fields[i]) && FitsSlot(fields, i, st.slots[i]);
    ValueFits(fields[i], b, st.slots[i].v);
    SlotReplaced(fields, st.slots, i, ParseField(fields, st, i, wireType, b).value.0.slots[i]);
  }

  // A oneof set to its member `i`.
  lemma {:induction false} MemberFits(fields: seq<Field>, st: State, i: nat, wireType: nat, b: Bytes)
    requires WfFields(fields) && FitsSlots(fields, st.slots) && i < |fields| && fields[i].htype.OneOf?
    requires ParseField(fields, st, i, wireType, b).Some?
    ensures FitsSlots(fields, ParseField(fields, st, i, wireType, b).value.0.slots)
    decreases fields, -1
  {
    var f := fields[i];
    var home := f.htype.home;
    assert WfField(f) && fields[home].htype == f.htype && FitsSlot(fields, home, st.slots[home]);
    var u := st.slots[home];
    TagsPositive(fields);
    ZeroFits(f);
    DefaultFits(f, ZeroValue(f));
    var old' := if f.ltype.SubmessageType? && u.tag != f.tag then DefaultValue(f, ZeroValue(f)) else u.v;
    if f.ltype.SubmessageType? {
      if u.tag == f.tag {
        var j: nat :| FitsMember(fields, home, u, j);
        assert j == i;
      }
      ValueFits(f, b, old');
    } else {
      ScalarFits(f, b, old');
    }
    var v := ParseValue(f, b, old').value.0;
    assert FitsMember(fields, home, Which(f.tag, v), i);
    SlotReplaced(fields, st.slots, home, Which(f.tag, v));
  }

  lemma {:induction false} TaggedFits(fields: seq<Field>, st: State, tag: nat, wireType: nat, b: Bytes)
    requires WfFields(fields) && FitsSlots(fields, st.slots) && ParseTagged(fields, st, tag, wireType, b).Some?
    ensures FitsSlots(fields, ParseTagged(fields, st, tag, wireType, b).value.0.slots)
    decreases fields, 1
  {
    if !(fields == [] && tag == 0) {
      var found := Find(fields, tag, st.pos, |fields|);
      if found.Some? {
        var entered := Enter(fields, st, found.value).value;
        FieldFits(fields, entered, found.value, wireType, b);
      }
    }
  }

  lemma {:induction false} FieldsFit(fields: seq<Field>, b: Bytes, st: State)
    requires WfFields(fields) && FitsSlots(fields, st.slots) && ParseFields(fields, b, st).Some?
    ensures FitsSlots(fields, ParseFields(fields, b, st).value.slots)
    decreases fields, 2, |b|
  {
    if b != [] && Varint32(b).value.0 != 0 {
      var p := Varint32(b).value;
      TaggedFits(fields, st, p.0 / 8, p.0 % 8, p.1);
      var q := ParseTagged(fields, st, p.0 / 8, p.0 % 8, p.1).value;
      FieldsFit(fields, q.1, q.0);
    }
  }

  lemma {:induction false} MessageFits(fields: seq<Field>, b: Bytes, slots: seq<Slot>)
    requires WfFields(fields) && FitsSlots(fields, slots) && ParseMessage(fields, b, slots).Some?
    ensures FitsSlots(fields, ParseMessage(fields, b, slots).value)
    decreases fields, 3
  {
    FieldsFit(fields, b, Start(slots));
  }

  // Whatever bytes come in, what is decoded from them is within the bounds of the struct: no array
  // longer than its type, no string or bytes longer than their buffer, no number out of range.
  lemma {:induction false} DecodedFits(fields: seq<Field>, b: Bytes, storage: seq<Slot>)
    requires WfFields(fields) && FitsSlots(fields, storage) && Parse(fields, b, storage).Some?
    ensures FitsSlots(fields, Parse(fields, b, storage).value)
  {
    DefaultsFit(fields, storage);
    MessageFits(fields, b, Defaults(fields, storage, |storage|));
  }

  // ----- printing what was decoded -----

  // No string of the message has a NUL inside: C would read it as shorter than it came.
  ghost predicate Terminated(f: Field, v: Value)
    decreases f, 1
  {
    match f.ltype
    case StringType => v.Blob? && forall c :: c in v.data ==> c != 0
    case SubmessageType(fields) => v.Sub? && TerminatedSlots(fields, v.slots)
    case _ => true
  }

  ghost predicate TerminatedSlot(fields: seq<Field>, i: nat, s: Slot)
    requires i < |fields|
    decreases fields, 0
  {
    var f := fields[i];
    match s
    case One(v) => Terminated(f, v)
    case Opt(has, v) => has ==> Terminated(f, v)
    case Many(items) => forall k :: 0 <= k < |items| ==> Terminated(f, items[k])
    case Which(tag, v) => forall j :: 0 <= j < |fields| && fields[j].htype == OneOf(i) && fields[j].tag == tag ==>
        Terminated(fields[j], v)
    case Shared => true
  }

  ghost predicate TerminatedSlots(fields: seq<Field>, slots: seq<Slot>)
    decreases fields, 1
  {
    |slots| == |fields| && forall i :: 0 <= i < |fields| ==> TerminatedSlot(fields, i, slots[i])
  }

  lemma {:induction false} FittingIsWf(f: Field, v: Value)
    requires WfField(f) && Fits(f, v) && Terminated(f, v)
    ensures WfValue(f, v)
    decreases f, 1
  {
    if f.ltype.SubmessageType? {
      FittingSlotsAreWf(f.ltype.fields, v.slots);
    }
  }

  lemma {:induction false} FittingSlotsAreWf(fields: seq<Field>, slots: seq<Slot>)
    requires WfFields(fields) && FitsSlots(fields, slots) && TerminatedSlots(fields, slots)
    ensures WfSlots(fields, slots)
    decreases fields, 0
  {
    forall i | 0 <= i < |fields| ensures WfSlot(fields, i, slots[i]) {
      FittingSlotIsWf(fields, i, slots[i]);
    }
  }

  lemma {:induction false} FittingSlotIsWf(fields: seq<Field>, i: nat, s: Slot)
    requires WfFields(fields) && i < |fields| && FitsSlot(fields, i, s) && TerminatedSlot(fields, i, s)
    ensures WfSlot(fields, i, s)
    decreases fields, -1
  {
    var f := fields[i];
    assert WfField(f);
    match s
    case One(v) => FittingIsWf(f, v);
    case Opt(has, v) =>
      if has {
        FittingIsWf(f, v);
      }
    case Many(items) =>
      forall k | 0 <= k < |items| ensures WfValue(f, items[k]) {
        FittingIsWf(f, items[k]);
      }
    case Which(tag, v) =>
      if tag != 0 {
        var j: nat :| FitsMember(fields, i, s, j);
        assert WfField(fields[j]);
        FittingIsWf(fields[j], v);
        assert SetTo(fields, i, s, j);
      }
    case Shared =>
  }

  // Whatever bytes were accepted, the message they gave prints to bytes that give it again, if no
  // string in it has a NUL inside and the print stays below 2^32 bytes.
  lemma AcceptedPrintsBack(fields: seq<Field>, b: Bytes, storage: seq<Slot>, again: seq<Slot>) returns (r: seq<Slot>)
    requires WfFields(fields) && FitsSlots(fields, storage) && ShapedSlots(fields, again)
    requires Parse(fields, b, storage).Some? && TerminatedSlots(fields, Parse(fields, b, storage).value)
    requires var printed := MessageBytes(fields, Parse(fields, b, storage).value, |fields|);
             printed.Some? ==> |printed.value| < TWO_32
    ensures var s := Parse(fields, b, storage).value;
            && MessageBytes(fields, s, |fields|).Some?
            && Parse(fields, MessageBytes(fields, s, |fields|).value, again) == Some(r) && SameSlots(fields, r, s)
  {
    DecodedFits(fields, b, storage);
    var s := Parse(fields, b, storage).value;
    FittingSlotsAreWf(fields, s);
    r := ParserUndoesPrinter(fields, s, again);
  }
}

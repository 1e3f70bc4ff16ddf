/** The parser undoes the printer: whatever a well-formed message prints as parses back to it, up to
    the contents of what is absent (nanopb: pb_encode.c, pb_decode.c). */
module PbRoundTrips {
  import opened Wrappers
  import opened Coding
  import opened PbMessages
  import opened PbEncoder
  import opened PbDecoder
  import opened PbVarints

  // ----- varints -----

  lemma DelimitedBack(s: Bytes, rest: Bytes)
    requires |s| < TWO_32
    ensures Delimited(StringBytes(s) + rest) == Some((s, rest))
  {
    assert StringBytes(s) + rest == Varint(|s|) + (s + rest);
    Varint32Back(|s|, s + rest);
  }

  // ----- scalars -----

  lemma Powers()
    ensures Pow256(1) == 0x100 && Pow256(2) == 0x1_0000 && Pow256(4) == TWO_32 && Pow256(8) == TWO_64
  {
    assert Pow256(0) == 1;
    assert Pow256(1) == 256 * Pow256(0);
    assert Pow256(2) == 256 * Pow256(1);
    assert Pow256(3) == 256 * Pow256(2);
    assert Pow256(4) == 256 * Pow256(3);
    assert Pow256(5) == 256 * Pow256(4);
    assert Pow256(6) == 256 * Pow256(5);
    assert Pow256(7) == 256 * Pow256(6);
    assert Pow256(8) == 256 * Pow256(7);
  }

  // Two's complement at two widths.
  lemma LowBits(n: int)
    requires -0x8000_0000 <= n < 0x8000_0000
    ensures (n % TWO_64) % TWO_32 == n % TWO_32 && Signed(n % TWO_64, 4) == n
  {
    Powers();
    if n < 0 {
      assert n % TWO_64 == n + TWO_64;
      assert n + TWO_64 == (n + TWO_32) + TWO_32 * (TWO_32 - 1);
      assert n % TWO_32 == n + TWO_32;
    }
  }

  lemma SignedRange(n: int, size: nat)
    requires IntSize(size) && Signed(n, size) == n
    ensures if size == 8 then -0x8000_0000_0000_0000 <= n < 0x8000_0000_0000_0000 else -0x8000_0000 <= n < 0x8000_0000
  {
    Powers();
  }

  lemma SignedBack(n: int, size: nat)
    requires IntSize(size) && Signed(n, size) == n
    ensures SignedField(n % TWO_64, size) == Some(Num(n))
  {
    SignedRange(n, size);
    if size == 8 {
      Powers();
    } else {
      LowBits(n);
    }
  }

  lemma UnsignedBack(n: int, size: nat)
    requires IntSize(size) && Unsigned(n, size) == n
    ensures n % TWO_64 == n && UnsignedField(n % TWO_64, size) == Some(Num(n))
  {
    Powers();
  }

  lemma Wraps(x: nat)
    requires x < TWO_64
    ensures (x + TWO_64) % TWO_64 == x
  {
  }

  lemma ZigZagIs(n: int)
    requires -0x8000_0000_0000_0000 <= n < 0x8000_0000_0000_0000
    ensures ZigZag(n) == if n < 0 then -2 * n - 1 else 2 * n
  {
    if n < 0 {
      assert n % TWO_64 == n + TWO_64;
      assert 2 * (n + TWO_64) == (2 * n + TWO_64) + TWO_64;
      Wraps(2 * n + TWO_64);
    }
  }

  lemma ZigZagBack(n: int, size: nat)
    requires IntSize(size) && Signed(n, size) == n
    ensures ZigZagField(ZigZag(n), size) == Some(Num(n))
  {
    SignedRange(n, size);
    ZigZagIs(n);
    hide Signed, ZigZag;
    assert UnZigZag(ZigZag(n)) == n;
  }

  lemma NumberBack(f: Field, v: Value, rest: Bytes, old': Value)
    requires WfField(f) && WfValue(f, v) && v.Num?
    ensures ValueBytes(f, v).Some? && |ValueBytes(f, v).value| > 0
    ensures ParseValue(f, ValueBytes(f, v).value + rest, old') == Some((v, rest))
  {
    hide Signed, Unsigned, SignedField, UnsignedField, ZigZagField, ZigZag, Varint32, TakeVarint64, Fixed32, Fixed64;
    hide Varint, DecodeFixed32, DecodeFixed64, ParseMessage, Delimited, StringBytes, UntilNul, ZeroBytes;
    match f.ltype
    case BoolType => Varint32Back(v.n, rest);
    case VarintType =>
      SignedBack(v.n, f.dataSize);
      TakeVarint64Encoded(v.n % TWO_64, rest);
    case UvarintType =>
      UnsignedBack(v.n, f.dataSize);
      TakeVarint64Encoded(v.n % TWO_64, rest);
    case SvarintType =>
      ZigZagBack(v.n, f.dataSize);
      TakeVarint64Encoded(ZigZag(v.n), rest);
    case Fixed32Type =>
      Fixed32RoundTrip(v.n, rest);
      assert (Fixed32(v.n) + rest)[4..] == rest;
    case Fixed64Type => Fixed64RoundTrip(v.n, rest);
  }

  lemma BytesBack(f: Field, v: Value, rest: Bytes, old': Value)
    requires WfField(f) && WfValue(f, v) && v.Blob?
    ensures ValueBytes(f, v).Some? && |ValueBytes(f, v).value| > 0
    ensures ParseValue(f, ValueBytes(f, v).value + rest, old') == Some((v, rest))
  {
    hide Varint32, TakeVarint64, Fixed32, Fixed64, Varint, DecodeFixed32, DecodeFixed64, ParseMessage, Delimited;
    BlobBack(v.data, rest);
    hide StringBytes;
    if f.ltype.StringType? {
      UntilNulIsAll(v.data);
    } else if f.ltype.FixedLengthBytesType? && f.dataSize == 0 {
      assert v.data == ZeroBytes(0);
    }
  }

  // A value other than a submessage comes back as it was.
  lemma ScalarBack(f: Field, v: Value, rest: Bytes, old': Value)
    requires WfField(f) && WfValue(f, v) && !f.ltype.SubmessageType?
    ensures ValueBytes(f, v).Some? && |ValueBytes(f, v).value| > 0
    ensures ParseValue(f, ValueBytes(f, v).value + rest, old') == Some((v, rest))
  {
    hide ValueBytes, ParseValue;
    if v.Num? {
      NumberBack(f, v, rest, old');
    } else {
      BytesBack(f, v, rest, old');
    }
  }

  lemma BlobBack(data: Bytes, rest: Bytes)
    requires |data| < TWO_32
    ensures Varint32(StringBytes(data) + rest) == Some((|data|, data + rest))
    ensures (data + rest)[..|data|] == data && (data + rest)[|data|..] == rest && |StringBytes(data)| > 0
  {
    assert StringBytes(data) + rest == Varint(|data|) + (data + rest);
    Varint32Back(|data|, data + rest);
  }

  // ----- storage after pb_message_set_to_defaults -----

  ghost predicate FreshValue(f: Field, v: Value)
    decreases f, 1
  {
    f.ltype.SubmessageType? ==> v.Sub? && FreshSlots(f.ltype.fields, v.slots)
  }

  ghost predicate FreshSlot(fields: seq<Field>, i: nat, s: Slot)
    requires i < |fields|
    decreases fields, 0
  {
    var f := fields[i];
    match f.htype
    case Required => s.One? && FreshValue(f, s.v)
    case Optional(hasFlag) =>
      if hasFlag then s.Opt? && !s.has && FreshValue(f, s.v)
      else s.One? && FreshValue(f, s.v) && (!f.ltype.SubmessageType? ==> s.v == ZeroValue(f))
    case Repeated(counted) => s.Many? && if counted then s.items == [] else |s.items| == f.arraySize
    case OneOf(home) => home == i ==> s.Which? && s.tag == 0
  }

  ghost predicate FreshSlots(fields: seq<Field>, slots: seq<Slot>)
    decreases fields, 1
  {
    |slots| == |fields| && forall i :: 0 <= i < |fields| ==> FreshSlot(fields, i, slots[i])
  }

  lemma {:induction false} DefaultsAt(fields: seq<Field>, slots: seq<Slot>, n: nat, i: nat)
    requires i < n <= |slots| && n <= |fields|
    ensures Defaults(fields, slots, n)[i] == DefaultSlot(fields[i], slots[i])
  {
    if i < n - 1 {
      DefaultsAt(fields, slots, n - 1, i);
    }
  }

  lemma {:induction false} DefaultsAreFresh(fields: seq<Field>, slots: seq<Slot>)
    requires WfFields(fields) && ShapedSlots(fields, slots)
    ensures FreshSlots(fields, Defaults(fields, slots, |slots|))
    decreases fields, 1
  {
    forall i | 0 <= i < |fields| ensures FreshSlot(fields, i, Defaults(fields, slots, |slots|)[i]) {
      DefaultsAt(fields, slots, |slots|, i);
      assert WfField(fields[i]) && ShapedSlot(fields, i, slots[i]);
      if slots[i].One? || slots[i].Opt? {
        if !fields[i].htype.OneOf? && !fields[i].htype.Repeated? {
          DefaultIsFresh(fields[i], slots[i].v);
        }
      }
    }
  }

  lemma {:induction false} DefaultIsFresh(f: Field, v: Value)
    requires WfField(f) && Shaped(f, v)
    ensures FreshValue(f, DefaultValue(f, v))
    ensures !f.ltype.SubmessageType? && f.htype == Optional(false) ==> DefaultValue(f, v) == ZeroValue(f)
    decreases f, 1
  {
    if f.ltype.SubmessageType? {
      DefaultsAreFresh(f.ltype.fields, v.slots);
    }
  }

  lemma {:induction false} ZeroSlotsAt(fields: seq<Field>, n: nat, i: nat)
    requires i < n <= |fields|
    ensures ZeroSlots(fields, n)[i] == ZeroSlot(fields[i], i)
  {
    if i < n - 1 {
      ZeroSlotsAt(fields, n - 1, i);
    }
  }

  lemma TagsPositive(fields: seq<Field>)
    requires WfFields(fields)
    ensures forall j :: 0 <= j < |fields| ==> fields[j].tag != 0
  {
    forall j | 0 <= j < |fields| ensures fields[j].tag != 0 {
      assert WfField(fields[j]);
    }
  }

  // Zero memory has the right shape; a union of zero bytes is read only once a member is set.
  lemma {:induction false} ZeroIsShaped(f: Field)
    requires WfField(f)
    ensures Shaped(f, ZeroValue(f))
    decreases f, 1
  {
    if f.ltype.SubmessageType? {
      var fields := f.ltype.fields;
      TagsPositive(fields);
      forall i | 0 <= i < |fields| ensures ShapedSlot(fields, i, ZeroSlots(fields, |fields|)[i]) {
        ZeroSlotsAt(fields, |fields|, i);
        assert WfField(fields[i]);
        ZeroIsShaped(fields[i]);
      }
    }
  }

  // ----- what the printer leaves out -----

  // A submessage all of whose fields hold nothing is what defaults make of its storage.
  lemma {:induction false} NothingIsFresh(fields: seq<Field>, d: seq<Slot>, s: seq<Slot>)
    requires WfFields(fields) && WfSlots(fields, s) && FreshSlots(fields, d)
    requires forall i :: 0 <= i < |fields| ==> HoldsNothing(fields, s, i)
    ensures SameSlots(fields, d, s)
    decreases fields, 1
  {
    forall i | 0 <= i < |fields| ensures SameSlot(fields, i, d[i], s[i]) {
      assert WfField(fields[i]) && WfSlot(fields, i, s[i]) && FreshSlot(fields, i, d[i]) && HoldsNothing(fields, s, i);
      if fields[i].htype == Optional(false) {
        ZeroIsFresh(fields[i], d[i].v, s[i].v);
      }
    }
  }

  lemma {:induction false} ZeroIsFresh(f: Field, d: Value, v: Value)
    requires WfField(f) && WfValue(f, v) && FreshValue(f, d) && ZeroData(f, v)
    requires !f.ltype.SubmessageType? ==> d == ZeroValue(f)
    ensures SameValue(f, d, v)
    decreases f, 1
  {
    match f.ltype
    case SubmessageType(fields) =>
      NothingUpToIs(fields, v.slots, |fields|);
      NothingIsFresh(fields, d.slots, v.slots);
    case StringType => UntilNulIsAll(v.data);
    case FixedLengthBytesType => assert v.data == ZeroBytes(0);
    case _ =>
  }

  // ----- finding a field by its tag -----

  function Distance(pos: nat, k: nat, n: nat): nat
    requires pos < n && k < n
  {
    if k >= pos then k - pos else k + n - pos
  }

  ghost predicate TagsDiffer(fields: seq<Field>) {
    forall i, j :: 0 <= i < j < |fields| ==> fields[i].tag != fields[j].tag
  }

  lemma WrapsAround(pos: nat, n: nat)
    requires pos < n
    ensures (pos + 1) % n == if pos + 1 == n then 0 else pos + 1
  {
  }

  lemma {:induction false} FindReaches(fields: seq<Field>, k: nat, pos: nat, left: nat)
    requires TagsDiffer(fields) && k < |fields| && pos < |fields| && Distance(pos, k, |fields|) < left
    ensures Find(fields, fields[k].tag, pos, left) == Some(k)
    decreases left
  {
    if pos != k {
      WrapsAround(pos, |fields|);
      FindReaches(fields, k, (pos + 1) % |fields|, left - 1);
    }
  }

  // ----- progress of the parser through a printed message -----

  // Slot `k` has been parsed once the first `n` fields have.
  ghost predicate Done(fields: seq<Field>, s: seq<Slot>, k: nat, n: nat)
    requires k < |fields| == |s| && n <= |fields|
  {
    if fields[k].htype.OneOf? then
      && fields[k].htype.home == k && s[k].Which?
      && exists j :: 0 <= j < n && fields[j].htype == OneOf(k) && fields[j].tag == s[k].tag
    else k < n
  }

  ghost predicate SlotProgress(fields: seq<Field>, s: seq<Slot>, d: seq<Slot>, cur: seq<Slot>, k: nat, n: nat)
    requires k < |fields| == |s| == |d| == |cur| && n <= |fields|
  {
    if Done(fields, s, k, n) then SameSlot(fields, k, cur[k], s[k]) else cur[k] == d[k]
  }

  ghost predicate Progress(fields: seq<Field>, s: seq<Slot>, d: seq<Slot>, cur: seq<Slot>, n: nat)
    requires |fields| == |s| == |d| && n <= |fields|
  {
    |cur| == |fields| && forall k :: 0 <= k < |fields| ==> SlotProgress(fields, s, d, cur, k, n)
  }

  // The rest of the parser's state after `n` fields.
  ghost predicate StateOk(fields: seq<Field>, st: State, n: nat)
    requires n <= |fields|
  {
    && (fields == [] || st.pos < |fields|)
    && (st.fixedField.Some? ==> st.fixedField.value < n && st.fixedSize == fields[st.fixedField.value].arraySize)
    && |st.seen| == MAX_REQUIRED_FIELDS
    && forall k :: 0 <= k < RequiredBefore(fields, n) && k < MAX_REQUIRED_FIELDS ==> st.seen[k]
  }

  // A field's tag leads the parser to the field.
  lemma TagBack(fields: seq<Field>, i: nat, wireType: nat, b: Bytes, st: State, entered: State)
    requires WfFields(fields) && i < |fields| && wireType < 8 && st.pos < |fields|
    requires Enter(fields, st, i) == Some(entered)
    requires ParseField(fields, entered, i, wireType, b).Some?
    ensures var p := ParseField(fields, entered, i, wireType, b).value;
            ParseFields(fields, TagBytes(wireType, fields[i].tag) + b, st) == ParseFields(fields, p.1, p.0)
  {
    hide Varint32, Varint, Enter, ParseField, Find;
    var tag := fields[i].tag;
    assert WfField(fields[i]);
    var key := 8 * tag + wireType;
    assert key / 8 == tag && key % 8 == wireType && 0 < key < TWO_32;
    Varint32Back(key, b);
    FindReaches(fields, i, st.pos, |fields|);
    var input := TagBytes(wireType, tag) + b;
    assert |input| > 0;
    assert ParseTagged(fields, st, tag, wireType, b) == ParseField(fields, entered, i, wireType, b);
  }

  // ----- one field -----

  // The storage a value is parsed into.
  ghost predicate ReadyFor(f: Field, old': Value) {
    f.ltype.SubmessageType? ==> old'.Sub? && if f.htype.Repeated? then ShapedSlots(f.ltype.fields, old'.slots)
                                             else FreshSlots(f.ltype.fields, old'.slots)
  }

  lemma ValueBack(f: Field, v: Value, rest: Bytes, old': Value) returns (v': Value)
    requires WfField(f) && WfValue(f, v) && ReadyFor(f, old')
    requires ValueBytes(f, v).Some? && |ValueBytes(f, v).value| < TWO_32
    ensures |ValueBytes(f, v).value| > 0 && ParseValue(f, ValueBytes(f, v).value + rest, old') == Some((v', rest))
    ensures SameValue(f, v', v)
    decreases f, 2
  {
    if f.ltype.SubmessageType? {
      var fields := f.ltype.fields;
      var inner := MessageBytes(fields, v.slots, |fields|).value;
      var slots := if f.htype.Repeated? then Defaults(fields, old'.slots, |old'.slots|) else old'.slots;
      if f.htype.Repeated? {
        DefaultsAreFresh(fields, old'.slots);
      }
      var back := MessageBack(fields, v.slots, slots);
      DelimitedBack(inner, rest);
      v' := Sub(back);
    } else {
      ScalarBack(f, v, rest, old');
      v' := v;
    }
  }

  // Zero memory is ready for an array element.
  lemma ZeroIsReady(f: Field)
    requires WfField(f) && f.htype.Repeated?
    ensures ReadyFor(f, ZeroValue(f))
  {
    ZeroIsShaped(f);
  }

  lemma PackedStep(f: Field, b: Bytes, items: seq<Value>, at: nat, v: Value, rest: Bytes)
    requires b != [] && at < f.arraySize && ParseValue(f, b, ZeroValue(f)) == Some((v, rest))
    ensures ParsePacked(f, b, items, at) == ParsePacked(f, rest, PutItem(items, at, v), at + 1)
  {
    hide ParseValue, ZeroValue, PutItem;
  }

  lemma {:induction false} PackedBack(f: Field, items: seq<Value>, n: nat, start: seq<Value>, rest: Bytes)
    returns (r: seq<Value>)
    requires WfField(f) && Packable(f.ltype) && f.htype.Repeated? && n <= |items| <= f.arraySize
    requires forall k :: 0 <= k < |items| ==> WfValue(f, items[k])
    requires start == [] || |start| == |items|
    ensures ItemsBytes(f, items, n, false).Some?
    ensures ParsePacked(f, ItemsBytes(f, items, n, false).value + rest, start, 0) == ParsePacked(f, rest, r, n)
    ensures |r| == (if start == [] then n else |items|) && r[..n] == items[..n]
    decreases n
  {
    hide ValueBytes, ParseValue, WfField, WfValue, ParsePacked;
    if n == 0 {
      assert [] + rest == rest;
      r := start;
    } else {
      var item := ValueBytes(f, items[n - 1]);
      ScalarBack(f, items[n - 1], rest, ZeroValue(f));
      var before := PackedBack(f, items, n - 1, start, item.value + rest);
      r := PutItem(before, n - 1, items[n - 1]);
      assert ItemsBytes(f, items, n, false).value + rest ==
          ItemsBytes(f, items, n - 1, false).value + (item.value + rest);
      PackedStep(f, item.value + rest, before, n - 1, items[n - 1], rest);
      assert r[..n] == before[..n - 1] + [items[n - 1]];
      assert items[..n] == items[..n - 1] + [items[n - 1]];
    }
  }

  lemma MessageBack(fields: seq<Field>, s: seq<Slot>, d: seq<Slot>) returns (r: seq<Slot>)
    requires WfFields(fields) && WfSlots(fields, s) && FreshSlots(fields, d)
    requires MessageBytes(fields, s, |fields|).Some? && |MessageBytes(fields, s, |fields|).value| < TWO_32
    ensures ParseMessage(fields, MessageBytes(fields, s, |fields|).value, d) == Some(r) && SameSlots(fields, r, s)
    decreases fields, 5
  {
    var bytes := MessageBytes(fields, s, |fields|).value;
    assert Progress(fields, s, d, d, 0);
    assert StateOk(fields, Start(d), 0);
    var st := FieldsBack(fields, s, d, |fields|, []);
    assert bytes + [] == bytes;
    AllDone(fields, s, d, st.slots);
    r := st.slots;
  }

  lemma FieldsBack(fields: seq<Field>, s: seq<Slot>, d: seq<Slot>, n: nat, rest: Bytes) returns (st: State)
    requires WfFields(fields) && WfSlots(fields, s) && FreshSlots(fields, d) && n <= |fields|
    requires MessageBytes(fields, s, n).Some? && |MessageBytes(fields, s, n).value| < TWO_32
    ensures Progress(fields, s, d, st.slots, n) && StateOk(fields, st, n)
    ensures ParseFields(fields, MessageBytes(fields, s, n).value + rest, Start(d)) == ParseFields(fields, rest, st)
    decreases fields, 4, n
  {
    hide *;
    if n == 0 {
      st := Start(d);
      NoneParsed(fields, s, d, rest);
    } else {
      MessageIs(fields, s, n);
      var last := FieldBytes(fields, s, n - 1).value;
      var before := FieldsBack(fields, s, d, n - 1, last + rest);
      st := FieldBack(fields, s, d, n - 1, before, rest);
      Regrouped(MessageBytes(fields, s, n - 1).value, last, rest);
    }
  }

  lemma NoneParsed(fields: seq<Field>, s: seq<Slot>, d: seq<Slot>, rest: Bytes)
    requires WfSlots(fields, s) && FreshSlots(fields, d)
    ensures Progress(fields, s, d, Start(d).slots, 0) && StateOk(fields, Start(d), 0)
    ensures MessageBytes(fields, s, 0) == Some([]) && [] + rest == rest
  {
  }

  lemma MessageIs(fields: seq<Field>, s: seq<Slot>, n: nat)
    requires 0 < n <= |fields| && MessageBytes(fields, s, n).Some?
    ensures MessageBytes(fields, s, n - 1).Some? && FieldBytes(fields, s, n - 1).Some?
    ensures MessageBytes(fields, s, n).value ==
              MessageBytes(fields, s, n - 1).value + FieldBytes(fields, s, n - 1).value
  {
  }

  lemma FieldBack(fields: seq<Field>, s: seq<Slot>, d: seq<Slot>, i: nat, st: State, rest: Bytes) returns (st': State)
    requires WfFields(fields) && WfSlots(fields, s) && FreshSlots(fields, d) && i < |fields|
    requires Progress(fields, s, d, st.slots, i) && StateOk(fields, st, i)
    requires FieldBytes(fields, s, i).Some? && |FieldBytes(fields, s, i).value| < TWO_32
    ensures Progress(fields, s, d, st'.slots, i + 1) && StateOk(fields, st', i + 1)
    ensures ParseFields(fields, FieldBytes(fields, s, i).value + rest, st) == ParseFields(fields, rest, st')
    decreases fields, 3
  {
    var f := fields[i];
    assert WfField(f) && WfSlot(fields, i, s[i]) && FreshSlot(fields, i, d[i])
        && SlotProgress(fields, s, d, st.slots, i, i);
    match f.htype
    case Required =>
      st' := SingularBack(fields, s, d, i, i, s[i].v, st, rest);
    case Optional(hasFlag) =>
      if FieldBytes(fields, s, i).value == [] {
        AbsentBack(fields, s, d, i, st, rest);
        st' := st;
      } else {
        st' := SingularBack(fields, s, d, i, i, s[i].v, st, rest);
      }
    case Repeated(_) =>
      st' := ArrayBack(fields, s, d, i, st, rest);
    case OneOf(home) =>
      assert WfSlot(fields, home, s[home]);
      if s[home].tag == f.tag {
        ActiveMember(fields, s, i);
        st' := SingularBack(fields, s, d, i, home, s[home].v, st, rest);
      } else {
        AbsentBack(fields, s, d, i, st, rest);
        st' := st;
      }
  }

  // The member whose tag a oneof holds is the one its contents belong to.
  lemma ActiveMember(fields: seq<Field>, s: seq<Slot>, i: nat)
    requires WfFields(fields) && WfSlots(fields, s) && i < |fields| && fields[i].htype.OneOf?
    requires s[fields[i].htype.home].Which? && s[fields[i].htype.home].tag == fields[i].tag
    ensures WfValue(fields[i], s[fields[i].htype.home].v)
  {
    var home := fields[i].htype.home;
    assert WfSlot(fields, home, s[home]);
    TagsPositive(fields);
    var j :| SetTo(fields, home, s[home], j);
    assert j == i;
  }

  // How the set of parsed slots grows with one more field.
  lemma DoneStep(fields: seq<Field>, s: seq<Slot>, i: nat, k: nat)
    requires |s| == |fields| && i < |fields| && k < |fields|
    ensures Done(fields, s, k, i + 1) <==> Done(fields, s, k, i) || Finishes(fields, s, i, k)
  {
  }

  ghost predicate Finishes(fields: seq<Field>, s: seq<Slot>, i: nat, k: nat)
    requires |s| == |fields| && i < |fields| && k < |fields|
  {
    if fields[k].htype.OneOf? then
      fields[k].htype.home == k && s[k].Which? && fields[i].htype == OneOf(k) && fields[i].tag == s[k].tag
    else k == i
  }

  // Nothing printed: the slot keeps what it had, which is the same.
  lemma ProgressKept(fields: seq<Field>, s: seq<Slot>, d: seq<Slot>, cur: seq<Slot>, i: nat)
    requires |fields| == |s| == |d| && i < |fields| && Progress(fields, s, d, cur, i)
    requires if fields[i].htype.OneOf? then forall k :: 0 <= k < |fields| ==> !Finishes(fields, s, i, k)
             else SameSlot(fields, i, d[i], s[i])
    ensures Progress(fields, s, d, cur, i + 1)
  {
    var n := i + 1;
    forall k | 0 <= k < |fields| ensures SlotProgress(fields, s, d, cur, k, n) {
      DoneStep(fields, s, i, k);
      assert SlotProgress(fields, s, d, cur, k, i);
    }
  }

  // One slot written: the one field `i` finishes.
  lemma ProgressMade(fields: seq<Field>, s: seq<Slot>, d: seq<Slot>, cur: seq<Slot>, i: nat, k: nat, x: Slot)
    requires |fields| == |s| == |d| && i < |fields| && k < |fields| && Progress(fields, s, d, cur, i)
    requires Finishes(fields, s, i, k) && SameSlot(fields, k, x, s[k])
    ensures Progress(fields, s, d, cur[k := x], i + 1)
  {
    var n, cur' := i + 1, cur[k := x];
    forall j | 0 <= j < |fields| ensures SlotProgress(fields, s, d, cur', j, n) {
      DoneStep(fields, s, i, j);
      assert SlotProgress(fields, s, d, cur, j, i);
      assert j != k ==> !Finishes(fields, s, i, j);
    }
  }

  lemma AbsentBack(fields: seq<Field>, s: seq<Slot>, d: seq<Slot>, i: nat, st: State, rest: Bytes)
    requires WfFields(fields) && WfSlots(fields, s) && FreshSlots(fields, d) && i < |fields|
    requires Progress(fields, s, d, st.slots, i) && StateOk(fields, st, i)
    requires FieldBytes(fields, s, i) == Some([]) && (fields[i].htype.Optional? || fields[i].htype.OneOf?)
    requires fields[i].htype.OneOf? ==> s[fields[i].htype.home].Which? && s[fields[i].htype.home].tag != fields[i].tag
    ensures Progress(fields, s, d, st.slots, i + 1) && StateOk(fields, st, i + 1)
    ensures ParseFields(fields, [] + rest, st) == ParseFields(fields, rest, st)
  {
    assert [] + rest == rest;
    var f := fields[i];
    assert WfField(f) && WfSlot(fields, i, s[i]) && FreshSlot(fields, i, d[i]);
    if f.htype == Optional(false) {
      ZeroIsFresh(f, d[i].v, s[i].v);
    }
    ProgressKept(fields, s, d, st.slots, i);
  }

  // A required, optional or oneof field, printed as one tagged value into slot `k`.
  lemma SingularBack(fields: seq<Field>, s: seq<Slot>, d: seq<Slot>, i: nat, k: nat, v: Value, st: State, rest: Bytes)
    returns (st': State)
    requires WfFields(fields) && WfSlots(fields, s) && FreshSlots(fields, d) && i < |fields|
    requires Progress(fields, s, d, st.slots, i) && StateOk(fields, st, i)
    requires FieldBytes(fields, s, i) == TaggedBytes(fields[i], v) && FieldBytes(fields, s, i).Some?
    requires |FieldBytes(fields, s, i).value| < TWO_32
    requires k < |fields| && Finishes(fields, s, i, k) && !fields[i].htype.Repeated? && WfValue(fields[i], v)
    requires if fields[i].htype.OneOf? then s[k].Which? && s[k].v == v
             else if fields[i].htype == Optional(true) then s[k] == Opt(true, v) else s[k] == One(v)
    ensures Progress(fields, s, d, st'.slots, i + 1) && StateOk(fields, st', i + 1)
    ensures ParseFields(fields, FieldBytes(fields, s, i).value + rest, st) == ParseFields(fields, rest, st')
    decreases fields, 1
  {
    hide *;
    var f := fields[i];
    FieldIsWf(fields, i);
    TaggedIs(f, v);
    ProgressFacts(fields, s, d, st, i);
    var value := ValueBytes(f, v).value;
    var old' := SingularStorage(fields, s, d, i, k, v, st);
    var entered := EnterSingular(fields, st, i);
    var v' := ValueBack(f, v, rest, old');
    var x := if f.htype.OneOf? then Which(f.tag, v') else if f.htype == Optional(true) then Opt(true, v') else One(v');
    st' := entered.(slots := entered.slots[k := x]);
    ParseSingular(fields, entered, i, k, WireType(f.ltype), value + rest, old', v', rest);
    TagBack(fields, i, WireType(f.ltype), value + rest, st, entered);
    Regrouped(TagBytes(WireType(f.ltype), f.tag), value, rest);
    SingularSame(fields, s, i, k, v, v', x);
    ProgressMade(fields, s, d, st.slots, i, k, x);
    SlotsAside(fields, entered, i + 1, st'.slots);
  }

  lemma WireTypeSmall(t: LType)
    ensures WireType(t) < 8
  {
  }

  lemma Regrouped(a: Bytes, b: Bytes, c: Bytes)
    ensures a + b + c == a + (b + c)
  {
  }

  lemma TaggedIs(f: Field, v: Value)
    requires TaggedBytes(f, v).Some?
    ensures ValueBytes(f, v).Some?
    ensures TaggedBytes(f, v).value == TagBytes(WireType(f.ltype), f.tag) + ValueBytes(f, v).value
    ensures WireType(f.ltype) < 8
  {
  }

  lemma ProgressFacts(fields: seq<Field>, s: seq<Slot>, d: seq<Slot>, st: State, i: nat)
    requires WfSlots(fields, s) && FreshSlots(fields, d) && i < |fields| && Progress(fields, s, d, st.slots, i)
    requires StateOk(fields, st, i)
    ensures |s| == |d| == |st.slots| == |fields| && st.pos < |fields|
  {
  }

  // The slots are no part of StateOk.
  lemma SlotsAside(fields: seq<Field>, st: State, n: nat, slots: seq<Slot>)
    requires n <= |fields| && StateOk(fields, st, n)
    ensures StateOk(fields, st.(slots := slots), n)
  {
  }

  lemma SingularSame(fields: seq<Field>, s: seq<Slot>, i: nat, k: nat, v: Value, v': Value, x: Slot)
    requires WfFields(fields) && |s| == |fields| && i < |fields| && k < |fields| && Finishes(fields, s, i, k)
    requires !fields[i].htype.Repeated?
    requires if fields[i].htype.OneOf? then s[k].Which? && s[k].v == v
             else if fields[i].htype == Optional(true) then s[k] == Opt(true, v) else s[k] == One(v)
    requires x == if fields[i].htype.OneOf? then Which(fields[i].tag, v')
                  else if fields[i].htype == Optional(true) then Opt(true, v') else One(v')
    requires SameValue(fields[i], v', v)
    ensures SameSlot(fields, k, x, s[k])
  {
    if fields[i].htype.OneOf? {
      assert fields[k].htype == OneOf(k);
      forall j | 0 <= j < |fields| && fields[j].htype == OneOf(k) && fields[j].tag == x.tag
          ensures SameValue(fields[j], x.v, s[k].v) {
        assert j == i;
      }
    }
  }

  lemma ClearedIsReady(f: Field)
    requires WfField(f) && !f.htype.Repeated?
    ensures ReadyFor(f, DefaultValue(f, ZeroValue(f)))
  {
    ZeroIsShaped(f);
    DefaultIsFresh(f, ZeroValue(f));
  }

  // What the value is parsed over: untouched default storage, or freshly cleared union storage.
  lemma SingularStorage(fields: seq<Field>, s: seq<Slot>, d: seq<Slot>, i: nat, k: nat, v: Value, st: State)
    returns (old': Value)
    requires WfFields(fields) && WfSlots(fields, s) && FreshSlots(fields, d) && i < |fields|
    requires Progress(fields, s, d, st.slots, i)
    requires k < |fields| && Finishes(fields, s, i, k) && !fields[i].htype.Repeated?
    ensures ReadyFor(fields[i], old') && |st.slots| == |fields| && st.slots[k] == d[k]
    ensures if fields[i].htype.OneOf? then
              && fields[i].htype.home == k && d[k].Which?
              && old' == (if fields[i].ltype.SubmessageType? && d[k].tag != fields[i].tag
                          then DefaultValue(fields[i], ZeroValue(fields[i])) else d[k].v)
            else
              && k == i && (d[k].One? || d[k].Opt?) && old' == d[k].v
              && (d[k].Opt? <==> fields[i].htype == Optional(true))
  {
    var f := fields[i];
    assert WfField(f) && FreshSlot(fields, k, d[k]) && SlotProgress(fields, s, d, st.slots, k, i);
    assert !Done(fields, s, k, i);
    if f.htype.OneOf? {
      TagsPositive(fields);
      ClearedIsReady(f);
      assert fields[k].htype == OneOf(k);
      assert d[k].Which? && d[k].tag == 0 && f.tag != 0;
      old' := if f.ltype.SubmessageType? && d[k].tag != f.tag then DefaultValue(f, ZeroValue(f)) else d[k].v;
    } else {
      old' := d[k].v;
      assert FreshValue(f, old');
    }
  }

  lemma EnterSingular(fields: seq<Field>, st: State, i: nat) returns (entered: State)
    requires i < |fields| && StateOk(fields, st, i) && !fields[i].htype.Repeated?
    ensures Enter(fields, st, i) == Some(entered) && entered.slots == st.slots && StateOk(fields, entered, i + 1)
  {
    entered := Enter(fields, st, i).value;
  }

  lemma ParseSingular(fields: seq<Field>, st: State, i: nat, k: nat, wireType: nat, b: Bytes, old': Value, v': Value,
                      rest: Bytes)
    requires i < |fields| == |st.slots| && k < |fields| && !fields[i].htype.Repeated?
    requires ParseValue(fields[i], b, old') == Some((v', rest))
    requires if fields[i].htype.OneOf? then
               && fields[i].htype.home == k && st.slots[k].Which?
               && old' == (if fields[i].ltype.SubmessageType? && st.slots[k].tag != fields[i].tag
                           then DefaultValue(fields[i], ZeroValue(fields[i])) else st.slots[k].v)
             else
               && k == i && (st.slots[k].One? || st.slots[k].Opt?) && old' == st.slots[k].v
               && (st.slots[k].Opt? <==> fields[i].htype == Optional(true))
    ensures var x := if fields[i].htype.OneOf? then Which(fields[i].tag, v')
                     else if fields[i].htype == Optional(true) then Opt(true, v') else One(v');
            ParseField(fields, st, i, wireType, b) == Some((st.(slots := st.slots[k := x]), rest))
  {
    hide ParseValue, DefaultValue, ZeroValue;
  }

  // ----- arrays -----

  // The array slot after `n` elements, and the rest of the state.
  ghost predicate Partial(fields: seq<Field>, items: seq<Value>, cur: seq<Slot>, st: State, i: nat, n: nat)
    requires i < |fields| == |cur| && n <= |items| && fields[i].htype.Repeated?
  {
    var f := fields[i];
    && |st.slots| == |cur| && st.slots[i].Many? && st.slots == cur[i := st.slots[i]]
    && |st.slots[i].items| == (if f.htype.counted then n else |items|)
    && (forall k :: 0 <= k < n ==> SameValue(f, st.slots[i].items[k], items[k]))
    && (if f.htype.counted || n == 0 then StateOk(fields, st, i)
        else StateOk(fields, st.(fixedField := None), i) && st.fixedField == Some(i) && st.fixedSize == n)
  }

  lemma EnterRepeated(fields: seq<Field>, items: seq<Value>, cur: seq<Slot>, st: State, i: nat, n: nat)
    returns (entered: State)
    requires i < |fields| == |cur| && n <= |items| && fields[i].htype.Repeated? && Partial(fields, items, cur, st, i, n)
    ensures Enter(fields, st, i) == Some(entered) && entered.slots == st.slots
    ensures StateOk(fields, entered.(fixedField := None), i)
    ensures if fields[i].htype.counted then StateOk(fields, entered, i) && |st.slots[i].items| == n
            else entered.fixedField == Some(i) && entered.fixedSize == n
  {
    entered := Enter(fields, st, i).value;
  }

  // An array item by item, each with its tag - as other printers may send one of a packable type, too.
  lemma ItemsBack(fields: seq<Field>, items: seq<Value>, cur: seq<Slot>, i: nat, st: State, n: nat, rest: Bytes)
    returns (st': State)
    requires WfFields(fields) && i < |fields| == |cur| && fields[i].htype.Repeated?
    requires n <= |items| <= fields[i].arraySize && (forall k :: 0 <= k < |items| ==> WfValue(fields[i], items[k]))
    requires Partial(fields, items, cur, st, i, 0)
    requires ItemsBytes(fields[i], items, n, true).Some? && |ItemsBytes(fields[i], items, n, true).value| < TWO_32
    ensures Partial(fields, items, cur, st', i, n)
    ensures ParseFields(fields, ItemsBytes(fields[i], items, n, true).value + rest, st) ==
        ParseFields(fields, rest, st')
    decreases fields, 1, n
  {
    var f := fields[i];
    if n == 0 {
      assert [] + rest == rest;
      st' := st;
    } else {
      ItemsIs(f, items, n);
      hide *;
      var key, value := TagBytes(WireType(f.ltype), f.tag), ValueBytes(f, items[n - 1]).value;
      var before := ItemsBack(fields, items, cur, i, st, n - 1, key + (value + rest));
      var front := ItemsBytes(f, items, n - 1, true).value;
      Regrouped(front, key + value, rest);
      Regrouped(key, value, rest);
      st' := ItemBack(fields, f, items, cur, i, before, n, value, rest);
    }
  }

  lemma FieldIsWf(fields: seq<Field>, i: nat)
    requires WfFields(fields) && i < |fields|
    ensures WfField(fields[i])
  {
  }

  lemma PartialFacts(fields: seq<Field>, items: seq<Value>, cur: seq<Slot>, st: State, i: nat, n: nat)
    requires i < |fields| == |cur| && n <= |items| && fields[i].htype.Repeated? && Partial(fields, items, cur, st, i, n)
    ensures st.pos < |fields| && |st.slots| == |fields| && st.slots[i].Many?
  {
  }

  lemma ItemsIs(f: Field, items: seq<Value>, n: nat)
    requires 0 < n <= |items| && ItemsBytes(f, items, n, true).Some?
    ensures ItemsBytes(f, items, n - 1, true).Some? && ValueBytes(f, items[n - 1]).Some?
    ensures ItemsBytes(f, items, n, true).value ==
              ItemsBytes(f, items, n - 1, true).value
                + (TagBytes(WireType(f.ltype), f.tag) + ValueBytes(f, items[n - 1]).value)
  {
  }

  // One more element of an unpacked array.
  lemma ItemBack(fields: seq<Field>, f: Field, items: seq<Value>, cur: seq<Slot>, i: nat, before: State, n: nat,
                 value: Bytes, rest: Bytes) returns (st': State)
    requires WfFields(fields) && i < |fields| == |cur| && f == fields[i] && f.htype.Repeated?
    requires 0 < n <= |items| <= f.arraySize && WfValue(f, items[n - 1]) && ValueBytes(f, items[n - 1]) == Some(value)
    requires |value| < TWO_32
    requires Partial(fields, items, cur, before, i, n - 1)
    ensures Partial(fields, items, cur, st', i, n)
    ensures ParseFields(fields, TagBytes(WireType(f.ltype), f.tag) + (value + rest), before) ==
        ParseFields(fields, rest, st')
    decreases fields, 0
  {
    hide *;
    FieldIsWf(fields, i);
    PartialFacts(fields, items, cur, before, i, n - 1);
    WireTypeSmall(f.ltype);
    var entered := EnterRepeated(fields, items, cur, before, i, n - 1);
    ZeroIsReady(f);
    var v' := ValueBack(f, items[n - 1], rest, ZeroValue(f));
    st' := ItemStored(fields, entered, i, n - 1, v');
    ParseItem(fields, entered, i, n - 1, value + rest, v', rest);
    TagBack(fields, i, WireType(f.ltype), value + rest, before, entered);
    ItemAdded(fields, items, cur, before, entered, i, n, v', st');
  }

  lemma ParseItem(fields: seq<Field>, st: State, i: nat, at: nat, b: Bytes, v': Value, rest: Bytes)
    requires i < |fields| == |st.slots| && fields[i].htype.Repeated? && st.slots[i].Many?
    requires at < fields[i].arraySize && at == if fields[i].htype.counted then |st.slots[i].items| else st.fixedSize
    requires ParseValue(fields[i], b, ZeroValue(fields[i])) == Some((v', rest))
    ensures ParseField(fields, st, i, WireType(fields[i].ltype), b)
         == Some((ItemStored(fields, st, i, at, v'), rest))
  {
    hide ParseValue, ZeroValue, PutItem;
  }

  // The state once an element is stored.
  function ItemStored(fields: seq<Field>, st: State, i: nat, at: nat, v: Value): State
    requires i < |fields| == |st.slots| && fields[i].htype.Repeated? && st.slots[i].Many?
  {
    st.(slots := st.slots[i := Many(PutItem(st.slots[i].items, at, v))],
        fixedSize := if fields[i].htype.counted then st.fixedSize else at + 1)
  }

  lemma ItemAdded(fields: seq<Field>, items: seq<Value>, cur: seq<Slot>, before: State, entered: State, i: nat,
                  n: nat, v': Value, st': State)
    requires i < |fields| == |cur| && 0 < n <= |items| && fields[i].htype.Repeated?
    requires Partial(fields, items, cur, before, i, n - 1)
    requires entered.slots == before.slots && StateOk(fields, entered.(fixedField := None), i)
    requires SameValue(fields[i], v', items[n - 1])
    requires if fields[i].htype.counted then StateOk(fields, entered, i) else entered.fixedField == Some(i)
    requires st' == ItemStored(fields, entered, i, n - 1, v')
    ensures Partial(fields, items, cur, st', i, n)
  {
  }

  lemma ArrayBack(fields: seq<Field>, s: seq<Slot>, d: seq<Slot>, i: nat, st: State, rest: Bytes) returns (st': State)
    requires WfFields(fields) && WfSlots(fields, s) && FreshSlots(fields, d) && i < |fields|
    requires Progress(fields, s, d, st.slots, i) && StateOk(fields, st, i)
    requires FieldBytes(fields, s, i).Some? && |FieldBytes(fields, s, i).value| < TWO_32 && fields[i].htype.Repeated?
    ensures Progress(fields, s, d, st'.slots, i + 1) && StateOk(fields, st', i + 1)
    ensures ParseFields(fields, FieldBytes(fields, s, i).value + rest, st) == ParseFields(fields, rest, st')
    decreases fields, 2
  {
    var f := fields[i];
    assert WfField(f) && WfSlot(fields, i, s[i]) && FreshSlot(fields, i, d[i])
        && SlotProgress(fields, s, d, st.slots, i, i);
    var items := s[i].items;
    assert Partial(fields, items, st.slots, st, i, 0);
    if items == [] {
      assert [] + rest == rest;
      st' := st;
    } else if Packable(f.ltype) {
      st' := PackedFieldBack(fields, items, st.slots, i, st, rest);
    } else {
      st' := ItemsBack(fields, items, st.slots, i, st, |items|, rest);
    }
    ArrayDone(fields, s, d, i, st, st');
  }

  lemma ArrayDone(fields: seq<Field>, s: seq<Slot>, d: seq<Slot>, i: nat, st: State, st': State)
    requires WfFields(fields) && WfSlots(fields, s) && |d| == |fields| && i < |fields|
    requires Progress(fields, s, d, st.slots, i) && fields[i].htype.Repeated? && s[i].Many?
    requires Partial(fields, s[i].items, st.slots, st', i, |s[i].items|)
    ensures Progress(fields, s, d, st'.slots, i + 1) && StateOk(fields, st', i + 1)
  {
    assert WfSlot(fields, i, s[i]);
    ProgressMade(fields, s, d, st.slots, i, i, st'.slots[i]);
  }

  lemma PackedFieldBack(fields: seq<Field>, items: seq<Value>, cur: seq<Slot>, i: nat, st: State, rest: Bytes)
    returns (st': State)
    requires WfFields(fields) && i < |fields| == |cur| && fields[i].htype.Repeated? && Packable(fields[i].ltype)
    requires 0 < |items| <= fields[i].arraySize && (forall k :: 0 <= k < |items| ==> WfValue(fields[i], items[k]))
    requires Partial(fields, items, cur, st, i, 0)
    requires ArrayBytes(fields[i], items).Some? && |ArrayBytes(fields[i], items).value| < TWO_32
    ensures Partial(fields, items, cur, st', i, |items|)
    ensures ParseFields(fields, ArrayBytes(fields[i], items).value + rest, st) == ParseFields(fields, rest, st')
  {
    var f, n := fields[i], |items|;
    hide *;
    FieldIsWf(fields, i);
    PartialFacts(fields, items, cur, st, i, 0);
    var entered := EnterRepeated(fields, items, cur, st, i, 0);
    var packed := PackedAll(f, items, st.slots[i].items);
    st' := entered.(slots := entered.slots[i := Many(items)],
                    fixedSize := if f.htype.counted then entered.fixedSize else n);
    PackedWhole(fields, items, cur, st, entered, i, st');
    PackedFits(f, items, packed);
    DelimitedBack(packed, rest);
    ParsePackedField(fields, entered, i, StringBytes(packed) + rest, packed, items, rest);
    TagBack(fields, i, PB_WT_STRING, StringBytes(packed) + rest, st, entered);
    Regrouped(TagBytes(PB_WT_STRING, f.tag), StringBytes(packed), rest);
  }

  lemma PackedFits(f: Field, items: seq<Value>, packed: Bytes)
    requires items != [] && |items| <= f.arraySize && Packable(f.ltype)
    requires ItemsBytes(f, items, |items|, false) == Some(packed)
    requires |ArrayBytes(f, items).value| < TWO_32
    ensures ArrayBytes(f, items) == Some(TagBytes(PB_WT_STRING, f.tag) + StringBytes(packed)) && |packed| < TWO_32
  {
  }

  lemma PackedWhole(fields: seq<Field>, items: seq<Value>, cur: seq<Slot>, st: State, entered: State, i: nat,
                    st': State)
    requires i < |fields| == |cur| && fields[i].htype.Repeated? && Packable(fields[i].ltype) && items != []
    requires Partial(fields, items, cur, st, i, 0)
    requires entered.slots == st.slots && StateOk(fields, entered.(fixedField := None), i)
    requires if fields[i].htype.counted then StateOk(fields, entered, i) else entered.fixedField == Some(i)
    requires st' == entered.(slots := entered.slots[i := Many(items)],
        fixedSize := if fields[i].htype.counted then entered.fixedSize else |items|)
    ensures Partial(fields, items, cur, st', i, |items|)
    ensures if fields[i].htype.counted then st.slots[i].items == [] else |st.slots[i].items| == |items|
  {
  }

  // The whole of a packed array, over storage that holds none of it.
  lemma PackedAll(f: Field, items: seq<Value>, start: seq<Value>) returns (packed: Bytes)
    requires WfField(f) && Packable(f.ltype) && f.htype.Repeated? && |items| <= f.arraySize
    requires (forall k :: 0 <= k < |items| ==> WfValue(f, items[k])) && (start == [] || |start| == |items|)
    ensures ItemsBytes(f, items, |items|, false) == Some(packed)
    ensures ParsePacked(f, packed, start, 0) == Some((items, |items|, []))
  {
    var r := PackedBack(f, items, |items|, start, []);
    packed := ItemsBytes(f, items, |items|, false).value;
    assert packed + [] == packed;
    assert r[..|items|] == r && items[..|items|] == items;
  }

  lemma ParsePackedField(fields: seq<Field>, st: State, i: nat, b: Bytes, packed: Bytes, items: seq<Value>, rest: Bytes)
    requires i < |fields| == |st.slots| && fields[i].htype.Repeated? && Packable(fields[i].ltype) && st.slots[i].Many?
    requires Delimited(b) == Some((packed, rest))
    requires if fields[i].htype.counted then st.slots[i].items == [] else st.fixedSize == 0
    requires ParsePacked(fields[i], packed, st.slots[i].items, 0) == Some((items, |items|, []))
    ensures ParseField(fields, st, i, PB_WT_STRING, b)
         == Some((st.(slots := st.slots[i := Many(items)],
                      fixedSize := if fields[i].htype.counted then st.fixedSize else |items|), rest))
  {
    hide ParsePacked, Delimited;
  }

  lemma AllDone(fields: seq<Field>, s: seq<Slot>, d: seq<Slot>, cur: seq<Slot>)
    requires WfFields(fields) && WfSlots(fields, s) && FreshSlots(fields, d) && Progress(fields, s, d, cur, |fields|)
    ensures SameSlots(fields, cur, s)
  {
    forall k | 0 <= k < |fields| ensures SameSlot(fields, k, cur[k], s[k]) {
      assert SlotProgress(fields, s, d, cur, k, |fields|) && WfSlot(fields, k, s[k]) && FreshSlot(fields, k, d[k]);
      if fields[k].htype == OneOf(k) {
        if s[k].tag != 0 {
          var j :| SetTo(fields, k, s[k], j);
          assert Done(fields, s, k, |fields|);
        } else {
          TagsPositive(fields);
        }
      }
    }
  }

  // ----- the main results -----

  // A well-formed message always prints.
  lemma {:induction false} WellFormedPrints(fields: seq<Field>, s: seq<Slot>, n: nat)
    requires WfFields(fields) && WfSlots(fields, s) && n <= |fields|
    ensures MessageBytes(fields, s, n).Some?
    decreases fields, 1, n
  {
    if n > 0 {
      WellFormedPrints(fields, s, n - 1);
      FieldPrints(fields, s, n - 1);
    }
  }

  lemma {:induction false} FieldPrints(fields: seq<Field>, s: seq<Slot>, i: nat)
    requires WfFields(fields) && WfSlots(fields, s) && i < |fields|
    ensures FieldBytes(fields, s, i).Some?
    decreases fields, 0
  {
    var f := fields[i];
    assert WfField(f) && WfSlot(fields, i, s[i]);
    match f.htype
    case Required => ValuePrints(f, s[i].v);
    case Optional(hasFlag) =>
      if !hasFlag || s[i].has {
        ValuePrints(f, s[i].v);
      }
    case Repeated(_) =>
      forall k | 0 <= k < |s[i].items| ensures ValueBytes(f, s[i].items[k]).Some? {
        ValuePrints(f, s[i].items[k]);
      }
      ItemsPrint(f, s[i].items, |s[i].items|, !Packable(f.ltype));
    case OneOf(home) =>
      assert WfSlot(fields, home, s[home]);
      if s[home].tag == f.tag {
        ActiveMember(fields, s, i);
        ValuePrints(f, s[home].v);
      }
  }

  lemma {:induction false} ItemsPrint(f: Field, items: seq<Value>, n: nat, tagged: bool)
    requires n <= |items| && forall k :: 0 <= k < |items| ==> ValueBytes(f, items[k]).Some?
    ensures ItemsBytes(f, items, n, tagged).Some?
  {
    if n > 0 {
      ItemsPrint(f, items, n - 1, tagged);
    }
  }

  lemma {:induction false} ValuePrints(f: Field, v: Value)
    requires WfField(f) && WfValue(f, v)
    ensures ValueBytes(f, v).Some?
    decreases f, 0
  {
    if f.ltype.SubmessageType? {
      WellFormedPrints(f.ltype.fields, v.slots, |f.ltype.fields|);
    }
  }

  // Parsing what a message printed gives the message back, whatever the storage held before.
  lemma ParserUndoesPrinter(fields: seq<Field>, s: seq<Slot>, storage: seq<Slot>) returns (r: seq<Slot>)
    requires WfFields(fields) && WfSlots(fields, s) && ShapedSlots(fields, storage)
    requires MessageBytes(fields, s, |fields|).Some? ==> |MessageBytes(fields, s, |fields|).value| < TWO_32
    ensures MessageBytes(fields, s, |fields|).Some?
    ensures Parse(fields, MessageBytes(fields, s, |fields|).value, storage) == Some(r) && SameSlots(fields, r, s)
  {
    WellFormedPrints(fields, s, |fields|);
    DefaultsAreFresh(fields, storage);
    r := MessageBack(fields, s, Defaults(fields, storage, |storage|));
  }

  // ----- the same message prints the same bytes -----

  lemma {:induction false} SameNothing(fields: seq<Field>, a: seq<Slot>, b: seq<Slot>, i: nat)
    requires WfFields(fields) && SameSlots(fields, a, b) && i < |fields|
    ensures HoldsNothing(fields, a, i) <==> HoldsNothing(fields, b, i)
    decreases fields, 0
  {
    var f := fields[i];
    assert WfField(f) && SameSlot(fields, i, a[i], b[i]);
    if f.htype == Optional(false) {
      SameZero(f, a[i].v, b[i].v);
    } else if f.htype.OneOf? {
      assert SameSlot(fields, f.htype.home, a[f.htype.home], b[f.htype.home]);
    }
  }

  lemma {:induction false} SameZero(f: Field, v: Value, w: Value)
    requires WfField(f) && SameValue(f, v, w)
    ensures ZeroData(f, v) <==> ZeroData(f, w)
    decreases f, 0
  {
    if f.ltype.SubmessageType? {
      var fields := f.ltype.fields;
      NothingUpToIs(fields, v.slots, |fields|);
      NothingUpToIs(fields, w.slots, |fields|);
      forall i | 0 <= i < |fields| ensures HoldsNothing(fields, v.slots, i) <==> HoldsNothing(fields, w.slots, i) {
        SameNothing(fields, v.slots, w.slots, i);
      }
    }
  }

  lemma {:induction false} SamePrints(fields: seq<Field>, a: seq<Slot>, b: seq<Slot>, n: nat)
    requires WfFields(fields) && SameSlots(fields, a, b) && n <= |fields|
    ensures MessageBytes(fields, a, n) == MessageBytes(fields, b, n)
    decreases fields, 1, n
  {
    if n > 0 {
      SamePrints(fields, a, b, n - 1);
      SameFieldPrints(fields, a, b, n - 1);
    }
  }

  lemma {:induction false} SameFieldPrints(fields: seq<Field>, a: seq<Slot>, b: seq<Slot>, i: nat)
    requires WfFields(fields) && SameSlots(fields, a, b) && i < |fields|
    ensures FieldBytes(fields, a, i) == FieldBytes(fields, b, i)
    decreases fields, 0
  {
    var f := fields[i];
    assert WfField(f) && SameSlot(fields, i, a[i], b[i]);
    match f.htype
    case Required => SameValuePrints(f, a[i].v, b[i].v);
    case Optional(hasFlag) =>
      if !hasFlag {
        SameZero(f, a[i].v, b[i].v);
        SameValuePrints(f, a[i].v, b[i].v);
      } else if a[i].has {
        SameValuePrints(f, a[i].v, b[i].v);
      }
    case Repeated(_) =>
      forall k | 0 <= k < |a[i].items| ensures ValueBytes(f, a[i].items[k]) == ValueBytes(f, b[i].items[k]) {
        SameValuePrints(f, a[i].items[k], b[i].items[k]);
      }
      SameItemsPrint(f, a[i].items, b[i].items, |a[i].items|, !Packable(f.ltype));
    case OneOf(home) =>
      assert SameSlot(fields, home, a[home], b[home]);
      if a[home].tag == f.tag {
        SameValuePrints(f, a[home].v, b[home].v);
      }
  }

  lemma {:induction false} SameItemsPrint(f: Field, a: seq<Value>, b: seq<Value>, n: nat, tagged: bool)
    requires n <= |a| == |b| && forall k :: 0 <= k < |a| ==> ValueBytes(f, a[k]) == ValueBytes(f, b[k])
    ensures ItemsBytes(f, a, n, tagged) == ItemsBytes(f, b, n, tagged)
  {
    if n > 0 {
      SameItemsPrint(f, a, b, n - 1, tagged);
    }
  }

  lemma {:induction false} SameValuePrints(f: Field, v: Value, w: Value)
    requires WfField(f) && SameValue(f, v, w)
    ensures ValueBytes(f, v) == ValueBytes(f, w)
    decreases f, 0
  {
    if f.ltype.SubmessageType? {
      SamePrints(f.ltype.fields, v.slots, w.slots, |f.ltype.fields|);
    }
  }
}

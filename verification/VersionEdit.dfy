/** The manifest's records: a version edit as bytes (db/version_edit.h, db/version_edit.cc). */
module VersionEdits {
  import opened Wrappers
  import opened Coding
  import opened Versions

  datatype FileMeta = FileMeta(number: nat, fileSize: nat, smallest: Bytes, largest: Bytes)

  // The members of a VersionEdit; `deletedFiles` lists a std::set in its order.
  datatype EditRecord = EditRecord(
    comparator: Option<Bytes>, logNumber: Option<nat>, prevLogNumber: Option<nat>, nextFileNumber: Option<nat>,
    lastSequence: Option<nat>,
    compactPointers: seq<(nat, Bytes)>, deletedFiles: seq<(nat, nat)>, newFiles: seq<(nat, FileMeta)>)

  const EMPTY_EDIT := EditRecord(None, None, None, None, None, [], [], [])

  // ----- one tagged field -----

  datatype Field =
    | Comparator(name: Bytes) | LogNumber(n: nat) | PrevLogNumber(n: nat) | NextFileNumber(n: nat)
    | LastSequence(n: nat)
    | CompactPointer(level: nat, key: Bytes) | DeletedFile(level: nat, n: nat) | NewFile(level: nat, file: FileMeta)

  function Tag(f: Field): nat {
    match f
    case Comparator(_) => 1
    case LogNumber(_) => 2
    case NextFileNumber(_) => 3
    case LastSequence(_) => 4
    case CompactPointer(_, _) => 5
    case DeletedFile(_, _) => 6
    case NewFile(_, _) => 7
    case PrevLogNumber(_) => 9
  }

  function FileBytes(f: FileMeta): Bytes {
    Varint(f.number) + (Varint(f.fileSize) + (LengthPrefixed(f.smallest) + LengthPrefixed(f.largest)))
  }

  function Payload(f: Field): Bytes {
    match f
    case Comparator(name) => LengthPrefixed(name)
    case CompactPointer(level, key) => Varint(level) + LengthPrefixed(key)
    case DeletedFile(level, n) => Varint(level) + Varint(n)
    case NewFile(level, file) => Varint(level) + FileBytes(file)
    case LogNumber(n) => Varint(n)
    case PrevLogNumber(n) => Varint(n)
    case NextFileNumber(n) => Varint(n)
    case LastSequence(n) => Varint(n)
  }

  function FieldBytes(f: Field): Bytes {
    Varint(Tag(f)) + Payload(f)
  }

  // ----- parsing -----

  function TakeLevel(b: Bytes): (r: Option<(nat, Bytes)>)
    ensures r.Some? ==> |r.value.1| < |b| && r.value.0 < NUM_LEVELS
  {
    match TakeVarint32(b)
    case None => None
    case Some(p) => if p.0 < NUM_LEVELS then Some(p) else None
  }

  function TakeFile(b: Bytes): Option<(FileMeta, Bytes)> {
    match TakeVarint64(b)
    case None => None
    case Some(number) =>
      match TakeVarint64(number.1)
      case None => None
      case Some(size) =>
        match ParseLengthPrefixed(size.1)
        case None => None
        case Some(smallest) =>
          match ParseLengthPrefixed(smallest.1)
          case None => None
          case Some(largest) => Some((FileMeta(number.0, size.0, smallest.0, largest.0), largest.1))
  }

  function ParsePayload(tag: nat, b: Bytes): Option<(Field, Bytes)> {
    if tag == 1 then
      match ParseLengthPrefixed(b) { case None => None case Some(p) => Some((Comparator(p.0), p.1)) }
    else if tag == 2 then
      match TakeVarint64(b) { case None => None case Some(p) => Some((LogNumber(p.0), p.1)) }
    else if tag == 9 then
      match TakeVarint64(b) { case None => None case Some(p) => Some((PrevLogNumber(p.0), p.1)) }
    else if tag == 3 then
      match TakeVarint64(b) { case None => None case Some(p) => Some((NextFileNumber(p.0), p.1)) }
    else if tag == 4 then
      match TakeVarint64(b) { case None => None case Some(p) => Some((LastSequence(p.0), p.1)) }
    else if tag == 5 then
      match TakeLevel(b) {
        case None => None
        case Some(l) => match ParseLengthPrefixed(l.1) { case None => None
                        case Some(p) => Some((CompactPointer(l.0, p.0), p.1)) }
      }
    else if tag == 6 then
      match TakeLevel(b) {
        case None => None
        case Some(l) => match TakeVarint64(l.1) { case None => None case Some(p) => Some((DeletedFile(l.0, p.0), p.1)) }
      }
    else if tag == 7 then
      match TakeLevel(b) {
        case None => None
        case Some(l) => match TakeFile(l.1) { case None => None case Some(p) => Some((NewFile(l.0, p.0), p.1)) }
      }
    else None
  }

  function ParseField(b: Bytes): (r: Option<(Field, Bytes)>)
    ensures r.Some? ==> |r.value.1| < |b|
  {
    match TakeVarint32(b)
    case None => None
    case Some(p) => PayloadShrinks(p.0, p.1); ParsePayload(p.0, p.1)
  }

  lemma LengthPrefixedShrinks(b: Bytes)
    ensures ParseLengthPrefixed(b).Some? ==> |ParseLengthPrefixed(b).value.1| <= |b|
  {
  }

  lemma FileShrinks(b: Bytes)
    ensures TakeFile(b).Some? ==> |TakeFile(b).value.1| <= |b|
  {
    if TakeFile(b).Some? {
      var rest := TakeVarint64(TakeVarint64(b).value.1).value.1;
      LengthPrefixedShrinks(rest);
      LengthPrefixedShrinks(ParseLengthPrefixed(rest).value.1);
    }
  }

  lemma PayloadShrinks(tag: nat, b: Bytes)
    ensures ParsePayload(tag, b).Some? ==> |ParsePayload(tag, b).value.1| <= |b|
  {
    hide TakeVarint64, TakeLevel, TakeFile, ParseLengthPrefixed;
    LengthPrefixedShrinks(b);
    if TakeLevel(b).Some? {
      LengthPrefixedShrinks(TakeLevel(b).value.1);
      FileShrinks(TakeLevel(b).value.1);
    }
  }

  // ----- collecting fields -----

  predicate PairLess(a: (nat, nat), b: (nat, nat)) {
    a.0 < b.0 || (a.0 == b.0 && a.1 < b.1)
  }

  ghost predicate PairsAscend(s: seq<(nat, nat)>) {
    forall i, j :: 0 <= i < j < |s| ==> PairLess(s[i], s[j])
  }

  // Insertion into std::set<std::pair<int, uint64_t>>.
  function PairInsert(s: seq<(nat, nat)>, p: (nat, nat)): seq<(nat, nat)> {
    if s == [] || PairLess(p, s[0]) then [p] + s
    else if p == s[0] then s
    else [s[0]] + PairInsert(s[1..], p)
  }

  lemma {:induction false} PairInsertSpec(s: seq<(nat, nat)>, p: (nat, nat))
    requires PairsAscend(s)
    ensures PairsAscend(PairInsert(s, p))
    ensures forall q :: q in PairInsert(s, p) <==> q in s || q == p
    ensures (forall q :: q in s ==> PairLess(q, p)) ==> PairInsert(s, p) == s + [p]
  {
    if s != [] && !PairLess(p, s[0]) && p != s[0] {
      var rest := PairInsert(s[1..], p);
      PairInsertSpec(s[1..], p);
      assert s == [s[0]] + s[1..];
      forall j | 0 <= j < |rest| ensures PairLess(s[0], rest[j]) {
        assert rest[j] in rest;
      }
    } else if s != [] {
      assert s[0] in s;
    }
  }

  // One turn of DecodeFrom's switch.
  function Absorb(e: EditRecord, f: Field): EditRecord {
    match f
    case Comparator(name) => e.(comparator := Some(name))
    case LogNumber(n) => e.(logNumber := Some(n))
    case PrevLogNumber(n) => e.(prevLogNumber := Some(n))
    case NextFileNumber(n) => e.(nextFileNumber := Some(n))
    case LastSequence(n) => e.(lastSequence := Some(n))
    case CompactPointer(level, key) => e.(compactPointers := e.compactPointers + [(level, key)])
    case DeletedFile(level, n) => e.(deletedFiles := PairInsert(e.deletedFiles, (level, n)))
    case NewFile(level, file) => e.(newFiles := e.newFiles + [(level, file)])
  }

  // The edit as collected when the input ends or a field fails to parse, and which it was.
  function Decoded(e: EditRecord, b: Bytes): (EditRecord, bool)
    decreases |b|
  {
    if b == [] then (e, true)
    else match ParseField(b)
         case None => (e, false)
         case Some(p) => Decoded(Absorb(e, p.0), p.1)
  }

  // ----- the order of EncodeTo -----

  function If(has: bool, f: Field): seq<Field> {
    if has then [f] else []
  }

  function OrZero(n: Option<nat>): nat {
    if n.Some? then n.value else 0
  }

  function Header(e: EditRecord): seq<Field> {
    (if e.comparator.Some? then [Comparator(e.comparator.value)] else [])
    + If(e.logNumber.Some?, LogNumber(OrZero(e.logNumber)))
        + If(e.prevLogNumber.Some?, PrevLogNumber(OrZero(e.prevLogNumber)))
    + If(e.nextFileNumber.Some?, NextFileNumber(OrZero(e.nextFileNumber)))
        + If(e.lastSequence.Some?, LastSequence(OrZero(e.lastSequence)))
  }

  function PointerFields(s: seq<(nat, Bytes)>): (r: seq<Field>)
    ensures |r| == |s|
  {
    seq(|s|, i requires 0 <= i < |s| => CompactPointer(s[i].0, s[i].1))
  }

  function DeletedFields(s: seq<(nat, nat)>): (r: seq<Field>)
    ensures |r| == |s|
  {
    seq(|s|, i requires 0 <= i < |s| => DeletedFile(s[i].0, s[i].1))
  }

  function NewFields(s: seq<(nat, FileMeta)>): (r: seq<Field>)
    ensures |r| == |s|
  {
    seq(|s|, i requires 0 <= i < |s| => NewFile(s[i].0, s[i].1))
  }

  function Fields(e: EditRecord): seq<Field> {
    Header(e) + PointerFields(e.compactPointers) + DeletedFields(e.deletedFiles) + NewFields(e.newFiles)
  }

  function Joined(fs: seq<Field>): Bytes {
    if fs == [] then [] else Joined(fs[..|fs| - 1]) + FieldBytes(fs[|fs| - 1])
  }

  function Encoded(e: EditRecord): Bytes {
    Joined(Fields(e))
  }

  // What the fields' C++ types hold: levels of the tree, 64-bit numbers, 32-bit lengths.
  predicate FileFits(f: FileMeta) {
    f.number < TWO_64 && f.fileSize < TWO_64 && |f.smallest| < TWO_32 && |f.largest| < TWO_32
  }

  predicate FieldFits(f: Field) {
    match f
    case Comparator(name) => |name| < TWO_32
    case CompactPointer(level, key) => level < NUM_LEVELS && |key| < TWO_32
    case DeletedFile(level, n) => level < NUM_LEVELS && n < TWO_64
    case NewFile(level, file) => level < NUM_LEVELS && FileFits(file)
    case LogNumber(n) => n < TWO_64
    case PrevLogNumber(n) => n < TWO_64
    case NextFileNumber(n) => n < TWO_64
    case LastSequence(n) => n < TWO_64
  }

  ghost predicate Fits(e: EditRecord) {
    && (e.comparator.Some? ==> |e.comparator.value| < TWO_32)
    && OrZero(e.logNumber) < TWO_64 && OrZero(e.prevLogNumber) < TWO_64
    && OrZero(e.nextFileNumber) < TWO_64 && OrZero(e.lastSequence) < TWO_64
    && (forall p :: p in e.compactPointers ==> p.0 < NUM_LEVELS && |p.1| < TWO_32)
    && (forall d :: d in e.deletedFiles ==> d.0 < NUM_LEVELS && d.1 < TWO_64)
    && (forall n :: n in e.newFiles ==> n.0 < NUM_LEVELS && FileFits(n.1))
    && PairsAscend(e.deletedFiles)
  }

  ghost predicate AllFit(fs: seq<Field>) {
    forall f :: f in fs ==> FieldFits(f)
  }

  lemma FieldsFit(e: EditRecord)
    requires Fits(e)
    ensures AllFit(Fields(e))
  {
    assert AllFit(Header(e));
    forall i | 0 <= i < |e.compactPointers| ensures FieldFits(PointerFields(e.compactPointers)[i]) {
      assert e.compactPointers[i] in e.compactPointers;
    }
    forall i | 0 <= i < |e.deletedFiles| ensures FieldFits(DeletedFields(e.deletedFiles)[i]) {
      assert e.deletedFiles[i] in e.deletedFiles;
    }
    forall i | 0 <= i < |e.newFiles| ensures FieldFits(NewFields(e.newFiles)[i]) {
      assert e.newFiles[i] in e.newFiles;
    }
    hide Header, PointerFields, DeletedFields, NewFields, FieldFits;
    assert AllFit(PointerFields(e.compactPointers)) && AllFit(DeletedFields(e.deletedFiles))
        && AllFit(NewFields(e.newFiles));
  }

  // ----- one field survives the trip -----

  lemma TakeLevelEncoded(v: nat, rest: Bytes)
    requires v < NUM_LEVELS
    ensures TakeLevel(Varint(v) + rest) == Some((v, rest))
  {
    TakeVarint32Encoded(v, rest);
  }

  lemma TakeFileEncoded(f: FileMeta, rest: Bytes)
    requires FileFits(f)
    ensures TakeFile(FileBytes(f) + rest) == Some((f, rest))
  {
    hide TakeVarint64, ParseLengthPrefixed, LengthPrefixed, Varint;
    var r4 := rest;
    var r3 := LengthPrefixed(f.largest) + r4;
    var r2 := LengthPrefixed(f.smallest) + r3;
    var r1 := Varint(f.fileSize) + r2;
    assert FileBytes(f) + rest == Varint(f.number) + r1;
    TakeVarint64Encoded(f.number, r1);
    TakeVarint64Encoded(f.fileSize, r2);
    LengthPrefixedRoundTrip(f.smallest, r3);
    LengthPrefixedRoundTrip(f.largest, r4);
  }

  lemma FieldRoundTrip(f: Field, rest: Bytes)
    requires FieldFits(f)
    ensures ParseField(FieldBytes(f) + rest) == Some((f, rest))
  {
    hide TakeVarint32, TakeVarint64, TakeLevel, TakeFile, ParseLengthPrefixed, LengthPrefixed, Varint, FileBytes;
    var after := Payload(f) + rest;
    assert FieldBytes(f) + rest == Varint(Tag(f)) + after;
    TakeVarint32Encoded(Tag(f), after);
    match f
    case Comparator(name) => LengthPrefixedRoundTrip(name, rest);
    case CompactPointer(level, key) =>
      assert after == Varint(level) + (LengthPrefixed(key) + rest);
      TakeLevelEncoded(level, LengthPrefixed(key) + rest);
      LengthPrefixedRoundTrip(key, rest);
    case DeletedFile(level, n) =>
      assert after == Varint(level) + (Varint(n) + rest);
      TakeLevelEncoded(level, Varint(n) + rest);
      TakeVarint64Encoded(n, rest);
    case NewFile(level, file) =>
      assert after == Varint(level) + (FileBytes(file) + rest);
      TakeLevelEncoded(level, FileBytes(file) + rest);
      TakeFileEncoded(file, rest);
    case LogNumber(n) => TakeVarint64Encoded(n, rest);
    case PrevLogNumber(n) => TakeVarint64Encoded(n, rest);
    case NextFileNumber(n) => TakeVarint64Encoded(n, rest);
    case LastSequence(n) => TakeVarint64Encoded(n, rest);
  }

  // ----- and so does an edit -----

  function AbsorbAll(e: EditRecord, fs: seq<Field>): EditRecord {
    if fs == [] then e else Absorb(AbsorbAll(e, fs[..|fs| - 1]), fs[|fs| - 1])
  }

  lemma {:induction false} DecodedJoined(e: EditRecord, fs: seq<Field>, rest: Bytes)
    requires AllFit(fs)
    ensures Decoded(e, Joined(fs) + rest) == Decoded(AbsorbAll(e, fs), rest)
  {
    if fs == [] {
      assert Joined(fs) + rest == rest;
    } else {
      var front, f := fs[..|fs| - 1], fs[|fs| - 1];
      assert f in fs && forall g :: g in front ==> g in fs;
      DecodedJoined(e, front, FieldBytes(f) + rest);
      assert Joined(fs) + rest == Joined(front) + (FieldBytes(f) + rest);
      FieldRoundTrip(f, rest);
      assert |FieldBytes(f)| > 0;
    }
  }

  lemma {:induction false} AbsorbAllJoins(e: EditRecord, fs: seq<Field>, gs: seq<Field>)
    ensures AbsorbAll(e, fs + gs) == AbsorbAll(AbsorbAll(e, fs), gs)
  {
    if gs == [] {
      assert fs + gs == fs;
    } else {
      AbsorbAllJoins(e, fs, gs[..|gs| - 1]);
      assert (fs + gs)[..|fs + gs| - 1] == fs + gs[..|gs| - 1];
    }
  }

  lemma AbsorbHeader(e: EditRecord)
    ensures AbsorbAll(EMPTY_EDIT, Header(e)) == e.(compactPointers := [], deletedFiles := [], newFiles := [])
  {
    var s0: seq<Field> := if e.comparator.Some? then [Comparator(e.comparator.value)] else [];
    var f1, f2 := LogNumber(OrZero(e.logNumber)), PrevLogNumber(OrZero(e.prevLogNumber));
    var f3, f4 := NextFileNumber(OrZero(e.nextFileNumber)), LastSequence(OrZero(e.lastSequence));
    var s1 := s0 + If(e.logNumber.Some?, f1);
    var s2 := s1 + If(e.prevLogNumber.Some?, f2);
    var s3 := s2 + If(e.nextFileNumber.Some?, f3);
    AbsorbOne(EMPTY_EDIT, s0, e.logNumber.Some?, f1);
    AbsorbOne(EMPTY_EDIT, s1, e.prevLogNumber.Some?, f2);
    AbsorbOne(EMPTY_EDIT, s2, e.nextFileNumber.Some?, f3);
    AbsorbOne(EMPTY_EDIT, s3, e.lastSequence.Some?, f4);
    if e.comparator.Some? {
      assert s0[..0] == [];
    }
  }

  lemma AbsorbOne(e: EditRecord, fs: seq<Field>, has: bool, f: Field)
    ensures AbsorbAll(e, fs + If(has, f)) == if has then Absorb(AbsorbAll(e, fs), f) else AbsorbAll(e, fs)
  {
    if has {
      assert (fs + [f])[..|fs|] == fs;
    } else {
      assert fs + [] == fs;
    }
  }

  lemma {:induction false} AbsorbPointers(e: EditRecord, s: seq<(nat, Bytes)>)
    ensures AbsorbAll(e, PointerFields(s)) == e.(compactPointers := e.compactPointers + s)
  {
    if s == [] {
      assert e.compactPointers + s == e.compactPointers;
    } else {
      var front := s[..|s| - 1];
      AbsorbPointers(e, front);
      assert PointerFields(s)[..|s| - 1] == PointerFields(front);
      assert e.compactPointers + s == e.compactPointers + front + [s[|s| - 1]];
    }
  }

  lemma {:induction false} AbsorbNew(e: EditRecord, s: seq<(nat, FileMeta)>)
    ensures AbsorbAll(e, NewFields(s)) == e.(newFiles := e.newFiles + s)
  {
    if s == [] {
      assert e.newFiles + s == e.newFiles;
    } else {
      var front := s[..|s| - 1];
      AbsorbNew(e, front);
      assert NewFields(s)[..|s| - 1] == NewFields(front);
      assert e.newFiles + s == e.newFiles + front + [s[|s| - 1]];
    }
  }

  lemma {:induction false} AbsorbDeleted(e: EditRecord, s: seq<(nat, nat)>)
    requires PairsAscend(s) && e.deletedFiles == []
    ensures AbsorbAll(e, DeletedFields(s)) == e.(deletedFiles := s)
  {
    if s != [] {
      var front, p := s[..|s| - 1], s[|s| - 1];
      AbsorbDeleted(e, front);
      assert DeletedFields(s)[..|s| - 1] == DeletedFields(front);
      PairInsertSpec(front, p);
      assert s == front + [p];
      assert DeletedFields(s)[|s| - 1] == DeletedFile(p.0, p.1);
      assert (p.0, p.1) == p;
    }
  }

  // DecodeFrom inverts EncodeTo.
  lemma EditRoundTrip(e: EditRecord)
    requires Fits(e)
    ensures Decoded(EMPTY_EDIT, Encoded(e)) == (e, true)
  {
    FieldsFit(e);
    hide Header, PointerFields, DeletedFields, NewFields, Joined, Absorb;
    var h, p, d, n := Header(e), PointerFields(e.compactPointers), DeletedFields(e.deletedFiles), NewFields(e.newFiles);
    DecodedJoined(EMPTY_EDIT, Fields(e), []);
    assert Encoded(e) + [] == Encoded(e);
    AbsorbAllJoins(EMPTY_EDIT, h + p + d, n);
    AbsorbAllJoins(EMPTY_EDIT, h + p, d);
    AbsorbAllJoins(EMPTY_EDIT, h, p);
    AbsorbHeader(e);
    var afterHeader := AbsorbAll(EMPTY_EDIT, h);
    AbsorbPointers(afterHeader, e.compactPointers);
    assert [] + e.compactPointers == e.compactPointers;
    var afterPointers := AbsorbAll(afterHeader, p);
    AbsorbDeleted(afterPointers, e.deletedFiles);
    AbsorbNew(AbsorbAll(afterPointers, d), e.newFiles);
    assert [] + e.newFiles == e.newFiles;
  }

  // ----- whatever decodes is an edit the builder can apply -----

  lemma ParsedFits(b: Bytes)
    requires ParseField(b).Some?
    ensures FieldFits(ParseField(b).value.0)
  {
    hide ParseVarint;
  }

  lemma AbsorbFits(e: EditRecord, f: Field)
    requires Fits(e) && FieldFits(f)
    ensures Fits(Absorb(e, f))
  {
    if f.DeletedFile? {
      PairInsertSpec(e.deletedFiles, (f.level, f.n));
    }
  }

  // Levels are levels of the tree and numbers are in range, decoded in full or not.
  lemma {:induction false} DecodedFits(e: EditRecord, b: Bytes)
    requires Fits(e)
    ensures Fits(Decoded(e, b).0)
    decreases |b|
  {
    if b != [] && ParseField(b).Some? {
      ParsedFits(b);
      AbsorbFits(e, ParseField(b).value.0);
      DecodedFits(Absorb(e, ParseField(b).value.0), ParseField(b).value.1);
    }
  }

  // Bytes that decode at all mean the same edit as its canonical encoding.
  lemma ReencodingIsFaithful(b: Bytes)
    requires Decoded(EMPTY_EDIT, b).1
    ensures Decoded(EMPTY_EDIT, Encoded(Decoded(EMPTY_EDIT, b).0)) == Decoded(EMPTY_EDIT, b)
  {
    DecodedFits(EMPTY_EDIT, b);
    EditRoundTrip(Decoded(EMPTY_EDIT, b).0);
  }

  // ----- the class -----

  method PutField(dst: Bytes, f: Field) returns (r: Bytes)
    ensures r == dst + FieldBytes(f)
  {
    hide Varint;
    var tag := EncodeVarint(Tag(f));
    var payload: Bytes;
    match f {
      case Comparator(name) => payload := PutSlice(name);
      case CompactPointer(level, key) =>
        var l := EncodeVarint(level);
        var k := PutSlice(key);
        payload := l + k;
      case DeletedFile(level, n) =>
        var l := EncodeVarint(level);
        var number := EncodeVarint(n);
        payload := l + number;
      case NewFile(level, file) =>
        var l := EncodeVarint(level);
        var number := EncodeVarint(file.number);
        var size := EncodeVarint(file.fileSize);
        var smallest := PutSlice(file.smallest);
        var largest := PutSlice(file.largest);
        payload := l + (number + (size + (smallest + largest)));
      case LogNumber(n) => payload := EncodeVarint(n);
      case PrevLogNumber(n) => payload := EncodeVarint(n);
      case NextFileNumber(n) => payload := EncodeVarint(n);
      case LastSequence(n) => payload := EncodeVarint(n);
    }
    r := dst + (tag + payload);
  }

  // PutLengthPrefixedSlice.
  method PutSlice(s: Bytes) returns (r: Bytes)
    ensures r == LengthPrefixed(s)
  {
    var len := EncodeVarint(|s|);
    r := len + s;
  }

  method GetLevel(b: Bytes) returns (r: Option<(nat, Bytes)>)
    ensures r == TakeLevel(b)
  {
    r := GetVarint(b, 5, TWO_32);
    if r.Some? && r.value.0 >= NUM_LEVELS {
      r := None;
    }
  }

  // The switch of DecodeFrom.
  method GetPayload(tag: nat, b: Bytes) returns (r: Option<(Field, Bytes)>)
    ensures r == ParsePayload(tag, b)
  {
    hide ParseVarint, ParseLengthPrefixed;
    if tag == 1 {
      var s := GetLengthPrefixedSlice(b);
      return if s.Some? then Some((Comparator(s.value.0), s.value.1)) else None;
    } else if tag == 2 || tag == 9 || tag == 3 || tag == 4 {
      var n := GetVarint(b, 10, TWO_64);
      if n.None? {
        return None;
      }
      var v := n.value.0;
      var f := if tag == 2 then LogNumber(v) else if tag == 9 then PrevLogNumber(v)
                                                  else if tag == 3 then NextFileNumber(v) else LastSequence(v);
      return Some((f, n.value.1));
    } else if tag == 5 || tag == 6 || tag == 7 {
      var level := GetLevel(b);
      if level.None? {
        return None;
      }
      if tag == 5 {
        var key := GetLengthPrefixedSlice(level.value.1);
        return if key.Some? then Some((CompactPointer(level.value.0, key.value.0), key.value.1)) else None;
      }
      var number := GetVarint(level.value.1, 10, TWO_64);
      if number.None? {
        return None;
      }
      if tag == 6 {
        return Some((DeletedFile(level.value.0, number.value.0), number.value.1));
      }
      var size := GetVarint(number.value.1, 10, TWO_64);
      if size.None? {
        return None;
      }
      var smallest := GetLengthPrefixedSlice(size.value.1);
      if smallest.None? {
        return None;
      }
      var largest := GetLengthPrefixedSlice(smallest.value.1);
      if largest.None? {
        return None;
      }
      return Some((NewFile(level.value.0, FileMeta(number.value.0, size.value.0, smallest.value.0, largest.value.0)),
          largest.value.1));
    }
    return None;
  }

  lemma JoinedSnoc(fs: seq<Field>, f: Field)
    ensures Joined(fs + [f]) == Joined(fs) + FieldBytes(f)
  {
    assert (fs + [f])[..|fs|] == fs;
  }

  method PutNext(dst: Bytes, f: Field, ghost done: seq<Field>, ghost start: Bytes) returns (r: Bytes)
    requires dst == start + Joined(done)
    ensures r == start + Joined(done + [f])
  {
    r := PutField(dst, f);
    JoinedSnoc(done, f);
  }

  method PutIf(dst: Bytes, has: bool, f: Field, ghost done: seq<Field>, ghost start: Bytes) returns (r: Bytes)
    requires dst == start + Joined(done)
    ensures r == start + Joined(done + If(has, f))
  {
    if has {
      r := PutNext(dst, f, done, start);
    } else {
      assert done + [] == done;
      r := dst;
    }
  }

  lemma NothingJoined(dst: Bytes)
    ensures dst + Joined([]) == dst
  {
  }

  class VersionEdit {
    var comparator: Option<Bytes>
    var logNumber: Option<nat>
    var prevLogNumber: Option<nat>
    var nextFileNumber: Option<nat>
    var lastSequence: Option<nat>
    var compactPointers: seq<(nat, Bytes)>
    var deletedFiles: seq<(nat, nat)>
    var newFiles: seq<(nat, FileMeta)>

    function View(): EditRecord
      reads this
    {
      EditRecord(comparator, logNumber, prevLogNumber, nextFileNumber, lastSequence, compactPointers, deletedFiles,
          newFiles)
    }

    constructor ()
      ensures View() == EMPTY_EDIT
    {
      comparator, logNumber, prevLogNumber, nextFileNumber, lastSequence := None, None, None, None, None;
      compactPointers, deletedFiles, newFiles := [], [], [];
    }

    // Everything but the compaction pointers, which Clear forgets to clear.
    method Clear()
      modifies this
      ensures View() == EMPTY_EDIT.(compactPointers := old(compactPointers))
    {
      comparator, logNumber, prevLogNumber, nextFileNumber, lastSequence := None, None, None, None, None;
      deletedFiles, newFiles := [], [];
    }

    // DeleteFile, into the set.
    method DeleteFile(level: nat, file: nat)
      requires PairsAscend(deletedFiles)
      modifies this`deletedFiles
      ensures PairsAscend(deletedFiles) && forall d :: d in deletedFiles <==>
          d in old(deletedFiles) || d == (level, file)
    {
      PairInsertSpec(deletedFiles, (level, file));
      deletedFiles := PairInsert(deletedFiles, (level, file));
    }

    method EncodeHeader(dst: Bytes) returns (r: Bytes)
      ensures r == dst + Joined(Header(View()))
    {
      hide If, Joined;
      ghost var done: seq<Field> := if comparator.Some? then [Comparator(comparator.value)] else [];
      NothingJoined(dst);
      r := dst;
      if comparator.Some? {
        r := PutNext(r, Comparator(comparator.value), [], dst);
        assert [] + [Comparator(comparator.value)] == done;
      }
      r := PutIf(r, logNumber.Some?, LogNumber(OrZero(logNumber)), done, dst);
      done := done + If(logNumber.Some?, LogNumber(OrZero(logNumber)));
      r := PutIf(r, prevLogNumber.Some?, PrevLogNumber(OrZero(prevLogNumber)), done, dst);
      done := done + If(prevLogNumber.Some?, PrevLogNumber(OrZero(prevLogNumber)));
      r := PutIf(r, nextFileNumber.Some?, NextFileNumber(OrZero(nextFileNumber)), done, dst);
      done := done + If(nextFileNumber.Some?, NextFileNumber(OrZero(nextFileNumber)));
      r := PutIf(r, lastSequence.Some?, LastSequence(OrZero(lastSequence)), done, dst);
      done := done + If(lastSequence.Some?, LastSequence(OrZero(lastSequence)));
    }

    method EncodeTo(dst: Bytes) returns (r: Bytes)
      ensures r == dst + Encoded(View())
    {
      hide Joined, Header, PointerFields, DeletedFields, NewFields;
      r := EncodeHeader(dst);
      ghost var done := Header(View());
      ghost var before := done;
      ghost var p := PointerFields(compactPointers);
      for i := 0 to |compactPointers|
        invariant done == before + p[..i] && r == dst + Joined(done)
      {
        NextPointer(compactPointers, before, i);
        r := PutNext(r, CompactPointer(compactPointers[i].0, compactPointers[i].1), done, dst);
        done := done + [p[i]];
      }
      before := done;
      ghost var d := DeletedFields(deletedFiles);
      for i := 0 to |deletedFiles|
        invariant done == before + d[..i] && r == dst + Joined(done)
      {
        NextDeleted(deletedFiles, before, i);
        r := PutNext(r, DeletedFile(deletedFiles[i].0, deletedFiles[i].1), done, dst);
        done := done + [d[i]];
      }
      before := done;
      ghost var n := NewFields(newFiles);
      for i := 0 to |newFiles|
        invariant done == before + n[..i] && r == dst + Joined(done)
      {
        NextNew(newFiles, before, i);
        r := PutNext(r, NewFile(newFiles[i].0, newFiles[i].1), done, dst);
        done := done + [n[i]];
      }
      assert p[..|p|] == p && d[..|d|] == d && n[..|n|] == n;
    }

    method Set(f: Field)
      modifies this
      ensures View() == Absorb(old(View()), f)
    {
      match f {
        case Comparator(name) => comparator := Some(name);
        case LogNumber(n) => logNumber := Some(n);
        case PrevLogNumber(n) => prevLogNumber := Some(n);
        case NextFileNumber(n) => nextFileNumber := Some(n);
        case LastSequence(n) => lastSequence := Some(n);
        case CompactPointer(level, key) => compactPointers := compactPointers + [(level, key)];
        case DeletedFile(level, n) => deletedFiles := PairInsert(deletedFiles, (level, n));
        case NewFile(level, file) => newFiles := newFiles + [(level, file)];
      }
    }

    // On an error the members keep what was decoded before it.
    method DecodeFrom(src: Bytes) returns (ok: bool)
      modifies this
      ensures (View(), ok) == Decoded(EMPTY_EDIT.(compactPointers := old(compactPointers)), src)
    {
      Clear();
      hide ParsePayload, TakeVarint32, Absorb;
      var input, bad := src, false;
      while !bad && input != []
        invariant Decoded(EMPTY_EDIT.(compactPointers := old(compactPointers)), src) ==
                    if bad then (View(), false) else Decoded(View(), input)
        decreases !bad, |input|
      {
        var tag := GetVarint(input, 5, TWO_32);
        TagTaken(input, tag);
        if tag.None? {
          bad := true;
        } else {
          PayloadShrinks(tag.value.0, tag.value.1);
          var f := GetPayload(tag.value.0, tag.value.1);
          if f.None? {
            bad := true;
          } else {
            input := f.value.1;
            Set(f.value.0);
          }
        }
      }
      ok := !bad;
    }
  }

  // ----- what Clear leaves behind -----

  // Compaction pointers in front of those of `e`.
  function Behind(p: seq<(nat, Bytes)>, e: EditRecord): EditRecord {
    e.(compactPointers := p + e.compactPointers)
  }

  lemma AbsorbBehind(p: seq<(nat, Bytes)>, e: EditRecord, f: Field)
    ensures Absorb(Behind(p, e), f) == Behind(p, Absorb(e, f))
  {
    if f.CompactPointer? {
      var x := [(f.level, f.key)];
      assert p + (e.compactPointers + x) == (p + e.compactPointers) + x;
    }
  }

  // Pointers already there stay in front of those decoded, and nothing else is changed by them.
  lemma {:induction false} DecodedBehind(p: seq<(nat, Bytes)>, e: EditRecord, b: Bytes)
    ensures Decoded(Behind(p, e), b) == (Behind(p, Decoded(e, b).0), Decoded(e, b).1)
    decreases |b|
  {
    if b != [] && ParseField(b).Some? {
      AbsorbBehind(p, e, ParseField(b).value.0);
      DecodedBehind(p, Absorb(e, ParseField(b).value.0), ParseField(b).value.1);
    }
    hide Absorb, ParseField;
  }

  // Decoding into a used edit gives what the bytes say exactly when it held no compaction pointers.
  lemma UsedEditDecodes(p: seq<(nat, Bytes)>, b: Bytes)
    ensures Decoded(EMPTY_EDIT.(compactPointers := p), b) == Decoded(EMPTY_EDIT, b) <==> p == []
  {
    DecodedBehind(p, EMPTY_EDIT, b);
    assert Behind(p, EMPTY_EDIT) == EMPTY_EDIT.(compactPointers := p) by {
      assert p + [] == p;
    }
    var e := Decoded(EMPTY_EDIT, b).0;
    hide Decoded;
    assert |Behind(p, e).compactPointers| == |p| + |e.compactPointers|;
    if p == [] {
      assert Behind(p, e) == e;
    }
  }

  lemma NextPointer(s: seq<(nat, Bytes)>, before: seq<Field>, i: nat)
    requires i < |s|
    ensures PointerFields(s)[i] == CompactPointer(s[i].0, s[i].1)
    ensures before + PointerFields(s)[..i] + [PointerFields(s)[i]] == before + PointerFields(s)[..i + 1]
  {
  }

  lemma NextDeleted(s: seq<(nat, nat)>, before: seq<Field>, i: nat)
    requires i < |s|
    ensures DeletedFields(s)[i] == DeletedFile(s[i].0, s[i].1)
    ensures before + DeletedFields(s)[..i] + [DeletedFields(s)[i]] == before + DeletedFields(s)[..i + 1]
  {
  }

  lemma NextNew(s: seq<(nat, FileMeta)>, before: seq<Field>, i: nat)
    requires i < |s|
    ensures NewFields(s)[i] == NewFile(s[i].0, s[i].1)
    ensures before + NewFields(s)[..i] + [NewFields(s)[i]] == before + NewFields(s)[..i + 1]
  {
  }

  lemma TagTaken(b: Bytes, tag: Option<(nat, Bytes)>)
    requires match ParseVarint(b, 5)
             case None => tag == None
             case Some(p) => p.1 <= |b| && tag == Some((p.0 % TWO_32, b[p.1..]))
    ensures tag == TakeVarint32(b)
  {
  }
}

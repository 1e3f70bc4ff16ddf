/** The record log, byte for byte: 32 KB blocks, framed fragments, and what a reader delivers from
    a file that was cut short anywhere (db/log_format.h, db/log_writer.cc, db/log_reader.cc).

    The checksum is any function of type byte and payload; `sum` stands for CRC32C. */
module RecordLog {
  import opened Wrappers
  import opened Coding

  const BLOCK: nat := 32768
  const HEADER: nat := 7

  const ZERO: Byte := 0
  const FULL: Byte := 1
  const FIRST: Byte := 2
  const MIDDLE: Byte := 3
  const LAST: Byte := 4

  // ----- the format -----

  // Where in its block a file position lies.
  function Offset(pos: nat): (off: nat)
    ensures off < BLOCK
  {
    pos % BLOCK
  }

  function Frame(sum: Sum, t: Byte, payload: Bytes): (r: Bytes)
    requires |payload| < BLOCK
    ensures |r| == HEADER + |payload|
  {
    Fixed32(Mask(sum(t, payload))) + [|payload| % 256, |payload| / 256, t] + payload
  }

  function FragmentType(begin: bool, end: bool): Byte {
    if begin && end then FULL else if begin then FIRST else if end then LAST else MIDDLE
  }

  // How much of the trailer of a block is too small for a header.
  function Trailer(off: nat): nat
    requires off < BLOCK
  {
    if BLOCK - off < HEADER then BLOCK - off else 0
  }

  // How many bytes of `left` fit behind the next header.
  function Fits(off: nat, left: nat): (n: nat)
    requires off < BLOCK
    ensures n <= left && n < BLOCK
  {
    var start := if BLOCK - off < HEADER then 0 else off;
    if left < BLOCK - start - HEADER then left else BLOCK - start - HEADER
  }

  // The bytes one record becomes when the file stands at offset `off` of a block.
  function Fragments(sum: Sum, off: nat, data: Bytes, begin: bool): Bytes
    requires off < BLOCK
    decreases |data|, if off == 0 then 0 else 1
  {
    var n := Fits(off, |data|);
    var piece := Piece(sum, off, data, begin);
    if n == |data| then piece else piece + Fragments(sum, 0, data[n..], false)
  }

  // The bytes of a list of records, from offset `off` of a block on.
  function Encoded(sum: Sum, off: nat, records: seq<Bytes>): Bytes
    requires off < BLOCK
    decreases |records|
  {
    if records == [] then []
    else
      var first := Fragments(sum, off, records[0], true);
      first + Encoded(sum, Offset(off + |first|), records[1..])
  }

  // How many of the records end at or before `cut`, the file standing at `pos`.
  function Complete(sum: Sum, pos: nat, records: seq<Bytes>, cut: nat): (k: nat)
    ensures k <= |records|
    decreases |records|
  {
    if records == [] then 0
    else
      var end := pos + |Fragments(sum, Offset(pos), records[0], true)|;
      if end <= cut then 1 + Complete(sum, end, records[1..], cut) else 0
  }

  // ----- writing -----

  class Writer {
    const sum: Sum
    var dest: Bytes
    var blockOffset: nat

    ghost predicate Valid()
      reads this
    {
      blockOffset <= BLOCK && Offset(blockOffset) == Offset(|dest|)
    }

    // Opening a file that already holds `dest`, empty or not.
    constructor (sum: Sum, dest: Bytes)
      ensures Valid() && this.dest == dest && this.sum == sum
    {
      this.sum, this.dest := sum, dest;
      blockOffset := Offset(|dest|);
    }

    method EmitPhysicalRecord(t: Byte, payload: Bytes)
      requires Valid() && blockOffset + HEADER + |payload| <= BLOCK
      modifies this
      ensures Valid() && dest == old(dest) + Frame(sum, t, payload)
      ensures blockOffset == old(blockOffset) + HEADER + |payload|
    {
      var crc := Mask(sum(t, payload));
      dest := dest + (Fixed32(crc) + [|payload| % 256, |payload| / 256, t] + payload);
      blockOffset := blockOffset + HEADER + |payload|;
      OffsetMoves(old(|dest|), old(blockOffset), HEADER + |payload|);
    }

    // A trailer too small for a header is filled with zeros.
    method PadTrailer()
      requires Valid()
      modifies this
      ensures Valid() && dest == old(dest) + Zeros(Trailer(Offset(old(|dest|))))
      ensures Fits(Offset(old(|dest|)), 0) == 0 && blockOffset + HEADER <= BLOCK
      ensures blockOffset == if Trailer(Offset(old(|dest|))) > 0 then 0 else Offset(old(|dest|))
    {
      var leftover := BLOCK - blockOffset;
      if leftover < HEADER {
        if leftover > 0 {
          OffsetMoves(|dest|, blockOffset, leftover);
          dest := dest + Zeros(leftover);
        } else {
          assert dest + [] == dest;
        }
        blockOffset := 0;
      } else {
        assert dest + [] == dest;
      }
    }

    // One turn of AddRecord's loop: pad the trailer of a full block, then emit what fits.
    method EmitFragment(left: Bytes, begin: bool) returns (n: nat)
      requires Valid()
      modifies this
      ensures Valid() && n == Fits(Offset(old(|dest|)), |left|)
      ensures dest == old(dest) + Piece(sum, Offset(old(|dest|)), left, begin)
    {
      ghost var off, before := Offset(|dest|), dest;
      PadTrailer();
      hide Offset, Frame;
      var avail := BLOCK - blockOffset - HEADER;
      n := if |left| < avail then |left| else avail;
      var end := |left| == n;
      var t := if begin && end then FULL else if begin then FIRST else if end then LAST else MIDDLE;
      EmitPhysicalRecord(t, left[..n]);
      JoinIsAssociative(before, Zeros(Trailer(off)), Frame(sum, t, left[..n]));
    }

    // AddRecord appends exactly the record's fragments for the place the file has reached.
    method AddRecord(record: Bytes)
      requires Valid()
      modifies this
      ensures Valid() && dest == old(dest) + Fragments(sum, Offset(old(|dest|)), record, true)
    {
      var left, begin, more := record, true, true;
      ghost var goal := dest + Fragments(sum, Offset(|dest|), record, true);
      while more
        invariant Valid()
        invariant dest + (if more then Fragments(sum, Offset(|dest|), left, begin) else []) == goal
        decreases more, |left|, if Offset(|dest|) == 0 then 0 else 1
      {
        ghost var before := dest;
        var n := EmitFragment(left, begin);
        PieceEnds(sum, before, left, begin);
        more := n < |left|;
        left := left[n..];
        begin := false;
      }
    }
  }

  // The next fragment with the padding in front of it.
  function Piece(sum: Sum, off: nat, left: Bytes, begin: bool): Bytes
    requires off < BLOCK
  {
    var n := Fits(off, |left|);
    Zeros(Trailer(off)) + Frame(sum, FragmentType(begin, n == |left|), left[..n])
  }

  lemma OffsetMoves(len: nat, off: nat, n: nat)
    requires Offset(off) == Offset(len)
    ensures Offset(off + n) == Offset(len + n)
  {
  }

  lemma FullBlockEnds(len: nat, off: nat, left: nat)
    requires off == Offset(len) && Fits(off, left) < left
    ensures Offset(len + Trailer(off) + HEADER + Fits(off, left)) == 0
  {
    var end := off + Trailer(off) + HEADER + Fits(off, left);
    assert end == BLOCK || end == 2 * BLOCK;
  }

  lemma FirstPiece(sum: Sum, off: nat, left: Bytes, begin: bool)
    requires off < BLOCK
    ensures var n := Fits(off, |left|);
            Fragments(sum, off, left, begin) ==
              Piece(sum, off, left, begin) + (if n == |left| then [] else Fragments(sum, 0, left[n..], false))
  {
  }

  // The type numbers of the format: 1 for a whole record, 2, 3 and 4 for the first, the middle and
  // the last fragment of one that spans blocks.
  lemma TypesOnDisk(sum: Sum, data: Bytes, begin: bool)
    ensures Fragments(sum, 0, data, begin) ==
            if |data| <= 32761 then Frame(sum, if begin then 1 else 4, data)
            else Frame(sum, if begin then 2 else 3, data[..32761]) + Fragments(sum, 0, data[32761..], false)
  {
    FirstPiece(sum, 0, data, begin);
    assert data[..|data|] == data;
    hide Frame, Fragments;
  }

  // A record goes on after its first piece at the start of the next block.
  lemma PieceEnds(sum: Sum, before: Bytes, left: Bytes, begin: bool)
    ensures var off := Offset(|before|);
            var n, after := Fits(off, |left|), before + Piece(sum, off, left, begin);
            && before + Fragments(sum, off, left, begin) ==
                after + (if n == |left| then [] else Fragments(sum, 0, left[n..], false))
            && (n < |left| ==> Offset(|after|) == 0 && (n == 0 ==> off != 0))
  {
    var off := Offset(|before|);
    var n, piece := Fits(off, |left|), Piece(sum, off, left, begin);
    FirstPiece(sum, off, left, begin);
    if n < |left| {
      FullBlockEnds(|before|, off, |left|);
    }
    hide Fragments, Offset;
    var rest := if n == |left| then [] else Fragments(sum, 0, left[n..], false);
    assert before + (piece + rest) == before + piece + rest;
  }

  // ----- reading -----

  // The file from `pos` on is the beginning of `expected`.
  ghost predicate Agrees(file: Bytes, pos: nat, expected: Bytes) {
    pos <= |file| && |file| - pos <= |expected| && file[pos..] == expected[..|file| - pos]
  }

  lemma AgreesAfter(file: Bytes, pos: nat, a: Bytes, b: Bytes)
    requires Agrees(file, pos, a + b) && pos + |a| <= |file|
    ensures file[pos..pos + |a|] == a && Agrees(file, pos + |a|, b)
  {
    var rest := file[pos..];
    assert rest == (a + b)[..|rest|];
    assert rest[..|a|] == a && rest[|a|..] == b[..|rest| - |a|];
    assert file[pos..pos + |a|] == rest[..|a|] && file[pos + |a|..] == rest[|a|..];
  }

  datatype Physical = Fragment(t: Byte, payload: Bytes) | Eof | BadRecord

  // What the second half of ReadPhysicalRecord makes of a buffer with a header in front.
  ghost predicate Taken(sum: Sum, buffer: Bytes, eof: bool, r: Physical, dropped: nat, dropped': nat, pos: nat,
                        pos': nat)
    requires |buffer| >= HEADER
  {
    var length, t := buffer[4] as nat + 256 * buffer[5] as nat, buffer[6];
    if HEADER + length > |buffer| then
      if eof then r == Eof && dropped' == dropped else r == BadRecord && dropped' == dropped + 1
    else if t == ZERO && length == 0 then r == BadRecord && dropped' == dropped
    else if Unmask(DecodeFixed32(buffer)) != sum(t, buffer[HEADER..HEADER + length]) then
      r == BadRecord && dropped' == dropped + 1
    else r == Fragment(t, buffer[HEADER..HEADER + length]) && dropped' == dropped && pos' == pos + HEADER + length
  }

  class Reader {
    const sum: Sum
    const file: Bytes
    var filePos: nat     // bytes read from the file
    var buffer: Bytes    // of them, those not consumed yet
    var eof: bool        // the last read came up short
    var dropped: nat     // corruptions reported
    ghost var pos: nat   // bytes consumed

    ghost predicate Valid()
      reads this
    {
      && pos <= filePos <= |file| && buffer == file[pos..filePos]
      && filePos <= pos - Offset(pos) + BLOCK
      && (if eof then filePos == |file| else Offset(filePos) == 0)
    }

    constructor (sum: Sum, file: Bytes)
      ensures Valid() && pos == 0 && dropped == 0 && this.sum == sum && this.file == file
    {
      this.sum, this.file := sum, file;
      filePos, buffer, eof, dropped, pos := 0, [], false, 0, 0;
    }

    // Read the next block: what is left in the buffer is a trailer.
    method ReadBlock()
      requires Valid() && |buffer| < HEADER && !eof
      modifies this
      ensures Valid() && dropped == old(dropped) && pos == old(filePos)
      ensures |file| - filePos < old(|file| - filePos) || (filePos == old(filePos) && eof)
      ensures |buffer| == if |file| - pos < BLOCK then |file| - pos else BLOCK
    {
      pos := filePos;
      var end := if |file| - filePos < BLOCK then |file| else filePos + BLOCK;
      buffer := file[filePos..end];
      filePos := end;
      if |buffer| < BLOCK {
        eof := true;
      }
    }

    // Drop what is left of the block.
    method DropBuffer(report: bool)
      requires Valid()
      modifies this
      ensures Valid() && buffer == [] && pos == filePos == old(filePos) && eof == old(eof)
      ensures dropped == old(dropped) + if report then 1 else 0
    {
      buffer := [];
      pos := filePos;
      dropped := dropped + if report then 1 else 0;
    }

    // The first half of ReadPhysicalRecord: get a header into the buffer.
    method FillHeader(ghost left: Bytes, ghost begin: bool, ghost tail: Bytes) returns (found: bool)
      requires Valid()
      modifies this
      ensures Valid() && dropped == old(dropped) && pos >= old(pos)
      ensures if found then |buffer| >= HEADER else eof && buffer == []
      ensures Agrees(file, old(pos), Fragments(sum, Offset(old(pos)), left, begin) + tail) ==>
                if found then StillAhead(sum, file, old(pos), pos, left, begin, tail)
                else Delivered(sum, file, old(pos), left, begin, tail, Eof, pos)
    {
      ghost var start, count := pos, dropped;
      ghost var clean := Agrees(file, pos, Fragments(sum, Offset(pos), left, begin) + tail);
      hide Fragments, Frame, Agrees, Piece;
      while |buffer| < HEADER
        invariant Valid() && dropped == count && start <= pos
        invariant clean ==> StillAhead(sum, file, start, pos, left, begin, tail)
        invariant pos != start ==> Offset(pos) == 0
        decreases |file| - filePos, !eof
      {
        if eof {
          if clean {
            NothingMore(sum, file, start, pos, left, begin, tail);
          }
          DropBuffer(false);
          return false;
        }
        if clean {
          TrailerSkipped(sum, file, start, pos, filePos, left, begin, tail);
        }
        ReadBlock();
      }
      return true;
    }

    // The second half: check the frame and take its payload.
    method TakeFrame() returns (r: Physical)
      requires Valid() && |buffer| >= HEADER
      modifies this
      ensures Valid() && pos > old(pos)
      ensures filePos == old(filePos) && eof == old(eof)
      ensures Taken(sum, old(buffer), eof, r, old(dropped), dropped, old(pos), pos)
    {
      var length := buffer[4] as nat + 256 * buffer[5] as nat;
      var t := buffer[6];
      if HEADER + length > |buffer| {
        DropBuffer(!eof);
        return if eof then Eof else BadRecord;
      }
      if t == ZERO && length == 0 {
        DropBuffer(false);
        return BadRecord;
      }
      var payload := buffer[HEADER..HEADER + length];
      if Unmask(DecodeFixed32(buffer)) != sum(t, payload) {
        DropBuffer(true);
        return BadRecord;
      }
      Consumed(pos, filePos, HEADER + length);
      buffer := buffer[HEADER + length..];
      pos := pos + HEADER + length;
      return Fragment(t, payload);
    }

    // ReadPhysicalRecord. Where the file carries on with the pieces of a record, the next piece is
    // delivered if all of it is there, and end of file is reported otherwise.
    method ReadPhysicalRecord(ghost left: Bytes, ghost begin: bool, ghost tail: Bytes) returns (r: Physical)
      requires Valid()
      modifies this
      ensures Valid() && pos >= old(pos) && (r.Eof? || pos > old(pos))
      ensures old(pos) == |file| ==> r.Eof? && dropped == old(dropped)
      ensures Agrees(file, old(pos), Fragments(sum, Offset(old(pos)), left, begin) + tail) ==>
                && dropped == old(dropped) && Delivered(sum, file, old(pos), left, begin, tail, r, pos)
    {
      ghost var start := pos;
      ghost var clean := Agrees(file, pos, Fragments(sum, Offset(pos), left, begin) + tail);
      hide Fragments, Agrees, Delivered, StillAhead, Offset, Taken;
      var found := FillHeader(left, begin, tail);
      if !found {
        return Eof;
      }
      ghost var at, bytes := pos, buffer;
      r := TakeFrame();
      if clean {
        FrameDelivered(sum, file, start, at, filePos, eof, bytes, left, begin, tail, r, old(dropped), dropped, pos);
      }
    }

    // The switch of ReadRecord: how one piece adds to what was collected so far.
    method Collect(p: Physical, scratch: Bytes, inFragment: bool)
      returns (scratch': Bytes, inFragment': bool, record: Option<Bytes>)
      requires Valid() && !p.Eof? && (!inFragment ==> scratch == [])
      modifies this`dropped
      ensures Valid() && (!inFragment' ==> scratch' == [])
      ensures p.Fragment? && p.t == FragmentType(!inFragment, true) ==>
                dropped == old(dropped) && record == Some(scratch + p.payload)
      ensures p.Fragment? && p.t == FragmentType(!inFragment, false) ==>
                dropped == old(dropped) && record == None && scratch' == scratch + p.payload && inFragment'
    {
      scratch', inFragment', record := scratch, inFragment, None;
      assert p.Fragment? ==> [] + p.payload == p.payload;
      match p {
        case BadRecord =>
          if inFragment {
            Report();
          }
          inFragment', scratch' := false, [];
        case Fragment(t, payload) =>
          if t == FULL {
            if inFragment && scratch != [] {
              Report();
            }
            record := Some(payload);
          } else if t == FIRST {
            if inFragment && scratch != [] {
              Report();
            }
            scratch', inFragment' := payload, true;
          } else if t == MIDDLE {
            if inFragment {
              scratch' := scratch + payload;
            } else {
              Report();
            }
          } else if t == LAST {
            if inFragment {
              scratch' := scratch + payload;
              record := Some(scratch');
            } else {
              Report();
            }
          } else {
            Report();
            inFragment', scratch' := false, [];
          }
      }
    }

    // One turn of ReadRecord's loop. The ghost arguments describe the record under way.
    method ReadPiece(scratch: Bytes, inFragment: bool, ghost job: Job, ghost left: Bytes)
      returns (scratch': Bytes, inFragment': bool, eof': bool, r: Option<Bytes>)
      requires Valid() && (!inFragment ==> scratch == [])
      modifies this
      ensures Valid() && (!inFragment' ==> scratch' == []) && pos >= old(pos) && (eof' || pos > old(pos))
      ensures eof' ==> r == None
      ensures Assembling(sum, file, old(pos), job, scratch, left, inFragment) ==>
                && dropped == old(dropped)
                && (if eof' || r.Some? then NextRecord(sum, file, job.start, job.records, r, pos)
                    else
                      var n := Fits(Offset(old(pos)), |left|);
                      n <= |left| && Assembling(sum, file, pos, job, scratch', left[n..], inFragment'))
    {
      ghost var before := pos;
      ghost var clean := Assembling(sum, file, pos, job, scratch, left, inFragment);
      ghost var record := clean && job.records != [];
      hide Fragments, Encoded, Agrees, Frame, Piece, Midway, Delivered, NextRecord, FragmentType;
      if record {
        MidwayAgrees(sum, file, pos, left, !inFragment, job.tail, job.end);
      }
      var p := ReadPhysicalRecord(left, !inFragment, job.tail);
      if record {
        PieceRead(sum, file, before, left, !inFragment, job.tail, job.end, p, pos);
      }
      if p.Eof? {
        if clean {
          RecordMissing(sum, file, job.start, job.records, job.end, pos);
        }
        return scratch, inFragment, true, None;
      }
      eof' := false;
      scratch', inFragment', r := Collect(p, scratch, inFragment);
      if record {
        PieceCollected(sum, file, pos, job, scratch, left, Fits(Offset(before), |left|), scratch', inFragment', r);
      }
    }

    // ReadRecord: pieces are put together again; whatever does not fit is reported and skipped.
    method ReadRecord(ghost records: seq<Bytes>) returns (r: Option<Bytes>)
      requires Valid()
      modifies this
      ensures Valid() && (r.Some? ==> pos > old(pos))
      ensures Agrees(file, old(pos), Encoded(sum, Offset(old(pos)), records)) ==>
                dropped == old(dropped) && NextRecord(sum, file, old(pos), records, r, pos)
    {
      ghost var count, job := dropped, JobAt(sum, pos, records);
      ghost var left := job.Data();
      ghost var clean := Agrees(file, pos, Encoded(sum, Offset(pos), records));
      if clean {
        RecordStarts(sum, file, pos, records);
      }
      hide Offset, Encoded, Agrees, Fits, NextRecord, Assembling;
      var scratch: Bytes, inFragment := [], false;
      while true
        invariant Valid() && pos >= old(pos) && (!inFragment ==> scratch == [])
        invariant clean ==> dropped == count && Assembling(sum, file, pos, job, scratch, left, inFragment)
        decreases |file| - pos
      {
        ghost var n := Fits(Offset(pos), |left|);
        var atEnd;
        scratch, inFragment, atEnd, r := ReadPiece(scratch, inFragment, job, left);
        if atEnd || r.Some? {
          return;
        }
        left := if n <= |left| then left[n..] else [];
      }
    }

    method Report()
      requires Valid()
      modifies this`dropped
      ensures Valid() && dropped == old(dropped) + 1
    {
      dropped := dropped + 1;
    }
  }

  // Between two pieces of a record that ends at `end` with `tail` behind it.
  ghost predicate Midway(sum: Sum, file: Bytes, pos: nat, left: Bytes, begin: bool, tail: Bytes, end: nat) {
    Agrees(file, pos, Fragments(sum, Offset(pos), left, begin) + tail)
        && pos + |Fragments(sum, Offset(pos), left, begin)| == end
  }

  // The record to be read next: where it starts and ends, and what follows it.
  datatype Job = Job(records: seq<Bytes>, start: nat, end: nat, tail: Bytes) {
    function Data(): Bytes {
      if records == [] then [] else records[0]
    }
  }

  function JobAt(sum: Sum, pos: nat, records: seq<Bytes>): Job {
    if records == [] then Job([], pos, pos, [])
    else
      var end := pos + |Fragments(sum, Offset(pos), records[0], true)|;
      Job(records, pos, end, Encoded(sum, Offset(end), records[1..]))
  }

  // Part of the record is collected, the rest is ahead.
  ghost predicate Assembling(sum: Sum, file: Bytes, pos: nat, job: Job, scratch: Bytes, left: Bytes, inFragment: bool) {
    && job == JobAt(sum, job.start, job.records)
    && if job.records == [] then pos == |file|
       else job.Data() == scratch + left && Midway(sum, file, pos, left, !inFragment, job.tail, job.end)
  }

  // What reading the next record from `pos` must deliver.
  ghost predicate NextRecord(sum: Sum, file: Bytes, pos: nat, records: seq<Bytes>, r: Option<Bytes>, pos': nat) {
    if records == [] || pos + |Fragments(sum, Offset(pos), records[0], true)| > |file| then r == None
    else
      && r == Some(records[0]) && pos' == pos + |Fragments(sum, Offset(pos), records[0], true)|
      && Agrees(file, pos', Encoded(sum, Offset(pos'), records[1..]))
  }

  lemma OffsetsAdd(pos: nat, n: nat)
    ensures Offset(Offset(pos) + n) == Offset(pos + n)
  {
  }

  lemma JobIsFirst(sum: Sum, pos: nat, records: seq<Bytes>)
    requires records != []
    ensures var job, first := JobAt(sum, pos, records), Fragments(sum, Offset(pos), records[0], true);
            && job.records == records && job.start == pos && job.end == pos + |first| && job.Data() == records[0]
            && Encoded(sum, Offset(pos), records) == first + job.tail
  {
    hide Fragments, Offset;
    OffsetsAdd(pos, |Fragments(sum, Offset(pos), records[0], true)|);
  }

  lemma RecordStarts(sum: Sum, file: Bytes, pos: nat, records: seq<Bytes>)
    requires Agrees(file, pos, Encoded(sum, Offset(pos), records))
    ensures Assembling(sum, file, pos, JobAt(sum, pos, records), [], JobAt(sum, pos, records).Data(), false)
  {
    if records == [] {
      assert Encoded(sum, Offset(pos), records) == [];
    } else {
      hide Fragments, Encoded, Offset, Agrees, JobAt, Job.Data;
      JobIsFirst(sum, pos, records);
      assert [] + records[0] == records[0];
    }
  }

  lemma MidwayAgrees(sum: Sum, file: Bytes, pos: nat, left: Bytes, begin: bool, tail: Bytes, end: nat)
    requires Midway(sum, file, pos, left, begin, tail, end)
    ensures Agrees(file, pos, Fragments(sum, Offset(pos), left, begin) + tail)
  {
  }

  lemma PieceRead(sum: Sum, file: Bytes, pos: nat, left: Bytes, begin: bool, tail: Bytes, end: nat, p: Physical,
                  pos': nat)
    requires Midway(sum, file, pos, left, begin, tail, end) && Delivered(sum, file, pos, left, begin, tail, p, pos')
    ensures var n := Fits(Offset(pos), |left|);
            && n <= |left|
            && (if p.Eof? then end > |file| else p == Fragment(FragmentType(begin, n == |left|), left[..n]))
            && (!p.Eof? && n < |left| ==> Midway(sum, file, pos', left[n..], false, tail, end))
            && (!p.Eof? && n == |left| ==> pos' == end && Agrees(file, end, tail))
  {
    hide Frame, Agrees;
    var off := Offset(pos);
    var n, piece := Fits(off, |left|), Piece(sum, off, left, begin);
    PieceLength(sum, off, left, begin);
    hide Piece;
    if n == |left| {
      assert [] + tail == tail;
    } else {
      FullBlockEnds(pos, off, |left|);
    }
  }

  lemma PieceLength(sum: Sum, off: nat, left: Bytes, begin: bool)
    requires off < BLOCK
    ensures |Piece(sum, off, left, begin)| == Trailer(off) + HEADER + Fits(off, |left|)
  {
  }

  // One more piece is in: the record is whole, or there is more to come.
  lemma PieceCollected(sum: Sum, file: Bytes, pos: nat, job: Job, scratch: Bytes, left: Bytes, n: nat,
                       scratch': Bytes, inFragment': bool, r: Option<Bytes>)
    requires job.records != [] && job == JobAt(sum, job.start, job.records) && job.Data() == scratch + left
    requires n <= |left|
    requires if n == |left| then r == Some(scratch + left[..n]) && pos == job.end && Agrees(file, job.end, job.tail)
             else
               && r == None && scratch' == scratch + left[..n] && inFragment'
               && Midway(sum, file, pos, left[n..], false, job.tail, job.end)
    ensures if r.Some? then NextRecord(sum, file, job.start, job.records, r, pos)
            else Assembling(sum, file, pos, job, scratch', left[n..], inFragment')
  {
    hide Fragments, Encoded, Midway, Offset;
    assert scratch + left == scratch + left[..n] + left[n..];
    if n == |left| {
      assert left[..n] == left;
      assert job.end <= |file|;
    }
  }

  lemma RecordMissing(sum: Sum, file: Bytes, pos: nat, records: seq<Bytes>, end: nat, pos': nat)
    requires records == [] || (end == pos + |Fragments(sum, Offset(pos), records[0], true)| && end > |file|)
    ensures NextRecord(sum, file, pos, records, None, pos')
  {
  }

  lemma TypeIsNotZero(begin: bool, end: bool)
    ensures FragmentType(begin, end) != ZERO
  {
  }

  lemma Consumed(pos: nat, filePos: nat, n: nat)
    requires pos + n <= filePos <= pos - Offset(pos) + BLOCK
    ensures filePos <= (pos + n) - Offset(pos + n) + BLOCK
  {
  }

  // Position and outcome of reading one piece that begins at `pos`.
  ghost predicate Delivered(sum: Sum, file: Bytes, pos: nat, left: Bytes, begin: bool, tail: Bytes, r: Physical,
                            pos': nat) {
    var off := Offset(pos);
    var n := Fits(off, |left|);
    var end := pos + |Piece(sum, off, left, begin)|;
    if end <= |file| then
      && r == Fragment(FragmentType(begin, n == |left|), left[..n]) && pos' == end
      && Agrees(file, end, (if n == |left| then [] else Fragments(sum, 0, left[n..], false)) + tail)
    else r.Eof?
  }

  // Skipping padding has not passed the next piece.
  ghost predicate StillAhead(sum: Sum, file: Bytes, start: nat, pos: nat, left: Bytes, begin: bool, tail: Bytes) {
    && (pos == start || pos == start + Trailer(Offset(start)))
    && Agrees(file, pos, Fragments(sum, Offset(pos), left, begin) + tail)
  }

  lemma PaddedPiece(sum: Sum, off: nat, left: Bytes, begin: bool)
    requires off < BLOCK && Trailer(off) > 0
    ensures Fits(off, |left|) == Fits(0, |left|)
    ensures Piece(sum, off, left, begin) == Zeros(Trailer(off)) + Piece(sum, 0, left, begin)
  {
    var n := Fits(0, |left|);
    var frame := Frame(sum, FragmentType(begin, n == |left|), left[..n]);
    assert Trailer(0) == 0 && Zeros(0) + frame == frame;
  }

  lemma SkipPadding(sum: Sum, off: nat, left: Bytes, begin: bool)
    requires off < BLOCK && Trailer(off) > 0
    ensures Fragments(sum, off, left, begin) == Zeros(Trailer(off)) + Fragments(sum, 0, left, begin)
    ensures |Piece(sum, off, left, begin)| == Trailer(off) + |Piece(sum, 0, left, begin)|
  {
    PaddedPiece(sum, off, left, begin);
    hide Piece, Fits, Trailer, Frame;
    var n, pad, piece := Fits(0, |left|), Zeros(Trailer(off)), Piece(sum, 0, left, begin);
    if n < |left| {
      var rest := Fragments(sum, 0, left[n..], false);
      assert pad + (piece + rest) == pad + piece + rest;
    }
  }

  // Both positions lead to the same piece.
  lemma SameEnd(sum: Sum, file: Bytes, start: nat, pos: nat, left: Bytes, begin: bool, tail: Bytes)
    requires StillAhead(sum, file, start, pos, left, begin, tail)
    ensures start + |Piece(sum, Offset(start), left, begin)| == pos + |Piece(sum, Offset(pos), left, begin)|
    ensures Fits(Offset(start), |left|) == Fits(Offset(pos), |left|)
  {
    if pos != start {
      SkipPadding(sum, Offset(start), left, begin);
      PastTrailer(start);
    }
  }

  lemma PastTrailer(pos: nat)
    requires Trailer(Offset(pos)) > 0
    ensures Offset(pos + Trailer(Offset(pos))) == 0
  {
  }

  lemma NothingMore(sum: Sum, file: Bytes, start: nat, pos: nat, left: Bytes, begin: bool, tail: Bytes)
    requires StillAhead(sum, file, start, pos, left, begin, tail) && |file| - pos < HEADER
    ensures forall pos' :: Delivered(sum, file, start, left, begin, tail, Eof, pos')
  {
    SameEnd(sum, file, start, pos, left, begin, tail);
  }

  lemma TrailerEnds(pos: nat, filePos: nat)
    requires pos < filePos < pos + HEADER && Offset(filePos) == 0 && filePos <= pos - Offset(pos) + BLOCK
    ensures filePos - pos == Trailer(Offset(pos)) > 0 && Offset(pos) != 0
  {
    var block, block', off := pos / BLOCK, filePos / BLOCK, Offset(pos);
    hide Offset;
    assert pos == BLOCK * block + off && filePos == BLOCK * block';
    assert block' == block + 1;
  }

  lemma TrailerSkipped(sum: Sum, file: Bytes, start: nat, pos: nat, filePos: nat, left: Bytes, begin: bool, tail: Bytes)
    requires StillAhead(sum, file, start, pos, left, begin, tail) && (pos != start ==> Offset(pos) == 0)
    requires pos <= filePos <= |file| && filePos - pos < HEADER && Offset(filePos) == 0
    requires filePos <= pos - Offset(pos) + BLOCK
    ensures StillAhead(sum, file, start, filePos, left, begin, tail)
  {
    if pos < filePos {
      hide Offset, Trailer, Fragments;
      var off := Offset(pos);
      TrailerEnds(pos, filePos);
      SkipPadding(sum, off, left, begin);
      var rest := Fragments(sum, 0, left, begin);
      assert Zeros(Trailer(off)) + rest + tail == Zeros(Trailer(off)) + (rest + tail);
      AgreesAfter(file, pos, Zeros(Trailer(off)), rest + tail);
    }
  }

  // A header in the buffer is the header of the expected piece.
  lemma HeaderIsHere(sum: Sum, t: Byte, payload: Bytes, b: Bytes)
    requires |payload| < BLOCK && |b| >= HEADER && b[..HEADER] == Frame(sum, t, payload)[..HEADER]
    ensures b[4] as nat + 256 * b[5] as nat == |payload| && b[6] == t
    ensures Unmask(DecodeFixed32(b)) == sum(t, payload)
  {
    var f := Frame(sum, t, payload);
    var crc := Mask(sum(t, payload));
    assert forall i :: 0 <= i < HEADER ==> b[i] == b[..HEADER][i] && f[i] == f[..HEADER][i];
    assert f[4] == |payload| % 256 && f[5] == |payload| / 256 && f[6] == t;
    assert forall i :: 0 <= i < 4 ==> f[i] == Fixed32(crc)[i];
    Fixed32RoundTrip(crc, []);
    UnmaskUndoesMask(sum(t, payload));
  }

  // A piece that fits behind a header never crosses the end of its block.
  lemma PieceWithinBlock(pos: nat, left: nat)
    requires BLOCK - Offset(pos) >= HEADER
    ensures Trailer(Offset(pos)) == 0 && pos + HEADER + Fits(Offset(pos), left) <= pos - Offset(pos) + BLOCK
  {
  }

  lemma ShortReadInBlock(pos: nat, filePos: nat)
    requires pos < filePos < pos - Offset(pos) + BLOCK
    ensures Offset(filePos) != 0
  {
  }

  // What lies at `pos`: one frame without padding, then the rest.
  lemma FrameIsNext(sum: Sum, pos: nat, left: Bytes, begin: bool, tail: Bytes)
    requires BLOCK - Offset(pos) >= HEADER
    ensures var n := Fits(Offset(pos), |left|);
            var frame := Frame(sum, FragmentType(begin, n == |left|), left[..n]);
            && Piece(sum, Offset(pos), left, begin) == frame
            && Fragments(sum, Offset(pos), left, begin) + tail ==
               frame + ((if n == |left| then [] else Fragments(sum, 0, left[n..], false)) + tail)
  {
    var n := Fits(Offset(pos), |left|);
    var frame := Frame(sum, FragmentType(begin, n == |left|), left[..n]);
    assert Zeros(0) + frame == frame;
    if n == |left| {
      assert [] + tail == tail;
    } else {
      var rest := Fragments(sum, 0, left[n..], false);
      assert frame + rest + tail == frame + (rest + tail);
    }
  }

  lemma PieceHeader(sum: Sum, file: Bytes, start: nat, pos: nat, filePos: nat, buffer: Bytes, left: Bytes,
                    begin: bool, tail: Bytes)
    requires StillAhead(sum, file, start, pos, left, begin, tail)
    requires pos <= filePos <= |file| && buffer == file[pos..filePos] && |buffer| >= HEADER
    requires filePos <= pos - Offset(pos) + BLOCK
    ensures var n := Fits(Offset(pos), |left|);
            var t := FragmentType(begin, n == |left|);
            && buffer[4] as nat + 256 * buffer[5] as nat == n && buffer[6] == t
            && Unmask(DecodeFixed32(buffer)) == sum(t, left[..n])
  {
    hide Fragments, Piece, Unmask, DecodeFixed32;
    var n := Fits(Offset(pos), |left|);
    var t := FragmentType(begin, n == |left|);
    FrameIsNext(sum, pos, left, begin, tail);
    var rest := (if n == |left| then [] else Fragments(sum, 0, left[n..], false)) + tail;
    HeaderAgrees(file, pos, filePos, buffer, Frame(sum, t, left[..n]), rest);
    HeaderIsHere(sum, t, left[..n], buffer);
  }

  lemma PieceBody(sum: Sum, file: Bytes, start: nat, pos: nat, filePos: nat, buffer: Bytes, left: Bytes, begin: bool,
                  tail: Bytes)
    requires StillAhead(sum, file, start, pos, left, begin, tail)
    requires pos <= filePos <= |file| && buffer == file[pos..filePos] && |buffer| >= HEADER
    requires filePos <= pos - Offset(pos) + BLOCK
    ensures var n := Fits(Offset(pos), |left|);
            var t := FragmentType(begin, n == |left|);
            && (HEADER + n <= |buffer| ==>
                  && buffer[HEADER..HEADER + n] == left[..n]
                  && Delivered(sum, file, start, left, begin, tail, Fragment(t, left[..n]), pos + HEADER + n))
            && (HEADER + n > |buffer| ==>
                  && Offset(filePos) != 0
                  && (filePos == |file| ==> forall pos' :: Delivered(sum, file, start, left, begin, tail, Eof, pos')))
  {
    hide Fragments, Piece;
    var n := Fits(Offset(pos), |left|);
    var t := FragmentType(begin, n == |left|);
    PieceWithinBlock(pos, |left|);
    SameEnd(sum, file, start, pos, left, begin, tail);
    FrameIsNext(sum, pos, left, begin, tail);
    var frame := Frame(sum, t, left[..n]);
    var rest := (if n == |left| then [] else Fragments(sum, 0, left[n..], false)) + tail;
    if HEADER + n <= |buffer| {
      AgreesAfter(file, pos, frame, rest);
      PayloadIsHere(sum, t, left[..n], buffer, file, pos, filePos);
    } else {
      ShortReadInBlock(pos, filePos);
    }
  }

  lemma FramePayload(sum: Sum, t: Byte, payload: Bytes)
    requires |payload| < BLOCK
    ensures Frame(sum, t, payload)[HEADER..] == payload
  {
  }

  lemma PayloadIsHere(sum: Sum, t: Byte, payload: Bytes, buffer: Bytes, file: Bytes, pos: nat, filePos: nat)
    requires |payload| < BLOCK && pos + HEADER + |payload| <= filePos <= |file| && buffer == file[pos..filePos]
    requires file[pos..pos + HEADER + |payload|] == Frame(sum, t, payload)
    ensures buffer[HEADER..HEADER + |payload|] == payload
  {
    var end := HEADER + |payload|;
    var frame := file[pos..pos + end];
    hide Frame;
    assert buffer[..end] == frame;
    assert buffer[HEADER..end] == buffer[..end][HEADER..];
    FramePayload(sum, t, payload);
  }

  lemma HeaderAgrees(file: Bytes, pos: nat, filePos: nat, buffer: Bytes, frame: Bytes, rest: Bytes)
    requires Agrees(file, pos, frame + rest) && |frame| >= HEADER
    requires pos <= filePos <= |file| && buffer == file[pos..filePos] && |buffer| >= HEADER
    ensures buffer[..HEADER] == frame[..HEADER]
  {
    assert buffer[..HEADER] == file[pos..][..HEADER];
    assert (frame + rest)[..|file| - pos][..HEADER] == frame[..HEADER];
  }

  // ----- whole files -----

  // Write the records one after the other, closing and reopening the file wherever one likes.
  method WriteAll(sum: Sum, records: seq<Bytes>) returns (dest: Bytes)
    ensures dest == Encoded(sum, 0, records)
  {
    var w := new Writer(sum, []);
    StartOfFile(sum, records);
    hide Encoded, Fragments, Offset;
    for i := 0 to |records|
      invariant w.Valid() && fresh(w) && w.sum == sum
      invariant w.dest + Ahead(sum, |w.dest|, records, i) == Encoded(sum, 0, records)
    {
      var reopen: bool := *;
      if reopen {
        w := new Writer(sum, w.dest);
      }
      AheadSteps(sum, w.dest, records, i);
      w.AddRecord(records[i]);
    }
    AheadEnds(sum, w.dest, records);
    dest := w.dest;
  }

  // The bytes of the records from index `i` on, with the file standing at `pos`.
  function Ahead(sum: Sum, pos: nat, records: seq<Bytes>, i: nat): Bytes
    requires i <= |records|
  {
    Encoded(sum, Offset(pos), records[i..])
  }

  lemma StartOfFile(sum: Sum, records: seq<Bytes>)
    ensures [] + Ahead(sum, 0, records, 0) == Encoded(sum, 0, records)
  {
    assert records[0..] == records && Offset(0) == 0;
    hide Encoded;
    assert [] + Encoded(sum, 0, records) == Encoded(sum, 0, records);
  }

  lemma AheadSteps(sum: Sum, dest: Bytes, records: seq<Bytes>, i: nat)
    requires i < |records|
    ensures var dest' := dest + Fragments(sum, Offset(|dest|), records[i], true);
            dest + Ahead(sum, |dest|, records, i) == dest' + Ahead(sum, |dest'|, records, i + 1)
  {
    hide Encoded, Fragments, Offset;
    var dest' := dest + Fragments(sum, Offset(|dest|), records[i], true);
    assert records[i..][1..] == records[i + 1..];
    OffsetsAdd(|dest|, |Fragments(sum, Offset(|dest|), records[i], true)|);
    OneRecordMore(sum, dest, Offset(|dest|), records[i..], dest', Offset(|dest'|));
  }

  lemma AheadEnds(sum: Sum, dest: Bytes, records: seq<Bytes>)
    ensures dest + Ahead(sum, |dest|, records, |records|) == dest
  {
    assert records[|records|..] == [];
    assert Encoded(sum, Offset(|dest|), []) == [];
  }

  lemma JoinIsAssociative(a: Bytes, b: Bytes, c: Bytes)
    ensures a + (b + c) == a + b + c
  {
  }

  lemma FirstRecord(sum: Sum, off: nat, records: seq<Bytes>)
    requires off < BLOCK && records != []
    ensures var first := Fragments(sum, off, records[0], true);
            Encoded(sum, off, records) == first + Encoded(sum, Offset(off + |first|), records[1..])
  {
    hide Fragments;
  }

  lemma OneRecordMore(sum: Sum, before: Bytes, off: nat, records: seq<Bytes>, after: Bytes, off': nat)
    requires off < BLOCK && records != [] && after == before + Fragments(sum, off, records[0], true)
    requires off' == Offset(off + |Fragments(sum, off, records[0], true)|)
    ensures before + Encoded(sum, off, records) == after + Encoded(sum, off', records[1..])
  {
    FirstRecord(sum, off, records);
    JoinIsAssociative(before, Fragments(sum, off, records[0], true), Encoded(sum, off', records[1..]));
  }

  // The expected piece in the buffer is taken; one that is cut short ends the file.
  lemma FrameDelivered(sum: Sum, file: Bytes, start: nat, pos: nat, filePos: nat, eof: bool, buffer: Bytes,
                       left: Bytes, begin: bool, tail: Bytes, r: Physical, dropped: nat, dropped': nat, pos': nat)
    requires StillAhead(sum, file, start, pos, left, begin, tail)
    requires pos <= filePos <= |file| && buffer == file[pos..filePos] && |buffer| >= HEADER
    requires filePos <= pos - Offset(pos) + BLOCK && if eof then filePos == |file| else Offset(filePos) == 0
    requires Taken(sum, buffer, eof, r, dropped, dropped', pos, pos')
    ensures dropped' == dropped && Delivered(sum, file, start, left, begin, tail, r, pos')
  {
    PieceHeader(sum, file, start, pos, filePos, buffer, left, begin, tail);
    PieceBody(sum, file, start, pos, filePos, buffer, left, begin, tail);
    TypeIsNotZero(begin, Fits(Offset(pos), |left|) == |left|);
    hide Fragments, Delivered, StillAhead, DecodeFixed32, Unmask, Offset, Fits, FragmentType;
  }

  // Read until the reader says there is no more. From a log cut anywhere, exactly the records whose
  // last byte precedes the cut come back, in order, and no corruption is reported.
  method ReadAll(sum: Sum, file: Bytes, ghost records: seq<Bytes>, ghost cut: nat)
    returns (out: seq<Bytes>, dropped: nat)
    ensures cut <= |Encoded(sum, 0, records)| && file == Encoded(sum, 0, records)[..cut] ==>
              out == records[..Complete(sum, 0, records, cut)] && dropped == 0
  {
    ghost var clean := cut <= |Encoded(sum, 0, records)| && file == Encoded(sum, 0, records)[..cut];
    var reader := new Reader(sum, file);
    assert Offset(0) == 0;
    hide Offset, Encoded, Fragments, Agrees;
    if clean {
      CutAgrees(file, Encoded(sum, 0, records), cut);
    }
    out := [];
    ghost var left := records;
    var more := true;
    while more
      invariant reader.Valid() && fresh(reader) && reader.sum == sum && reader.file == file && (clean ==> |file| == cut)
      invariant clean ==> reader.dropped == 0 && Halfway(sum, file, reader.pos, records, out, left, cut, more)
      decreases more, |file| - reader.pos
    {
      ghost var before := reader.pos;
      var r := reader.ReadRecord(left);
      if clean {
        RecordRead(sum, file, before, records, out, left, cut, r, reader.pos);
      }
      if r.Some? {
        out := out + [r.value];
        left := if left == [] then [] else left[1..];
      } else {
        more := false;
      }
    }
    dropped := reader.dropped;
  }

  // `out` has been read, `left` lies ahead.
  ghost predicate Halfway(sum: Sum, file: Bytes, pos: nat, records: seq<Bytes>, out: seq<Bytes>, left: seq<Bytes>,
                          cut: nat, more: bool) {
    if more then
      && records == out + left && Agrees(file, pos, Encoded(sum, Offset(pos), left))
      && Complete(sum, 0, records, cut) == |out| + Complete(sum, pos, left, cut)
    else out == records[..Complete(sum, 0, records, cut)]
  }

  lemma CutAgrees(file: Bytes, whole: Bytes, cut: nat)
    requires cut <= |whole| && file == whole[..cut]
    ensures Agrees(file, 0, whole) && |file| == cut
  {
    assert file[0..] == file;
  }

  lemma RecordRead(sum: Sum, file: Bytes, pos: nat, records: seq<Bytes>, out: seq<Bytes>, left: seq<Bytes>, cut: nat,
                   r: Option<Bytes>, pos': nat)
    requires Halfway(sum, file, pos, records, out, left, cut, true) && |file| == cut
    requires NextRecord(sum, file, pos, left, r, pos')
    ensures if r.Some? then left != [] && Halfway(sum, file, pos', records, out + [r.value], left[1..], cut, true)
            else Halfway(sum, file, pos', records, out, left, cut, false)
  {
    hide Encoded, Fragments, Agrees;
    if r.Some? {
      assert out + [left[0]] + left[1..] == out + left;
    } else {
      assert Complete(sum, pos, left, cut) == 0;
      assert (out + left)[..|out|] == out;
    }
  }
}

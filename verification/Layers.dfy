/** The layers a read goes through, as values: memtable, immutable memtable, tables, and the
    ghost history of every entry ever written (db/db_impl.cc, db/memtable.cc). */
module Layers {
  import opened Wrappers
  import opened DbFormat
  import opened Versions
  import opened MemTables

  // `present` answers every question from `oldest` on as the full history of writes would.
  ghost predicate AnswersAs(present: set<Entry>, history: set<Entry>, oldest: SequenceNumber) {
    forall k, s: SequenceNumber :: s >= oldest ==> Lookup(present, k, s) == Lookup(history, k, s)
  }

  ghost function PresentIn(mem: seq<Entry>, imm: seq<Entry>, tables: set<Entry>): set<Entry> {
    AsSet(mem) + (AsSet(imm) + tables)
  }

  // The rows of the immutable memtable, if there is one.
  function MemRows(imm: Option<seq<Entry>>): seq<Entry> {
    if imm.Some? then imm.value else []
  }

  // Memtable over immutable memtable over tables, each layer newer than the next.
  ghost predicate Layered(mem: seq<Entry>, imm: seq<Entry>, tables: set<Entry>) {
    && Ascending(mem) && Ascending(imm)
    && NewerThan(AsSet(mem), AsSet(imm) + tables) && NewerThan(AsSet(imm), tables)
  }

  ghost predicate Recorded(present: set<Entry>, history: set<Entry>, last: SequenceNumber) {
    present <= history && UniqueVersions(history) && forall e :: e in history ==> e.key.sn <= last
  }

  // The layers hold nothing but recorded writes and, as long as no compaction dropped a tombstone
  // that shields a value, every read from `oldest` on is the read of the full history.
  ghost predicate Sound(mem: seq<Entry>, imm: seq<Entry>, tables: set<Entry>, history: set<Entry>,
                        last: SequenceNumber, oldest: SequenceNumber, intact: bool)
  {
    && Layered(mem, imm, tables)
    && Recorded(PresentIn(mem, imm, tables), history, last)
    && (intact ==> AnswersAs(PresentIn(mem, imm, tables), history, oldest))
  }

  lemma InsertIntoLayers(mem: seq<Entry>, older: set<Entry>, history: set<Entry>, last: SequenceNumber, e: Entry)
    requires Ascending(mem) && NewerThan(AsSet(mem), older) && Recorded(AsSet(mem) + older, history, last)
    requires last < e.key.sn
    ensures var mem' := Insert(mem, e);
            && Ascending(mem') && AsSet(mem') == AsSet(mem) + {e}
            && NewerThan(AsSet(mem'), older) && Recorded(AsSet(mem') + older, history + {e}, e.key.sn)
  {
    assert forall x :: x in mem ==> x in AsSet(mem) + older;
    assert AsSet(mem) + {e} <= history + {e};
    UniqueInPart(history + {e}, AsSet(mem) + {e});
    InsertSpec(mem, e);
  }

  // A new entry on top of both sides keeps them answering alike.
  lemma WriteAnswers(present: set<Entry>, history: set<Entry>, oldest: SequenceNumber, last: SequenceNumber, e: Entry)
    requires Recorded(present, history, last) && AnswersAs(present, history, oldest) && last < e.key.sn
    ensures AnswersAs({e} + present, {e} + history, oldest)
  {
    var newer := {e};
    assert UniqueVersions(newer + history);
    UniqueInPart(newer + history, newer + present);
    forall k, s: SequenceNumber | s >= oldest ensures Lookup(newer + present, k, s) == Lookup(newer + history, k, s) {
      SameUnderLayer(newer, present, history, k, s);
    }
  }

  lemma SoundAfterInsert(mem: seq<Entry>, imm: seq<Entry>, tables: set<Entry>, history: set<Entry>,
                         last: SequenceNumber, oldest: SequenceNumber, intact: bool, e: Entry)
    requires Sound(mem, imm, tables, history, last, oldest, intact) && last < e.key.sn
    ensures Sound(Insert(mem, e), imm, tables, history + {e}, e.key.sn, oldest, intact)
    ensures PresentIn(Insert(mem, e), imm, tables) == PresentIn(mem, imm, tables) + {e}
  {
    var present := PresentIn(mem, imm, tables);
    InsertIntoLayers(mem, AsSet(imm) + tables, history, last, e);
    assert PresentIn(Insert(mem, e), imm, tables) == {e} + present && history + {e} == {e} + history;
    if intact {
      WriteAnswers(present, history, oldest, last, e);
    }
  }

  lemma SoundLater(mem: seq<Entry>, imm: seq<Entry>, tables: set<Entry>, history: set<Entry>,
                   last: SequenceNumber, last': SequenceNumber, oldest: SequenceNumber, oldest': SequenceNumber,
                   intact: bool)
    requires Sound(mem, imm, tables, history, last, oldest, intact) && last <= last' && oldest <= oldest'
    ensures Sound(mem, imm, tables, history, last', oldest', intact)
  {
  }

  lemma SoundAfterSwitch(mem: seq<Entry>, tables: set<Entry>, history: set<Entry>,
                         last: SequenceNumber, oldest: SequenceNumber, intact: bool)
    requires Sound(mem, [], tables, history, last, oldest, intact)
    ensures Sound([], mem, tables, history, last, oldest, intact)
    ensures PresentIn([], mem, tables) == PresentIn(mem, [], tables)
  {
    assert PresentIn([], mem, tables) == PresentIn(mem, [], tables);
    assert AsSet([]) + tables == tables;
  }

  lemma SoundAfterFlush(mem: seq<Entry>, imm: seq<Entry>, tables: set<Entry>, tables': set<Entry>, history: set<Entry>,
                        last: SequenceNumber, oldest: SequenceNumber, intact: bool)
    requires Sound(mem, imm, tables, history, last, oldest, intact) && tables' == tables + AsSet(imm)
    ensures Sound(mem, [], tables', history, last, oldest, intact)
    ensures PresentIn(mem, [], tables') == PresentIn(mem, imm, tables)
  {
    assert AsSet([]) + tables' == AsSet(imm) + tables;
  }

  // Tables that answer alike may be exchanged under the memtables.
  lemma SoundAfterExchange(mem: seq<Entry>, imm: seq<Entry>, tables: set<Entry>, tables': set<Entry>,
                           history: set<Entry>,
                           last: SequenceNumber, oldest: SequenceNumber, intact: bool, intact': bool)
    requires Sound(mem, imm, tables, history, last, oldest, intact) && tables' <= tables
    requires intact' ==> intact && AnswersAs(tables', tables, oldest)
    ensures Sound(mem, imm, tables', history, last, oldest, intact')
    ensures PresentIn(mem, imm, tables') <= PresentIn(mem, imm, tables)
  {
    var present, present' := PresentIn(mem, imm, tables), PresentIn(mem, imm, tables');
    if intact' {
      var mems := AsSet(mem) + AsSet(imm);
      assert present == mems + tables && present' == mems + tables';
      UniqueInPart(history, present);
      UniqueInPart(history, present');
      forall k, s: SequenceNumber | s >= oldest ensures Lookup(present', k, s) == Lookup(history, k, s) {
        SameUnderLayer(mems, tables, tables', k, s);
      }
    }
  }

  // What the first hit on the way down says is what all layers together say.
  lemma ReadThrough(mem: seq<Entry>, imm: seq<Entry>, tables: set<Entry>, k: UserKey, s: SequenceNumber)
    requires Layered(mem, imm, tables) && UniqueVersions(PresentIn(mem, imm, tables))
    ensures var found := if RunGet(mem, k, s).Some? then RunGet(mem, k, s) else RunGet(imm, k, s);
            Lookup(PresentIn(mem, imm, tables), k, s) ==
            if found.None? then Lookup(tables, k, s)
            else if found.value.key.kind.Put? then Some(found.value.value) else None
  {
    UniqueInPart(PresentIn(mem, imm, tables), AsSet(imm) + tables);
    HitDecides(mem, AsSet(imm) + tables, k, s);
    HitDecides(imm, tables, k, s);
  }
}

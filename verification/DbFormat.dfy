/** Internal keys, their order, and what a lookup means on a bare set of entries
    (db/dbformat.h, db/dbformat.cc).

    User keys are integers: every comparator is a total order, every statement in this
    project is about finitely many keys, and any finite total order embeds in the integers. */
module DbFormat {
  import opened Wrappers

  type UserKey = int
  type Value = string

  const MAX_SEQUENCE: nat := 0xFF_FFFF_FFFF_FFFF // (1 << 56) - 1

  type SequenceNumber = s: nat | s <= MAX_SEQUENCE

  datatype Kind = Deletion | Put

  datatype InternalKey = InternalKey(ukey: UserKey, sn: SequenceNumber, kind: Kind)

  datatype Entry = Entry(key: InternalKey, value: Value)

  // The 64-bit trailer of an encoded internal key: sequence number above, type byte below.
  function Packed(k: InternalKey): nat {
    256 * k.sn + if k.kind.Put? then 1 else 0
  }

  // InternalKeyComparator::Compare(a, b) < 0: user keys ascend, trailers descend.
  predicate Less(a: InternalKey, b: InternalKey) {
    a.ukey < b.ukey || (a.ukey == b.ukey && Packed(a) > Packed(b))
  }

  predicate LessEq(a: InternalKey, b: InternalKey) {
    !Less(b, a)
  }

  // The key that LookupKey builds for reading `k` at snapshot `s`.
  function SeekKey(k: UserKey, s: SequenceNumber): InternalKey {
    InternalKey(k, s, Put)
  }

  // The order is total and its equality is equality of internal keys.
  lemma LessIsTotalOrder(a: InternalKey, b: InternalKey)
    ensures Less(a, b) || Less(b, a) <==> a != b
    ensures !(Less(a, b) && Less(b, a))
  {
    if a.ukey == b.ukey && Packed(a) == Packed(b) {
      assert a.sn == b.sn && a.kind == b.kind;
    }
  }

  // An entry sits at or after SeekKey(k, s) and carries user key k exactly when it is a
  // version of k visible at s.
  lemma SeekKeySplitsVersions(k: UserKey, s: SequenceNumber, e: InternalKey)
    requires e.ukey == k
    ensures Less(e, SeekKey(k, s)) <==> e.sn > s
  {
  }

  // A strictly ascending run of entries: one table, one memtable, or one merged input.
  ghost predicate Ascending(es: seq<Entry>) {
    forall i, j :: 0 <= i < j < |es| ==> Less(es[i].key, es[j].key)
  }

  ghost function AsSet(es: seq<Entry>): set<Entry> {
    set e | e in es
  }

  // No two entries share a user key and a sequence number.
  ghost predicate UniqueVersions(es: set<Entry>) {
    forall a, b :: a in es && b in es && a.key.ukey == b.key.ukey && a.key.sn == b.key.sn ==> a == b
  }

  lemma UniqueInPart(whole: set<Entry>, part: set<Entry>)
    requires UniqueVersions(whole) && part <= whole
    ensures UniqueVersions(part)
  {
  }

  // `e` is the newest version of `k` visible at snapshot `s`.
  ghost predicate Newest(es: set<Entry>, k: UserKey, s: SequenceNumber, e: Entry) {
    && e in es && e.key.ukey == k && e.key.sn <= s
    && forall x :: x in es && x.key.ukey == k && x.key.sn <= s ==> x.key.sn <= e.key.sn
  }

  // The specification every read path is measured against.
  ghost function Lookup(es: set<Entry>, k: UserKey, s: SequenceNumber): Option<Value> {
    if exists e :: Newest(es, k, s, e) then
      var e :| Newest(es, k, s, e);
      if e.key.kind.Put? then Some(e.value) else None
    else None
  }

  lemma LookupIs(es: set<Entry>, k: UserKey, s: SequenceNumber, e: Entry)
    requires UniqueVersions(es) && Newest(es, k, s, e)
    ensures Lookup(es, k, s) == if e.key.kind.Put? then Some(e.value) else None
  {
  }

  lemma LookupAbsent(es: set<Entry>, k: UserKey, s: SequenceNumber)
    requires forall x :: x in es && x.key.ukey == k ==> x.key.sn > s
    ensures Lookup(es, k, s) == None
  {
  }

  // A visible version exists exactly when a newest one does.
  lemma NewestExists(es: set<Entry>, k: UserKey, s: SequenceNumber, x: Entry)
    requires x in es && x.key.ukey == k && x.key.sn <= s
    ensures exists e :: Newest(es, k, s, e)
    decreases s - x.key.sn
  {
    if !Newest(es, k, s, x) {
      var y :| y in es && y.key.ukey == k && y.key.sn <= s && y.key.sn > x.key.sn;
      NewestExists(es, k, s, y);
    }
  }
}

/** The memtable as the skip list orders it (db/memtable.cc). */
module MemTables {
  import opened Wrappers
  import opened DbFormat
  import opened Versions

  // MemTable::Add: the entry takes its place in internal-key order.
  function Insert(es: seq<Entry>, e: Entry): seq<Entry> {
    var i := LowerBound(es, e.key);
    es[..i] + [e] + es[i..]
  }

  // Placing an entry between what sorts before it and what sorts after it keeps the order.
  lemma PlacedBetween(before: seq<Entry>, e: Entry, after: seq<Entry>)
    requires Ascending(before + after)
    requires forall x :: x in before ==> Less(x.key, e.key)
    requires forall x :: x in after ==> Less(e.key, x.key)
    ensures Ascending(before + [e] + after)
  {
    var r, es := before + [e] + after, before + after;
    var n := |before|;
    forall a, b | 0 <= a < b < |r| ensures Less(r[a].key, r[b].key) {
      assert a < n ==> r[a] == es[a] && r[a] in before;
      assert b > n ==> r[b] == es[b - 1] && r[b] in after;
      assert a > n ==> r[a] == es[a - 1];
      assert b < n ==> r[b] == es[b];
    }
  }

  lemma FollowsAll(es: seq<Entry>, e: Entry, i: nat, x: Entry)
    requires Ascending(es) && UniqueVersions(AsSet(es) + {e}) && e !in es
    requires i < |es| && !Less(es[i].key, e.key) && x in es[i..]
    ensures Less(e.key, x.key)
  {
    var j :| i <= j < |es| && es[j] == x;
    assert x in AsSet(es) + {e} && e in AsSet(es) + {e};
    LessIsTotalOrder(e.key, x.key);
    assert i < j ==> Less(es[i].key, x.key);
  }

  lemma RowsBetween(before: seq<Entry>, e: Entry, after: seq<Entry>)
    ensures AsSet(before + [e] + after) == AsSet(before + after) + {e}
  {
    var rows, rows' := AsSet(before + after), AsSet(before + [e] + after);
    assert forall x :: x in rows' <==> x in before || x == e || x in after;
    assert forall x :: x in rows <==> x in before || x in after;
  }

  // Adding a version the memtable does not hold yet adds exactly that row, in order.
  lemma InsertSpec(es: seq<Entry>, e: Entry)
    requires Ascending(es) && UniqueVersions(AsSet(es) + {e}) && e !in es
    ensures Ascending(Insert(es, e)) && AsSet(Insert(es, e)) == AsSet(es) + {e}
  {
    var i := LowerBound(es, e.key);
    var before, after := es[..i], es[i..];
    assert es == before + after;
    RowsBetween(before, e, after);
    forall x | x in after ensures Less(e.key, x.key) {
      FollowsAll(es, e, i, x);
    }
    PlacedBetween(before, e, after);
  }

  // ----- reading through two layers -----

  // A newer layer answers alone whenever it holds a visible version; otherwise the older one does.
  lemma LookupThroughLayers(newer: set<Entry>, older: set<Entry>, k: UserKey, s: SequenceNumber)
    requires NewerThan(newer, older) && UniqueVersions(newer + older)
    ensures (exists x :: x in newer && Visible(x, k, s)) ==> Lookup(newer + older, k, s) == Lookup(newer, k, s)
    ensures (forall x :: x in newer ==> !Visible(x, k, s)) ==> Lookup(newer + older, k, s) == Lookup(older, k, s)
  {
    var whole := newer + older;
    if x :| x in newer && Visible(x, k, s) {
      NewestExists(newer, k, s, x);
      var n :| Newest(newer, k, s, n);
      assert Newest(whole, k, s, n);
      LookupIs(whole, k, s, n);
      LookupIs(newer, k, s, n);
    } else if n :| Newest(older, k, s, n) {
      assert forall y :: y in whole && Visible(y, k, s) ==> y in older;
      assert Newest(whole, k, s, n);
      LookupIs(whole, k, s, n);
      LookupIs(older, k, s, n);
    } else {
      if n :| Newest(whole, k, s, n) {
        assert Visible(n, k, s);
        NewestExists(older, k, s, n);
      }
    }
  }

  // Two older layers that answer alike still do under a common newer one.
  lemma SameUnderLayer(newer: set<Entry>, a: set<Entry>, b: set<Entry>, k: UserKey, s: SequenceNumber)
    requires NewerThan(newer, a) && UniqueVersions(newer + a) && NewerThan(newer, b) && UniqueVersions(newer + b)
    requires Lookup(a, k, s) == Lookup(b, k, s)
    ensures Lookup(newer + a, k, s) == Lookup(newer + b, k, s)
  {
    LookupThroughLayers(newer, a, k, s);
    LookupThroughLayers(newer, b, k, s);
  }

  // What MemTable::Get reports: the newest visible version decides, even when it is a tombstone.
  lemma HitDecides(newer: seq<Entry>, older: set<Entry>, k: UserKey, s: SequenceNumber)
    requires Ascending(newer) && NewerThan(AsSet(newer), older) && UniqueVersions(AsSet(newer) + older)
    ensures match RunGet(newer, k, s)
            case Some(e) => Lookup(AsSet(newer) + older, k, s) == if e.key.kind.Put? then Some(e.value) else None
            case None => Lookup(AsSet(newer) + older, k, s) == Lookup(older, k, s)
  {
    RunGetIsNewest(newer, k, s);
    LookupThroughLayers(AsSet(newer), older, k, s);
    match RunGet(newer, k, s)
    case Some(e) =>
      assert Visible(e, k, s);
      assert UniqueVersions(AsSet(newer));
      LookupIs(AsSet(newer), k, s, e);
    case None =>
  }
}

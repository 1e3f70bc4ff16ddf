/** One shard of the block cache: reference counts, the two lists, eviction
    (util/cache.cc: LRUCache). Handles are named by numbers; the linked lists are sequences, the
    front of `lru` being its oldest entry. */
module LruCaches {
  import opened Wrappers
  import opened Coding
  import opened HandleTables

  datatype Handle = Handle(key: Bytes, value: Bytes, charge: nat, inCache: bool, refs: nat)

  // ----- lists of handles -----

  ghost predicate NoDup(ids: seq<nat>) {
    forall i, j :: 0 <= i < j < |ids| ==> ids[i] != ids[j]
  }

  // Unlinking a node.
  function Without(ids: seq<nat>, id: nat): seq<nat> {
    if ids == [] then []
    else if ids[|ids| - 1] == id then Without(ids[..|ids| - 1], id)
    else Without(ids[..|ids| - 1], id) + [ids[|ids| - 1]]
  }

  function ChargeAt(handles: map<nat, Handle>, id: nat): nat {
    if id in handles then handles[id].charge else 0
  }

  function Charge(handles: map<nat, Handle>, ids: seq<nat>): nat {
    if ids == [] then 0 else Charge(handles, ids[..|ids| - 1]) + ChargeAt(handles, ids[|ids| - 1])
  }

  lemma {:induction false} WithoutSpec(handles: map<nat, Handle>, ids: seq<nat>, id: nat)
    requires NoDup(ids)
    ensures NoDup(Without(ids, id)) && forall x :: x in Without(ids, id) <==> x in ids && x != id
    ensures Charge(handles, ids) == Charge(handles, Without(ids, id)) + if id in ids then ChargeAt(handles, id) else 0
    ensures id !in ids ==> Without(ids, id) == ids
  {
    if ids != [] {
      var n := |ids| - 1;
      var front, last := ids[..n], ids[n];
      WithoutSpec(handles, front, id);
      assert ids == front + [last];
      var rest := Without(front, id);
      if last != id {
        forall i | 0 <= i < |rest| ensures rest[i] != last {
          assert rest[i] in rest;
        }
        assert (rest + [last])[..|rest|] == rest;
      } else {
        assert id !in front;
      }
    }
  }

  lemma {:induction false} ChargeSame(a: map<nat, Handle>, b: map<nat, Handle>, ids: seq<nat>)
    requires forall id :: id in ids ==> ChargeAt(a, id) == ChargeAt(b, id)
    ensures Charge(a, ids) == Charge(b, ids)
  {
    if ids != [] {
      assert ids[|ids| - 1] in ids;
      ChargeSame(a, b, ids[..|ids| - 1]);
    }
  }

  lemma Appended(handles: map<nat, Handle>, ids: seq<nat>, id: nat)
    requires NoDup(ids) && id !in ids
    ensures NoDup(ids + [id]) && Charge(handles, ids + [id]) == Charge(handles, ids) + ChargeAt(handles, id)
  {
    assert (ids + [id])[..|ids|] == ids;
  }

  // ----- invariants -----

  // References are the clients' handles and the cache's own.
  ghost predicate RefsOk(handles: map<nat, Handle>, clients: multiset<nat>) {
    && (forall id :: id in handles ==>
        handles[id].refs > 0 && handles[id].refs == clients[id] + if handles[id].inCache then 1 else 0)
    && (forall id :: id in clients ==> id in handles)
  }

  // A cached handle is on exactly one list: unreferenced ones on `lru`, the others on `inUse`.
  ghost predicate ListsOk(handles: map<nat, Handle>, lru: seq<nat>, inUse: seq<nat>) {
    Listed(handles, lru, true) && Listed(handles, inUse, false)
  }

  predicate Belongs(handles: map<nat, Handle>, id: nat, idle: bool) {
    id in handles && handles[id].inCache && if idle then handles[id].refs == 1 else handles[id].refs >= 2
  }

  ghost predicate Listed(handles: map<nat, Handle>, ids: seq<nat>, idle: bool) {
    NoDup(ids) && forall id :: id in ids <==> Belongs(handles, id, idle)
  }

  ghost predicate TableOk(handles: map<nat, Handle>, contents: map<Bytes, nat>) {
    && (forall k :: k in contents ==>
        contents[k] in handles && handles[contents[k]].inCache && handles[contents[k]].key == k)
    && (forall id :: id in handles && handles[id].inCache ==>
        handles[id].key in contents && contents[handles[id].key] == id)
  }

  // Every handle ever made is either alive or was deleted, once.
  ghost predicate DeletedOk(handles: map<nat, Handle>, deleted: seq<nat>, nextId: nat) {
    && NoDup(deleted)
    && (forall id: nat :: id in handles || id in deleted <==> id < nextId)
    && (forall id :: id in deleted ==> id !in handles)
  }

  ghost predicate UsageOk(handles: map<nat, Handle>, lru: seq<nat>, inUse: seq<nat>, usage: nat) {
    usage == Charge(handles, lru) + Charge(handles, inUse)
  }

  // ----- one handle changes -----

  // Key, charge and membership stay: only the reference count moves.
  ghost predicate OnlyRefs(h: Handle, h': Handle) {
    h' == h.(refs := h'.refs)
  }

  lemma TableKept(handles: map<nat, Handle>, contents: map<Bytes, nat>, id: nat, h': Handle)
    requires TableOk(handles, contents) && id in handles && OnlyRefs(handles[id], h')
    ensures TableOk(handles[id := h'], contents)
  {
    var handles' := handles[id := h'];
    forall k | k in contents
        ensures contents[k] in handles' && handles'[contents[k]].inCache && handles'[contents[k]].key == k {
      assert contents[k] in handles;
    }
  }

  lemma DeletedKept(handles: map<nat, Handle>, deleted: seq<nat>, nextId: nat, id: nat, h': Handle)
    requires DeletedOk(handles, deleted, nextId) && id in handles
    ensures DeletedOk(handles[id := h'], deleted, nextId)
  {
  }

  // What a change to one handle asks of a list: nothing, a new last element, or a removal.
  lemma ListStays(handles: map<nat, Handle>, handles': map<nat, Handle>, ids: seq<nat>, id: nat, idle: bool)
    requires Listed(handles, ids, idle) && SameElse(handles, handles', id)
    requires Belongs(handles, id, idle) == Belongs(handles', id, idle)
    requires Belongs(handles, id, idle) ==> handles'[id].charge == handles[id].charge
    ensures Listed(handles', ids, idle) && Charge(handles', ids) == Charge(handles, ids)
  {
    ChargeSame(handles, handles', ids);
  }

  lemma ListGrows(handles: map<nat, Handle>, handles': map<nat, Handle>, ids: seq<nat>, id: nat, idle: bool)
    requires Listed(handles, ids, idle) && SameElse(handles, handles', id) && !Belongs(handles, id, idle)
    requires Belongs(handles', id, idle)
    ensures Listed(handles', ids + [id], idle)
    ensures Charge(handles', ids + [id]) == Charge(handles, ids) + handles'[id].charge
  {
    ChargeSame(handles, handles', ids);
    Appended(handles', ids, id);
  }

  lemma ListShrinks(handles: map<nat, Handle>, handles': map<nat, Handle>, ids: seq<nat>, id: nat, idle: bool)
    requires Listed(handles, ids, idle) && SameElse(handles, handles', id) && !Belongs(handles', id, idle)
    ensures Listed(handles', Without(ids, id), idle)
    ensures Charge(handles', Without(ids, id)) ==
        Charge(handles, ids) - if Belongs(handles, id, idle) then handles[id].charge else 0
    ensures !Belongs(handles, id, idle) ==> Without(ids, id) == ids
  {
    WithoutSpec(handles, ids, id);
    ChargeSame(handles, handles', Without(ids, id));
  }

  // A handle crosses from one list to the other as its only client comes or goes.
  function ToInUse(h: Handle): bool {
    h.refs == 1 && h.inCache
  }

  lemma ReferencedLists(handles: map<nat, Handle>, lru: seq<nat>, inUse: seq<nat>, usage: nat, id: nat)
    requires ListsOk(handles, lru, inUse) && UsageOk(handles, lru, inUse, usage) && id in handles
    requires handles[id].refs > 0
    ensures var h := handles[id];
            var handles' := handles[id := h.(refs := h.refs + 1)];
            var inUse' := if ToInUse(h) then inUse + [id] else inUse;
            && ListsOk(handles', Without(lru, id), inUse') && UsageOk(handles', Without(lru, id), inUse', usage)
            && (!ToInUse(h) ==> Without(lru, id) == lru)
  {
    hide Listed, Without, Charge, SameElse;
    var h := handles[id];
    var handles' := handles[id := h.(refs := h.refs + 1)];
    OneUpdated(handles, id, handles'[id]);
    ListShrinks(handles, handles', lru, id, true);
    if ToInUse(h) {
      ListGrows(handles, handles', inUse, id, false);
    } else {
      ListStays(handles, handles', inUse, id, false);
    }
  }

  lemma ReleasedLists(handles: map<nat, Handle>, lru: seq<nat>, inUse: seq<nat>, usage: nat, id: nat)
    requires ListsOk(handles, lru, inUse) && UsageOk(handles, lru, inUse, usage) && id in handles
    requires handles[id].refs > 1
    ensures var h := handles[id];
            var h' := h.(refs := h.refs - 1);
            var handles' := handles[id := h'];
            var lru' := if ToInUse(h') then lru + [id] else lru;
            var inUse' := if ToInUse(h') then Without(inUse, id) else inUse;
            ListsOk(handles', lru', inUse') && UsageOk(handles', lru', inUse', usage)
  {
    hide Listed, Without, Charge, SameElse;
    var h' := handles[id].(refs := handles[id].refs - 1);
    var handles' := handles[id := h'];
    OneUpdated(handles, id, h');
    if ToInUse(h') {
      ListGrows(handles, handles', lru, id, true);
      ListShrinks(handles, handles', inUse, id, false);
    } else {
      ListStays(handles, handles', lru, id, true);
      ListStays(handles, handles', inUse, id, false);
    }
  }

  // A handle on no list disappears.
  lemma FreedLists(handles: map<nat, Handle>, lru: seq<nat>, inUse: seq<nat>, usage: nat, id: nat)
    requires ListsOk(handles, lru, inUse) && UsageOk(handles, lru, inUse, usage) && id in handles
    requires !handles[id].inCache
    ensures ListsOk(handles - {id}, lru, inUse) && UsageOk(handles - {id}, lru, inUse, usage)
  {
    hide Listed, Without, Charge, SameElse;
    OneRemoved(handles, id);
    ListStays(handles, handles - {id}, lru, id, true);
    ListStays(handles, handles - {id}, inUse, id, false);
  }

  // A cached handle leaves the cache: off its list, its charge given back, gone if it was the last
  // reference.
  lemma ErasedLists(handles: map<nat, Handle>, lru: seq<nat>, inUse: seq<nat>, usage: nat, id: nat)
    requires ListsOk(handles, lru, inUse) && UsageOk(handles, lru, inUse, usage)
    requires id in handles && handles[id].inCache && handles[id].refs > 0
    ensures handles[id].charge <= usage
    ensures var h' := handles[id].(inCache := false, refs := handles[id].refs - 1);
            var handles' := if h'.refs == 0 then handles - {id} else handles[id := h'];
            && ListsOk(handles', Without(lru, id), Without(inUse, id))
            && UsageOk(handles', Without(lru, id), Without(inUse, id), usage - handles[id].charge)
            && SameElse(handles, handles', id)
  {
    hide Listed, Without, Charge, SameElse;
    var h' := handles[id].(inCache := false, refs := handles[id].refs - 1);
    var handles' := if h'.refs == 0 then handles - {id} else handles[id := h'];
    OneUpdated(handles, id, h');
    OneRemoved(handles, id);
    ListShrinks(handles, handles', lru, id, true);
    ListShrinks(handles, handles', inUse, id, false);
  }

  lemma FreedTable(handles: map<nat, Handle>, contents: map<Bytes, nat>, deleted: seq<nat>, nextId: nat, id: nat)
    requires TableOk(handles, contents) && DeletedOk(handles, deleted, nextId) && id in handles && !handles[id].inCache
    ensures TableOk(handles - {id}, contents) && DeletedOk(handles - {id}, deleted + [id], nextId)
  {
  }

  // The table agrees with the cached handles apart from `id`, which it no longer leads to.
  ghost predicate TableExcept(handles: map<nat, Handle>, contents: map<Bytes, nat>, id: nat) {
    && (forall k :: k in contents ==>
        contents[k] in handles && contents[k] != id && handles[contents[k]].inCache && handles[contents[k]].key == k)
    && (forall other :: other in handles && other != id && handles[other].inCache ==>
        handles[other].key in contents && contents[handles[other].key] == other)
  }

  lemma RemovedFromTable(handles: map<nat, Handle>, contents: map<Bytes, nat>, key: Bytes)
    requires TableOk(handles, contents) && key in contents
    ensures contents[key] in handles && handles[contents[key]].inCache && handles[contents[key]].key == key
    ensures TableExcept(handles, contents - {key}, contents[key])
  {
  }

  // Uncaching and dropping the cache's reference.
  lemma Uncached(handles: map<nat, Handle>, contents: map<Bytes, nat>, clients: multiset<nat>, deleted: seq<nat>,
                 nextId: nat, id: nat)
    requires TableExcept(handles, contents, id) && RefsOk(handles, clients) && DeletedOk(handles, deleted, nextId)
    requires id in handles && handles[id].inCache
    ensures handles[id].refs > 0
    ensures var h' := handles[id].(inCache := false, refs := handles[id].refs - 1);
            if h'.refs == 0 then
              && TableOk(handles - {id}, contents) && RefsOk(handles - {id}, clients)
              && DeletedOk(handles - {id}, deleted + [id], nextId)
            else
              && TableOk(handles[id := h'], contents) && RefsOk(handles[id := h'], clients)
              && DeletedOk(handles[id := h'], deleted, nextId)
  {
  }

  // The deleter of `id` runs when the reference being dropped is the last one.
  function IfLast(handles: map<nat, Handle>, id: nat): seq<nat> {
    if id in handles && handles[id].refs == 1 then [id] else []
  }

  // What the cache's letting go of `id` does to the handles, the deleters run and the LRU list.
  ghost predicate Dropped(handles: map<nat, Handle>, deleted: seq<nat>, lru: seq<nat>, id: nat,
                          handles': map<nat, Handle>, deleted': seq<nat>, lru': seq<nat>) {
    && id in handles && SameElse(handles, handles', id) && lru' == Without(lru, id)
    && deleted' == deleted + IfLast(handles, id) && (id in handles' <==> handles[id].refs != 1)
  }

  lemma DropDone(handles: map<nat, Handle>, deleted: seq<nat>, lru: seq<nat>, id: nat)
    requires id in handles && handles[id].refs > 0
    ensures var h' := handles[id].(inCache := false, refs := handles[id].refs - 1);
            if h'.refs == 0 then Dropped(handles, deleted, lru, id, handles - {id}, deleted + [id], Without(lru, id))
            else Dropped(handles, deleted, lru, id, handles[id := h'], deleted, Without(lru, id))
  {
    hide Without;
  }

  // The oldest entry of the LRU list.
  lemma OldestIsCached(handles: map<nat, Handle>, lru: seq<nat>, inUse: seq<nat>)
    requires ListsOk(handles, lru, inUse) && lru != []
    ensures lru[0] in handles && handles[lru[0]].inCache && handles[lru[0]].refs == 1
    ensures Without(lru, lru[0]) == lru[1..] && Without(inUse, lru[0]) == inUse
  {
    var id := lru[0];
    assert id in lru;
    WithoutFirst(lru);
    assert id !in inUse;
    WithoutSpec(handles, inUse, id);
  }

  lemma {:induction false} WithoutFirst(ids: seq<nat>)
    requires NoDup(ids) && ids != []
    ensures Without(ids, ids[0]) == ids[1..]
  {
    var n := |ids| - 1;
    if n > 0 {
      WithoutFirst(ids[..n]);
      assert ids[1..] == ids[..n][1..] + [ids[n]];
    } else {
      assert Without(ids[..0], ids[0]) == [];
    }
  }

  // A fresh handle, cached or not.
  lemma Added(handles: map<nat, Handle>, clients: multiset<nat>, deleted: seq<nat>, nextId: nat, h: Handle)
    requires RefsOk(handles, clients) && DeletedOk(handles, deleted, nextId) && h.refs == 1 + if h.inCache then 1 else 0
    ensures nextId !in handles
    ensures RefsOk(handles[nextId := h], clients + multiset{nextId})
    ensures DeletedOk(handles[nextId := h], deleted, nextId + 1)
  {
    assert nextId !in handles;
  }

  lemma AddedToLists(handles: map<nat, Handle>, lru: seq<nat>, inUse: seq<nat>, usage: nat, id: nat, h: Handle)
    requires ListsOk(handles, lru, inUse) && UsageOk(handles, lru, inUse, usage) && id !in handles
    requires h.refs == 1 + if h.inCache then 1 else 0
    ensures var inUse' := if h.inCache then inUse + [id] else inUse;
            && ListsOk(handles[id := h], lru, inUse')
            && UsageOk(handles[id := h], lru, inUse', if h.inCache then usage + h.charge else usage)
  {
    hide Listed, Without, Charge, SameElse;
    var handles' := handles[id := h];
    OneUpdated(handles, id, h);
    ListStays(handles, handles', lru, id, true);
    if h.inCache {
      ListGrows(handles, handles', inUse, id, false);
    } else {
      ListStays(handles, handles', inUse, id, false);
    }
  }

  // The table after the new handle replaced the one of the same key, if any.
  lemma AddedToTable(handles: map<nat, Handle>, contents: map<Bytes, nat>, id: nat, h: Handle)
    requires TableOk(handles, contents) && id !in handles && h.inCache
    ensures if h.key in contents then
              && contents[h.key] in handles && handles[contents[h.key]].inCache
              && TableExcept(handles[id := h], contents[h.key := id], contents[h.key])
            else TableOk(handles[id := h], contents[h.key := id])
  {
  }

  lemma NotAddedToTable(handles: map<nat, Handle>, contents: map<Bytes, nat>, id: nat, h: Handle)
    requires TableOk(handles, contents) && id !in handles && !h.inCache
    ensures TableOk(handles[id := h], contents)
  {
  }

  lemma RefsGrow(handles: map<nat, Handle>, clients: multiset<nat>, id: nat)
    requires RefsOk(handles, clients) && id in handles
    ensures handles[id].refs > 0
    ensures RefsOk(handles[id := handles[id].(refs := handles[id].refs + 1)], clients + multiset{id})
  {
  }

  lemma RefsShrink(handles: map<nat, Handle>, clients: multiset<nat>, id: nat)
    requires RefsOk(handles, clients) && clients[id] > 0
    ensures id in handles && handles[id].refs > 0
    ensures var h := handles[id].(refs := handles[id].refs - 1);
            var clients' := clients - multiset{id};
            && (h.refs > 0 ==> RefsOk(handles[id := h], clients'))
            && (h.refs == 0 ==> RefsOk(handles - {id}, clients') && !h.inCache)
  {
  }

  class LRUCache {
    var capacity: nat
    var usage: nat
    var lru: seq<nat>
    var inUse: seq<nat>
    const table: HandleTable
    var handles: map<nat, Handle>
    var nextId: nat
    var deleted: seq<nat>            // the order in which deleters ran
    ghost var clients: multiset<nat> // handles clients have not released

    ghost predicate Valid()
      reads this, table
    {
      && table.Valid() && RefsOk(handles, clients) && ListsOk(handles, lru, inUse)
      && UsageOk(handles, lru, inUse, usage)
      && TableOk(handles, table.contents) && DeletedOk(handles, deleted, nextId)
    }

    constructor (capacity: nat, hash: Hash)
      ensures Valid() && fresh(table) && handles == map[] && deleted == [] && clients == multiset{}
      ensures this.capacity == capacity && usage == 0 && table.contents == map[]
    {
      this.capacity := capacity;
      usage, lru, inUse, handles, nextId, deleted, clients := 0, [], [], map[], 0, [], multiset{};
      table := new HandleTable(hash);
    }

    // Ref, for one more client.
    method Ref(id: nat)
      requires Valid() && id in handles
      modifies this`lru, this`inUse, this`handles, this`clients
      ensures Valid() && clients == old(clients) + multiset{id} && lru == Without(old(lru), id)
      ensures handles == old(handles)[id := old(handles)[id].(refs := old(handles)[id].refs + 1)]
    {
      hide ListsOk, UsageOk, TableOk, DeletedOk, RefsOk, Without, HandleTable.Valid, Charge, Listed, NoDup;
      var h := handles[id];
      RefsGrow(handles, clients, id);
      ReferencedLists(handles, lru, inUse, usage, id);
      TableKept(handles, table.contents, id, h.(refs := h.refs + 1));
      DeletedKept(handles, deleted, nextId, id, h.(refs := h.refs + 1));
      if h.refs == 1 && h.inCache {
        lru := Without(lru, id);
        inUse := inUse + [id];
      }
      handles := handles[id := h.(refs := h.refs + 1)];
      clients := clients + multiset{id};
    }

    method Lookup(key: Bytes) returns (r: Option<nat>)
      requires Valid()
      modifies this`lru, this`inUse, this`handles, this`clients
      ensures Valid() && r == if key in table.contents then Some(table.contents[key]) else None
      ensures clients == old(clients) + if r.Some? then multiset{r.value} else multiset{}
      ensures r.None? ==> handles == old(handles) && lru == old(lru)
      ensures r.Some? ==> r.value in old(handles) && old(handles)[r.value].key == key
      ensures r.Some? ==> lru == Without(old(lru), r.value)
      ensures r.Some? ==>
                handles == old(handles)[r.value := old(handles)[r.value].(refs := old(handles)[r.value].refs + 1)]
    {
      r := table.Lookup(key);
      if r.Some? {
        TableHas(handles, table.contents, key);
        hide ListsOk, UsageOk, TableOk, DeletedOk, RefsOk, Without, HandleTable.Valid;
        Ref(r.value);
      }
    }

    // Unref of a handle that is off the lists, or of a client's reference: at zero the deleter runs.
    method Release(id: nat)
      requires Valid() && clients[id] > 0
      modifies this`lru, this`inUse, this`handles, this`clients, this`deleted
      ensures Valid() && clients == old(clients) - multiset{id} && usage == old(usage)
      ensures deleted == old(deleted) + IfLast(old(handles), id)
      ensures id in handles <==> old(handles)[id].refs > 1
      ensures lru == old(lru) + if old(handles)[id].inCache && old(handles)[id].refs == 2 then [id] else []
      ensures SameElse(old(handles), handles, id)
      ensures (id in handles ==> handles[id] == old(handles)[id].(refs := old(handles)[id].refs - 1))
    {
      hide ListsOk, UsageOk, TableOk, DeletedOk, RefsOk, Without, HandleTable.Valid, Charge, Listed, NoDup, SameElse;
      RefsShrink(handles, clients, id);
      var h := handles[id].(refs := handles[id].refs - 1);
      OneUpdated(handles, id, h);
      OneRemoved(handles, id);
      clients := clients - multiset{id};
      if h.refs == 0 {
        FreedLists(handles, lru, inUse, usage, id);
        FreedTable(handles, table.contents, deleted, nextId, id);
        deleted := deleted + [id];
        handles := handles - {id};
      } else {
        ReleasedLists(handles, lru, inUse, usage, id);
        TableKept(handles, table.contents, id, h);
        DeletedKept(handles, deleted, nextId, id, h);
        handles := handles[id := h];
        if h.inCache && h.refs == 1 {
          inUse := Without(inUse, id);
          lru := lru + [id];
        }
      }
    }

    // FinishErase: off its list, uncached, charge returned, the cache's reference dropped.
    method FinishErase(id: nat)
      requires table.Valid() && RefsOk(handles, clients) && ListsOk(handles, lru, inUse)
      requires UsageOk(handles, lru, inUse, usage)
      requires DeletedOk(handles, deleted, nextId) && id in handles && handles[id].inCache
      requires TableExcept(handles, table.contents, id)
      modifies this`lru, this`inUse, this`handles, this`usage, this`deleted
      ensures Valid() && inUse == Without(old(inUse), id) && usage + old(handles)[id].charge == old(usage)
      ensures Dropped(old(handles), old(deleted), old(lru), id, handles, deleted, lru)
      ensures id in handles ==> handles[id] == old(handles)[id].(inCache := false, refs := old(handles)[id].refs - 1)
    {
      hide ListsOk, UsageOk, TableOk, DeletedOk, RefsOk, Without, HandleTable.Valid, Charge, Listed, NoDup,
          TableExcept, SameElse, Dropped, IfLast;
      Uncached(handles, table.contents, clients, deleted, nextId, id);
      ErasedLists(handles, lru, inUse, usage, id);
      var h := handles[id];
      var h' := h.(inCache := false, refs := h.refs - 1);
      DropDone(handles, deleted, lru, id);
      lru, inUse := Without(lru, id), Without(inUse, id);
      usage := usage - h.charge;
      if h'.refs == 0 {
        deleted := deleted + [id];
        handles := handles - {id};
      } else {
        handles := handles[id := h'];
      }
    }

    method Erase(key: Bytes)
      requires Valid()
      modifies this`lru, this`inUse, this`handles, this`usage, this`deleted, table
      ensures Valid() && key !in table.contents && table.contents == old(table.contents) - {key}
      ensures key !in old(table.contents) ==> handles == old(handles) && deleted == old(deleted) && lru == old(lru)
      ensures key in old(table.contents) ==>
                Dropped(old(handles), old(deleted), old(lru), old(table.contents)[key], handles, deleted, lru)
    {
      hide ListsOk, UsageOk, DeletedOk, RefsOk, Without, HandleTable.Valid, Charge, Listed, NoDup;
      ghost var contents := table.contents;
      if key in table.contents {
        RemovedFromTable(handles, table.contents, key);
      }
      var e := table.Remove(key);
      if e.Some? {
        FinishErase(e.value);
      } else {
        assert table.contents == contents;
      }
    }

    // Evict the oldest unreferenced entry: its deleter runs.
    method EvictOldest()
      requires Valid() && lru != []
      modifies this`lru, this`inUse, this`handles, this`usage, this`deleted, table
      ensures Valid() && lru == old(lru)[1..] && inUse == old(inUse) && deleted == old(deleted) + [old(lru)[0]]
      ensures old(lru)[0] in old(handles) && usage + old(handles)[old(lru)[0]].charge == old(usage)
      ensures SameElse(old(handles), handles, old(lru)[0]) && old(lru)[0] !in handles
    {
      OldestIsCached(handles, lru, inUse);
      var id := lru[0];
      TableLeadsTo(handles, table.contents, id);
      RemovedFromTable(handles, table.contents, handles[id].key);
      hide ListsOk, UsageOk, TableOk, DeletedOk, RefsOk, Without, HandleTable.Valid, Charge, Listed, NoDup, TableExcept;
      var e := table.Remove(handles[id].key);
      FinishErase(id);
    }

    // The loop that ends Insert: oldest first, and never once the charge fits.
    method EvictToFit(ghost id: nat)
      requires Valid() && id in handles && handles[id].refs == if handles[id].inCache then 2 else 1
      modifies this`lru, this`inUse, this`handles, this`usage, this`deleted, table
      ensures Valid() && id in handles && handles[id] == old(handles)[id]
      ensures usage <= capacity || lru == []
      ensures EvictedFor(old(handles), old(lru), old(deleted), handles, lru, deleted, usage, capacity)
      ensures Balanced(old(handles), old(lru), old(usage), handles, lru, usage)
    {
      hide ListsOk, UsageOk, TableOk, DeletedOk, RefsOk, Without, HandleTable.Valid, Charge, Listed, NoDup,
          TableExcept, SameElse, EvictedFor, Balanced;
      NothingEvicted(handles, lru, deleted, usage, capacity);
      NothingGone(handles, lru, usage);
      while usage > capacity && lru != []
        invariant Valid() && id in handles && handles[id] == old(handles)[id]
        invariant EvictedFor(old(handles), old(lru), old(deleted), handles, lru, deleted, usage, capacity)
        invariant Balanced(old(handles), old(lru), old(usage), handles, lru, usage)
        decreases |lru|
      {
        NotTheNewest(handles, lru, inUse, id);
        ghost var h, l, d, u := handles, lru, deleted, usage;
        EvictOldest();
        OneMoreGone(old(handles), old(lru), old(deleted), old(usage), h, l, d, u, handles, lru, usage, capacity);
        OneMoreEvicted(old(handles), old(lru), old(deleted), h, l, d, u, handles, lru, deleted, usage, capacity);
        ElseKept(h, handles, l[0], id);
      }
    }

    // Insert: the new handle is in use by the caller; an entry of the same key is dropped; then
    // entries are evicted, oldest first and no more than needed, until the charge fits or nothing
    // is left to evict.
    method Insert(key: Bytes, value: Bytes, charge: nat) returns (id: nat)
      requires Valid()
      modifies this`lru, this`inUse, this`handles, this`usage, this`deleted, this`nextId, this`clients, table
      ensures Valid() && clients == old(clients) + multiset{id} && id == old(nextId)
      ensures id in handles
      ensures handles[id] == Handle(key, value, charge, capacity > 0, if capacity > 0 then 2 else 1)
      ensures usage <= capacity || lru == []
      ensures capacity > 0 ==> key in table.contents && table.contents[key] == id
      ensures var replaced := if capacity > 0 && key in old(table.contents) then Some(old(table.contents)[key])
                              else None;
              var start := if replaced.Some? then Without(old(lru), replaced.value) else old(lru);
              InsertedAs(old(handles), old(table.contents), start, old(usage), handles, table.contents, lru, usage,
                         key, id, replaced, if capacity > 0 then charge else 0)
      ensures var replacing := capacity > 0 && key in old(table.contents);
              var start := if replacing then Without(old(lru), old(table.contents)[key]) else old(lru);
              var gone := if replacing then old(deleted) + IfLast(old(handles), old(table.contents)[key])
                          else old(deleted);
              EvictedFor(old(handles), start, gone, handles, lru, deleted, usage, capacity)
    {
      hide ListsOk, UsageOk, TableOk, DeletedOk, RefsOk, Without, HandleTable.Valid, Charge, Listed, NoDup,
          TableExcept, SameElse, EvictedFor, Balanced, InsertedAs;
      id := nextId;
      var e := Handle(key, value, charge, capacity > 0, if capacity > 0 then 2 else 1);
      Added(handles, clients, deleted, nextId, e);
      AddedToLists(handles, lru, inUse, usage, nextId, e);
      ghost var before, contents, oldLru, oldInUse, oldUsage := handles, table.contents, lru, inUse, usage;
      ghost var replaced: Option<nat> := None;
      assert TableOk(handles, table.contents) && id !in handles;
      clients := clients + multiset{id};
      nextId := nextId + 1;
      handles := handles[id := e];
      if capacity > 0 {
        AddedToTable(before, contents, id, e);
        inUse := inUse + [id];
        usage := usage + charge;
        var old' := table.Insert(key, id);
        if old'.Some? {
          FinishErase(old'.value);
          ElseKept(before[id := e], handles, old'.value, id);
          StartChargesReplaced(before, oldLru, oldInUse, id, e, handles, old'.value);
          replaced := old';
        } else {
          StartCharges(before, oldLru, oldInUse, id, e, handles, lru);
          AllKept(before[id := e]);
        }
      } else {
        NotAddedToTable(before, contents, id, e);
        StartCharges(before, oldLru, oldInUse, id, e, handles, lru);
        AllKept(before[id := e]);
      }
      ghost var start, gone, h, u := lru, deleted, handles, usage;
      EvictToFit(id);
      ChargesAgree(before, start, gone, h, handles, lru, deleted, usage, capacity);
      InsertIsDone(before, contents, oldUsage, id, e, replaced, h, start, u, handles, table.contents, lru, usage);
      if capacity > 0 {
        TableLeadsTo(handles, table.contents, id);
      }
    }

    // Prune: everything no client holds goes, oldest first.
    method Prune()
      requires Valid()
      modifies this`lru, this`inUse, this`handles, this`usage, this`deleted, table
      ensures Valid() && lru == [] && inUse == old(inUse) && deleted == old(deleted) + old(lru)
    {
      hide ListsOk, UsageOk, TableOk, DeletedOk, RefsOk, Without, HandleTable.Valid, Charge, Listed, NoDup;
      while lru != []
        invariant Valid() && inUse == old(inUse) && deleted + lru == old(deleted) + old(lru)
        decreases |lru|
      {
        ghost var before := deleted + lru;
        assert lru == [lru[0]] + lru[1..];
        EvictOldest();
        assert deleted + lru == before;
      }
    }
  }

  ghost predicate SameElse(before: map<nat, Handle>, after: map<nat, Handle>, id: nat) {
    forall other :: other != id ==> (other in after <==> other in before) && (other in after ==>
        after[other] == before[other])
  }

  lemma OneUpdated(handles: map<nat, Handle>, id: nat, h: Handle)
    ensures SameElse(handles, handles[id := h], id)
  {
  }

  lemma OneRemoved(handles: map<nat, Handle>, id: nat)
    requires id in handles
    ensures SameElse(handles, handles - {id}, id)
  {
  }

  lemma ElseKept(before: map<nat, Handle>, after: map<nat, Handle>, id: nat, other: nat)
    requires SameElse(before, after, id) && other in before && other != id
    ensures other in after && after[other] == before[other]
  {
  }

  // The front of the list was evicted, its deleters run in order, and the last eviction was needed.
  ghost predicate EvictedFor(handles: map<nat, Handle>, lru: seq<nat>, deleted: seq<nat>,
                             handles': map<nat, Handle>, lru': seq<nat>, deleted': seq<nat>, usage': nat,
                             capacity: nat)
  {
    && |lru'| <= |lru| && lru' == lru[|lru| - |lru'|..]
    && deleted' == deleted + lru[..|lru| - |lru'|]
    && (forall id :: id in lru' ==> ChargeAt(handles', id) == ChargeAt(handles, id))
    && (|lru'| < |lru| ==> usage' + ChargeAt(handles, lru[|lru| - |lru'| - 1]) > capacity)
  }

  lemma NothingEvicted(handles: map<nat, Handle>, lru: seq<nat>, deleted: seq<nat>, usage: nat, capacity: nat)
    ensures EvictedFor(handles, lru, deleted, handles, lru, deleted, usage, capacity)
  {
  }

  // The entries evicted are gone, the others untouched, and the usage is less by their charges.
  ghost predicate Balanced(handles: map<nat, Handle>, lru: seq<nat>, usage: nat, handles': map<nat, Handle>,
                           lru': seq<nat>, usage': nat)
  {
    && |lru'| <= |lru|
    && var gone := lru[..|lru| - |lru'|];
       && usage' + Charge(handles, gone) == usage
       && (forall other :: other in gone ==> other !in handles')
       && forall other :: other !in gone ==> KeptAt(handles, handles', other)
  }

  predicate KeptAt(handles: map<nat, Handle>, handles': map<nat, Handle>, id: nat) {
    (id in handles' <==> id in handles) && (id in handles' ==> handles'[id] == handles[id])
  }

  // All handles but the new, the replaced and the evicted ones are what they were.
  ghost predicate OthersKept(before: map<nat, Handle>, handles: map<nat, Handle>, id: nat, replaced: Option<nat>,
                             gone: seq<nat>)
  {
    forall other :: other != id && replaced != Some(other) && other !in gone ==> KeptAt(before, handles, other)
  }

  ghost predicate KeysKept(contents: map<Bytes, nat>, contents': map<Bytes, nat>, key: Bytes, gone: seq<nat>) {
    forall k :: k != key ==>
      && (k in contents' <==> k in contents && contents[k] !in gone)
      && (k in contents' ==> contents'[k] == contents[k])
  }

  function ReplacedCharge(handles: map<nat, Handle>, replaced: Option<nat>): nat {
    if replaced.Some? then ChargeAt(handles, replaced.value) else 0
  }

  ghost predicate AllButReplaced(handles: map<nat, Handle>, handles': map<nat, Handle>, replaced: Option<nat>) {
    if replaced.Some? then SameElse(handles, handles', replaced.value) else handles' == handles
  }

  lemma NothingGone(handles: map<nat, Handle>, lru: seq<nat>, usage: nat)
    ensures Balanced(handles, lru, usage, handles, lru, usage)
  {
  }

  lemma AllKept(handles: map<nat, Handle>)
    ensures AllButReplaced(handles, handles, None)
  {
  }

  // What an insertion leaves: the entries evicted from the front of `start` and the replaced one have
  // given their charges back, and everything else is as it was.
  ghost predicate InsertedAs(handles: map<nat, Handle>, contents: map<Bytes, nat>, start: seq<nat>, usage: nat,
                             handles': map<nat, Handle>, contents': map<Bytes, nat>, lru': seq<nat>, usage': nat,
                             key: Bytes, id: nat, replaced: Option<nat>, charge: nat)
  {
    && |lru'| <= |start|
    && var gone := start[..|start| - |lru'|];
       && usage' + Charge(handles, gone) + ReplacedCharge(handles, replaced) == usage + charge
       && (forall other :: other in gone ==> other !in handles')
       && OthersKept(handles, handles', id, replaced, gone) && KeysKept(contents, contents', key, gone)
  }

  lemma InsertIsDone(before: map<nat, Handle>, contents: map<Bytes, nat>, usage0: nat, id: nat, e: Handle,
                     replaced: Option<nat>, h: map<nat, Handle>, start: seq<nat>, u: nat, handles: map<nat, Handle>,
                     contents': map<Bytes, nat>, lru: seq<nat>, usage: nat)
    requires Balanced(h, start, u, handles, lru, usage) && AllButReplaced(before[id := e], h, replaced)
    requires forall x :: x in start ==> ChargeAt(h, x) == ChargeAt(before, x)
    requires u + ReplacedCharge(before, replaced) == usage0 + if e.inCache then e.charge else 0
    requires TableOk(before, contents) && TableOk(handles, contents') && id !in before && id in handles
    requires handles[id].key == e.key
    requires replaced.Some? ==> e.key in contents && contents[e.key] == replaced.value
    requires replaced.Some? && replaced.value in h ==> !h[replaced.value].inCache
    ensures InsertedAs(before, contents, start, usage0, handles, contents', lru, usage, e.key, id, replaced,
                       if e.inCache then e.charge else 0)
  {
    InsertBalances(before, id, e, replaced, h, start, u, handles, lru, usage);
    assert replaced.Some? && replaced.value in handles ==> KeptAt(h, handles, replaced.value);
    InsertedKeys(before, contents, id, e, replaced, start[..|start| - |lru|], handles, contents');
    hide TableOk, Balanced, OthersKept, KeysKept, Charge;
  }

  lemma OneMoreGone(handles: map<nat, Handle>, lru: seq<nat>, deleted: seq<nat>, usage: nat, h: map<nat, Handle>,
                    l: seq<nat>, d: seq<nat>, u: nat, handles': map<nat, Handle>, lru': seq<nat>, usage': nat,
                    capacity: nat)
    requires EvictedFor(handles, lru, deleted, h, l, d, u, capacity) && Balanced(handles, lru, usage, h, l, u)
    requires l != [] && lru' == l[1..] && l[0] in h && usage' + h[l[0]].charge == u
    requires SameElse(h, handles', l[0]) && l[0] !in handles'
    ensures Balanced(handles, lru, usage, handles', lru', usage')
  {
    Peeled(lru, l);
    var gone, x := lru[..|lru| - |l|], l[0];
    assert x !in gone && KeptAt(handles, h, x);
    assert (gone + [x])[..|gone|] == gone;
    forall other | other !in gone + [x] ensures KeptAt(handles, handles', other) {
      assert KeptAt(handles, h, other);
    }
  }

  lemma InsertBalances(before: map<nat, Handle>, id: nat, e: Handle, replaced: Option<nat>, h: map<nat, Handle>,
                       start: seq<nat>, u: nat, handles: map<nat, Handle>, lru: seq<nat>, usage: nat)
    requires Balanced(h, start, u, handles, lru, usage) && AllButReplaced(before[id := e], h, replaced)
    requires forall x :: x in start ==> ChargeAt(h, x) == ChargeAt(before, x)
    ensures |lru| <= |start|
    ensures var gone := start[..|start| - |lru|];
            && usage + Charge(before, gone) == u && (forall other :: other in gone ==> other !in handles)
            && OthersKept(before, handles, id, replaced, gone)
  {
    var gone := start[..|start| - |lru|];
    ChargeSame(h, before, gone);
    hide Charge;
    forall other | other != id && replaced != Some(other) && other !in gone ensures KeptAt(before, handles, other) {
      assert KeptAt(h, handles, other);
    }
  }

  // Keys other than the inserted one lead where they led, unless to an evicted entry.
  lemma InsertedKeys(before: map<nat, Handle>, contents: map<Bytes, nat>, id: nat, e: Handle, replaced: Option<nat>,
                     gone: seq<nat>, handles: map<nat, Handle>, contents': map<Bytes, nat>)
    requires TableOk(before, contents) && TableOk(handles, contents') && id !in before && id in handles
    requires handles[id].key == e.key && OthersKept(before, handles, id, replaced, gone)
    requires forall other :: other in gone ==> other !in handles
    requires replaced.Some? ==> e.key in contents && contents[e.key] == replaced.value
    requires replaced.Some? && replaced.value in handles ==> !handles[replaced.value].inCache
    ensures KeysKept(contents, contents', e.key, gone)
  {
    forall k | k in contents && contents[k] !in gone && k != e.key
      ensures k in contents' && contents'[k] == contents[k]
    {
      assert KeptAt(before, handles, contents[k]);
    }
    forall k | k in contents' && k != e.key
      ensures k in contents && contents[k] == contents'[k] && contents[k] !in gone
    {
      assert contents'[k] != id;
      assert KeptAt(before, handles, contents'[k]);
    }
  }

  lemma Peeled(lru: seq<nat>, l: seq<nat>)
    requires |l| <= |lru| && l == lru[|lru| - |l|..] && l != []
    ensures l[1..] == lru[|lru| - |l[1..]|..] && lru[|lru| - |l[1..]| - 1] == l[0]
    ensures lru[..|lru| - |l[1..]|] == lru[..|lru| - |l|] + [l[0]]
  {
  }

  lemma TailOf(l: seq<nat>, id: nat)
    requires NoDup(l) && l != [] && id in l[1..]
    ensures id in l && id != l[0]
  {
  }

  lemma ChargeStays(before: map<nat, Handle>, after: map<nat, Handle>, id: nat, other: nat)
    requires SameElse(before, after, id) && other != id
    ensures ChargeAt(after, other) == ChargeAt(before, other)
  {
  }

  lemma OneMoreEvicted(handles: map<nat, Handle>, lru: seq<nat>, deleted: seq<nat>,
                       h: map<nat, Handle>, l: seq<nat>, d: seq<nat>, u: nat,
                       handles': map<nat, Handle>, lru': seq<nat>, deleted': seq<nat>, usage': nat, capacity: nat)
    requires EvictedFor(handles, lru, deleted, h, l, d, u, capacity) && l != [] && u > capacity
    requires lru' == l[1..] && deleted' == d + [l[0]] && l[0] in h && usage' + h[l[0]].charge == u
    requires SameElse(h, handles', l[0]) && NoDup(l)
    ensures EvictedFor(handles, lru, deleted, handles', lru', deleted', usage', capacity)
  {
    Peeled(lru, l);
    hide NoDup;
    var gone := lru[..|lru| - |l|];
    assert deleted + gone + [l[0]] == deleted + (gone + [l[0]]);
    forall id | id in lru' ensures ChargeAt(handles', id) == ChargeAt(handles, id) {
      TailOf(l, id);
      ChargeStays(h, handles', l[0], id);
    }
    assert ChargeAt(h, l[0]) == h[l[0]].charge && l[0] in l;
    hide SameElse, ChargeAt;
  }

  // Charges on the list are those before the insertion.
  lemma ChargesAgree(before: map<nat, Handle>, start: seq<nat>, deleted: seq<nat>, h: map<nat, Handle>,
                     handles': map<nat, Handle>, lru': seq<nat>, deleted': seq<nat>, usage': nat, capacity: nat)
    requires EvictedFor(h, start, deleted, handles', lru', deleted', usage', capacity)
    requires forall id :: id in start ==> ChargeAt(h, id) == ChargeAt(before, id)
    ensures EvictedFor(before, start, deleted, handles', lru', deleted', usage', capacity)
  {
    assert forall id :: id in lru' ==> id in start;
  }

  lemma TableHas(handles: map<nat, Handle>, contents: map<Bytes, nat>, key: Bytes)
    requires TableOk(handles, contents) && key in contents
    ensures contents[key] in handles && handles[contents[key]].key == key
  {
  }

  lemma TableLeadsTo(handles: map<nat, Handle>, contents: map<Bytes, nat>, id: nat)
    requires TableOk(handles, contents) && id in handles && handles[id].inCache
    ensures handles[id].key in contents && contents[handles[id].key] == id
  {
  }

  // A handle a client holds is never the one evicted.
  lemma NotTheNewest(handles: map<nat, Handle>, lru: seq<nat>, inUse: seq<nat>, id: nat)
    requires ListsOk(handles, lru, inUse) && lru != [] && id in handles
    requires handles[id].refs == if handles[id].inCache then 2 else 1
    ensures lru[0] != id && NoDup(lru)
  {
    assert lru[0] in lru;
  }

  // The list on which Insert starts evicting holds old handles, at their old charges.
  lemma StartCharges(before: map<nat, Handle>, lru: seq<nat>, inUse: seq<nat>, id: nat, e: Handle,
                     handles: map<nat, Handle>, start: seq<nat>)
    requires ListsOk(before, lru, inUse) && id !in before && (forall x :: x in start ==> x in lru)
    requires handles == before[id := e]
    ensures forall x :: x in start ==> ChargeAt(handles, x) == ChargeAt(before, x)
  {
  }

  lemma StartChargesReplaced(before: map<nat, Handle>, lru: seq<nat>, inUse: seq<nat>, id: nat, e: Handle,
                             handles: map<nat, Handle>, replaced: nat)
    requires ListsOk(before, lru, inUse) && id !in before && SameElse(before[id := e], handles, replaced)
    ensures forall x :: x in Without(lru, replaced) ==> ChargeAt(handles, x) == ChargeAt(before, x)
  {
    WithoutSpec(before, lru, replaced);
  }
}

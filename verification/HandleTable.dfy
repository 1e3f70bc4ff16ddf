/** The cache's hash table: chained buckets that double in number (util/cache.cc: HandleTable). */
module HandleTables {
  import opened Wrappers
  import opened Coding

  type Hash = Bytes -> Uint32

  // A chain link: the key and the handle it stands for.
  datatype Node = Node(key: Bytes, handle: nat)

  // FindPointer within one chain: the slot of the key, or the trailing slot.
  function Find(chain: seq<Node>, key: Bytes): (i: nat)
    ensures i <= |chain| && (i < |chain| ==> chain[i].key == key)
    ensures forall j :: 0 <= j < i ==> chain[j].key != key
  {
    if chain == [] || chain[0].key == key then 0 else 1 + Find(chain[1..], key)
  }

  // ----- the bucket of a hash -----

  predicate PowerOfTwo(n: nat) {
    n == 1 || (n > 0 && n % 2 == 0 && PowerOfTwo(n / 2))
  }

  // Bitwise `and`.
  function BitAnd(a: nat, b: nat): nat {
    if a == 0 || b == 0 then 0
    else 2 * BitAnd(a / 2, b / 2) + if a % 2 == 1 && b % 2 == 1 then 1 else 0
  }

  lemma HalfOf(h: nat, m: nat)
    requires m > 0
    ensures h % (2 * m) == 2 * ((h / 2) % m) + h % 2
  {
    var half, low := h / 2, h % 2;
    var q, r := half / m, half % m;
    assert half == m * q + r;
    Doubled(q, m, r, low);
    RemainderIs(h, 2 * m, q, 2 * r + low);
  }

  lemma Doubled(q: nat, m: nat, r: nat, low: nat)
    ensures 2 * (m * q + r) + low == q * (2 * m) + (2 * r + low)
  {
  }

  lemma AtLeastOnce(d: nat, n: nat)
    requires d >= 1
    ensures d * n >= n
  {
    assert d * n == (d - 1) * n + n;
  }

  lemma QuotientsAgree(q: nat, q': nat, n: nat, r: nat, r': nat)
    requires r < n && r' < n && q * n + r == q' * n + r'
    ensures q == q'
  {
    assert (q - q') * n == q * n - q' * n && (q' - q) * n == q' * n - q * n;
    if q > q' {
      AtLeastOnce(q - q', n);
    } else if q < q' {
      AtLeastOnce(q' - q, n);
    }
  }

  lemma RemainderIs(h: nat, n: nat, q: nat, r: nat)
    requires r < n && h == q * n + r
    ensures h % n == r
  {
    var q', r' := h / n, h % n;
    assert h == q' * n + r';
    QuotientsAgree(q, q', n, r, r');
  }

  // hash & (length - 1) is hash % length, as the length is a power of two.
  lemma {:induction false} MaskIsRemainder(h: nat, n: nat)
    requires PowerOfTwo(n)
    ensures BitAnd(h, n - 1) == h % n
  {
    if n > 1 {
      var m := n / 2;
      MaskIsRemainder(h / 2, m);
      HalfOf(h, m);
      assert (n - 1) / 2 == m - 1 && (n - 1) % 2 == 1;
      if h != 0 {
        assert BitAnd(h, n - 1) == 2 * BitAnd(h / 2, m - 1) + h % 2;
      }
    }
  }

  // The bucket FindPointer starts at.
  function Slot(h: nat, length: nat): (i: nat)
    requires PowerOfTwo(length)
    ensures i < length && i == h % length
  {
    MaskIsRemainder(h, length);
    BitAnd(h, length - 1)
  }

  ghost predicate ChainOk(hash: Hash, chain: seq<Node>, length: nat, i: nat)
    requires length > 0
  {
    && (forall a :: 0 <= a < |chain| ==> hash(chain[a].key) % length == i)
    && (forall a, b :: 0 <= a < b < |chain| ==> chain[a].key != chain[b].key)
  }

  // Every node hangs in its bucket, and no key hangs twice.
  ghost predicate BucketsOk(hash: Hash, buckets: seq<seq<Node>>) {
    |buckets| > 0 && forall i :: 0 <= i < |buckets| ==> ChainOk(hash, buckets[i], |buckets|, i)
  }

  ghost predicate InBuckets(buckets: seq<seq<Node>>, n: Node) {
    exists i :: 0 <= i < |buckets| && n in buckets[i]
  }

  ghost predicate Agrees(buckets: seq<seq<Node>>, contents: map<Bytes, nat>) {
    && (forall k :: k in contents ==> InBuckets(buckets, Node(k, contents[k])))
    && (forall n :: InBuckets(buckets, n) ==> n.key in contents && contents[n.key] == n.handle)
  }

  lemma HomeBucket(hash: Hash, buckets: seq<seq<Node>>, n: Node)
    requires BucketsOk(hash, buckets) && InBuckets(buckets, n)
    ensures n in buckets[hash(n.key) % |buckets|]
  {
    var i :| 0 <= i < |buckets| && n in buckets[i];
    assert ChainOk(hash, buckets[i], |buckets|, i);
    var a :| 0 <= a < |buckets[i]| && buckets[i][a] == n;
  }

  // The slot found in the home bucket decides membership.
  lemma FoundIsThere(hash: Hash, buckets: seq<seq<Node>>, contents: map<Bytes, nat>, key: Bytes)
    requires BucketsOk(hash, buckets) && Agrees(buckets, contents)
    ensures var chain := buckets[hash(key) % |buckets|];
            var p := Find(chain, key);
            if p < |chain| then key in contents && contents[key] == chain[p].handle else key !in contents
  {
    var chain := buckets[hash(key) % |buckets|];
    var p := Find(chain, key);
    if p < |chain| {
      assert chain[p] in chain;
      assert InBuckets(buckets, chain[p]);
    } else {
      NotInChain(chain, key);
      if key in contents {
        HomeBucket(hash, buckets, Node(key, contents[key]));
      }
    }
  }

  lemma NotInChain(chain: seq<Node>, key: Bytes)
    requires Find(chain, key) == |chain|
    ensures forall n :: n in chain ==> n.key != key
  {
  }

  // What a new chain and new contents must agree on when only `key` changes.
  ghost predicate ChainSwaps(buckets: seq<seq<Node>>, contents: map<Bytes, nat>, i: nat, key: Bytes, chain: seq<Node>,
                             contents': map<Bytes, nat>)
    requires i < |buckets|
  {
    && (forall n: Node :: n.key != key ==> (n in chain <==> n in buckets[i]))
    && (forall k :: k != key ==> (k in contents <==> k in contents') && (k in contents ==> contents[k] == contents'[k]))
    && (forall n: Node :: n.key == key ==> (n in chain <==> key in contents' && contents'[key] == n.handle))
  }

  lemma SwappedIn(buckets: seq<seq<Node>>, contents: map<Bytes, nat>, i: nat, key: Bytes, chain: seq<Node>,
                  contents': map<Bytes, nat>, k: Bytes)
    requires i < |buckets| && ChainSwaps(buckets, contents, i, key, chain, contents') && Agrees(buckets, contents)
    requires k in contents'
    ensures InBuckets(buckets[i := chain], Node(k, contents'[k]))
  {
    var buckets' := buckets[i := chain];
    if k == key {
      assert Node(k, contents'[k]) in buckets'[i];
    } else {
      var j :| 0 <= j < |buckets| && Node(k, contents[k]) in buckets[j];
      assert Node(k, contents[k]) in buckets'[j];
    }
  }

  lemma SwappedBuckets(hash: Hash, buckets: seq<seq<Node>>, i: nat, chain: seq<Node>)
    requires BucketsOk(hash, buckets) && i < |buckets| && ChainOk(hash, chain, |buckets|, i)
    ensures BucketsOk(hash, buckets[i := chain])
  {
    hide ChainOk;
  }

  // Replacing one chain changes the table as it changes the chain.
  lemma ChainReplaced(hash: Hash, buckets: seq<seq<Node>>, contents: map<Bytes, nat>, key: Bytes, chain: seq<Node>,
                      contents': map<Bytes, nat>)
    requires BucketsOk(hash, buckets) && Agrees(buckets, contents)
    requires var i := hash(key) % |buckets|;
             ChainOk(hash, chain, |buckets|, i) && ChainSwaps(buckets, contents, i, key, chain, contents')
    ensures var i := hash(key) % |buckets|;
            BucketsOk(hash, buckets[i := chain]) && Agrees(buckets[i := chain], contents')
  {
    var i := hash(key) % |buckets|;
    var buckets' := buckets[i := chain];
    SwappedBuckets(hash, buckets, i, chain);
    hide ChainOk, BucketsOk;
    forall k | k in contents' ensures InBuckets(buckets', Node(k, contents'[k])) {
      SwappedIn(buckets, contents, i, key, chain, contents', k);
    }
    forall n | InBuckets(buckets', n) ensures n.key in contents' && contents'[n.key] == n.handle {
      HomeBucket(hash, buckets', n);
      var j := hash(n.key) % |buckets|;
      assert n in buckets'[j];
      assert n.key != key ==> n in buckets[j];
      assert n.key != key ==> InBuckets(buckets, n);
    }
  }

  lemma ChainAfterInsert(hash: Hash, chain: seq<Node>, length: nat, i: nat, key: Bytes, handle: nat)
    requires length > 0 && ChainOk(hash, chain, length, i) && i == hash(key) % length
    ensures var p := Find(chain, key);
            var chain' := if p < |chain| then chain[p := Node(key, handle)] else chain + [Node(key, handle)];
            && ChainOk(hash, chain', length, i)
            && (forall n: Node :: n.key != key ==> (n in chain' <==> n in chain))
            && (forall n: Node :: n.key == key ==> (n in chain' <==> n.handle == handle))
  {
    var p, n := Find(chain, key), Node(key, handle);
    var chain' := if p < |chain| then chain[p := n] else chain + [n];
    assert chain'[p] == n;
    forall m: Node | m.key != key ensures m in chain' <==> m in chain {
      if m in chain {
        var a :| 0 <= a < |chain| && chain[a] == m;
        assert chain'[a] == m;
      }
    }
    forall m: Node | m.key == key && m in chain' ensures m.handle == handle {
      var a :| 0 <= a < |chain'| && chain'[a] == m;
    }
  }

  lemma ChainAt(hash: Hash, buckets: seq<seq<Node>>, i: nat)
    requires BucketsOk(hash, buckets) && i < |buckets|
    ensures ChainOk(hash, buckets[i], |buckets|, i)
  {
    hide ChainOk;
  }

  lemma TableAfterInsert(hash: Hash, buckets: seq<seq<Node>>, contents: map<Bytes, nat>, key: Bytes, handle: nat)
    requires BucketsOk(hash, buckets) && Agrees(buckets, contents)
    ensures var i := hash(key) % |buckets|;
            var p := Find(buckets[i], key);
            var chain := if p < |buckets[i]| then buckets[i][p := Node(key, handle)]
                         else buckets[i] + [Node(key, handle)];
            BucketsOk(hash, buckets[i := chain]) && Agrees(buckets[i := chain], contents[key := handle])
  {
    hide ChainOk, InBuckets, Agrees, Find;
    var i := hash(key) % |buckets|;
    ChainAt(hash, buckets, i);
    ChainAfterInsert(hash, buckets[i], |buckets|, i, key, handle);
    var p := Find(buckets[i], key);
    var chain := if p < |buckets[i]| then buckets[i][p := Node(key, handle)] else buckets[i] + [Node(key, handle)];
    assert ChainSwaps(buckets, contents, i, key, chain, contents[key := handle]);
    ChainReplaced(hash, buckets, contents, key, chain, contents[key := handle]);
  }

  lemma CutMembers(chain: seq<Node>, p: nat, n: Node)
    requires p < |chain| && n != chain[p]
    ensures n in chain[..p] + chain[p + 1..] <==> n in chain
  {
    assert chain == chain[..p] + [chain[p]] + chain[p + 1..];
  }

  lemma CutChain(hash: Hash, chain: seq<Node>, length: nat, i: nat, p: nat)
    requires length > 0 && ChainOk(hash, chain, length, i) && p < |chain|
    ensures ChainOk(hash, chain[..p] + chain[p + 1..], length, i)
    ensures forall n: Node :: n.key == chain[p].key ==> n !in chain[..p] + chain[p + 1..]
  {
    var chain' := chain[..p] + chain[p + 1..];
    assert forall a :: 0 <= a < |chain'| ==> chain'[a] == if a < p then chain[a] else chain[a + 1];
  }

  lemma ChainAfterRemove(hash: Hash, chain: seq<Node>, length: nat, i: nat, key: Bytes, p: nat)
    requires length > 0 && ChainOk(hash, chain, length, i) && p == Find(chain, key) < |chain|
    ensures var chain' := chain[..p] + chain[p + 1..];
            && ChainOk(hash, chain', length, i)
            && (forall n: Node :: n.key != key ==> (n in chain' <==> n in chain))
            && (forall n: Node :: n.key == key ==> n !in chain')
  {
    CutChain(hash, chain, length, i, p);
    hide ChainOk;
    forall n: Node | n.key != key ensures n in chain[..p] + chain[p + 1..] <==> n in chain {
      CutMembers(chain, p, n);
    }
  }

  lemma TableAfterRemove(hash: Hash, buckets: seq<seq<Node>>, contents: map<Bytes, nat>, key: Bytes)
    requires BucketsOk(hash, buckets) && Agrees(buckets, contents)
    ensures var i := hash(key) % |buckets|;
            var p := Find(buckets[i], key);
            p < |buckets[i]| ==>
              var chain := buckets[i][..p] + buckets[i][p + 1..];
              BucketsOk(hash, buckets[i := chain]) && Agrees(buckets[i := chain], contents - {key})
  {
    hide ChainOk, InBuckets, Agrees, Find;
    var i := hash(key) % |buckets|;
    ChainAt(hash, buckets, i);
    var p := Find(buckets[i], key);
    if p < |buckets[i]| {
      ChainAfterRemove(hash, buckets[i], |buckets|, i, key, p);
      ChainReplaced(hash, buckets, contents, key, buckets[i][..p] + buckets[i][p + 1..], contents - {key});
    }
  }

  lemma KeyCount(contents: map<Bytes, nat>, key: Bytes, handle: nat)
    ensures |contents[key := handle]| == if key in contents then |contents| else |contents| + 1
  {
    assert contents[key := handle].Keys == contents.Keys + {key};
    assert |contents.Keys| == |contents| && |contents[key := handle].Keys| == |contents[key := handle]|;
  }

  lemma Removed(contents: map<Bytes, nat>, key: Bytes)
    ensures key !in contents ==> contents - {key} == contents
    ensures key in contents ==> |contents - {key}| == |contents| - 1
  {
    assert (contents - {key}).Keys == contents.Keys - {key};
    assert |contents.Keys| == |contents| && |(contents - {key}).Keys| == |contents - {key}|;
  }

  // ----- moving to new buckets -----

  ghost predicate Passed(buckets: seq<seq<Node>>, i: nat, j: nat, n: Node)
    requires i <= |buckets| && (i < |buckets| ==> j <= |buckets[i]|)
  {
    || (exists a :: 0 <= a < i && n in buckets[a])
    || (i < |buckets| && n in buckets[i][..j])
  }

  ghost predicate Moved(buckets: seq<seq<Node>>, i: nat, j: nat, newList: seq<seq<Node>>)
    requires i <= |buckets| && (i < |buckets| ==> j <= |buckets[i]|)
  {
    forall n :: InBuckets(newList, n) <==> Passed(buckets, i, j, n)
  }

  lemma EmptyBuckets(hash: Hash, buckets: seq<seq<Node>>, newList: seq<seq<Node>>)
    requires |newList| > 0 && forall i :: 0 <= i < |newList| ==> newList[i] == []
    ensures BucketsOk(hash, newList) && Moved(buckets, 0, 0, newList)
  {
  }

  // A node not passed yet has a key no passed node has.
  lemma FreshKey(hash: Hash, buckets: seq<seq<Node>>, i: nat, j: nat, m: Node)
    requires BucketsOk(hash, buckets) && i < |buckets| && j < |buckets[i]| && Passed(buckets, i, j, m)
    ensures m.key != buckets[i][j].key
  {
    var n := buckets[i][j];
    assert ChainOk(hash, buckets[i], |buckets|, i);
    if m in buckets[i][..j] {
      var a :| 0 <= a < j && buckets[i][a] == m;
    } else {
      var a :| 0 <= a < i && m in buckets[a];
      assert ChainOk(hash, buckets[a], |buckets|, a);
      var b :| 0 <= b < |buckets[a]| && buckets[a][b] == m;
    }
  }

  lemma MoveOne(hash: Hash, buckets: seq<seq<Node>>, i: nat, j: nat, newList: seq<seq<Node>>)
    requires BucketsOk(hash, buckets) && BucketsOk(hash, newList) && i < |buckets| && j < |buckets[i]|
    requires Moved(buckets, i, j, newList)
    ensures var n := buckets[i][j];
            var slot := hash(n.key) % |newList|;
            var newList' := newList[slot := [n] + newList[slot]];
            BucketsOk(hash, newList') && Moved(buckets, i, j + 1, newList')
  {
    var n := buckets[i][j];
    var slot := hash(n.key) % |newList|;
    var chain := [n] + newList[slot];
    var newList' := newList[slot := chain];
    forall a | 0 <= a < |newList[slot]| ensures newList[slot][a].key != n.key {
      var m := newList[slot][a];
      assert m in newList[slot];
      assert InBuckets(newList, m);
      FreshKey(hash, buckets, i, j, m);
    }
    forall b | 0 <= b < |newList'| ensures ChainOk(hash, newList'[b], |newList'|, b) {
      assert ChainOk(hash, newList[b], |newList|, b);
    }
    forall m ensures InBuckets(newList', m) <==> Passed(buckets, i, j + 1, m) {
      assert buckets[i][..j + 1] == buckets[i][..j] + [n];
      assert Passed(buckets, i, j + 1, m) <==> Passed(buckets, i, j, m) || m == n;
      if InBuckets(newList, m) {
        var b :| 0 <= b < |newList| && m in newList[b];
        assert m in newList'[b];
      }
      if m == n {
        assert chain[0] == n && n in newList'[slot];
      }
      if InBuckets(newList', m) && m != n {
        var b :| 0 <= b < |newList'| && m in newList'[b];
        assert m in newList[b];
      }
    }
  }

  lemma NextBucket(buckets: seq<seq<Node>>, i: nat, newList: seq<seq<Node>>)
    requires i < |buckets| && Moved(buckets, i, |buckets[i]|, newList)
    ensures Moved(buckets, i + 1, 0, newList)
  {
    assert buckets[i][..|buckets[i]|] == buckets[i];
    forall n ensures Passed(buckets, i, |buckets[i]|, n) <==> Passed(buckets, i + 1, 0, n) {
      if n in buckets[i] {
        assert 0 <= i < i + 1 && n in buckets[i];
      }
    }
  }

  lemma AllMoved(buckets: seq<seq<Node>>, newList: seq<seq<Node>>, contents: map<Bytes, nat>)
    requires Agrees(buckets, contents) && Moved(buckets, |buckets|, 0, newList)
    ensures Agrees(newList, contents)
  {
    forall n ensures Passed(buckets, |buckets|, 0, n) <==> InBuckets(buckets, n) {
    }
    forall k | k in contents ensures InBuckets(newList, Node(k, contents[k])) {
      assert InBuckets(buckets, Node(k, contents[k]));
    }
  }

  class HandleTable {
    const hash: Hash
    var buckets: seq<seq<Node>>
    var elems: nat
    ghost var contents: map<Bytes, nat>

    ghost predicate Valid()
      reads this
    {
      && BucketsOk(hash, buckets) && Agrees(buckets, contents) && elems == |contents| && PowerOfTwo(|buckets|)
      && elems <= |buckets|
    }

    constructor (hash: Hash)
      ensures Valid() && contents == map[] && this.hash == hash
    {
      this.hash := hash;
      buckets, elems, contents := [[], [], [], []], 0, map[];
      assert PowerOfTwo(2);
    }

    method Lookup(key: Bytes) returns (r: Option<nat>)
      requires Valid()
      ensures r == if key in contents then Some(contents[key]) else None
    {
      hide BucketsOk, Agrees, Find, PowerOfTwo;
      var chain := buckets[Slot(hash(key), |buckets|)];
      var p := Find(chain, key);
      FoundIsThere(hash, buckets, contents, key);
      r := if p < |chain| then Some(chain[p].handle) else None;
    }

    // Insert replaces the node of an equal key in place, or adds one at the end of the chain.
    method Insert(key: Bytes, handle: nat) returns (old': Option<nat>)
      requires Valid()
      modifies this
      ensures Valid() && contents == old(contents)[key := handle]
      ensures old' == if key in old(contents) then Some(old(contents)[key]) else None
    {
      hide BucketsOk, Agrees, Find, PowerOfTwo;
      var i := Slot(hash(key), |buckets|);
      var chain := buckets[i];
      var p := Find(chain, key);
      FoundIsThere(hash, buckets, contents, key);
      var chain' := if p < |chain| then chain[p := Node(key, handle)] else chain + [Node(key, handle)];
      TableAfterInsert(hash, buckets, contents, key, handle);
      KeyCount(contents, key, handle);
      buckets := buckets[i := chain'];
      contents := contents[key := handle];
      if p < |chain| {
        return Some(chain[p].handle);
      }
      elems := elems + 1;
      if elems > |buckets| {
        Resize();
      }
      return None;
    }

    method Remove(key: Bytes) returns (old': Option<nat>)
      requires Valid()
      modifies this
      ensures Valid() && contents == old(contents) - {key}
      ensures old' == if key in old(contents) then Some(old(contents)[key]) else None
    {
      hide BucketsOk, Agrees, Find, PowerOfTwo;
      var i := Slot(hash(key), |buckets|);
      var chain := buckets[i];
      var p := Find(chain, key);
      FoundIsThere(hash, buckets, contents, key);
      TableAfterRemove(hash, buckets, contents, key);
      Removed(contents, key);
      ghost var left := contents - {key};
      if p == |chain| {
        return None;
      }
      contents := left;
      elems := elems - 1;
      old' := Some(chain[p].handle);
      buckets := buckets[i := chain[..p] + chain[p + 1..]];
    }

    // Resize: the same contents in at least as many buckets as elements.
    method Resize()
      requires BucketsOk(hash, buckets) && Agrees(buckets, contents) && elems == |contents| && PowerOfTwo(|buckets|)
      modifies this`buckets
      ensures Valid() && |buckets| >= 4
    {
      var newLength := 4;
      hide BucketsOk, Agrees, Moved;
      assert PowerOfTwo(2);
      while newLength < elems
        invariant newLength >= 4 && PowerOfTwo(newLength)
      {
        newLength := newLength * 2;
      }
      var newList := seq(newLength, _ => []);
      var list := buckets;
      EmptyBuckets(hash, list, newList);
      for i := 0 to |list|
        invariant |newList| == newLength && BucketsOk(hash, newList)
        invariant Moved(list, i, 0, newList)
      {
        for j := 0 to |list[i]|
          invariant |newList| == newLength && BucketsOk(hash, newList)
          invariant Moved(list, i, j, newList)
        {
          var n := list[i][j];
          var slot := Slot(hash(n.key), newLength);
          MoveOne(hash, list, i, j, newList);
          newList := newList[slot := [n] + newList[slot]];
        }
        NextBucket(list, i, newList);
      }
      AllMoved(list, newList, contents);
      buckets := newList;
    }
  }
}

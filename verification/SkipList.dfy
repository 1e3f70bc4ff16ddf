/** The skip list with one writer and any number of readers, every pointer load and store one
    step (db/skiplist.h). Keys are told apart by the comparator, so a node is named by its key. */
module SkipLists {
  import opened Wrappers

  const MAX_HEIGHT: nat := 12

  datatype Ref = Head | At(key: int) | Nil

  // One level's forward pointers.
  type Links = map<Ref, Ref>

  // Nil counts as infinite (KeyIsAfterNode).
  predicate KeyIsAfterNode(key: int, n: Ref) {
    n.At? && n.key < key
  }

  // The four searches of the list and its iterator.
  datatype Query = AtLeast(target: int) | LessThan(target: int) | Last | After(node: int)

  datatype Reader =
    | Walking(query: Query, x: Ref, level: nat, began: set<int>)
    | Done(query: Query, result: Ref, began: set<int>)

  datatype Writer =
    | Idle
    | Searching(key: int, height: nat, x: Ref, level: nat, prev: seq<Ref>)
    | Raising(key: int, height: nat, prev: seq<Ref>)
    | Linking(key: int, height: nat, level: nat, prev: seq<Ref>)
    | Publishing(key: int, height: nat, level: nat, prev: seq<Ref>)

  datatype State = State(links: seq<Links>, maxHeight: nat, writer: Writer, readers: map<nat, Reader>)

  datatype Event =
    | BeginInsert(key: int, height: nat)
    | WriterStep
    | BeginRead(id: nat, query: Query)
    | ReaderStep(id: nat)

  function AllHead(): seq<Ref> {
    seq(MAX_HEIGHT, i => Head)
  }

  function EmptyList(): State {
    State(seq(MAX_HEIGHT, i => map[Head := Nil]), 1, Idle, map[])
  }

  // ----- the steps -----

  function KeysOf(links: Links): set<int> {
    set r | r in links.Keys && r.At? :: r.key
  }

  // The keys a level's pointers lead to: a node whose own pointer is set but that no predecessor
  // points to yet does not count.
  function Linked(s: State, l: nat): set<int>
    requires l < |s.links|
  {
    KeysOf(s.links[l]) - if s.writer.Publishing? && s.writer.level == l then {s.writer.key} else {}
  }

  predicate Shaped(s: State) {
    && |s.links| == MAX_HEIGHT && 1 <= s.maxHeight <= MAX_HEIGHT
    && (!s.writer.Idle? ==> |s.writer.prev| == MAX_HEIGHT)
    && (!s.writer.Idle? && !s.writer.Raising? ==> s.writer.level < MAX_HEIGHT)
  }

  predicate Enabled(s: State, e: Event) {
    && Shaped(s)
    && (e.BeginInsert? ==> s.writer.Idle? && e.key !in Linked(s, 0) && 1 <= e.height <= MAX_HEIGHT)
    && (e.WriterStep? ==> !s.writer.Idle?)
    && (e.BeginRead? && e.query.After? ==> e.query.node in Linked(s, 0))
    && (e.ReaderStep? ==> e.id in s.readers && s.readers[e.id].Walking?)
  }

  // Where the pointer of `x` leads.
  function Load(s: State, l: nat, x: Ref): Ref {
    if l < |s.links| && x in s.links[l] then s.links[l][x] else Nil
  }

  // FindGreaterOrEqual with `prev`, one load.
  function SearchStep(s: State): Writer
    requires Shaped(s) && s.writer.Searching?
  {
    var w := s.writer;
    var next := Load(s, w.level, w.x);
    if KeyIsAfterNode(w.key, next) then Searching(w.key, w.height, next, w.level, w.prev)
    else
      var prev := w.prev[w.level := w.x];
      if w.level == 0 then Raising(w.key, w.height, prev) else Searching(w.key, w.height, w.x, w.level - 1, prev)
  }

  function PadWithHead(prev: seq<Ref>, n: nat): seq<Ref> {
    seq(|prev|, i requires 0 <= i < |prev| => if i < n then prev[i] else Head)
  }

  // The missing predecessors are the head; then the height store.
  function RaiseHeight(s: State): State
    requires Shaped(s) && s.writer.Raising?
  {
    var w := s.writer;
    s.(maxHeight := if w.height > s.maxHeight then w.height else s.maxHeight,
       writer := Linking(w.key, w.height, 0, PadWithHead(w.prev, s.maxHeight)))
  }

  function StepWriter(s: State): State
    requires Shaped(s) && !s.writer.Idle?
  {
    var w := s.writer;
    match w
    case Searching(_, _, _, _, _) => s.(writer := SearchStep(s))
    case Raising(_, _, _) => RaiseHeight(s)
    case Linking(key, height, i, prev) =>
      s.(links := s.links[i := s.links[i][At(key) := Load(s, i, prev[i])]], writer := Publishing(key, height, i, prev))
    case Publishing(key, height, i, prev) =>
      s.(links := s.links[i := s.links[i][prev[i] := At(key)]],
         writer := if i + 1 < height then Linking(key, height, i + 1, prev) else Idle)
  }

  // Whether a search goes on to `next` on the same level.
  predicate GoesOn(q: Query, next: Ref) {
    match q
    case AtLeast(target) => KeyIsAfterNode(target, next)
    case LessThan(target) => KeyIsAfterNode(target, next)
    case Last => next.At?
    case After(_) => false
  }

  function StepReader(s: State, r: Reader): Reader
    requires r.Walking?
  {
    var next := Load(s, r.level, r.x);
    if GoesOn(r.query, next) then r.(x := next)
    else if r.level > 0 then r.(level := r.level - 1)
    else Done(r.query, if r.query.AtLeast? || r.query.After? then next else r.x, r.began)
  }

  function Begin(s: State, q: Query): Reader
    requires Shaped(s)
  {
    if q.After? then Walking(q, At(q.node), 0, Linked(s, 0)) else Walking(q, Head, s.maxHeight - 1, Linked(s, 0))
  }

  function Apply(s: State, e: Event): State
    requires Enabled(s, e)
  {
    match e
    case BeginInsert(key, height) => s.(writer := Searching(key, height, Head, s.maxHeight - 1, AllHead()))
    case WriterStep => StepWriter(s)
    case BeginRead(id, query) => s.(readers := s.readers[id := Begin(s, query)])
    case ReaderStep(id) => s.(readers := s.readers[id := StepReader(s, s.readers[id])])
  }

  // ----- the invariant -----

  ghost predicate On(keys: set<int>, x: Ref) {
    x.Head? || (x.At? && x.key in keys)
  }

  predicate Below(x: Ref, k: int) {
    x.Head? || (x.At? && x.key < k)
  }

  // `y` is the first of `keys` behind `x`, or Nil if none is.
  ghost predicate IsNext(keys: set<int>, x: Ref, y: Ref) {
    && !y.Head?
    && (y.At? ==> y.key in keys && Below(x, y.key))
    && forall k :: k in keys && Below(x, k) ==> y.At? && y.key <= k
  }

  // Every linked node of a level points to the next larger one: the level is a sorted list.
  ghost predicate LevelSorted(links: Links, keys: set<int>) {
    Head in links && forall x :: x in links && On(keys, x) ==> IsNext(keys, x, links[x])
  }

  // `key` belongs right behind `p`.
  ghost predicate Splits(keys: set<int>, p: Ref, key: int) {
    On(keys, p) && Below(p, key) && forall k :: k in keys && Below(p, k) ==> key < k
  }

  // On the levels from `lo` up to `hi` the predecessor of the new key is known.
  ghost predicate PlacesKnown(s: State, lo: nat, hi: nat, prev: seq<Ref>, key: int)
    requires Shaped(s) && hi <= MAX_HEIGHT && |prev| == MAX_HEIGHT
  {
    forall l :: lo <= l < hi ==> Splits(Linked(s, l), prev[l], key)
  }

  ghost predicate WriterOk(s: State)
    requires Shaped(s)
  {
    match s.writer
    case Idle => true
    case Searching(key, height, x, level, prev) =>
      && 1 <= height <= MAX_HEIGHT && |prev| == MAX_HEIGHT && level < s.maxHeight && key !in Linked(s, 0)
      && On(Linked(s, level), x) && Below(x, key)
      && PlacesKnown(s, level + 1, s.maxHeight, prev, key)
    case Raising(key, height, prev) =>
      && 1 <= height <= MAX_HEIGHT && |prev| == MAX_HEIGHT && key !in Linked(s, 0)
      && PlacesKnown(s, 0, s.maxHeight, prev, key)
    case Linking(key, height, i, prev) => LinkingOk(s, key, height, i, prev)
    case Publishing(key, height, i, prev) =>
      LinkingOk(s, key, height, i, prev) && At(key) in s.links[i] && IsNext(Linked(s, i), At(key), s.links[i][At(key)])
  }

  // Levels below `i` hold the key; from there on its place is known.
  ghost predicate LinkingOk(s: State, key: int, height: nat, i: nat, prev: seq<Ref>)
    requires Shaped(s)
  {
    && i < height <= s.maxHeight && |prev| == MAX_HEIGHT
    && (forall l :: 0 <= l < i ==> key in Linked(s, l))
    && PlacesKnown(s, i, height, prev, key)
  }

  ghost predicate Reached(q: Query, x: Ref) {
    match q
    case AtLeast(target) => Below(x, target)
    case LessThan(target) => Below(x, target)
    case Last => !x.Nil?
    case After(node) => x == At(node)
  }

  // `r` answers `q` exactly, were `keys` the contents of the list.
  ghost predicate Answers(q: Query, keys: set<int>, r: Ref) {
    match q
    case AtLeast(target) =>
      && !r.Head? && (r.At? ==> r.key in keys && r.key >= target)
      && forall k :: k in keys && k >= target ==> r.At? && r.key <= k
    case LessThan(target) =>
      && On(keys, r) && Below(r, target)
      && forall k :: k in keys && k < target ==> r.At? && k <= r.key
    case Last => On(keys, r) && forall k :: k in keys ==> r.At? && k <= r.key
    case After(node) => IsNext(keys, At(node), r)
  }

  // Nothing that was in the list when the search began is missing from the answer.
  ghost predicate Misses(q: Query, began: set<int>, r: Ref) {
    match q
    case AtLeast(target) => exists k :: k in began && target <= k && (r.At? ==> k < r.key)
    case LessThan(target) => exists k :: k in began && k < target && (r.At? ==> r.key < k)
    case Last => exists k :: k in began && (r.At? ==> r.key < k)
    case After(node) => exists k :: k in began && node < k && (r.At? ==> k < r.key)
  }

  ghost predicate ReaderOk(s: State, r: Reader)
    requires Shaped(s)
  {
    match r
    case Walking(q, x, level, began) =>
      level < MAX_HEIGHT && On(Linked(s, level), x) && Reached(q, x) && began <= Linked(s, 0)
          && (q.After? ==> level == 0)
    case Done(q, result, began) =>
      began <= Linked(s, 0) && !Misses(q, began, result) && (result.At? ==> result.key in Linked(s, 0))
  }

  ghost predicate ListOk(s: State) {
    && Shaped(s)
    && (forall l :: 0 <= l < MAX_HEIGHT ==> LevelSorted(s.links[l], Linked(s, l)))
    && (forall l :: 0 <= l < MAX_HEIGHT - 1 ==> Linked(s, l + 1) <= Linked(s, l))
    && (forall l :: s.maxHeight <= l < MAX_HEIGHT ==> Linked(s, l) == {})
  }

  ghost predicate Inv(s: State) {
    && ListOk(s) && WriterOk(s)
    && forall id :: id in s.readers ==> ReaderOk(s, s.readers[id])
  }

  // ----- what single steps do -----

  lemma NextSplits(keys: set<int>, x: Ref, next: Ref, key: int)
    requires On(keys, x) && Below(x, key) && IsNext(keys, x, next) && !KeyIsAfterNode(key, next) && key !in keys
    ensures Splits(keys, x, key)
  {
  }

  lemma Contained(s: State, l: nat, m: nat)
    requires ListOk(s) && l <= m < MAX_HEIGHT
    ensures Linked(s, m) <= Linked(s, l)
    decreases m - l
  {
    if l < m {
      Contained(s, l, m - 1);
      assert Linked(s, m - 1 + 1) <= Linked(s, m - 1);
    }
  }

  lemma SearchKeepsInv(s: State)
    requires Inv(s) && s.writer.Searching?
    ensures Inv(s.(writer := SearchStep(s)))
  {
    var w := s.writer;
    var s' := s.(writer := SearchStep(s));
    assert forall l :: 0 <= l < MAX_HEIGHT ==> Linked(s', l) == Linked(s, l);
    assert LevelSorted(s.links[w.level], Linked(s, w.level));
    Contained(s, 0, w.level);
    var next := Load(s, w.level, w.x);
    OnIsLinked(s, w.level, w.x);
    assert IsNext(Linked(s, w.level), w.x, next);
    if !KeyIsAfterNode(w.key, next) {
      NextSplits(Linked(s, w.level), w.x, next, w.key);
      if w.level > 0 {
        assert Linked(s, w.level - 1 + 1) <= Linked(s, w.level - 1);
      }
    }
    ReadersKeep(s, s');
  }

  lemma OnIsLinked(s: State, l: nat, x: Ref)
    requires ListOk(s) && l < MAX_HEIGHT && On(Linked(s, l), x)
    ensures x in s.links[l]
  {
    assert LevelSorted(s.links[l], Linked(s, l));
  }

  lemma ReadersKeep(s: State, s': State)
    requires Shaped(s) && Shaped(s') && s'.readers == s.readers
    requires forall l :: 0 <= l < MAX_HEIGHT ==> Linked(s, l) <= Linked(s', l)
    requires forall id :: id in s.readers ==> ReaderOk(s, s.readers[id])
    ensures forall id :: id in s'.readers ==> ReaderOk(s', s'.readers[id])
  {
  }

  lemma RaiseKeepsInv(s: State)
    requires Inv(s) && s.writer.Raising?
    ensures Inv(RaiseHeight(s))
  {
    var s' := RaiseHeight(s);
    assert forall l :: 0 <= l < MAX_HEIGHT ==> Linked(s', l) == Linked(s, l);
    ReadersKeep(s, s');
  }

  // Setting the new node's own pointer changes nothing anyone can see.
  lemma LinkKeepsInv(s: State)
    requires Inv(s) && s.writer.Linking?
    ensures Inv(StepWriter(s))
    ensures forall l :: 0 <= l < MAX_HEIGHT ==> Linked(StepWriter(s), l) == Linked(s, l)
  {
    var s', w := StepWriter(s), s.writer;
    var i, key := w.level, w.key;
    assert Splits(Linked(s, i), w.prev[i], key);
    OnIsLinked(s, i, w.prev[i]);
    assert KeysOf(s'.links[i]) == KeysOf(s.links[i]) + {key} by {
      forall k ensures k in KeysOf(s'.links[i]) <==> k in KeysOf(s.links[i]) + {key} {
        assert At(k) in s'.links[i] <==> At(k) in s.links[i] || k == key;
        assert At(k) in s'.links[i] ==> At(k).key in KeysOf(s'.links[i]);
      }
    }
    assert key !in Linked(s, i);
    forall l | 0 <= l < MAX_HEIGHT ensures Linked(s', l) == Linked(s, l) && LevelSorted(s'.links[l], Linked(s', l)) {
      assert LevelSorted(s.links[l], Linked(s, l));
    }
    ReadersKeep(s, s');
  }

  // The store that publishes the node on one level.
  lemma PublishAdds(s: State)
    requires Inv(s) && s.writer.Publishing?
    ensures var s', w := StepWriter(s), s.writer;
            forall l :: 0 <= l < MAX_HEIGHT ==>
              Linked(s', l) == if l == w.level then Linked(s, l) + {w.key} else Linked(s, l)
  {
    var s', w := StepWriter(s), s.writer;
    var i, key := w.level, w.key;
    assert Splits(Linked(s, i), w.prev[i], key);
    OnIsLinked(s, i, w.prev[i]);
    assert s'.links[i].Keys == s.links[i].Keys;
    assert At(key).key in KeysOf(s.links[i]);
  }

  lemma PublishSorts(s: State)
    requires Inv(s) && s.writer.Publishing?
    ensures var s', i := StepWriter(s), s.writer.level; LevelSorted(s'.links[i], Linked(s', i))
  {
    var s', w := StepWriter(s), s.writer;
    var i, key, p := w.level, w.key, w.prev[w.level];
    PublishAdds(s);
    var keys, keys' := Linked(s, i), Linked(s', i);
    assert Splits(keys, p, key);
    assert LevelSorted(s.links[i], keys);
    forall x | x in s'.links[i] && On(keys', x) ensures IsNext(keys', x, s'.links[i][x]) {
      if x == At(key) {
        assert IsNext(keys, x, s.links[i][x]);
      } else {
        assert IsNext(keys, x, s.links[i][x]);
      }
    }
  }

  lemma OtherLevelsSorted(s: State, l: nat)
    requires Inv(s) && s.writer.Publishing? && l < MAX_HEIGHT && l != s.writer.level
    ensures LevelSorted(StepWriter(s).links[l], Linked(StepWriter(s), l))
  {
    hide LevelSorted, WriterOk;
    PublishAdds(s);
    assert LevelSorted(s.links[l], Linked(s, l));
  }

  lemma PublishContained(s: State, l: nat)
    requires Inv(s) && s.writer.Publishing? && l < MAX_HEIGHT - 1
    ensures Linked(StepWriter(s), l + 1) <= Linked(StepWriter(s), l)
  {
    hide LevelSorted, WriterOk;
    LowerLevelsLinked(s);
    PublishAdds(s);
    assert Linked(s, l + 1) <= Linked(s, l);
  }

  lemma PublishKeepsList(s: State)
    requires Inv(s) && s.writer.Publishing?
    ensures ListOk(StepWriter(s))
  {
    hide LevelSorted, WriterOk;
    var s', w := StepWriter(s), s.writer;
    PublishAdds(s);
    PublishSorts(s);
    LowerLevelsLinked(s);
    forall l: nat | l < MAX_HEIGHT ensures LevelSorted(s'.links[l], Linked(s', l)) {
      if l != w.level {
        OtherLevelsSorted(s, l);
      }
    }
    forall l: nat | l < MAX_HEIGHT - 1 ensures Linked(s', l + 1) <= Linked(s', l) {
      PublishContained(s, l);
    }
  }

  lemma LowerLevelsLinked(s: State)
    requires Inv(s) && s.writer.Publishing?
    ensures s.writer.level < s.writer.height <= s.maxHeight
    ensures forall l :: 0 <= l < s.writer.level ==> s.writer.key in Linked(s, l)
  {
  }

  lemma PublishKeepsInv(s: State)
    requires Inv(s) && s.writer.Publishing?
    ensures Inv(StepWriter(s))
  {
    PublishAdds(s);
    PublishKeepsList(s);
    ReadersKeep(s, StepWriter(s));
    hide ListOk;
  }

  // ----- readers -----

  lemma ReaderKeepsInv(s: State, r: Reader)
    requires ListOk(s) && ReaderOk(s, r) && r.Walking?
    ensures ReaderOk(s, StepReader(s, r))
    ensures StepReader(s, r).Done? ==> Answers(r.query, Linked(s, 0), StepReader(s, r).result)
  {
    OnIsLinked(s, r.level, r.x);
    assert LevelSorted(s.links[r.level], Linked(s, r.level));
    var next := Load(s, r.level, r.x);
    assert IsNext(Linked(s, r.level), r.x, next);
    if r.level > 0 {
      assert Linked(s, r.level - 1 + 1) <= Linked(s, r.level - 1);
    }
  }

  // ----- runs -----

  lemma InitialInv()
    ensures Inv(EmptyList())
  {
    assert forall l :: 0 <= l < MAX_HEIGHT ==> Linked(EmptyList(), l) == {};
  }

  lemma BeginInsertKeepsInv(s: State, key: int, height: nat)
    requires Inv(s) && Enabled(s, BeginInsert(key, height))
    ensures Inv(Apply(s, BeginInsert(key, height)))
  {
    hide LevelSorted, ReaderOk, KeysOf;
    var s' := Apply(s, BeginInsert(key, height));
    assert forall l :: 0 <= l < MAX_HEIGHT ==> Linked(s', l) == Linked(s, l);
    ReadersKeep(s, s');
  }

  lemma WriterKeepsInv(s: State)
    requires Inv(s) && Enabled(s, WriterStep)
    ensures Inv(Apply(s, WriterStep))
  {
    hide Inv;
    if s.writer.Searching? {
      SearchKeepsInv(s);
    } else if s.writer.Raising? {
      RaiseKeepsInv(s);
    } else if s.writer.Linking? {
      LinkKeepsInv(s);
    } else {
      PublishKeepsInv(s);
    }
  }

  // A reader moves, or starts; list and writer stay.
  lemma ReaderChanges(s: State, id: nat, r: Reader)
    requires Inv(s) && ReaderOk(s, r)
    ensures Inv(s.(readers := s.readers[id := r]))
  {
    hide LevelSorted, KeysOf, Answers, Misses, Splits, IsNext, ReaderOk;
    var s' := s.(readers := s.readers[id := r]);
    assert forall l :: 0 <= l < MAX_HEIGHT ==> Linked(s', l) == Linked(s, l);
    OthersKeep(s, s');
  }

  lemma OthersKeep(s: State, s': State)
    requires Shaped(s) && s' == s.(readers := s'.readers)
    ensures forall r :: ReaderOk(s, r) <==> ReaderOk(s', r)
  {
    assert forall l :: 0 <= l < MAX_HEIGHT ==> Linked(s', l) == Linked(s, l);
  }

  lemma NewReader(s: State, q: Query)
    requires ListOk(s) && (q.After? ==> q.node in Linked(s, 0))
    ensures ReaderOk(s, Begin(s, q))
  {
  }

  // Every step of the writer or of any reader keeps every level a sorted list, contained in the
  // level below, and keeps every answer given so far free of omissions.
  lemma StepKeepsInv(s: State, e: Event)
    requires Inv(s) && Enabled(s, e)
    ensures Inv(Apply(s, e))
  {
    hide ListOk, WriterOk, ReaderOk;
    match e
    case BeginInsert(key, height) => BeginInsertKeepsInv(s, key, height);
    case WriterStep => WriterKeepsInv(s);
    case BeginRead(id, query) =>
      NewReader(s, query);
      ReaderChanges(s, id, Begin(s, query));
    case ReaderStep(id) =>
      ReaderKeepsInv(s, s.readers[id]);
      ReaderChanges(s, id, StepReader(s, s.readers[id]));
  }

  // The state a list of events leads to, if each is possible when it comes.
  function Run(events: seq<Event>): Option<State> {
    if events == [] then Some(EmptyList())
    else
      var before := Run(events[..|events| - 1]);
      var e := events[|events| - 1];
      if before.Some? && Enabled(before.value, e) then Some(Apply(before.value, e)) else None
  }

  lemma {:induction false} RunsKeepInv(events: seq<Event>)
    requires Run(events).Some?
    ensures Inv(Run(events).value)
  {
    if events == [] {
      InitialInv();
    } else {
      var front := events[..|events| - 1];
      RunsKeepInv(front);
      StepKeepsInv(Run(front).value, events[|events| - 1]);
    }
  }

  // A level's contents change in one kind of step only: the store that links the new node there
  // adds exactly its key. Level 0 is the list.
  lemma LevelsChangeOnce(s: State, e: Event, l: nat)
    requires Inv(s) && Enabled(s, e) && l < MAX_HEIGHT
    ensures Linked(Apply(s, e), l) ==
            if e.WriterStep? && s.writer.Publishing? && s.writer.level == l then Linked(s, l) + {s.writer.key}
            else Linked(s, l)
  {
    if e.WriterStep? && s.writer.Publishing? {
      PublishAdds(s);
    } else if e.WriterStep? && s.writer.Linking? {
      LinkKeepsInv(s);
    }
  }

  // A search is answered in one instant: the step that ends it gives the exact answer for the
  // list's contents at that step, and those include everything present when it began.
  lemma SearchesAreLinearizable(events: seq<Event>, id: nat)
    requires Run(events + [ReaderStep(id)]).Some? && Run(events).Some?
    requires Run(events + [ReaderStep(id)]).value.readers[id].Done?
    ensures var s, r := Run(events).value, Run(events + [ReaderStep(id)]).value.readers[id];
            && Shaped(s) && Answers(r.query, Linked(s, 0), r.result)
            && r.began <= Linked(s, 0) && !Misses(r.query, r.began, r.result)
  {
    var s := Run(events).value;
    assert (events + [ReaderStep(id)])[..|events|] == events;
    RunsKeepInv(events);
    ReaderKeepsInv(s, s.readers[id]);
  }

  // ----- run alone, every operation ends -----

  // The keys of a level a search at `x` has still in front of it.
  ghost function Ahead(s: State, l: nat, x: Ref): set<int>
    requires l < |s.links|
  {
    set k | k in Linked(s, l) && Below(x, k)
  }

  lemma AheadShrinks(s: State, l: nat, x: Ref)
    requires ListOk(s) && l < MAX_HEIGHT && On(Linked(s, l), x) && Load(s, l, x).At?
    ensures Ahead(s, l, Load(s, l, x)) < Ahead(s, l, x)
  {
    OnIsLinked(s, l, x);
    assert LevelSorted(s.links[l], Linked(s, l));
    var next := Load(s, l, x);
    assert next.key in Ahead(s, l, x) && next.key !in Ahead(s, l, next);
  }

  // Searching, then raising, then two stores a level.
  function StepsLeft(w: Writer): nat {
    match w
    case Idle => 0
    case Searching(_, _, _, _, _) => 2 * MAX_HEIGHT + 2
    case Raising(_, _, _) => 2 * MAX_HEIGHT + 1
    case Linking(_, height, level, _) => if level < height <= MAX_HEIGHT then 2 * (height - level) else 0
    case Publishing(_, height, level, _) => if level < height <= MAX_HEIGHT then 2 * (height - level) - 1 else 0
  }

  ghost function SearchLeft(s: State): (nat, set<int>)
    requires Shaped(s)
  {
    if s.writer.Searching? then (s.writer.level, Ahead(s, s.writer.level, s.writer.x)) else (0, {})
  }

  lemma SearchStaysOnLevel(s: State)
    requires Inv(s) && s.writer.Searching?
    ensures var s' := Apply(s, WriterStep);
            forall l, x :: 0 <= l < MAX_HEIGHT ==> Ahead(s', l, x) == Ahead(s, l, x)
  {
  }

  // Each step of the writer brings the insert closer to its end.
  lemma WriterAdvances(s: State)
    requires Inv(s) && !s.writer.Idle?
    ensures var s' := Apply(s, WriterStep);
            && Shaped(s') && (s'.writer.Idle? || (s'.writer.key == s.writer.key && s'.writer.height == s.writer.height))
            && (StepsLeft(s'.writer) < StepsLeft(s.writer)
                || (StepsLeft(s'.writer) == StepsLeft(s.writer)
                    && (SearchLeft(s').0 < SearchLeft(s).0
                        || (SearchLeft(s').0 == SearchLeft(s).0 && SearchLeft(s').1 < SearchLeft(s).1))))
  {
    StepKeepsInv(s, WriterStep);
    if s.writer.Searching? && KeyIsAfterNode(s.writer.key, Load(s, s.writer.level, s.writer.x)) {
      AheadShrinks(s, s.writer.level, s.writer.x);
      SearchStaysOnLevel(s);
    }
  }

  // The new node, of `height` levels, is linked on level `l`.
  ghost predicate Published(w: Writer, height: nat, l: nat) {
    l < height && (w.Idle? || ((w.Linking? || w.Publishing?) && w.level > l))
  }

  lemma InvIsShaped(s: State)
    requires Inv(s)
    ensures Shaped(s)
  {
  }

  lemma PublishedOnce(s: State, l: nat)
    requires Inv(s) && !s.writer.Idle?
    ensures Published(Apply(s, WriterStep).writer, s.writer.height, l) <==>
              Published(s.writer, s.writer.height, l) || (s.writer.Publishing? && s.writer.level == l)
  {
  }

  // What a level holds while `key` is being inserted.
  ghost predicate HoldsSoFar(s: State, before: State, key: int, height: nat, l: nat)
    requires l < |s.links| && l < |before.links|
  {
    Linked(s, l) == Linked(before, l) + if Published(s.writer, height, l) then {key} else {}
  }

  lemma StepHolds(s: State, before: State, key: int, height: nat, l: nat)
    requires Inv(s) && !s.writer.Idle? && s.writer.key == key && s.writer.height == height
    requires l < MAX_HEIGHT <= |before.links| && Shaped(s) && HoldsSoFar(s, before, key, height, l)
    ensures Shaped(Apply(s, WriterStep)) && HoldsSoFar(Apply(s, WriterStep), before, key, height, l)
  {
    hide Inv, Linked, Apply, Published;
    LevelsChangeOnce(s, WriterStep, l);
    PublishedOnce(s, l);
    StepKeepsInv(s, WriterStep);
    InvIsShaped(Apply(s, WriterStep));
  }

  lemma BeginHolds(s: State, key: int, height: nat)
    requires Inv(s) && Shaped(s) && Enabled(s, BeginInsert(key, height))
    ensures var s' := Apply(s, BeginInsert(key, height));
            && Shaped(s') && s'.writer.Searching? && s'.writer.key == key && s'.writer.height == height
            && forall l :: 0 <= l < MAX_HEIGHT ==> HoldsSoFar(s', s, key, height, l)
  {
  }

  lemma DoneHolds(s: State, before: State, key: int, height: nat, l: nat)
    requires l < |s.links| && l < |before.links| && HoldsSoFar(s, before, key, height, l) && s.writer.Idle?
    ensures Linked(s, l) == Linked(before, l) + if l < height then {key} else {}
  {
  }

  class SkipList {
    var state: State

    constructor ()
      ensures Inv(state) && state.writer.Idle? && Linked(state, 0) == {}
    {
      state := EmptyList();
      InitialInv();
    }

    // Insert: the new node is in the list on each of its levels, and nothing else changed.
    method Insert(key: int, height: nat)
      requires Inv(state) && Enabled(state, BeginInsert(key, height))
      modifies this
      ensures Inv(state) && state.writer.Idle? && Shaped(state)
      ensures forall l :: 0 <= l < MAX_HEIGHT ==>
                Linked(state, l) == old(Linked(state, l)) + if l < height then {key} else {}
    {
      hide Inv, Linked, Ahead;
      InvIsShaped(state);
      ghost var before := state;
      BeginHolds(state, key, height);
      StepKeepsInv(state, BeginInsert(key, height));
      state := Apply(state, BeginInsert(key, height));
      InvIsShaped(state);
      hide Apply, StepsLeft, SearchLeft, Published, HoldsSoFar;
      while !state.writer.Idle?
        invariant Inv(state) && Shaped(state)
        invariant !state.writer.Idle? ==> state.writer.key == key && state.writer.height == height
        invariant forall l :: 0 <= l < MAX_HEIGHT ==> HoldsSoFar(state, before, key, height, l)
        decreases StepsLeft(state.writer), SearchLeft(state).0, SearchLeft(state).1
      {
        StepKeepsInv(state, WriterStep);
        WriterAdvances(state);
        forall l: nat | l < MAX_HEIGHT ensures Shaped(Apply(state, WriterStep)) &&
            HoldsSoFar(Apply(state, WriterStep), before, key, height, l) {
          StepHolds(state, before, key, height, l);
        }
        state := Apply(state, WriterStep);
      }
      forall l: nat | l < MAX_HEIGHT ensures Linked(state, l) == Linked(before, l) + if l < height then {key} else {} {
        DoneHolds(state, before, key, height, l);
      }
    }

    // FindGreaterOrEqual, FindLessThan, FindLast and one step along level 0.
    method Find(q: Query) returns (result: Ref)
      requires Inv(state) && (q.After? ==> q.node in Linked(state, 0))
      ensures Answers(q, Linked(state, 0), result)
    {
      var r := Begin(state, q);
      while r.Walking?
        invariant ReaderOk(state, r) && r.query == q
        invariant r.Done? ==> Answers(q, Linked(state, 0), r.result)
        decreases if r.Walking? then r.level + 1 else 0, if r.Walking? then Ahead(state, r.level, r.x) else {}
      {
        ReaderKeepsInv(state, r);
        if GoesOn(q, Load(state, r.level, r.x)) {
          AheadShrinks(state, r.level, r.x);
        }
        r := StepReader(state, r);
      }
      result := r.result;
    }
  }
}

/**
 The skip list shared by one inserting writer and any number of readers, as a state
 machine whose steps are single atomic loads and stores.

 Memory is sequentially consistent, except that a reader starting a search may see any
 value max_height_ has ever held: its loads and stores are relaxed.
 */
module Concurrent {

  import opened Links
  import opened Order

  const MAX_HEIGHT: nat := 12

  // ---------- states ----------

  datatype Ptr = Null | To(id: nat)

  datatype Cell<K> = Cell(key: K, next: seq<Ptr>)

  /**
   The shared memory. Node 0 is the header; maxima is every value max_height_ has held,
   the current one last. order and linked are history variables that no step reads: the
   nodes of the list in order, and how many levels of each have been published.
   */
  datatype Memory<K> = Memory(heap: seq<Cell<K>>, maxima: seq<nat>, order: seq<nat>, linked: seq<nat>)

  /** Where the writer is in Insert, between two accesses to shared memory. */
  datatype Writer<K> =
    | Idle
    | Find(key: K, node: nat, level: nat, prev: seq<nat>)
    | Found(key: K, prev: seq<nat>)
    | Raise(key: K, prev: seq<nat>, height: nat)
    | Allocate(key: K, prev: seq<nat>, height: nat)
    | Load(node: nat, prev: seq<nat>, level: nat)
    | Store(node: nat, prev: seq<nat>, level: nat, next: Ptr)
    | Publish(node: nat, prev: seq<nat>, level: nat)

  /** Where a reader is in FindGreaterOrEqual or FindLast, or which node its iterator is on. */
  datatype Reader<K> =
    | Resting
    | Search(target: K, node: nat, level: nat)
    | Done(target: K, result: Ptr)
    | SearchLast(node: nat, level: nat)
    | Last(node: nat)
    | On(cursor: Ptr)

  datatype State<K> = State(mem: Memory<K>, writer: Writer<K>, readers: map<nat, Reader<K>>)

  // ---------- steps ----------

  function Max<K>(m: Memory<K>): nat {
    if |m.maxima| == 0 then 1 else m.maxima[|m.maxima| - 1]
  }

  predicate CanLoad<K>(m: Memory<K>, node: nat, level: nat) {
    node < |m.heap| && level < |m.heap[node].next|
  }

  function Loaded<K>(m: Memory<K>, node: nat, level: nat): Ptr
    requires CanLoad(m, node, level)
  {
    m.heap[node].next[level]
  }

  function StorePtr<K>(m: Memory<K>, node: nat, level: nat, x: Ptr): Memory<K>
    requires CanLoad(m, node, level)
  {
    m.(heap := m.heap[node := m.heap[node].(next := m.heap[node].next[level := x])])
  }

  predicate KeyIsAfter<K(!new)>(cmp: (K, K) -> int, m: Memory<K>, key: K, p: Ptr) {
    p.To? && p.id < |m.heap| && cmp(m.heap[p.id].key, key) < 0
  }

  /** What a reader does between resting and done: one load a step. */
  ghost predicate ReaderStep<K(!new)>(cmp: (K, K) -> int, m: Memory<K>, r: Reader<K>, r': Reader<K>) {
    match r
    case Search(target, node, level) =>
      && CanLoad(m, node, level)
      && var next := Loaded(m, node, level);
         r' == if KeyIsAfter(cmp, m, target, next) then Search(target, next.id, level)
               else if level > 0 then Search(target, node, level - 1)
               else Done(target, next)
    case SearchLast(node, level) =>
      && CanLoad(m, node, level)
      && var next := Loaded(m, node, level);
         r' == if next.To? then SearchLast(next.id, level)
               else if level > 0 then SearchLast(node, level - 1)
               else Last(node)
    case Last(node) =>
      // SeekForLast: no position when the last node is the header.
      r' == On(if node == 0 then Null else To(node)) || Returns(m, r')
    case On(To(id)) =>
      || (CanLoad(m, id, 0) && r' == On(Loaded(m, id, 0)))
      || Returns(m, r')
    case On(Null) =>
      Returns(m, r')
    case Done(_, result) =>
      r' == On(result) || Returns(m, r')
    case Resting =>
      // SeekForFirst.
      || (CanLoad(m, 0, 0) && r' == On(Loaded(m, 0, 0)))
      || StartsSearch(m, r')
  }

  /** The call is over, and the iterator free for any other; or the next search begins at once. */
  ghost predicate Returns<K>(m: Memory<K>, r: Reader<K>) {
    r == Resting || StartsSearch(m, r)
  }

  /** A search starts at the header, on the top level of some past or present height. */
  ghost predicate StartsSearch<K>(m: Memory<K>, r: Reader<K>) {
    (r.Search? || r.SearchLast?) && r.node == 0 && exists i :: 0 <= i < |m.maxima| && r.level + 1 == m.maxima[i]
  }

  /** Where the writer goes on after a publication. */
  function AfterPublish<K>(m: Memory<K>, node: nat, prev: seq<nat>, level: nat): Writer<K>
    requires node < |m.heap|
  {
    if level + 1 < |m.heap[node].next| then Load(node, prev, level + 1) else Idle
  }

  /** One access of the writer to shared memory, or one of its private choices. */
  ghost predicate WriterStep<K(!new)>(cmp: (K, K) -> int, s: State<K>, m': Memory<K>, w': Writer<K>) {
    var m := s.mem;
    match s.writer
    case Idle =>
      // Insert demands that no equal key is in the list.
      && w'.Find? && Absent(cmp, m, w'.key)
      && w'.node == 0 && w'.level + 1 == Max(m) && w'.prev == seq(MAX_HEIGHT, _ => 0) && m' == m
    case Find(key, node, level, prev) =>
      && CanLoad(m, node, level) && level < |prev|
      && m' == m
      && var next := Loaded(m, node, level);
         w' == if KeyIsAfter(cmp, m, key, next) then Find(key, next.id, level, prev)
               else if level > 0 then Find(key, node, level - 1, prev[level := node])
               else Found(key, prev[level := node])
    case Found(key, prev) =>
      // RandomHeight; the slots of the new levels are set to the header.
      && m' == m
      && exists h :: 1 <= h <= MAX_HEIGHT
          && w' == (if h > Max(m) then Raise(key, Raised(prev, Max(m), h), h) else Allocate(key, prev, h))
    case Raise(key, prev, height) =>
      m' == m.(maxima := m.maxima + [height]) && w' == Allocate(key, prev, height)
    case Allocate(key, prev, height) =>
      m' == m.(heap := m.heap + [Cell(key, seq(height, _ => Null))]) && w' == Load(|m.heap|, prev, 0)
    case Load(node, prev, level) =>
      && level < |prev| && CanLoad(m, prev[level], level)
      && m' == m && w' == Store(node, prev, level, Loaded(m, prev[level], level))
    case Store(node, prev, level, next) =>
      && CanLoad(m, node, level)
      && m' == StorePtr(m, node, level, next) && w' == Publish(node, prev, level)
    case Publish(node, prev, level) =>
      && level < |prev| && CanLoad(m, prev[level], level) && node < |m.heap|
      && m' == Published(cmp, StorePtr(m, prev[level], level, To(node)), node, level)
      && w' == AfterPublish(m, node, prev, level)
  }

  /** The slots from .. to - 1 are set to the header. */
  function Raised(prev: seq<nat>, from: nat, to: nat): seq<nat> {
    seq(|prev|, i requires 0 <= i < |prev| => if from <= i < to then 0 else prev[i])
  }

  /** The history variables after a publication: on level 0 the node enters the order. */
  ghost function Published<K(!new)>(cmp: (K, K) -> int, m: Memory<K>, node: nat, level: nat): Memory<K>
    requires node < |m.heap|
  {
    var r := Rank(cmp, m, m.heap[node].key);
    if level == 0 && r <= |m.order| && r <= |m.linked| then
      m.(order := Inserted(m.order, r, node), linked := Inserted(m.linked, r, 1))
    else if r < |m.linked| then
      m.(linked := m.linked[r := level + 1])
    else m
  }

  ghost predicate Step<K(!new)>(cmp: (K, K) -> int, s: State<K>, s': State<K>) {
    || (s'.readers == s.readers && WriterStep(cmp, s, s'.mem, s'.writer))
    || (s'.mem == s.mem && s'.writer == s.writer
        && exists i :: i in s.readers && i in s'.readers && s'.readers == s.readers[i := s'.readers[i]]
            && ReaderStep(cmp, s.mem, s.readers[i], s'.readers[i]))
  }

  ghost predicate Init<K(!new)>(cmp: (K, K) -> int, s: State<K>) {
    && TotalOrder(cmp)
    && |s.mem.heap| == 1 && s.mem.heap[0].next == seq(MAX_HEIGHT, _ => Null)
    && s.mem.maxima == [1] && s.mem.order == [0] && s.mem.linked == [MAX_HEIGHT]
    && s.writer == Idle
    && forall i :: i in s.readers ==> s.readers[i] == Resting
  }

  // ---------- the list ----------

  /** The keys of the list, the header's first. */
  ghost function Keys<K>(m: Memory<K>): (k: seq<K>)
    requires OrderInHeap(m)
    ensures |k| == |m.order|
  {
    seq(|m.order|, i requires 0 <= i < |m.order| => m.heap[m.order[i]].key)
  }

  ghost predicate OrderInHeap<K>(m: Memory<K>) {
    forall i :: 0 <= i < |m.order| ==> m.order[i] < |m.heap|
  }

  ghost function Nodes<K>(m: Memory<K>): (n: seq<Ptr>)
    ensures |n| == |m.order|
  {
    seq(|m.order|, i requires 0 <= i < |m.order| => To(m.order[i]))
  }

  ghost function Pointers<K>(m: Memory<K>): (p: seq<seq<Ptr>>)
    requires OrderInHeap(m)
    ensures |p| == |m.order|
  {
    seq(|m.order|, i requires 0 <= i < |m.order| => m.heap[m.order[i]].next)
  }

  /** The position at which a key belongs. */
  ghost function Rank<K(!new)>(cmp: (K, K) -> int, m: Memory<K>, key: K): nat {
    if OrderInHeap(m) && 1 <= |m.order| then LowerBound(cmp, Keys(m), 1, key) else 0
  }

  ghost predicate Absent<K(!new)>(cmp: (K, K) -> int, m: Memory<K>, key: K) {
    OrderInHeap(m) && forall i :: 1 <= i < |m.order| ==> cmp(Keys(m)[i], key) != 0
  }

  // ---------- the invariant ----------

  /** The list is well-formed, whatever the writer is in the middle of. */
  ghost predicate Structure<K(!new)>(cmp: (K, K) -> int, m: Memory<K>) {
    && TotalOrder(cmp)
    && |m.order| == |m.linked| >= 1 && m.order[0] == 0 && OrderInHeap(m)
    && (forall i, j :: 0 <= i < j < |m.order| ==> m.order[i] != m.order[j])
    && m.linked[0] == MAX_HEIGHT
    && (forall i :: 0 <= i < |m.linked| ==> 1 <= m.linked[i])
    && (forall i :: 0 < i < |m.linked| ==> m.linked[i] <= Max(m))
    && |m.maxima| >= 1 && (forall i :: 0 <= i < |m.maxima| ==> 1 <= m.maxima[i] <= MAX_HEIGHT)
    && Increasing(cmp, Keys(m), 1)
    && Threaded(Nodes(m), Null, Pointers(m), m.linked)
  }

  /** The node is in the list on this level. */
  ghost predicate Visible<K>(m: Memory<K>, node: nat, level: nat) {
    |m.linked| == |m.order| && exists x :: 0 <= x < |m.order| && m.order[x] == node && m.linked[x] > level
  }

  ghost predicate Below<K(!new)>(cmp: (K, K) -> int, m: Memory<K>, node: nat, key: K) {
    node == 0 || (node < |m.heap| && cmp(m.heap[node].key, key) < 0)
  }

  ghost predicate ReaderInv<K(!new)>(cmp: (K, K) -> int, m: Memory<K>, r: Reader<K>) {
    match r
    case Resting => true
    case Search(target, node, level) => Visible(m, node, level) && Below(cmp, m, node, target)
    case Done(_, result) => result.To? ==> Visible(m, result.id, 0)
    case SearchLast(node, level) => Visible(m, node, level)
    case Last(node) => Visible(m, node, 0)
    case On(node) => node.To? ==> Visible(m, node.id, 0)
  }

  // ---------- one load ----------

  /**
   A load from a node of the list on a level it is linked on: it stays in the list, and on
   level 0 a load that does not move on returns the first node not below the target, as of
   this very instant.
   */
  lemma LoadFacts<K(!new)>(cmp: (K, K) -> int, m: Memory<K>, target: K, node: nat, level: nat)
    requires Structure(cmp, m) && Visible(m, node, level) && Below(cmp, m, node, target)
    ensures CanLoad(m, node, level)
    ensures var next, r := Loaded(m, node, level), Rank(cmp, m, target);
            && (KeyIsAfter(cmp, m, target, next) ==> Visible(m, next.id, level) && Below(cmp, m, next.id, target))
            && (!KeyIsAfter(cmp, m, target, next) && level == 0 ==> next == At(Nodes(m), Null, r))
  {
    var x :| 0 <= x < |m.order| && m.order[x] == node && m.linked[x] > level;
    LoadAt(cmp, m, target, x, level);
  }

  /** The same from a known position, with what the writer needs besides. */
  lemma LoadAt<K(!new)>(cmp: (K, K) -> int, m: Memory<K>, target: K, x: nat, level: nat)
    requires Structure(cmp, m) && x < |m.order| && m.linked[x] > level && Below(cmp, m, m.order[x], target)
    ensures CanLoad(m, m.order[x], level)
    ensures var next, r, y := Loaded(m, m.order[x], level), Rank(cmp, m, target), NextAt(m.linked, x, level);
            && x < r && next == At(Nodes(m), Null, y)
            && (KeyIsAfter(cmp, m, target, next) <==> y < r)
            && (y < r ==> m.linked[y] > level && Below(cmp, m, m.order[y], target))
            && (y >= r ==> PrevAt(m.linked, r, level) == x)
            && (y >= r && level == 0 ==> y == r)
  {
    var r, y := Rank(cmp, m, target), NextAt(m.linked, x, level);
    var keys := Keys(m);
    if x > 0 { AfterLowerBound(cmp, keys, 1, target, x); }
    NextAtMeans(m.linked, x, level);
    assert Pointers(m)[x][level] == At(Nodes(m), Null, y);
    if y < |m.order| {
      AfterLowerBound(cmp, keys, 1, target, y);
    }
    if y >= r {
      PrevAtUnique(m.linked, r, level, x);
      if level == 0 { NextAtUnique(m.linked, x, 0, x + 1); }
    }
  }

  // ---------- the writer's invariant ----------

  /** All nodes are linked on all their levels. */
  ghost predicate Full<K>(m: Memory<K>) {
    OrderInHeap(m) && FullExcept(Pointers(m), m.linked, |m.linked|)
  }

  /** Searching the place of the new key: the levels above are done. */
  ghost predicate SearchInv<K(!new)>(cmp: (K, K) -> int, m: Memory<K>, key: K, node: nat, level: nat, prev: seq<nat>) {
    && Absent(cmp, m, key) && Full(m)
    && level < Max(m) && |prev| == MAX_HEIGHT
    && Visible(m, node, level) && Below(cmp, m, node, key)
    && Predecessors(m.order, m.linked, prev, Rank(cmp, m, key), level + 1, Max(m))
  }

  /** The predecessors of the new key are known on the levels below height. */
  ghost predicate PlaceInv<K(!new)>(cmp: (K, K) -> int, m: Memory<K>, key: K, prev: seq<nat>, height: nat) {
    && Absent(cmp, m, key) && Full(m)
    && |prev| == MAX_HEIGHT && height <= MAX_HEIGHT
    && Predecessors(m.order, m.linked, prev, Rank(cmp, m, key), 0, height)
  }

  /** The new node is published on the levels below this one. */
  ghost predicate LinkInv<K(!new)>(cmp: (K, K) -> int, m: Memory<K>, node: nat, prev: seq<nat>, level: nat) {
    && node < |m.heap| && level <= |m.heap[node].next| <= Max(m) && |prev| == MAX_HEIGHT
    && OrderInHeap(m)
    && var r := Rank(cmp, m, m.heap[node].key);
       && Predecessors(m.order, m.linked, prev, r, 0, |m.heap[node].next|)
       && (if level == 0 then
             node !in m.order && Absent(cmp, m, m.heap[node].key) && Full(m)
           else
             r < |m.order| && r < |m.linked| && m.order[r] == node && m.linked[r] == level
             && FullExcept(Pointers(m), m.linked, r))
  }

  ghost predicate WriterInv<K(!new)>(cmp: (K, K) -> int, m: Memory<K>, w: Writer<K>) {
    match w
    case Idle => Full(m)
    case Find(key, node, level, prev) => SearchInv(cmp, m, key, node, level, prev)
    case Found(key, prev) => PlaceInv(cmp, m, key, prev, Max(m))
    case Raise(key, prev, height) => Max(m) < height && PlaceInv(cmp, m, key, prev, height)
    case Allocate(key, prev, height) => 1 <= height <= Max(m) && PlaceInv(cmp, m, key, prev, height)
    case Load(node, prev, level) => LinkInv(cmp, m, node, prev, level) && CanLoad(m, node, level)
    case Store(node, prev, level, next) =>
      && LinkInv(cmp, m, node, prev, level) && CanLoad(m, node, level)
      && CanLoad(m, prev[level], level) && next == Loaded(m, prev[level], level)
    case Publish(node, prev, level) =>
      && LinkInv(cmp, m, node, prev, level) && CanLoad(m, node, level)
      && CanLoad(m, prev[level], level) && Loaded(m, node, level) == Loaded(m, prev[level], level)
  }

  /** Nothing is ever unlinked, moved or changed: readers keep their footing. */
  ghost predicate Extends<K>(m: Memory<K>, m': Memory<K>) {
    && |m.heap| <= |m'.heap| && (forall id :: 0 <= id < |m.heap| ==> m'.heap[id].key == m.heap[id].key)
    && (forall id, level :: Visible(m, id, level) ==> Visible(m', id, level))
  }

  lemma ReaderKept<K(!new)>(cmp: (K, K) -> int, m: Memory<K>, m': Memory<K>, r: Reader<K>)
    requires ReaderInv(cmp, m, r) && Extends(m, m')
    ensures ReaderInv(cmp, m', r)
  {}

  // ---------- the writer's steps ----------

  lemma BeginInsert<K(!new)>(cmp: (K, K) -> int, m: Memory<K>, key: K)
    requires Structure(cmp, m) && Full(m) && Absent(cmp, m, key)
    ensures SearchInv(cmp, m, key, 0, Max(m) - 1, seq(MAX_HEIGHT, _ => 0))
  {
    assert m.order[0] == 0 && m.linked[0] > Max(m) - 1;
  }

  lemma SearchStep<K(!new)>(cmp: (K, K) -> int, m: Memory<K>, key: K, node: nat, level: nat, prev: seq<nat>)
    requires Structure(cmp, m) && SearchInv(cmp, m, key, node, level, prev)
    ensures CanLoad(m, node, level)
    ensures var next := Loaded(m, node, level);
            if KeyIsAfter(cmp, m, key, next) then SearchInv(cmp, m, key, next.id, level, prev)
            else if level > 0 then SearchInv(cmp, m, key, node, level - 1, prev[level := node])
            else PlaceInv(cmp, m, key, prev[level := node], Max(m))
  {
    var x :| 0 <= x < |m.order| && m.order[x] == node && m.linked[x] > level;
    LoadAt(cmp, m, key, x, level);
    var r := Rank(cmp, m, key);
    if !KeyIsAfter(cmp, m, key, Loaded(m, node, level)) {
      PredecessorsExtend(m.order, m.linked, prev, r, level, x, level + 1, Max(m));
    }
  }

  /** Levels that no node but the header reaches have the header as predecessor. */
  lemma TopPredecessors<K(!new)>(cmp: (K, K) -> int, m: Memory<K>, key: K, prev: seq<nat>, height: nat)
    requires Structure(cmp, m) && PlaceInv(cmp, m, key, prev, Max(m)) && Max(m) < height <= MAX_HEIGHT
    ensures PlaceInv(cmp, m, key, Raised(prev, Max(m), height), height)
  {
    var r := Rank(cmp, m, key);
    forall l | 0 <= l < height
      ensures Raised(prev, Max(m), height)[l] == m.order[PrevAt(m.linked, r, l)]
    {
      if l >= Max(m) { PrevAtUnique(m.linked, r, l, 0); }
    }
  }

  lemma Lower<K(!new)>(cmp: (K, K) -> int, m: Memory<K>, key: K, prev: seq<nat>, height: nat)
    requires PlaceInv(cmp, m, key, prev, Max(m)) && height <= Max(m)
    ensures PlaceInv(cmp, m, key, prev, height)
  {}

  /** The store to max_height_. */
  lemma RaiseStep<K(!new)>(cmp: (K, K) -> int, m: Memory<K>, key: K, prev: seq<nat>, height: nat, m': Memory<K>)
    requires Structure(cmp, m) && Max(m) < height <= MAX_HEIGHT && PlaceInv(cmp, m, key, prev, height)
    requires m' == m.(maxima := m.maxima + [height])
    ensures Structure(cmp, m') && PlaceInv(cmp, m', key, prev, height) && Max(m') == height && Extends(m, m')
  {
    SameList(cmp, m, m');
  }

  /** What depends on the nodes of the list alone. */
  lemma SameList<K(!new)>(cmp: (K, K) -> int, m: Memory<K>, m': Memory<K>)
    requires OrderInHeap(m) && m'.order == m.order && |m'.heap| >= |m.heap|
    requires forall i :: 0 <= i < |m.order| ==> m'.heap[m.order[i]] == m.heap[m.order[i]]
    ensures OrderInHeap(m') && Keys(m') == Keys(m) && Pointers(m') == Pointers(m) && Nodes(m') == Nodes(m)
  {}

  lemma AllocateStep<K(!new)>(cmp: (K, K) -> int, m: Memory<K>, key: K, prev: seq<nat>, height: nat, m': Memory<K>)
    requires Structure(cmp, m) && 1 <= height <= Max(m) && PlaceInv(cmp, m, key, prev, height)
    requires m' == m.(heap := m.heap + [Cell(key, seq(height, _ => Null))])
    ensures Structure(cmp, m') && LinkInv(cmp, m', |m.heap|, prev, 0) && CanLoad(m', |m.heap|, 0) && Extends(m, m')
  {
    SameList(cmp, m, m');
    assert Keys(m') == Keys(m);
  }

  /** The predecessor of the new node on a level. */
  lemma Predecessor<K(!new)>(cmp: (K, K) -> int, m: Memory<K>, node: nat, prev: seq<nat>, level: nat) returns (p: nat)
    requires Structure(cmp, m) && LinkInv(cmp, m, node, prev, level) && level < |m.heap[node].next|
    ensures var r := Rank(cmp, m, m.heap[node].key);
            && 0 < r <= |m.order| && p == PrevAt(m.linked, r, level) < r && m.linked[p] > level
            && level < |prev| && prev[level] == m.order[p] != node && CanLoad(m, m.order[p], level)
  {
    var r := Rank(cmp, m, m.heap[node].key);
    p := PrevAt(m.linked, r, level);
    PrevAtMeans(m.linked, r, level);
    assert level < |Pointers(m)[p]|;
  }

  /** A change of pointers only. */
  lemma SameShape<K(!new)>(cmp: (K, K) -> int, m: Memory<K>, m': Memory<K>)
    requires Structure(cmp, m)
    requires m'.order == m.order && m'.linked == m.linked && m'.maxima == m.maxima && OrderInHeap(m')
    requires Keys(m') == Keys(m) && Threaded(Nodes(m), Null, Pointers(m'), m.linked)
    ensures Structure(cmp, m')
  {
    hide Threaded;
    assert Nodes(m') == Nodes(m);
  }

  lemma StoreEffect<K(!new)>(cmp: (K, K) -> int, m: Memory<K>, node: nat, prev: seq<nat>, level: nat, x: Ptr, m': Memory<K>)
    requires Structure(cmp, m) && LinkInv(cmp, m, node, prev, level) && CanLoad(m, node, level)
    requires m' == StorePtr(m, node, level, x)
    ensures OrderInHeap(m') && Keys(m') == Keys(m) && Threaded(Nodes(m), Null, Pointers(m'), m.linked)
    ensures level == 0 ==> Pointers(m') == Pointers(m)
    ensures level > 0 ==> var r := Rank(cmp, m, m.heap[node].key);
                          r < |Pointers(m)| && level < |Pointers(m)[r]| && Pointers(m') == Stored(Pointers(m), r, level, x)
  {
    hide TotalOrder;
    hide Increasing;
    hide Predecessors;
    var r := Rank(cmp, m, m.heap[node].key);
    assert Keys(m') == Keys(m);
    if level == 0 {
      SameList(cmp, m, m');
    } else {
      ThreadedPrepare(Nodes(m), Null, Pointers(m), m.linked, r, level, x);
      assert Pointers(m') == Stored(Pointers(m), r, level, x);
    }
  }

  /** A store into the new node, on a level that is not published yet. */
  lemma StoreStep<K(!new)>(cmp: (K, K) -> int, m: Memory<K>, node: nat, prev: seq<nat>, level: nat, x: Ptr, m': Memory<K>)
    requires Structure(cmp, m) && LinkInv(cmp, m, node, prev, level) && CanLoad(m, node, level)
    requires m' == StorePtr(m, node, level, x)
    ensures Structure(cmp, m') && LinkInv(cmp, m', node, prev, level) && Extends(m, m')
    ensures CanLoad(m', node, level) && Loaded(m', node, level) == x
    ensures Keys(m') == Keys(m)
  {
    hide Threaded;
    hide Predecessors;
    hide TotalOrder;
    hide Increasing;
    StoreEffect(cmp, m, node, prev, level, x, m');
    SameShape(cmp, m, m');
  }

  /** A change to the order of the list that keeps it well-formed. */
  lemma Restructured<K(!new)>(cmp: (K, K) -> int, m: Memory<K>, m': Memory<K>, r: nat, node: nat)
    requires Structure(cmp, m) && 0 < r <= |m.order| && node !in m.order && node < |m.heap| == |m'.heap|
    requires m'.maxima == m.maxima && m'.order == Inserted(m.order, r, node) && m'.linked == Inserted(m.linked, r, 1)
    requires OrderInHeap(m') && Increasing(cmp, Keys(m'), 1) && Threaded(Nodes(m'), Null, Pointers(m'), m'.linked)
    requires forall id :: 0 <= id < |m.heap| ==> m'.heap[id].key == m.heap[id].key
    ensures Structure(cmp, m') && Extends(m, m')
  {
    hide Threaded;
    hide Increasing;
    hide TotalOrder;
    hide Visible;
    VisibleInserted(m, m', r, node);
    InsertedDistinct(m.order, r, node);
  }

  lemma VisibleInserted<K>(m: Memory<K>, m': Memory<K>, r: nat, node: nat)
    requires r <= |m.order| == |m.linked|
    requires m'.order == Inserted(m.order, r, node) && m'.linked == Inserted(m.linked, r, 1)
    ensures forall id, level :: Visible(m, id, level) ==> Visible(m', id, level)
  {
    forall id, level | Visible(m, id, level)
      ensures Visible(m', id, level)
    {
      var x :| 0 <= x < |m.order| && m.order[x] == id && m.linked[x] > level;
      assert m'.order[Shifted(x, r)] == id && m'.linked[Shifted(x, r)] == m.linked[x];
    }
  }

  /** The second store on level 0, as a precondition. */
  ghost predicate Publishing<K(!new)>(cmp: (K, K) -> int, m: Memory<K>, node: nat, prev: seq<nat>, level: nat, m': Memory<K>) {
    && Structure(cmp, m) && LinkInv(cmp, m, node, prev, level) && CanLoad(m, node, level)
    && level < |prev| && CanLoad(m, prev[level], level)
    && Loaded(m, node, level) == Loaded(m, prev[level], level)
    && m' == Published(cmp, StorePtr(m, prev[level], level, To(node)), node, level)
  }

  /** What a publication achieves: one more level, and on level 0 one more key. */
  ghost predicate LevelPublished<K(!new)>(cmp: (K, K) -> int, m: Memory<K>, node: nat, prev: seq<nat>, level: nat, m': Memory<K>) {
    && Structure(cmp, m') && Extends(m, m') && LinkInv(cmp, m', node, prev, level + 1)
    && node < |m.heap| && m'.heap[node].next == m.heap[node].next
    && KeysEffect(cmp, m, Publish(node, prev, level), m')
  }

  /** What the publication on level 0 does to the list. */
  lemma FirstEffect<K(!new)>(cmp: (K, K) -> int, m: Memory<K>, node: nat, prev: seq<nat>, m': Memory<K>, r: nat, p: nat)
    requires Publishing(cmp, m, node, prev, 0, m') && r == Rank(cmp, m, m.heap[node].key)
    requires 0 < r <= |m.order| && p < r && prev[0] == m.order[p] != node
    ensures m'.order == Inserted(m.order, r, node) && m'.linked == Inserted(m.linked, r, 1) && m'.maxima == m.maxima
    ensures m'.heap == StorePtr(m, m.order[p], 0, To(node)).heap
  {
    hide Threaded;
    hide Increasing;
    hide Predecessors;
    hide FullExcept;
    assert Keys(StorePtr(m, prev[0], 0, To(node))) == Keys(m);
  }

  lemma FirstContents<K(!new)>(m: Memory<K>, node: nat, m': Memory<K>, r: nat, p: nat)
    requires OrderInHeap(m) && node < |m.heap| && 0 < r <= |m.order| && p < r && m.order[p] != node
    requires forall i, j :: 0 <= i < j < |m.order| ==> m.order[i] != m.order[j]
    requires CanLoad(m, m.order[p], 0) && m'.heap == StorePtr(m, m.order[p], 0, To(node)).heap
    requires m'.order == Inserted(m.order, r, node) && node !in m.order
    ensures OrderInHeap(m') && Nodes(m') == Inserted(Nodes(m), r, To(node))
    ensures Keys(m') == Inserted(Keys(m), r, m.heap[node].key)
    ensures Pointers(m') == Stored(Inserted(Pointers(m), r, m.heap[node].next), p, 0, To(node))
    ensures m'.heap[node] == m.heap[node]
    ensures |m'.heap| == |m.heap| && forall id :: 0 <= id < |m.heap| ==> m'.heap[id].key == m.heap[id].key
  {
    var placed := Inserted(Pointers(m), r, m.heap[node].next);
    forall i | 0 <= i < |m'.order|
      ensures m'.order[i] < |m'.heap| && m'.heap[m'.order[i]].next == Stored(placed, p, 0, To(node))[i]
    {
      if i < r { assert m'.order[i] == m.order[i]; }
      if i > r { assert m'.order[i] == m.order[i - 1]; }
    }
  }

  lemma FirstThreaded<K(!new)>(cmp: (K, K) -> int, m: Memory<K>, node: nat, prev: seq<nat>, r: nat, p: nat, placed: seq<seq<Ptr>>)
    requires Structure(cmp, m) && node < |m.heap| && 0 < r <= |m.order| && p == PrevAt(m.linked, r, 0) && m.linked[p] > 0
    requires placed == Inserted(Pointers(m), r, m.heap[node].next)
    requires CanLoad(m, node, 0) && CanLoad(m, m.order[p], 0) && Loaded(m, node, 0) == Loaded(m, m.order[p], 0)
    ensures Threaded(Inserted(Nodes(m), r, To(node)), Null, Stored(placed, p, 0, To(node)), Inserted(m.linked, r, 1))
  {
    var linked := Inserted(m.linked, r, 0);
    ThreadedPlace(Nodes(m), Null, Pointers(m), m.linked, r, To(node), m.heap[node].next);
    PrevAfterInsertion(m.linked, r, 0);
    hide Threaded;
    ThreadedPublish(Inserted(Nodes(m), r, To(node)), Null, placed, linked, r, 0, p);
    assert Inserted(m.linked, r, 1) == linked[r := 1];
  }

  lemma FirstLinked<K(!new)>(cmp: (K, K) -> int, m: Memory<K>, node: nat, prev: seq<nat>, r: nat, p: nat, placed: seq<seq<Ptr>>)
    requires Structure(cmp, m) && LinkInv(cmp, m, node, prev, 0) && CanLoad(m, node, 0)
    requires r == Rank(cmp, m, m.heap[node].key) && 0 < r <= |m.order| && p < r && CanLoad(m, m.order[p], 0)
    requires placed == Inserted(Pointers(m), r, m.heap[node].next)
    ensures FullExcept(Stored(placed, p, 0, To(node)), Inserted(m.linked, r, 1), r)
    ensures Predecessors(Inserted(m.order, r, node), Inserted(m.linked, r, 1), prev, r, 0, |m.heap[node].next|)
  {
    var own, linked := m.heap[node].next, Inserted(m.linked, r, 0);
    FullAfterPlace(Pointers(m), m.linked, r, own);
    PredecessorsAfterPlace(m.order, m.linked, prev, r, node, 0, |own|);
    assert Inserted(m.linked, r, 1) == linked[r := 1];
    hide FullExcept;
    hide Predecessors;
    hide Threaded;
    FullAfterPublish(placed, linked, r, p, 0, To(node));
    PredecessorsAfterGrowth(Inserted(m.order, r, node), linked, prev, r, 1, 0, |own|);
  }

  /** The parts of the list after the publication on level 0. */
  ghost predicate FirstParts<K(!new)>(cmp: (K, K) -> int, m: Memory<K>, node: nat, prev: seq<nat>, m': Memory<K>, r: nat) {
    && OrderInHeap(m) && OrderInHeap(m') && node < |m.heap| == |m'.heap| && node !in m.order && 0 < r <= |m.order| == |m.linked|
    && m'.order == Inserted(m.order, r, node) && m'.linked == Inserted(m.linked, r, 1) && m'.maxima == m.maxima
    && Keys(m') == Inserted(Keys(m), r, m.heap[node].key) && m'.heap[node] == m.heap[node]
    && (forall id :: 0 <= id < |m.heap| ==> m'.heap[id].key == m.heap[id].key)
    && Threaded(Nodes(m'), Null, Pointers(m'), m'.linked)
    && FullExcept(Pointers(m'), m'.linked, r)
    && Predecessors(m'.order, m'.linked, prev, r, 0, |m.heap[node].next|)
  }

  lemma FirstPartsHold<K(!new)>(cmp: (K, K) -> int, m: Memory<K>, node: nat, prev: seq<nat>, m': Memory<K>, r: nat)
    requires Publishing(cmp, m, node, prev, 0, m') && r == Rank(cmp, m, m.heap[node].key)
    ensures FirstParts(cmp, m, node, prev, m', r)
  {
    var p := Predecessor(cmp, m, node, prev, 0);
    var placed := Inserted(Pointers(m), r, m.heap[node].next);
    FirstThreaded(cmp, m, node, prev, r, p, placed);
    FirstLinked(cmp, m, node, prev, r, p, placed);
    FirstEffect(cmp, m, node, prev, m', r, p);
    FirstContents(m, node, m', r, p);
    hide Threaded;
    hide FullExcept;
    hide Predecessors;
    hide Increasing;
    hide TotalOrder;
  }

  /** The new key keeps the list sorted, and is at its own place in it. */
  lemma FirstOrder<K(!new)>(cmp: (K, K) -> int, m: Memory<K>, node: nat, prev: seq<nat>, m': Memory<K>, r: nat)
    requires Structure(cmp, m) && FirstParts(cmp, m, node, prev, m', r)
    requires r == Rank(cmp, m, m.heap[node].key) && Absent(cmp, m, m.heap[node].key)
    ensures Structure(cmp, m') && Extends(m, m')
    ensures Rank(cmp, m', m.heap[node].key) == r
  {
    hide Threaded;
    hide FullExcept;
    hide Predecessors;
    hide TotalOrder;
    hide Increasing;
    hide LowerBound;
    InsertionKeepsOrder(cmp, Keys(m), 1, m.heap[node].key);
    InsertedRank(cmp, Keys(m), 1, m.heap[node].key);
    Restructured(cmp, m, m', r, node);
  }

  lemma PublishingMeans<K(!new)>(cmp: (K, K) -> int, m: Memory<K>, node: nat, prev: seq<nat>, level: nat, m': Memory<K>)
    requires Publishing(cmp, m, node, prev, level, m')
    ensures Structure(cmp, m) && node < |m.heap| && level < |m.heap[node].next| <= Max(m) && |prev| == MAX_HEIGHT
    ensures level == 0 ==> Absent(cmp, m, m.heap[node].key)
    ensures level > 0 ==> var r := Rank(cmp, m, m.heap[node].key); 0 < r < |m.order| && m.order[r] == node
  {
    var p := Predecessor(cmp, m, node, prev, level);
  }

  /** The publication on level 0: the moment the key enters the list. */
  lemma PublishFirst<K(!new)>(cmp: (K, K) -> int, m: Memory<K>, node: nat, prev: seq<nat>, m': Memory<K>)
    requires Publishing(cmp, m, node, prev, 0, m')
    ensures LevelPublished(cmp, m, node, prev, 0, m')
  {
    hide Publishing;
    hide Structure;
    hide Threaded;
    hide FullExcept;
    hide Predecessors;
    hide Extends;
    hide Rank;
    hide Absent;
    PublishingMeans(cmp, m, node, prev, 0, m');
    var r := Rank(cmp, m, m.heap[node].key);
    FirstPartsHold(cmp, m, node, prev, m', r);
    FirstOrder(cmp, m, node, prev, m', r);
  }

  /** What the publication on a higher level does to the list. */
  lemma NextEffect<K(!new)>(cmp: (K, K) -> int, m: Memory<K>, node: nat, prev: seq<nat>, level: nat, m': Memory<K>, r: nat, p: nat)
    requires Publishing(cmp, m, node, prev, level, m') && level > 0 && r == Rank(cmp, m, m.heap[node].key)
    requires r < |m.order| && p < |m.order| && prev[level] == m.order[p] != node
    ensures m'.order == m.order && m'.linked == m.linked[r := level + 1] && m'.maxima == m.maxima
    ensures OrderInHeap(m') && Nodes(m') == Nodes(m) && Keys(m') == Keys(m)
    ensures level < |Pointers(m)[p]| && Pointers(m') == Stored(Pointers(m), p, level, To(node))
    ensures m'.heap[node] == m.heap[node]
    ensures |m'.heap| == |m.heap| && forall id :: 0 <= id < |m.heap| ==> m'.heap[id].key == m.heap[id].key
  {
    hide Threaded;
    hide Increasing;
    hide Predecessors;
    hide FullExcept;
    assert Keys(StorePtr(m, prev[level], level, To(node))) == Keys(m);
  }

  lemma NextLinked<K(!new)>(cmp: (K, K) -> int, m: Memory<K>, node: nat, prev: seq<nat>, level: nat, r: nat, p: nat)
    requires Structure(cmp, m) && LinkInv(cmp, m, node, prev, level) && CanLoad(m, node, level) && level > 0
    requires r == Rank(cmp, m, m.heap[node].key) && p == PrevAt(m.linked, r, level) < r && m.linked[p] > level
    requires CanLoad(m, m.order[p], level) && Loaded(m, node, level) == Loaded(m, m.order[p], level)
    ensures Threaded(Nodes(m), Null, Stored(Pointers(m), p, level, To(node)), m.linked[r := level + 1])
    ensures FullExcept(Stored(Pointers(m), p, level, To(node)), m.linked[r := level + 1], r)
    ensures Predecessors(m.order, m.linked[r := level + 1], prev, r, 0, |m.heap[node].next|)
  {
    assert Pointers(m)[r] == m.heap[node].next && Nodes(m)[r] == To(node);
    hide Increasing;
    hide TotalOrder;
    ThreadedPublish(Nodes(m), Null, Pointers(m), m.linked, r, level, p);
    FullAfterPublish(Pointers(m), m.linked, r, p, level, To(node));
    PredecessorsAfterGrowth(m.order, m.linked, prev, r, level + 1, 0, |m.heap[node].next|);
  }

  /** The parts of the list after a publication on a higher level. */
  ghost predicate NextParts<K(!new)>(cmp: (K, K) -> int, m: Memory<K>, node: nat, prev: seq<nat>, level: nat, m': Memory<K>, r: nat) {
    && OrderInHeap(m) && OrderInHeap(m') && node < |m.heap| == |m'.heap| && r < |m.linked| == |m.order| && m.linked[r] == level
    && m'.order == m.order && m'.linked == m.linked[r := level + 1] && m'.maxima == m.maxima
    && Keys(m') == Keys(m) && m'.heap[node] == m.heap[node]
    && (forall id :: 0 <= id < |m.heap| ==> m'.heap[id].key == m.heap[id].key)
    && Threaded(Nodes(m'), Null, Pointers(m'), m'.linked)
    && FullExcept(Pointers(m'), m'.linked, r)
    && Predecessors(m'.order, m'.linked, prev, r, 0, |m.heap[node].next|)
  }

  lemma NextPartsHold<K(!new)>(cmp: (K, K) -> int, m: Memory<K>, node: nat, prev: seq<nat>, level: nat, m': Memory<K>, r: nat)
    requires Publishing(cmp, m, node, prev, level, m') && level > 0 && r == Rank(cmp, m, m.heap[node].key)
    ensures NextParts(cmp, m, node, prev, level, m', r)
  {
    var p := Predecessor(cmp, m, node, prev, level);
    NextLinked(cmp, m, node, prev, level, r, p);
    NextEffect(cmp, m, node, prev, level, m', r, p);
    hide Threaded;
    hide FullExcept;
    hide Predecessors;
    hide Increasing;
    hide TotalOrder;
  }

  lemma NextStructure<K(!new)>(cmp: (K, K) -> int, m: Memory<K>, node: nat, prev: seq<nat>, level: nat, m': Memory<K>, r: nat)
    requires Structure(cmp, m) && NextParts(cmp, m, node, prev, level, m', r)
    requires level < |m.heap[node].next| <= Max(m) && 0 < r
    ensures Structure(cmp, m') && Extends(m, m')
  {
    hide Threaded;
    hide Increasing;
    hide FullExcept;
    hide Predecessors;
    hide TotalOrder;
    VisibleGrows(m, m', r, level);
  }

  /** The publication on a higher level: the keys stay, the node reaches one level more. */
  lemma PublishNext<K(!new)>(cmp: (K, K) -> int, m: Memory<K>, node: nat, prev: seq<nat>, level: nat, m': Memory<K>)
    requires Publishing(cmp, m, node, prev, level, m') && level > 0
    ensures LevelPublished(cmp, m, node, prev, level, m')
  {
    hide Publishing;
    hide Structure;
    hide Threaded;
    hide FullExcept;
    hide Predecessors;
    hide LowerBound;
    hide Extends;
    PublishingMeans(cmp, m, node, prev, level, m');
    var r := Rank(cmp, m, m.heap[node].key);
    NextPartsHold(cmp, m, node, prev, level, m', r);
    NextStructure(cmp, m, node, prev, level, m', r);
  }

  lemma VisibleGrows<K>(m: Memory<K>, m': Memory<K>, r: nat, level: nat)
    requires |m.order| == |m.linked| && r < |m.linked| && m.linked[r] == level
    requires m'.order == m.order && m'.linked == m.linked[r := level + 1]
    ensures forall id, l :: Visible(m, id, l) ==> Visible(m', id, l)
  {
    forall id, l | Visible(m, id, l)
      ensures Visible(m', id, l)
    {
      var x :| 0 <= x < |m.order| && m.order[x] == id && m.linked[x] > l;
      assert m'.order[x] == id && m'.linked[x] > l;
    }
  }

  /** A node that is linked on all its levels is an ordinary node. */
  lemma LinkDone<K(!new)>(cmp: (K, K) -> int, m: Memory<K>, node: nat, prev: seq<nat>)
    requires Structure(cmp, m) && node < |m.heap| && |m.heap[node].next| > 0
    requires LinkInv(cmp, m, node, prev, |m.heap[node].next|)
    ensures Full(m)
  {}

  // ---------- every step keeps the invariant ----------

  ghost predicate Inv<K(!new)>(cmp: (K, K) -> int, s: State<K>) {
    && Structure(cmp, s.mem)
    && WriterInv(cmp, s.mem, s.writer)
    && forall i :: i in s.readers ==> ReaderInv(cmp, s.mem, s.readers[i])
  }

  /** The key the writer adds to the list in this very step, if it does. */
  ghost predicate Adds<K>(w: Writer<K>) {
    w.Publish? && w.level == 0
  }

  /** What one writer step does to the keys. */
  ghost predicate KeysEffect<K(!new)>(cmp: (K, K) -> int, m: Memory<K>, w: Writer<K>, m': Memory<K>) {
    && OrderInHeap(m) && OrderInHeap(m')
    && (Adds(w) ==> w.node < |m.heap|)
    && var r := if Adds(w) then Rank(cmp, m, m.heap[w.node].key) else 0;
       && r <= |m.order|
       && Keys(m') == if Adds(w) then Inserted(Keys(m), r, m.heap[w.node].key) else Keys(m)
  }

  /** A writer step from memory m, in state w, to memory m' in state w'. */
  ghost predicate Kept<K(!new)>(cmp: (K, K) -> int, m: Memory<K>, w: Writer<K>, m': Memory<K>, w': Writer<K>) {
    Structure(cmp, m') && WriterInv(cmp, m', w') && Extends(m, m') && KeysEffect(cmp, m, w, m')
  }

  lemma PublishStep<K(!new)>(cmp: (K, K) -> int, m: Memory<K>, node: nat, prev: seq<nat>, level: nat, m': Memory<K>)
    requires Publishing(cmp, m, node, prev, level, m')
    ensures LevelPublished(cmp, m, node, prev, level, m')
  {
    hide LevelPublished;
    if level == 0 {
      PublishFirst(cmp, m, node, prev, m');
    } else {
      PublishNext(cmp, m, node, prev, level, m');
    }
  }

  /** The next level is to be linked, or the node is an ordinary one now. */
  lemma PublishedInv<K(!new)>(cmp: (K, K) -> int, m: Memory<K>, node: nat, prev: seq<nat>, level: nat)
    requires Structure(cmp, m) && LinkInv(cmp, m, node, prev, level + 1)
    ensures WriterInv(cmp, m, AfterPublish(m, node, prev, level))
  {
    hide Structure;
    if level + 1 == |m.heap[node].next| {
      LinkDone(cmp, m, node, prev);
    }
  }

  lemma PublishKeeps<K(!new)>(cmp: (K, K) -> int, m: Memory<K>, node: nat, prev: seq<nat>, level: nat, m': Memory<K>)
    requires Publishing(cmp, m, node, prev, level, m') && node < |m.heap|
    ensures Kept(cmp, m, Publish(node, prev, level), m', AfterPublish(m, node, prev, level))
  {
    hide Publishing;
    hide Structure;
    hide LinkInv;
    hide WriterInv;
    hide Extends;
    hide KeysEffect;
    PublishStep(cmp, m, node, prev, level, m');
    PublishedInv(cmp, m', node, prev, level);
    assert AfterPublish(m', node, prev, level) == AfterPublish(m, node, prev, level) by { InHeap(cmp, m', node, prev, level + 1); }
  }

  lemma InHeap<K(!new)>(cmp: (K, K) -> int, m: Memory<K>, node: nat, prev: seq<nat>, level: nat)
    requires LinkInv(cmp, m, node, prev, level)
    ensures node < |m.heap|
  {}

  lemma IsPublishing<K(!new)>(cmp: (K, K) -> int, s: State<K>, m': Memory<K>, w': Writer<K>)
    requires Structure(cmp, s.mem) && WriterInv(cmp, s.mem, s.writer) && s.writer.Publish?
    requires WriterStep(cmp, s, m', w')
    ensures Publishing(cmp, s.mem, s.writer.node, s.writer.prev, s.writer.level, m')
    ensures s.writer.node < |s.mem.heap| && w' == AfterPublish(s.mem, s.writer.node, s.writer.prev, s.writer.level)
  {
    hide Structure;
    hide Published;
  }

  lemma LoadKeeps<K(!new)>(cmp: (K, K) -> int, s: State<K>, m': Memory<K>, w': Writer<K>)
    requires Structure(cmp, s.mem) && WriterInv(cmp, s.mem, s.writer) && s.writer.Load?
    requires WriterStep(cmp, s, m', w')
    ensures Kept(cmp, s.mem, s.writer, m', w')
  {
    assert OrderInHeap(s.mem);
    hide Structure;
    hide LinkInv;
    hide Visible;
  }

  lemma StoreKeeps<K(!new)>(cmp: (K, K) -> int, s: State<K>, m': Memory<K>, w': Writer<K>)
    requires Structure(cmp, s.mem) && WriterInv(cmp, s.mem, s.writer) && s.writer.Store?
    requires WriterStep(cmp, s, m', w')
    ensures Kept(cmp, s.mem, s.writer, m', w')
  {
    var m, node, prev, level := s.mem, s.writer.node, s.writer.prev, s.writer.level;
    assert OrderInHeap(m);
    hide Structure;
    hide LinkInv;
    hide Visible;
    hide Keys;
    hide Extends;
    hide Rank;
    StoreStep(cmp, m, node, prev, level, s.writer.next, m');
  }

  lemma PrepareKeeps<K(!new)>(cmp: (K, K) -> int, s: State<K>, m': Memory<K>, w': Writer<K>)
    requires Structure(cmp, s.mem) && WriterInv(cmp, s.mem, s.writer) && (s.writer.Raise? || s.writer.Allocate?)
    requires WriterStep(cmp, s, m', w')
    ensures Kept(cmp, s.mem, s.writer, m', w')
  {
    SameList(cmp, s.mem, m');
    if s.writer.Raise? {
      RaiseStep(cmp, s.mem, s.writer.key, s.writer.prev, s.writer.height, m');
    } else {
      AllocateStep(cmp, s.mem, s.writer.key, s.writer.prev, s.writer.height, m');
    }
    hide Structure;
    hide LinkInv;
    hide PlaceInv;
  }

  lemma SearchKeeps<K(!new)>(cmp: (K, K) -> int, s: State<K>, m': Memory<K>, w': Writer<K>)
    requires Structure(cmp, s.mem) && WriterInv(cmp, s.mem, s.writer)
    requires s.writer.Idle? || s.writer.Find? || s.writer.Found?
    requires WriterStep(cmp, s, m', w')
    ensures Kept(cmp, s.mem, s.writer, m', w')
  {
    var m := s.mem;
    match s.writer
    case Idle =>
      BeginInsert(cmp, m, w'.key);
    case Find(key, node, level, prev) =>
      SearchStep(cmp, m, key, node, level, prev);
    case Found(key, prev) =>
      var h :| 1 <= h <= MAX_HEIGHT
        && w' == (if h > Max(m) then Raise(key, Raised(prev, Max(m), h), h) else Allocate(key, prev, h));
      if h > Max(m) { TopPredecessors(cmp, m, key, prev, h); } else { Lower(cmp, m, key, prev, h); }
  }

  lemma WriterStepKeeps<K(!new)>(cmp: (K, K) -> int, s: State<K>, m': Memory<K>, w': Writer<K>)
    requires Structure(cmp, s.mem) && WriterInv(cmp, s.mem, s.writer)
    requires WriterStep(cmp, s, m', w')
    ensures Kept(cmp, s.mem, s.writer, m', w')
  {
    hide Kept;
    hide Structure;
    hide WriterInv;
    hide WriterStep;
    match s.writer
    case Publish(node, prev, level) =>
      IsPublishing(cmp, s, m', w');
      PublishKeeps(cmp, s.mem, node, prev, level, m');
    case Load(_, _, _) => LoadKeeps(cmp, s, m', w');
    case Store(_, _, _, _) => StoreKeeps(cmp, s, m', w');
    case Raise(_, _, _) => PrepareKeeps(cmp, s, m', w');
    case Allocate(_, _, _) => PrepareKeeps(cmp, s, m', w');
    case _ => SearchKeeps(cmp, s, m', w');
  }

  lemma ReaderStepKeeps<K(!new)>(cmp: (K, K) -> int, m: Memory<K>, r: Reader<K>, r': Reader<K>)
    requires Structure(cmp, m) && ReaderInv(cmp, m, r) && ReaderStep(cmp, m, r, r')
    ensures ReaderInv(cmp, m, r')
  {
    assert m.order[0] == 0 && m.linked[0] == MAX_HEIGHT;
    assert Visible(m, 0, MAX_HEIGHT - 1);
    match r
    case Search(target, node, level) =>
      LoadFacts(cmp, m, target, node, level);
    case SearchLast(node, level) =>
      LinkFacts(cmp, m, node, level);
    case On(To(id)) =>
      if r'.On? { NextFacts(cmp, m, id); }
    case Resting =>
      if r'.On? { NextFacts(cmp, m, 0); }
    case _ =>
  }

  /** A level-0 load from a node of the list returns the node right after it. */
  lemma NextFacts<K(!new)>(cmp: (K, K) -> int, m: Memory<K>, node: nat)
    requires Structure(cmp, m) && Visible(m, node, 0)
    ensures CanLoad(m, node, 0)
    ensures exists x :: 0 <= x < |m.order| && m.order[x] == node && Loaded(m, node, 0) == At(Nodes(m), Null, x + 1)
    ensures Loaded(m, node, 0).To? ==> Visible(m, Loaded(m, node, 0).id, 0)
  {
    var x :| 0 <= x < |m.order| && m.order[x] == node && m.linked[x] > 0;
    NextAtMeans(m.linked, x, 0);
    assert Pointers(m)[x][0] == At(Nodes(m), Null, NextAt(m.linked, x, 0));
    if x + 1 < |m.order| { assert m.linked[x + 1] > 0; }
    NextAtUnique(m.linked, x, 0, x + 1);
  }

  /** A load from a node on a level it is linked on stays on that level. */
  lemma LinkFacts<K(!new)>(cmp: (K, K) -> int, m: Memory<K>, node: nat, level: nat)
    requires Structure(cmp, m) && Visible(m, node, level)
    ensures CanLoad(m, node, level)
    ensures Loaded(m, node, level).To? ==> Visible(m, Loaded(m, node, level).id, level)
    ensures level > 0 ==> Visible(m, node, level - 1)
  {
    hide TotalOrder;
    hide Increasing;
    var x :| 0 <= x < |m.order| && m.order[x] == node && m.linked[x] > level;
    NextAtMeans(m.linked, x, level);
    assert Pointers(m)[x][level] == At(Nodes(m), Null, NextAt(m.linked, x, level));
  }

  lemma InitHolds<K(!new)>(cmp: (K, K) -> int, s: State<K>)
    requires Init(cmp, s)
    ensures Inv(cmp, s)
  {
    forall l | 0 <= l < MAX_HEIGHT
      ensures NextAt(s.mem.linked, 0, l) == 1
    {}
  }

  lemma StepKeeps<K(!new)>(cmp: (K, K) -> int, s: State<K>, s': State<K>)
    requires Inv(cmp, s) && Step(cmp, s, s')
    ensures Inv(cmp, s') && Extends(s.mem, s'.mem)
  {
    hide Structure;
    hide WriterInv;
    hide WriterStep;
    hide ReaderStep;
    hide ReaderInv;
    hide Extends;
    hide KeysEffect;
    if s'.readers == s.readers && WriterStep(cmp, s, s'.mem, s'.writer) {
      WriterStepKeeps(cmp, s, s'.mem, s'.writer);
      forall i | i in s'.readers
        ensures ReaderInv(cmp, s'.mem, s'.readers[i])
      {
        ReaderKept(cmp, s.mem, s'.mem, s.readers[i]);
      }
    } else {
      var i :| i in s.readers && i in s'.readers && s'.readers == s.readers[i := s'.readers[i]]
            && ReaderStep(cmp, s.mem, s.readers[i], s'.readers[i]);
      ReaderStepKeeps(cmp, s.mem, s.readers[i], s'.readers[i]);
      ExtendsItself(s.mem);
    }
  }

  lemma ExtendsItself<K>(m: Memory<K>)
    ensures Extends(m, m)
  {}

  // ---------- whole runs ----------

  ghost predicate IsRun<K(!new)>(cmp: (K, K) -> int, run: seq<State<K>>) {
    && |run| > 0 && Init(cmp, run[0])
    && forall i :: 0 <= i < |run| - 1 ==> Step(cmp, run[i], run[i + 1])
  }

  /** The list is well-formed in every state of every interleaving. */
  lemma {:induction false} RunKeeps<K(!new)>(cmp: (K, K) -> int, run: seq<State<K>>, i: nat)
    requires IsRun(cmp, run) && i < |run|
    ensures Inv(cmp, run[i])
  {
    if i == 0 {
      InitHolds(cmp, run[0]);
    } else {
      RunKeeps(cmp, run, i - 1);
      StepKeeps(cmp, run[i - 1], run[i]);
    }
  }

  lemma {:induction false} RunExtends<K(!new)>(cmp: (K, K) -> int, run: seq<State<K>>, i: nat, j: nat)
    requires IsRun(cmp, run) && i <= j < |run|
    ensures Extends(run[i].mem, run[j].mem)
    decreases j - i
  {
    if i < j {
      RunKeeps(cmp, run, i);
      StepKeeps(cmp, run[i], run[i + 1]);
      RunExtends(cmp, run, i + 1, j);
    }
  }

  /**
   The history variables are what the pointers say: on every level, following the pointers
   from the header visits exactly the nodes linked there, in key order, and ends in null;
   levels at or above max_height_ are empty; a node on a level is on the level below.
   */
  lemma PointersTellTheOrder<K(!new)>(cmp: (K, K) -> int, run: seq<State<K>>, i: nat, x: nat, l: nat)
    requires IsRun(cmp, run) && i < |run|
    requires x < |run[i].mem.order| && l < MAX_HEIGHT
    ensures var m := run[i].mem;
            && |m.linked| == |m.order| && m.order[0] == 0 && OrderInHeap(m) && Increasing(cmp, Keys(m), 1)
            && (l < m.linked[x] ==>
                  && CanLoad(m, m.order[x], l)
                  && var y := NextAt(m.linked, x, l);
                     if y < |m.order| then Loaded(m, m.order[x], l) == To(m.order[y]) && m.linked[y] > l
                     else Loaded(m, m.order[x], l) == Null)
            && (l == 0 ==> m.linked[x] > 0 && NextAt(m.linked, x, 0) == x + 1)
            && (Max(m) <= l ==> CanLoad(m, 0, l) && Loaded(m, 0, l) == Null)
            && (l < m.linked[x] ==> forall k :: 0 <= k <= l ==> Visible(m, m.order[x], k))
  {
    RunKeeps(cmp, run, i);
    var m := run[i].mem;
    hide Increasing;
    hide TotalOrder;
    NextAtMeans(m.linked, x, l);
    if l == 0 {
      if x + 1 < |m.linked| { assert m.linked[x + 1] > 0; }
      NextAtUnique(m.linked, x, 0, x + 1);
    }
    assert Pointers(m)[x] == m.heap[m.order[x]].next && Pointers(m)[0] == m.heap[0].next;
    if Max(m) <= l { NextAtUnique(m.linked, 0, l, |m.linked|); }
  }

  /** No step of a reachable state can touch a pointer a node does not have. */
  lemma LoadsAreSafe<K(!new)>(cmp: (K, K) -> int, run: seq<State<K>>, i: nat)
    requires IsRun(cmp, run) && i < |run|
    ensures var s := run[i];
            && (forall j :: j in s.readers && s.readers[j].Search? ==> CanLoad(s.mem, s.readers[j].node, s.readers[j].level))
            && (forall j :: j in s.readers && s.readers[j].SearchLast? ==> CanLoad(s.mem, s.readers[j].node, s.readers[j].level))
            && (forall j :: j in s.readers && s.readers[j].On? && s.readers[j].cursor.To? ==> CanLoad(s.mem, s.readers[j].cursor.id, 0))
            && (s.writer.Find? ==> CanLoad(s.mem, s.writer.node, s.writer.level) && s.writer.level < |s.writer.prev|)
            && (s.writer.Load? || s.writer.Store? || s.writer.Publish? ==>
                  && s.writer.level < |s.writer.prev| && CanLoad(s.mem, s.writer.prev[s.writer.level], s.writer.level)
                  && CanLoad(s.mem, s.writer.node, s.writer.level))
  {
    var s := run[i];
    RunKeeps(cmp, run, i);
    forall j | j in s.readers
      ensures s.readers[j].Search? || s.readers[j].SearchLast? ==> CanLoad(s.mem, s.readers[j].node, s.readers[j].level)
      ensures s.readers[j].On? && s.readers[j].cursor.To? ==> CanLoad(s.mem, s.readers[j].cursor.id, 0)
    {
      ReaderIsSafe(cmp, s.mem, s.readers[j]);
    }
    WriterIsSafe(cmp, s.mem, s.writer);
  }

  lemma ReaderIsSafe<K(!new)>(cmp: (K, K) -> int, m: Memory<K>, r: Reader<K>)
    requires Structure(cmp, m) && ReaderInv(cmp, m, r)
    ensures r.Search? || r.SearchLast? ==> CanLoad(m, r.node, r.level)
    ensures r.On? && r.cursor.To? ==> CanLoad(m, r.cursor.id, 0)
  {
    match r
    case Search(target, node, level) => LoadFacts(cmp, m, target, node, level);
    case SearchLast(node, level) => LinkFacts(cmp, m, node, level);
    case On(To(id)) => NextFacts(cmp, m, id);
    case _ =>
  }

  lemma WriterIsSafe<K(!new)>(cmp: (K, K) -> int, m: Memory<K>, w: Writer<K>)
    requires Structure(cmp, m) && WriterInv(cmp, m, w)
    ensures w.Find? ==> CanLoad(m, w.node, w.level) && w.level < |w.prev|
    ensures w.Load? || w.Store? || w.Publish? ==>
              w.level < |w.prev| && CanLoad(m, w.prev[w.level], w.level) && CanLoad(m, w.node, w.level)
  {
    match w
    case Find(key, node, level, prev) => LoadFacts(cmp, m, key, node, level);
    case Load(node, prev, level) => var p := Predecessor(cmp, m, node, prev, level);
    case Store(node, prev, level, _) => var p := Predecessor(cmp, m, node, prev, level);
    case Publish(node, prev, level) => var p := Predecessor(cmp, m, node, prev, level);
    case _ =>
  }

  /** Reader j finishes a search for the target between states i and i + 1. */
  ghost predicate Finishes<K>(run: seq<State<K>>, i: nat, j: nat, target: K, result: Ptr) {
    && i + 1 < |run| && j in run[i].readers && j in run[i + 1].readers
    && run[i].readers[j].Search? && run[i].readers[j].target == target
    && run[i + 1].readers[j] == Done(target, result)
  }

  /**
   A search returns exactly the first node not below its target in the level-0 list as it
   is at the instant of the last load, whatever the writer and the other readers did
   meanwhile and whichever height the search started from.
   */
  lemma SearchIsLinearizable<K(!new)>(cmp: (K, K) -> int, run: seq<State<K>>, i: nat, j: nat, target: K, result: Ptr)
    requires IsRun(cmp, run) && Finishes(run, i, j, target, result)
    ensures var m := run[i].mem; Structure(cmp, m) && result == At(Nodes(m), Null, LowerBound(cmp, Keys(m), 1, target))
  {
    RunKeeps(cmp, run, i);
    var s, s' := run[i], run[i + 1];
    assert Step(cmp, s, s');
    var r := s.readers[j];
    assert ReaderInv(cmp, s.mem, r);
    LoadFacts(cmp, s.mem, target, r.node, r.level);
  }

  /** The node is in the list below the header, with this key. */
  ghost predicate HasKey<K>(m: Memory<K>, node: nat, key: K) {
    node != 0 && node < |m.heap| && m.heap[node].key == key && Visible(m, node, 0)
  }

  /**
   A search never misses: no key at or above the target that was in the list at any
   earlier state, when the search started for one, lies before the result.
   */
  lemma SearchNeverMisses<K(!new)>(cmp: (K, K) -> int, run: seq<State<K>>, a: nat, i: nat, j: nat, target: K, result: Ptr, node: nat, key: K)
    requires IsRun(cmp, run) && Finishes(run, i, j, target, result) && a <= i
    requires HasKey(run[a].mem, node, key) && cmp(key, target) >= 0
    ensures result.To? && result.id < |run[i].mem.heap| && cmp(run[i].mem.heap[result.id].key, key) <= 0
  {
    hide Threaded;
    hide WriterInv;
    hide Step;
    var m := run[i].mem;
    SearchIsLinearizable(cmp, run, i, j, target, result);
    RunExtends(cmp, run, a, i);
    var keys := Keys(m);
    var y :| 0 <= y < |m.order| && m.order[y] == node;
    assert keys[y] == key;
    AfterLowerBound(cmp, keys, 1, target, y);
    var r := LowerBound(cmp, keys, 1, target);
    assert r <= y;
    if r < y { assert cmp(keys[r], keys[y]) < 0; }
  }

  /** Contains is exact at the instant of the last load. */
  lemma ContainsIsExact<K(!new)>(cmp: (K, K) -> int, run: seq<State<K>>, i: nat, j: nat, target: K, result: Ptr)
    requires IsRun(cmp, run) && Finishes(run, i, j, target, result)
    ensures var m := run[i].mem;
            && OrderInHeap(m)
            && ((result.To? && result.id < |m.heap| && cmp(target, m.heap[result.id].key) == 0)
                <==> exists x :: 1 <= x < |m.order| && cmp(Keys(m)[x], target) == 0)
  {
    var m := run[i].mem;
    SearchIsLinearizable(cmp, run, i, j, target, result);
    var keys := Keys(m);
    var r := LowerBound(cmp, keys, 1, target);
    LowerBoundMeans(cmp, keys, 1, target);
    forall x | r < x < |m.order|
      ensures cmp(keys[x], target) > 0
    {
      NotBelow(cmp, keys[r], keys[x], target);
    }
    if r < |m.order| {
      assert m.heap[result.id].key == keys[r];
      assert cmp(keys[r], target) == 0 <==> cmp(target, keys[r]) == 0;
    }
  }

  /** FindLast returns the last node of the level-0 list, as it is at the instant of the last load. */
  lemma LastIsLinearizable<K(!new)>(cmp: (K, K) -> int, run: seq<State<K>>, i: nat, j: nat, node: nat)
    requires IsRun(cmp, run) && i + 1 < |run| && j in run[i].readers && j in run[i + 1].readers
    requires run[i].readers[j].SearchLast? && run[i + 1].readers[j] == Last(node)
    ensures var m := run[i].mem; |m.order| >= 1 && node == m.order[|m.order| - 1]
  {
    RunKeeps(cmp, run, i);
    var s, s' := run[i], run[i + 1];
    assert Step(cmp, s, s');
    assert ReaderInv(cmp, s.mem, s.readers[j]);
    hide Structure;
    NextFacts(cmp, s.mem, node);
  }

  /** Insert takes effect in one step: the level-0 publication. No other step changes the keys. */
  lemma InsertIsAtomic<K(!new)>(cmp: (K, K) -> int, run: seq<State<K>>, i: nat)
    requires IsRun(cmp, run) && i + 1 < |run|
    ensures var s, s' := run[i], run[i + 1];
            && OrderInHeap(s.mem) && OrderInHeap(s'.mem)
            && (s.writer == s'.writer ==> Keys(s'.mem) == Keys(s.mem))
            && (s.writer != s'.writer ==> KeysEffect(cmp, s.mem, s.writer, s'.mem))
  {
    var s, s' := run[i], run[i + 1];
    RunKeeps(cmp, run, i);
    RunKeeps(cmp, run, i + 1);
    assert Step(cmp, s, s');
    assert OrderInHeap(s.mem) && OrderInHeap(s'.mem);
    hide Structure;
    hide WriterInv;
    hide KeysEffect;
    hide Extends;
    if s'.readers == s.readers && WriterStep(cmp, s, s'.mem, s'.writer) {
      WriterStepKeeps(cmp, s, s'.mem, s'.writer);
      hide WriterStep;
    }
  }

  // ---------- one insertion ----------

  /** The writer is inserting the key, which is not in the list yet. */
  ghost predicate Pending<K>(m: Memory<K>, w: Writer<K>, key: K) {
    match w
    case Idle => false
    case Find(k, _, _, _) => k == key
    case Found(k, _) => k == key
    case Raise(k, _, _) => k == key
    case Allocate(k, _, _) => k == key
    case _ => w.level == 0 && w.node < |m.heap| && m.heap[w.node].key == key
  }

  /** The key is in the list; higher levels may remain to be linked. */
  ghost predicate Entered<K>(w: Writer<K>) {
    w.Idle? || ((w.Load? || w.Store? || w.Publish?) && w.level > 0)
  }

  ghost predicate HasKeys<K>(m: Memory<K>, keys: seq<K>) {
    OrderInHeap(m) && Keys(m) == keys
  }

  /** The keys with one more in its place. */
  ghost function With<K(!new)>(cmp: (K, K) -> int, keys: seq<K>, key: K): seq<K>
    requires |keys| >= 1
  {
    Inserted(keys, LowerBound(cmp, keys, 1, key), key)
  }

  lemma PendingPhase<K(!new)>(cmp: (K, K) -> int, s: State<K>, m': Memory<K>, w': Writer<K>, key: K)
    requires WriterStep(cmp, s, m', w') && Extends(s.mem, m') && Pending(s.mem, s.writer, key)
    ensures if Adds(s.writer) then Entered(w') else Pending(m', w', key)
  {
    hide StorePtr;
    hide Published;
    hide Visible;
    hide Absent;
  }

  lemma EnteredPhase<K(!new)>(cmp: (K, K) -> int, s: State<K>, m': Memory<K>, w': Writer<K>)
    requires WriterStep(cmp, s, m', w') && Entered(s.writer) && !s.writer.Idle?
    ensures Entered(w') && !Adds(s.writer)
  {
    hide StorePtr;
    hide Published;
    hide Absent;
  }

  lemma Sorted<K(!new)>(cmp: (K, K) -> int, m: Memory<K>)
    requires Structure(cmp, m)
    ensures OrderInHeap(m) && |m.order| >= 1
  {}

  lemma KeysStep<K(!new)>(cmp: (K, K) -> int, m: Memory<K>, w: Writer<K>, m': Memory<K>)
    requires KeysEffect(cmp, m, w, m') && |m.order| >= 1
    ensures OrderInHeap(m) && |Keys(m)| >= 1
    ensures !Adds(w) ==> HasKeys(m', Keys(m))
    ensures Adds(w) ==> w.node < |m.heap| && HasKeys(m', With(cmp, Keys(m), m.heap[w.node].key))
  {
    hide LowerBound;
    hide Keys;
  }

  lemma PendingStep<K(!new)>(cmp: (K, K) -> int, s: State<K>, m': Memory<K>, w': Writer<K>, key: K)
    requires Structure(cmp, s.mem) && WriterStep(cmp, s, m', w') && Kept(cmp, s.mem, s.writer, m', w')
    requires Pending(s.mem, s.writer, key)
    ensures OrderInHeap(s.mem) && |Keys(s.mem)| >= 1
    ensures if Adds(s.writer) then Entered(w') && HasKeys(m', With(cmp, Keys(s.mem), key))
            else Pending(m', w', key) && HasKeys(m', Keys(s.mem))
  {
    hide Structure;
    hide WriterInv;
    hide WriterStep;
    hide Extends;
    hide KeysEffect;
    hide With;
    hide HasKeys;
    Sorted(cmp, s.mem);
    KeysStep(cmp, s.mem, s.writer, m');
    PendingPhase(cmp, s, m', w', key);
  }

  lemma EnteredStep<K(!new)>(cmp: (K, K) -> int, s: State<K>, m': Memory<K>, w': Writer<K>)
    requires Structure(cmp, s.mem) && WriterStep(cmp, s, m', w') && Kept(cmp, s.mem, s.writer, m', w')
    requires Entered(s.writer) && !s.writer.Idle?
    ensures OrderInHeap(s.mem) && Entered(w') && HasKeys(m', Keys(s.mem))
  {
    hide Structure;
    hide WriterInv;
    hide WriterStep;
    hide Extends;
    hide KeysEffect;
    hide With;
    hide HasKeys;
    Sorted(cmp, s.mem);
    KeysStep(cmp, s.mem, s.writer, m');
    EnteredPhase(cmp, s, m', w');
  }

  /** From state i to state j the keys do not change. */
  ghost predicate KeysDuring<K>(run: seq<State<K>>, i: nat, j: nat, keys: seq<K>) {
    j < |run| && forall l :: i <= l <= j ==> HasKeys(run[l].mem, keys)
  }

  /** The writer is busy from state i on and idle again in state b. */
  ghost predicate IdleAgain<K>(run: seq<State<K>>, i: nat, b: nat) {
    i <= b < |run| && run[b].writer.Idle? && forall l :: i <= l < b ==> !run[l].writer.Idle?
  }

  lemma {:induction false} NothingMore<K(!new)>(cmp: (K, K) -> int, run: seq<State<K>>, i: nat, b: nat)
    requires IsRun(cmp, run) && IdleAgain(run, i, b) && Entered(run[i].writer)
    ensures OrderInHeap(run[i].mem) && KeysDuring(run, i, b, Keys(run[i].mem))
    decreases b - i
  {
    hide Structure;
    hide WriterInv;
    hide WriterStep;
    hide Extends;
    hide KeysEffect;
    RunKeeps(cmp, run, i);
    Sorted(cmp, run[i].mem);
    if i < b {
      var s, s' := run[i], run[i + 1];
      assert Step(cmp, s, s');
      if s'.readers == s.readers && WriterStep(cmp, s, s'.mem, s'.writer) {
        WriterStepKeeps(cmp, s, s'.mem, s'.writer);
        EnteredStep(cmp, s, s'.mem, s'.writer);
      }
      NothingMore(cmp, run, i + 1, b);
    }
  }

  lemma {:induction false} EntersOnce<K(!new)>(cmp: (K, K) -> int, run: seq<State<K>>, i: nat, b: nat, key: K) returns (c: nat)
    requires IsRun(cmp, run) && IdleAgain(run, i, b) && Pending(run[i].mem, run[i].writer, key)
    ensures OrderInHeap(run[i].mem) && |run[i].mem.order| >= 1
    ensures i <= c < b && Adds(run[c].writer) && KeysDuring(run, i, c, Keys(run[i].mem))
    ensures KeysDuring(run, c + 1, b, With(cmp, Keys(run[i].mem), key))
    decreases b - i
  {
    hide Structure;
    hide WriterInv;
    hide WriterStep;
    hide Extends;
    hide KeysEffect;
    hide With;
    RunKeeps(cmp, run, i);
    Sorted(cmp, run[i].mem);
    var s, s' := run[i], run[i + 1];
    assert Step(cmp, s, s');
    if s'.readers == s.readers && WriterStep(cmp, s, s'.mem, s'.writer) {
      WriterStepKeeps(cmp, s, s'.mem, s'.writer);
      PendingStep(cmp, s, s'.mem, s'.writer, key);
      if Adds(s.writer) {
        NothingMore(cmp, run, i + 1, b);
        return i;
      }
    }
    c := EntersOnce(cmp, run, i + 1, b, key);
  }

  /**
   One whole Insert: the writer was idle in state a, begins to insert the key, and is idle
   again in state b. In between exactly one step changes the keys, and it adds that key in
   its place; before it the list has the old keys, after it the new ones.
   */
  lemma InsertTakesEffectOnce<K(!new)>(cmp: (K, K) -> int, run: seq<State<K>>, a: nat, b: nat) returns (c: nat)
    requires IsRun(cmp, run) && a + 1 < |run| && run[a].writer.Idle? && IdleAgain(run, a + 1, b)
    requires run[a + 1].writer.Find?
    ensures OrderInHeap(run[a].mem) && |run[a].mem.order| >= 1
    ensures a < c < b && Adds(run[c].writer) && KeysDuring(run, a, c, Keys(run[a].mem))
    ensures KeysDuring(run, c + 1, b, With(cmp, Keys(run[a].mem), run[a + 1].writer.key))
  {
    hide Structure;
    hide WriterInv;
    hide With;
    RunKeeps(cmp, run, a);
    Sorted(cmp, run[a].mem);
    assert Step(cmp, run[a], run[a + 1]);
    c := EntersOnce(cmp, run, a + 1, b, run[a + 1].writer.key);
  }

  // ---------- the levels of one insertion ----------

  /** The list as an Insert finds it, and the place and height of the node it adds. */
  datatype Plan<K> = Plan(key: K, order: seq<nat>, linked: seq<nat>, top: nat, place: nat)

  /** The list is still as it was found. */
  ghost predicate Untouched<K(!new)>(cmp: (K, K) -> int, m: Memory<K>, plan: Plan<K>) {
    && m.order == plan.order && m.linked == plan.linked && Rank(cmp, m, plan.key) == plan.place
    && plan.place <= |plan.order| && plan.place <= |plan.linked|
  }

  /** Before the node exists; the height is chosen when Found is left. */
  ghost predicate Planned<K(!new)>(cmp: (K, K) -> int, m: Memory<K>, w: Writer<K>, plan: Plan<K>) {
    && Untouched(cmp, m, plan)
    && match w
       case Find(key, _, _, _) => key == plan.key && Max(m) == plan.top
       case Found(key, _) => key == plan.key && Max(m) == plan.top
       case Raise(key, _, height) => key == plan.key && Max(m) == plan.top && plan.top < height
       case Allocate(key, _, height) => key == plan.key && Max(m) == Higher(plan.top, height)
       case _ => false
  }

  function Higher(a: nat, b: nat): nat {
    if a > b then a else b
  }

  /** The node is linked on its lowest levels, and on no other. */
  ghost predicate LinkedTo<K(!new)>(cmp: (K, K) -> int, m: Memory<K>, node: nat, level: nat, height: nat, plan: Plan<K>) {
    && node < |m.heap| && m.heap[node].key == plan.key && |m.heap[node].next| == height
    && plan.place <= |plan.order| && plan.place <= |plan.linked| && Rank(cmp, m, plan.key) == plan.place
    && Max(m) == Higher(plan.top, height)
    && m.order == (if level == 0 then plan.order else Inserted(plan.order, plan.place, node))
    && m.linked == (if level == 0 then plan.linked else Inserted(plan.linked, plan.place, level))
  }

  /** The node exists, or is in the list on all its levels when the writer is idle again. */
  ghost predicate Linking<K(!new)>(cmp: (K, K) -> int, m: Memory<K>, w: Writer<K>, node: nat, height: nat, plan: Plan<K>) {
    match w
    case Load(n, _, level) => n == node && level < height && LinkedTo(cmp, m, node, level, height, plan)
    case Store(n, _, level, _) => n == node && level < height && LinkedTo(cmp, m, node, level, height, plan)
    case Publish(n, _, level) => n == node && level < height && LinkedTo(cmp, m, node, level, height, plan)
    case Idle => LinkedTo(cmp, m, node, height, height, plan)
    case _ => false
  }

  lemma PlannedStep<K(!new)>(cmp: (K, K) -> int, s: State<K>, m': Memory<K>, w': Writer<K>, plan: Plan<K>)
    requires Structure(cmp, s.mem) && WriterInv(cmp, s.mem, s.writer) && WriterStep(cmp, s, m', w')
    requires Planned(cmp, s.mem, s.writer, plan) && !s.writer.Allocate?
    ensures Planned(cmp, m', w', plan)
    ensures s.writer.Raise? ==> w'.Allocate? && w'.height == s.writer.height
  {
    hide Threaded;
    hide Increasing;
    hide LowerBound;
    SameList(cmp, s.mem, m');
  }

  lemma AllocatedStep<K(!new)>(cmp: (K, K) -> int, s: State<K>, m': Memory<K>, w': Writer<K>, plan: Plan<K>)
    requires Structure(cmp, s.mem) && WriterInv(cmp, s.mem, s.writer) && WriterStep(cmp, s, m', w')
    requires Planned(cmp, s.mem, s.writer, plan) && s.writer.Allocate?
    ensures Linking(cmp, m', w', |s.mem.heap|, s.writer.height, plan)
  {
    hide Threaded;
    hide Increasing;
    hide LowerBound;
    SameList(cmp, s.mem, m');
  }

  /** Load and Store change no history variable and no key. */
  lemma PreparedStep<K(!new)>(cmp: (K, K) -> int, s: State<K>, m': Memory<K>, w': Writer<K>, node: nat, height: nat, plan: Plan<K>)
    requires Structure(cmp, s.mem) && WriterInv(cmp, s.mem, s.writer) && WriterStep(cmp, s, m', w')
    requires Linking(cmp, s.mem, s.writer, node, height, plan) && (s.writer.Load? || s.writer.Store?)
    ensures Linking(cmp, m', w', node, height, plan)
  {
    hide Structure;
    hide LinkInv;
    hide Threaded;
    hide LowerBound;
    if s.writer.Store? {
      StoreStep(cmp, s.mem, node, s.writer.prev, s.writer.level, s.writer.next, m');
      Sorted(cmp, s.mem);
      Sorted(cmp, m');
    }
  }

  /** A publication links exactly one level more. */
  lemma PublishedOnce<K(!new)>(cmp: (K, K) -> int, m: Memory<K>, node: nat, prev: seq<nat>, level: nat, m': Memory<K>, height: nat, plan: Plan<K>)
    requires Publishing(cmp, m, node, prev, level, m') && level < height && LinkedTo(cmp, m, node, level, height, plan)
    ensures LinkedTo(cmp, m', node, level + 1, height, plan)
  {
    hide Publishing;
    hide Structure;
    hide Threaded;
    hide FullExcept;
    hide Predecessors;
    hide LowerBound;
    hide Absent;
    hide Rank;
    PublishingMeans(cmp, m, node, prev, level, m');
    var r := Rank(cmp, m, plan.key);
    if level == 0 {
      FirstPartsHold(cmp, m, node, prev, m', r);
      FirstOrder(cmp, m, node, prev, m', r);
    } else {
      NextPartsHold(cmp, m, node, prev, level, m', r);
      SameRank(cmp, m, m', plan.key);
      assert Inserted(plan.linked, plan.place, level)[r := level + 1] == Inserted(plan.linked, plan.place, level + 1);
    }
  }

  lemma SameRank<K(!new)>(cmp: (K, K) -> int, m: Memory<K>, m': Memory<K>, key: K)
    requires OrderInHeap(m) && OrderInHeap(m') && Keys(m') == Keys(m)
    ensures Rank(cmp, m', key) == Rank(cmp, m, key)
  {}

  lemma LinkingStep<K(!new)>(cmp: (K, K) -> int, s: State<K>, m': Memory<K>, w': Writer<K>, node: nat, height: nat, plan: Plan<K>)
    requires Structure(cmp, s.mem) && WriterInv(cmp, s.mem, s.writer) && WriterStep(cmp, s, m', w')
    requires Linking(cmp, s.mem, s.writer, node, height, plan) && !s.writer.Idle?
    ensures Linking(cmp, m', w', node, height, plan)
  {
    hide Structure;
    hide WriterInv;
    hide WriterStep;
    hide LinkedTo;
    hide Publishing;
    if s.writer.Publish? {
      IsPublishing(cmp, s, m', w');
      PublishedOnce(cmp, s.mem, node, s.writer.prev, s.writer.level, m', height, plan);
      TowerHeight(cmp, s.mem, node, s.writer.level, height, plan);
    } else {
      PreparedStep(cmp, s, m', w', node, height, plan);
    }
  }

  lemma TowerHeight<K(!new)>(cmp: (K, K) -> int, m: Memory<K>, node: nat, level: nat, height: nat, plan: Plan<K>)
    requires LinkedTo(cmp, m, node, level, height, plan)
    ensures node < |m.heap| && |m.heap[node].next| == height
  {}

  lemma {:induction false} LinksUntilIdle<K(!new)>(cmp: (K, K) -> int, run: seq<State<K>>, i: nat, b: nat, node: nat, height: nat, plan: Plan<K>)
    requires IsRun(cmp, run) && IdleAgain(run, i, b) && Linking(cmp, run[i].mem, run[i].writer, node, height, plan)
    ensures LinkedTo(cmp, run[b].mem, node, height, height, plan)
    ensures forall l :: i <= l <= b ==> !run[l].writer.Raise? && !run[l].writer.Allocate?
    decreases b - i
  {
    hide Structure;
    hide WriterInv;
    hide WriterStep;
    hide LinkedTo;
    if i < b {
      RunKeeps(cmp, run, i);
      var s, s' := run[i], run[i + 1];
      assert Step(cmp, s, s');
      if s'.readers == s.readers && WriterStep(cmp, s, s'.mem, s'.writer) {
        LinkingStep(cmp, s, s'.mem, s'.writer, node, height, plan);
      }
      LinksUntilIdle(cmp, run, i + 1, b, node, height, plan);
    }
  }

  /** The writer is about to allocate a node of this height. */
  ghost predicate Draws<K>(run: seq<State<K>>, c: nat, height: nat) {
    c < |run| && run[c].writer.Allocate? && run[c].writer.height == height
  }

  /** No other height is in play from state i to state b. */
  ghost predicate OneHeight<K>(run: seq<State<K>>, i: nat, b: nat, height: nat) {
    b < |run| && forall l :: i <= l <= b && (run[l].writer.Raise? || run[l].writer.Allocate?) ==> run[l].writer.height == height
  }

  lemma {:induction false} PlanIsCarriedOut<K(!new)>(cmp: (K, K) -> int, run: seq<State<K>>, i: nat, b: nat, plan: Plan<K>)
      returns (c: nat, height: nat, node: nat)
    requires IsRun(cmp, run) && IdleAgain(run, i, b) && Planned(cmp, run[i].mem, run[i].writer, plan)
    ensures i <= c < b && Draws(run, c, height) && OneHeight(run, i, b, height)
    ensures LinkedTo(cmp, run[b].mem, node, height, height, plan)
    decreases b - i
  {
    hide Structure;
    hide WriterInv;
    hide WriterStep;
    hide LinkedTo;
    hide Untouched;
    RunKeeps(cmp, run, i);
    var s, s' := run[i], run[i + 1];
    assert Step(cmp, s, s');
    if s'.readers == s.readers && WriterStep(cmp, s, s'.mem, s'.writer) {
      if s.writer.Allocate? {
        AllocatedStep(cmp, s, s'.mem, s'.writer, plan);
        c, height, node := i, s.writer.height, |s.mem.heap|;
        LinksUntilIdle(cmp, run, i + 1, b, node, height, plan);
        return;
      }
      PlannedStep(cmp, s, s'.mem, s'.writer, plan);
    }
    c, height, node := PlanIsCarriedOut(cmp, run, i + 1, b, plan);
  }

  /**
   One whole Insert, in any interleaving: when the writer is idle again, the list has one
   node more, at the place of the key, with as many pointers as levels drawn and linked on
   all of them; no other node's links have changed in number, and max_height_ is the greater
   of its old value and that number.
   */
  lemma InsertLinksAsDrawn<K(!new)>(cmp: (K, K) -> int, run: seq<State<K>>, a: nat, b: nat)
      returns (c: nat, height: nat, node: nat)
    requires IsRun(cmp, run) && a + 1 < |run| && run[a].writer.Idle? && IdleAgain(run, a + 1, b)
    requires run[a + 1].writer.Find?
    ensures a < c < b && Draws(run, c, height) && OneHeight(run, a, b, height) && 1 <= height <= 12
    ensures OrderInHeap(run[a].mem) && |run[a].mem.order| == |run[a].mem.linked| >= 1
    ensures var m, m', key := run[a].mem, run[b].mem, run[a + 1].writer.key;
            var r := LowerBound(cmp, Keys(m), 1, key);
            && m'.order == Inserted(m.order, r, node) && m'.linked == Inserted(m.linked, r, height)
            && node < |m'.heap| && m'.heap[node].key == key && |m'.heap[node].next| == height
            && Max(m') == if Max(m) > height then Max(m) else height
  {
    hide Threaded;
    hide Increasing;
    hide LowerBound;
    hide ReaderStep;
    RunKeeps(cmp, run, a);
    var m, w' := run[a].mem, run[a + 1].writer;
    assert Step(cmp, run[a], run[a + 1]);
    var plan := Plan(w'.key, m.order, m.linked, Max(m), Rank(cmp, m, w'.key));
    c, height, node := PlanIsCarriedOut(cmp, run, a + 1, b, plan);
    RunKeeps(cmp, run, c);
    assert m.linked[0] == MAX_HEIGHT;
  }

  // ---------- where an iterator stands ----------

  /** Step i is a step of reader j. */
  ghost predicate Moves<K(!new)>(cmp: (K, K) -> int, run: seq<State<K>>, i: nat, j: nat) {
    && i + 1 < |run| && j in run[i].readers && j in run[i + 1].readers
    && run[i + 1].mem == run[i].mem
    && ReaderStep(cmp, run[i].mem, run[i].readers[j], run[i + 1].readers[j])
  }

  /** Reader j is in the same state from i to e. */
  ghost predicate Stays<K>(run: seq<State<K>>, i: nat, e: nat, j: nat) {
    && i <= e < |run| && j in run[i].readers
    && forall c :: i <= c <= e ==> j in run[c].readers && run[c].readers[j] == run[i].readers[j]
  }

  lemma MovesAtChange<K(!new)>(cmp: (K, K) -> int, run: seq<State<K>>, i: nat, j: nat)
    requires IsRun(cmp, run) && i + 1 < |run| && j in run[i].readers && j in run[i + 1].readers
    requires run[i].readers[j] != run[i + 1].readers[j]
    ensures Moves(cmp, run, i, j)
  {
    hide ReaderStep;
    hide WriterStep;
    assert Step(cmp, run[i], run[i + 1]);
  }

  /**
   Seek: an iterator that is positioned by a search stands on the first node that was not
   below the target at the instant of the search's last load, and nowhere if there was none.
   */
  lemma SeekIsLinearizable<K(!new)>(cmp: (K, K) -> int, run: seq<State<K>>, i: nat, e: nat, j: nat, target: K, result: Ptr, p: Ptr)
    requires IsRun(cmp, run) && Finishes(run, i, j, target, result)
    requires Stays(run, i + 1, e, j) && e + 1 < |run| && j in run[e + 1].readers && run[e + 1].readers[j] == On(p)
    ensures var m := run[i].mem; OrderInHeap(m) && |m.order| >= 1 && p == At(Nodes(m), Null, LowerBound(cmp, Keys(m), 1, target))
  {
    hide Structure;
    hide At;
    hide LowerBound;
    SearchIsLinearizable(cmp, run, i, j, target, result);
    Sorted(cmp, run[i].mem);
    MovesAtChange(cmp, run, e, j);
  }

  /** SeekForFirst: the first node at the instant of the load, nowhere if the list is empty then. */
  lemma SeekForFirstIsAtomic<K(!new)>(cmp: (K, K) -> int, run: seq<State<K>>, i: nat, j: nat, p: Ptr)
    requires IsRun(cmp, run) && i + 1 < |run| && j in run[i].readers && j in run[i + 1].readers
    requires run[i].readers[j] == Resting && run[i + 1].readers[j] == On(p)
    ensures var m := run[i].mem; if |m.order| > 1 then p == To(m.order[1]) else p == Null
  {
    hide WriterInv;
    hide Keys;
    hide Pointers;
    MovesAtChange(cmp, run, i, j);
    RunKeeps(cmp, run, i);
    var m := run[i].mem;
    assert m.order[0] == 0 && Visible(m, 0, 0);
    NextFacts(cmp, m, 0);
  }

  /** SeekForLast: the node that was last at the instant of the search's last load, nowhere if the list was empty. */
  lemma SeekForLastIsLinearizable<K(!new)>(cmp: (K, K) -> int, run: seq<State<K>>, i: nat, e: nat, j: nat, node: nat, p: Ptr)
    requires IsRun(cmp, run) && i + 1 < |run| && j in run[i].readers && j in run[i + 1].readers
    requires run[i].readers[j].SearchLast? && run[i + 1].readers[j] == Last(node)
    requires Stays(run, i + 1, e, j) && e + 1 < |run| && j in run[e + 1].readers && run[e + 1].readers[j] == On(p)
    ensures var m := run[i].mem; |m.order| >= 1 && if |m.order| > 1 then p == To(m.order[|m.order| - 1]) else p == Null
  {
    hide Threaded;
    hide WriterInv;
    hide Increasing;
    hide TotalOrder;
    LastIsLinearizable(cmp, run, i, j, node);
    RunKeeps(cmp, run, i);
    MovesAtChange(cmp, run, e, j);
  }

  /** Next: from the node at position x to the one at position x + 1 at this very instant; the iterator does move. */
  lemma NextIsAtomic<K(!new)>(cmp: (K, K) -> int, run: seq<State<K>>, i: nat, j: nat, x: nat, p: Ptr)
    requires IsRun(cmp, run) && Moves(cmp, run, i, j)
    requires x < |run[i].mem.order| && run[i].readers[j] == On(To(run[i].mem.order[x])) && run[i + 1].readers[j] == On(p)
    ensures var m := run[i].mem; if x + 1 < |m.order| then p == To(m.order[x + 1]) else p == Null
    ensures p != run[i].readers[j].cursor
  {
    hide WriterInv;
    hide Keys;
    hide Pointers;
    RunKeeps(cmp, run, i);
    var m := run[i].mem;
    assert m.linked[x] > 0;
    assert Visible(m, m.order[x], 0);
    NextFacts(cmp, m, m.order[x]);
  }

  // ---------- no step is ever stuck ----------

  /** An Insert that has begun always has a next step; every absent key may be inserted, and every height drawn. */
  lemma WriterCanStep<K(!new)>(cmp: (K, K) -> int, run: seq<State<K>>, i: nat, key: K, height: nat) returns (m': Memory<K>, w': Writer<K>)
    requires IsRun(cmp, run) && i < |run| && 1 <= height <= 12
    requires run[i].writer.Idle? ==> Absent(cmp, run[i].mem, key)
    ensures WriterStep(cmp, run[i], m', w')
    ensures run[i].writer.Idle? ==> w'.Find? && w'.key == key
    ensures run[i].writer.Found? ==> (w'.Raise? || w'.Allocate?) && w'.height == height
  {
    hide Structure;
    hide WriterInv;
    hide Absent;
    hide Published;
    hide Visible;
    RunKeeps(cmp, run, i);
    var s := run[i];
    var m := s.mem;
    HeightsInUse(cmp, m);
    WriterIsSafe(cmp, m, s.writer);
    match s.writer
    case Idle =>
      m', w' := m, Find(key, 0, Max(m) - 1, seq(MAX_HEIGHT, _ => 0));
    case Find(k, node, level, prev) =>
      var next := Loaded(m, node, level);
      m', w' := m, if KeyIsAfter(cmp, m, k, next) then Find(k, next.id, level, prev)
                   else if level > 0 then Find(k, node, level - 1, prev[level := node])
                   else Found(k, prev[level := node]);
    case Found(k, prev) =>
      m', w' := m, if height > Max(m) then Raise(k, Raised(prev, Max(m), height), height) else Allocate(k, prev, height);
    case Raise(k, prev, h) =>
      m', w' := m.(maxima := m.maxima + [h]), Allocate(k, prev, h);
    case Allocate(k, prev, h) =>
      m', w' := m.(heap := m.heap + [Cell(k, seq(h, _ => Null))]), Load(|m.heap|, prev, 0);
    case Load(node, prev, level) =>
      m', w' := m, Store(node, prev, level, Loaded(m, prev[level], level));
    case Store(node, prev, level, next) =>
      m', w' := StorePtr(m, node, level, next), Publish(node, prev, level);
    case Publish(node, prev, level) =>
      m' := Published(cmp, StorePtr(m, prev[level], level, To(node)), node, level);
      w' := AfterPublish(m, node, prev, level);
  }

  lemma HeightsInUse<K(!new)>(cmp: (K, K) -> int, m: Memory<K>)
    requires Structure(cmp, m)
    ensures |m.maxima| >= 1 && forall k :: 0 <= k < |m.maxima| ==> 1 <= m.maxima[k] <= 12
    ensures CanLoad(m, 0, 0)
  {
    hide Threaded;
    assert m.order[0] == 0 && Visible(m, 0, 0);
    NextFacts(cmp, m, 0);
  }

  /** The result of a call that needs no further load, or of the next load. */
  ghost predicate Arrives<K>(r: Reader<K>, r': Reader<K>) {
    match r
    case Search(target, _, _) => (r'.Search? || r'.Done?) && r'.target == target
    case SearchLast(_, _) => r'.SearchLast? || r'.Last?
    case On(Null) => r' == Resting
    case _ => r'.On?
  }

  /** A reader is never stuck either, and may start a search from every height the list has ever had. */
  lemma ReaderCanStep<K(!new)>(cmp: (K, K) -> int, run: seq<State<K>>, i: nat, j: nat, target: K) returns (r': Reader<K>)
    requires IsRun(cmp, run) && i < |run| && j in run[i].readers
    ensures ReaderStep(cmp, run[i].mem, run[i].readers[j], r') && Arrives(run[i].readers[j], r')
    ensures run[i].readers[j].Resting? ==>
              forall k, level: nat :: 0 <= k < |run[i].mem.maxima| && level + 1 == run[i].mem.maxima[k] ==>
                && ReaderStep(cmp, run[i].mem, Resting, Search(target, 0, level))
                && ReaderStep(cmp, run[i].mem, Resting, SearchLast(0, level))
  {
    hide Structure;
    hide WriterInv;
    hide Visible;
    RunKeeps(cmp, run, i);
    var m, r := run[i].mem, run[i].readers[j];
    HeightsInUse(cmp, m);
    ReaderIsSafe(cmp, m, r);
    match r
    case Search(t, node, level) =>
      var next := Loaded(m, node, level);
      r' := if KeyIsAfter(cmp, m, t, next) then Search(t, next.id, level)
            else if level > 0 then Search(t, node, level - 1) else Done(t, next);
    case SearchLast(node, level) =>
      var next := Loaded(m, node, level);
      r' := if next.To? then SearchLast(next.id, level) else if level > 0 then SearchLast(node, level - 1) else Last(node);
    case Last(node) => r' := On(if node == 0 then Null else To(node));
    case Done(_, result) => r' := On(result);
    case On(To(id)) => r' := On(Loaded(m, id, 0));
    case On(Null) => r' := Resting;
    case Resting => r' := On(Loaded(m, 0, 0));
  }

  // ---------- searches and insertions come to an end ----------

  /** The first position of a node in the list, or past the end. */
  function IndexOf(order: seq<nat>, node: nat): (x: nat)
    ensures x <= |order| && (x < |order| ==> order[x] == node)
    ensures x < |order| <==> node in order
  {
    if order == [] then 0 else if order[0] == node then 0 else 1 + IndexOf(order[1..], node)
  }

  lemma {:induction false} IndexIsFirst(order: seq<nat>, node: nat, x: nat)
    requires x < |order| && order[x] == node && forall i :: 0 <= i < x ==> order[i] != node
    ensures IndexOf(order, node) == x
  {
    if x > 0 {
      assert order[0] != node;
      IndexIsFirst(order[1..], node, x - 1);
    }
  }

  /** A new node moves no other one towards the front. */
  lemma IndexAfterInsertion(order: seq<nat>, r: nat, added: nat, node: nat)
    requires r <= |order| && added !in order && node in order
    ensures IndexOf(Inserted(order, r, added), node) >= IndexOf(order, node)
  {
    hide IndexOf;
    hide Inserted;
    var after := Inserted(order, r, added);
    var x, y := IndexOf(order, node), IndexOf(after, node);
    assert after[Shifted(x, r)] == order[x] == node;
    assert after[y] == node != after[r];
    FirstIndex(order, node, if y < r then y else y - 1);
  }

  lemma {:induction false} FirstIndex(order: seq<nat>, node: nat, i: nat)
    requires i < |order| && order[i] == node
    ensures IndexOf(order, node) <= i
  {
    if i > 0 && order[0] != node { FirstIndex(order[1..], node, i - 1); }
  }

  /** A bound on the steps a search has left: levels to descend and nodes to pass. */
  function Left<K>(m: Memory<K>, r: Reader<K>): nat {
    if r.Search? || r.SearchLast? then r.level + |m.order| - IndexOf(m.order, r.node) else 0
  }

  /** A load either passes a node or descends. */
  lemma LoadGoesOn<K(!new)>(cmp: (K, K) -> int, m: Memory<K>, node: nat, level: nat)
    requires Structure(cmp, m) && Visible(m, node, level)
    ensures CanLoad(m, node, level) && node in m.order
    ensures var next := Loaded(m, node, level); next.To? ==> IndexOf(m.order, next.id) > IndexOf(m.order, node)
  {
    hide TotalOrder;
    hide Increasing;
    var x :| 0 <= x < |m.order| && m.order[x] == node && m.linked[x] > level;
    var y := NextAt(m.linked, x, level);
    assert Pointers(m)[x][level] == At(Nodes(m), Null, y);
    IndexIsFirst(m.order, node, x);
    if y < |m.order| { IndexIsFirst(m.order, m.order[y], y); }
  }

  ghost predicate Searches<K>(r: Reader<K>) {
    r.Search? || r.SearchLast?
  }

  lemma SearchStepCounts<K(!new)>(cmp: (K, K) -> int, m: Memory<K>, r: Reader<K>, r': Reader<K>)
    requires Structure(cmp, m) && ReaderInv(cmp, m, r) && Searches(r) && ReaderStep(cmp, m, r, r')
    ensures Left(m, r') < Left(m, r)
  {
    LoadGoesOn(cmp, m, r.node, r.level);
    hide Structure;
    hide Visible;
    hide IndexOf;
  }

  /** The list is as it was, or has one node more. */
  ghost predicate Grows(order: seq<nat>, after: seq<nat>) {
    after == order || exists r, node :: GrowsBy(order, after, r, node)
  }

  ghost predicate GrowsBy(order: seq<nat>, after: seq<nat>, r: nat, node: nat) {
    r <= |order| && node !in order && after == Inserted(order, r, node)
  }

  lemma OrderGrows<K(!new)>(cmp: (K, K) -> int, s: State<K>, m': Memory<K>, w': Writer<K>)
    requires Structure(cmp, s.mem) && WriterInv(cmp, s.mem, s.writer) && WriterStep(cmp, s, m', w')
    ensures Grows(s.mem.order, m'.order)
  {
    if s.writer.Publish? {
      hide Structure;
      hide WriterInv;
      hide WriterStep;
      hide Publishing;
      hide Rank;
      IsPublishing(cmp, s, m', w');
      var m, node, prev, level := s.mem, s.writer.node, s.writer.prev, s.writer.level;
      PublishingMeans(cmp, m, node, prev, level, m');
      if level == 0 {
        FirstPartsHold(cmp, m, node, prev, m', Rank(cmp, m, m.heap[node].key));
        assert GrowsBy(m.order, m'.order, Rank(cmp, m, m.heap[node].key), node);
      } else {
        NextPartsHold(cmp, m, node, prev, level, m', Rank(cmp, m, m.heap[node].key));
      }
    }
  }

  lemma InOrder<K(!new)>(cmp: (K, K) -> int, m: Memory<K>, r: Reader<K>)
    requires ReaderInv(cmp, m, r) && Searches(r)
    ensures r.node in m.order
  {}

  /** An insertion costs a search at most one step. */
  lemma InsertionCostsOne<K(!new)>(m: Memory<K>, m': Memory<K>, r: Reader<K>)
    requires Grows(m.order, m'.order) && Searches(r) && r.node in m.order
    ensures |m'.order| >= |m.order| && Left(m', r) <= Left(m, r) + |m'.order| - |m.order|
  {
    hide IndexOf;
    if m'.order != m.order {
      var p, node :| GrowsBy(m.order, m'.order, p, node);
      IndexAfterInsertion(m.order, p, node, r.node);
    }
  }

  /** How many of the steps from state a to state b are steps of reader j. */
  ghost function StepsOf<K(!new)>(cmp: (K, K) -> int, run: seq<State<K>>, a: nat, b: nat, j: nat): nat
    requires a <= b
    decreases b - a
  {
    if a == b then 0 else (if Moves(cmp, run, a, j) then 1 else 0) + StepsOf(cmp, run, a + 1, b, j)
  }

  /** From state a to state b reader j is searching. */
  ghost predicate SearchesDuring<K>(run: seq<State<K>>, a: nat, b: nat, j: nat) {
    a <= b < |run| && forall c :: a <= c <= b ==> j in run[c].readers && Searches(run[c].readers[j])
  }

  lemma OneStepCounts<K(!new)>(cmp: (K, K) -> int, run: seq<State<K>>, a: nat, j: nat)
    requires IsRun(cmp, run) && SearchesDuring(run, a, a + 1, j)
    ensures |run[a].mem.order| <= |run[a + 1].mem.order|
    ensures (if Moves(cmp, run, a, j) then 1 else 0) + Left(run[a + 1].mem, run[a + 1].readers[j])
            <= Left(run[a].mem, run[a].readers[j]) + |run[a + 1].mem.order| - |run[a].mem.order|
  {
    hide Structure;
    hide WriterInv;
    hide WriterStep;
    hide ReaderStep;
    hide ReaderInv;
    hide Left;
    hide Grows;
    var s, s' := run[a], run[a + 1];
    RunKeeps(cmp, run, a);
    assert Step(cmp, s, s');
    var r := s.readers[j];
    InOrder(cmp, s.mem, r);
    if Moves(cmp, run, a, j) {
      SearchStepCounts(cmp, s.mem, r, s'.readers[j]);
    } else if s'.readers == s.readers && WriterStep(cmp, s, s'.mem, s'.writer) {
      OrderGrows(cmp, s, s'.mem, s'.writer);
      InsertionCostsOne(s.mem, s'.mem, r);
    }
  }

  /**
   A search comes to an end: while it goes on, from state a to state b, it has taken fewer
   steps than it had levels and nodes before it and nodes have been inserted since.
   */
  lemma {:induction false} SearchIsBounded<K(!new)>(cmp: (K, K) -> int, run: seq<State<K>>, a: nat, b: nat, j: nat)
    requires IsRun(cmp, run) && SearchesDuring(run, a, b, j)
    ensures StepsOf(cmp, run, a, b, j) + Left(run[b].mem, run[b].readers[j])
            <= Left(run[a].mem, run[a].readers[j]) + |run[b].mem.order| - |run[a].mem.order|
    ensures |run[a].mem.order| <= |run[b].mem.order|
    ensures StepsOf(cmp, run, a, b, j) < run[a].readers[j].level + |run[b].mem.order|
    decreases b - a
  {
    hide Structure;
    hide WriterInv;
    hide ReaderInv;
    hide Moves;
    RunKeeps(cmp, run, b);
    InOrder(cmp, run[b].mem, run[b].readers[j]);
    if a < b {
      OneStepCounts(cmp, run, a, j);
      SearchIsBounded(cmp, run, a + 1, b, j);
    }
  }

  /** A bound on the steps an Insert has left. */
  function WorkLeft<K>(m: Memory<K>, w: Writer<K>): nat {
    match w
    case Idle => 0
    case Find(_, node, level, _) => 39 + level + |m.order| - IndexOf(m.order, node)
    case Found(_, _) => 39
    case Raise(_, _, height) => 3 * height + 2
    case Allocate(_, _, height) => 3 * height + 1
    case Load(node, _, level) => LevelsLeft(m, node, level)
    case Store(node, _, level, _) => if LevelsLeft(m, node, level) > 0 then LevelsLeft(m, node, level) - 1 else 0
    case Publish(node, _, level) => if LevelsLeft(m, node, level) > 1 then LevelsLeft(m, node, level) - 2 else 0
  }

  function LevelsLeft<K>(m: Memory<K>, node: nat, level: nat): nat {
    if node < |m.heap| && level < |m.heap[node].next| then 3 * (|m.heap[node].next| - level) else 0
  }

  lemma FindStepCounts<K(!new)>(cmp: (K, K) -> int, s: State<K>, m': Memory<K>, w': Writer<K>)
    requires Structure(cmp, s.mem) && WriterInv(cmp, s.mem, s.writer) && WriterStep(cmp, s, m', w') && s.writer.Find?
    ensures WorkLeft(m', w') < WorkLeft(s.mem, s.writer)
  {
    LoadGoesOn(cmp, s.mem, s.writer.node, s.writer.level);
    hide Structure;
    hide WriterInv;
    hide IndexOf;
  }

  lemma LinkStepCounts<K(!new)>(cmp: (K, K) -> int, s: State<K>, m': Memory<K>, w': Writer<K>)
    requires Structure(cmp, s.mem) && WriterInv(cmp, s.mem, s.writer) && WriterStep(cmp, s, m', w')
    requires s.writer.Load? || s.writer.Store? || s.writer.Publish?
    ensures WorkLeft(m', w') < WorkLeft(s.mem, s.writer)
  {
    WriterIsSafe(cmp, s.mem, s.writer);
    if s.writer.Publish? {
      hide WriterInv;
      hide WriterStep;
      hide Publishing;
      hide LevelPublished;
      IsPublishing(cmp, s, m', w');
      PublishStep(cmp, s.mem, s.writer.node, s.writer.prev, s.writer.level, m');
      HeightKept(cmp, s.mem, s.writer.node, s.writer.prev, s.writer.level, m');
    }
    hide Structure;
    hide LinkInv;
  }

  lemma HeightKept<K(!new)>(cmp: (K, K) -> int, m: Memory<K>, node: nat, prev: seq<nat>, level: nat, m': Memory<K>)
    requires LevelPublished(cmp, m, node, prev, level, m')
    ensures node < |m.heap| && node < |m'.heap| && |m'.heap[node].next| == |m.heap[node].next|
  {}

  lemma WriterStepCounts<K(!new)>(cmp: (K, K) -> int, s: State<K>, m': Memory<K>, w': Writer<K>)
    requires Structure(cmp, s.mem) && WriterInv(cmp, s.mem, s.writer) && WriterStep(cmp, s, m', w') && !s.writer.Idle?
    ensures WorkLeft(m', w') < WorkLeft(s.mem, s.writer)
  {
    if s.writer.Find? {
      FindStepCounts(cmp, s, m', w');
    } else if s.writer.Load? || s.writer.Store? || s.writer.Publish? {
      LinkStepCounts(cmp, s, m', w');
    } else {
      hide Structure;
    }
  }

  /** How many of the steps from state a to state b are steps of the writer. */
  ghost function WriterSteps<K(!new)>(cmp: (K, K) -> int, run: seq<State<K>>, a: nat, b: nat): nat
    requires a <= b < |run|
    decreases b - a
  {
    if a == b then 0
    else (if WriterStep(cmp, run[a], run[a + 1].mem, run[a + 1].writer) then 1 else 0) + WriterSteps(cmp, run, a + 1, b)
  }

  lemma {:induction false} WorkGetsDone<K(!new)>(cmp: (K, K) -> int, run: seq<State<K>>, a: nat, b: nat)
    requires IsRun(cmp, run) && a <= b < |run| && forall c :: a <= c < b ==> !run[c].writer.Idle?
    ensures WriterSteps(cmp, run, a, b) + WorkLeft(run[b].mem, run[b].writer) <= WorkLeft(run[a].mem, run[a].writer)
    decreases b - a
  {
    hide Structure;
    hide WriterInv;
    hide WriterStep;
    hide WorkLeft;
    if a < b {
      RunKeeps(cmp, run, a);
      assert Step(cmp, run[a], run[a + 1]);
      if WriterStep(cmp, run[a], run[a + 1].mem, run[a + 1].writer) {
        WriterStepCounts(cmp, run[a], run[a + 1].mem, run[a + 1].writer);
      }
      WorkGetsDone(cmp, run, a + 1, b);
    }
  }

  /**
   An Insert comes to an end: whatever the readers do, it takes at most 50 steps and one for
   every node of the list.
   */
  lemma InsertIsBounded<K(!new)>(cmp: (K, K) -> int, run: seq<State<K>>, a: nat, b: nat)
    requires IsRun(cmp, run) && a + 1 <= b < |run| && run[a].writer.Idle? && run[a + 1].writer.Find?
    requires forall c :: a < c < b ==> !run[c].writer.Idle?
    ensures WriterSteps(cmp, run, a + 1, b) <= 50 + |run[a].mem.order|
  {
    hide Structure;
    hide WriterInv;
    hide ReaderStep;
    hide WriterSteps;
    RunKeeps(cmp, run, a);
    HeightsInUse(cmp, run[a].mem);
    assert Step(cmp, run[a], run[a + 1]);
    WorkGetsDone(cmp, run, a + 1, b);
  }

  // ---------- iteration ----------

  /** From state a to state b reader j only moves its iterator. */
  ghost predicate Iterates<K>(run: seq<State<K>>, a: nat, b: nat, j: nat) {
    a <= b < |run| && forall c :: a <= c <= b ==> j in run[c].readers && run[c].readers[j].On?
  }

  ghost predicate IsBefore<K(!new)>(cmp: (K, K) -> int, m: Memory<K>, p: Ptr, key: K) {
    p.To? && p.id < |m.heap| && (p.id == 0 || cmp(m.heap[p.id].key, key) < 0)
  }

  /** Next cannot jump over a node of the list. */
  lemma NextDoesNotSkip<K(!new)>(cmp: (K, K) -> int, m: Memory<K>, id: nat, node: nat, key: K)
    requires Structure(cmp, m) && Visible(m, id, 0) && HasKey(m, node, key) && IsBefore(cmp, m, To(id), key)
    ensures CanLoad(m, id, 0)
    ensures var p := Loaded(m, id, 0); p == To(node) || (IsBefore(cmp, m, p, key) && Visible(m, p.id, 0))
  {
    hide Threaded;
    NextFacts(cmp, m, id);
    var x :| 0 <= x < |m.order| && m.order[x] == id && Loaded(m, id, 0) == At(Nodes(m), Null, x + 1);
    var y :| 0 <= y < |m.order| && m.order[y] == node;
    var keys := Keys(m);
    assert keys[x] == m.heap[id].key && keys[y] == key && y >= 1;
    assert x < y;
    if x + 1 < y {
      assert cmp(keys[x + 1], keys[y]) < 0;
    }
  }

  /**
   A scan skips nothing that was in the list when it began: an iterator that is before the
   key at state a and is not before it at state b stood on its node in between.
   */
  lemma {:induction false} ScanSkipsNothing<K(!new)>(cmp: (K, K) -> int, run: seq<State<K>>, a: nat, b: nat, j: nat, node: nat, key: K)
    requires IsRun(cmp, run) && Iterates(run, a, b, j)
    requires HasKey(run[a].mem, node, key) && IsBefore(cmp, run[a].mem, run[a].readers[j].cursor, key)
    requires !IsBefore(cmp, run[b].mem, run[b].readers[j].cursor, key)
    ensures exists c :: a < c <= b && run[c].readers[j].cursor == To(node)
    decreases b - a
  {
    hide Structure;
    hide WriterInv;
    hide WriterStep;
    RunKeeps(cmp, run, a);
    var s, s' := run[a], run[a + 1];
    var id := s.readers[j].cursor.id;
    assert ReaderInv(cmp, s.mem, s.readers[j]);
    NextDoesNotSkip(cmp, s.mem, id, node, key);
    RunExtends(cmp, run, a, a + 1);
    assert Step(cmp, s, s');
    if s'.readers[j].cursor != To(node) {
      ScanSkipsNothing(cmp, run, a + 1, b, j, node, key);
    }
  }
}

/** The skip list as the writer sees it: heap nodes, one atomic pointer per level. */
module SkipList {

  import opened Links
  import opened Order
  import opened Random

  const MAX_HEIGHT: nat := 12
  const BRANCHING: nat := 4

  class Node<K> {
    const key: K
    /** The node's pointers, lowest level first; their number is the node's height. */
    var next: seq<Node?<K>>

    constructor (key: K, height: nat)
      ensures this.key == key && |next| == height
      ensures forall l :: 0 <= l < height ==> next[l] == null
    {
      this.key := key;
      next := seq(height, _ => null);
    }
  }

  /** The height that the generator's states after this seed give. */
  predicate Drawn(seed: nat, height: nat) {
    && 1 <= height <= MAX_HEIGHT
    && (forall j :: 1 <= j < height ==> After(seed, j) % BRANCHING == 0)
    && (height < MAX_HEIGHT ==> After(seed, height) % BRANCHING != 0)
  }

  /** How many draws it takes. */
  function Draws(height: nat): nat {
    if height < 12 then height else 11
  }

  ghost function PointersOf<K>(nodes: seq<Node<K>>): (p: seq<seq<Node?<K>>>)
    reads nodes
    ensures |p| == |nodes| && forall i :: 0 <= i < |nodes| ==> p[i] == nodes[i].next
  {
    seq(|nodes|, i requires 0 <= i < |nodes| reads nodes => nodes[i].next)
  }

  lemma PointersInserted<K>(nodes: seq<Node<K>>, r: nat, node: Node<K>)
    requires r <= |nodes|
    ensures PointersOf(Inserted(nodes, r, node)) == Inserted(PointersOf(nodes), r, node.next)
  {}

  /** Header first, all nodes different, each with its key, none but the header higher than the maximum. */
  ghost predicate Listed<K>(nodes: seq<Node<K>>, keys: seq<K>, linked: seq<nat>, header: Node<K>, maxHeight: nat) {
    && |nodes| == |keys| == |linked| >= 1
    && nodes[0] == header && linked[0] == MAX_HEIGHT
    && (forall i, j :: 0 <= i < j < |nodes| ==> nodes[i] != nodes[j])
    && (forall i :: 0 <= i < |nodes| ==> nodes[i].key == keys[i])
    && (forall i :: 0 < i < |nodes| ==> linked[i] <= maxHeight)
  }

  /** The keys are sorted, and the pointers tell their order. */
  ghost predicate Arranged<K(!new)>(compare: (K, K) -> int, nodes: seq<Node<K>>, keys: seq<K>, linked: seq<nat>,
                                    pointers: seq<seq<Node?<K>>>, header: Node<K>, maxHeight: nat) {
    && Listed(nodes, keys, linked, header, maxHeight)
    && Threaded<Node?<K>>(nodes, null, pointers, linked)
    && TotalOrder(compare) && Increasing(compare, keys, 1)
  }

  /** They are and do still when a new node, linked nowhere, is put at its place. */
  lemma ArrangedWith<K(!new)>(compare: (K, K) -> int, nodes: seq<Node<K>>, keys: seq<K>, linked: seq<nat>,
                              pointers: seq<seq<Node?<K>>>, header: Node<K>, maxHeight: nat, node: Node<K>,
                              own: seq<Node?<K>>, r: nat)
    requires Arranged(compare, nodes, keys, linked, pointers, header, maxHeight) && node !in nodes
    requires r == LowerBound(compare, keys, 1, node.key) && (r < |keys| ==> compare(keys[r], node.key) != 0)
    ensures 1 <= r <= |nodes| == |keys| == |linked| == |pointers|
    ensures Arranged(compare, Inserted(nodes, r, node), Inserted(keys, r, node.key), Inserted(linked, r, 0),
                     Inserted(pointers, r, own), header, maxHeight)
  {
    hide TotalOrder;
    hide Increasing;
    hide Threaded;
    hide LowerBound;
    hide At;
    hide NextAt;
    InsertionKeepsOrder(compare, keys, 1, node.key);
    ThreadedPlace<Node?<K>>(nodes, null, pointers, linked, r, node, own);
    InsertedDistinct(nodes, r, node);
    InsertedPairs(nodes, keys, r, node, node.key, (n: Node<K>, k: K) => n.key == k);
  }

  /** A header alone is an empty list. */
  lemma ArrangedAlone<K(!new)>(compare: (K, K) -> int, header: Node<K>, own: seq<Node?<K>>)
    requires TotalOrder(compare) && |own| == MAX_HEIGHT && forall l :: 0 <= l < |own| ==> own[l] == null
    ensures Arranged(compare, [header], [header.key], [MAX_HEIGHT], [own], header, 1)
  {
    hide TotalOrder;
    forall l | 0 <= l < MAX_HEIGHT
      ensures NextAt([MAX_HEIGHT], 0, l) == 1
    {}
  }

  class SkipList<K(!new)> {
    const compare: (K, K) -> int
    const header: Node<K>
    var maxHeight: nat
    const rand: Random

    /** The nodes in level-0 order, the header first. */
    ghost var nodes: seq<Node<K>>
    /** Their keys; the header's key is never looked at. */
    ghost var keys: seq<K>
    /** How many levels of each node have been linked so far. */
    ghost var linked: seq<nat>
    ghost var Repr: set<object>

    // ---------- the invariant ----------

    /** The node at a position, null past the end. */
    ghost function NodeAt(i: nat): Node?<K>
      reads this
    {
      At<Node?<K>>(nodes, null, i)
    }

    ghost function Pointers(): (p: seq<seq<Node?<K>>>)
      reads this, nodes
    {
      PointersOf(nodes)
    }

    /** The nodes are this list's own. */
    ghost predicate Shape()
      reads this, nodes
    {
      && this in Repr && rand in Repr
      && (forall i :: 0 <= i < |nodes| ==> nodes[i] in Repr)
      && |nodes| >= 1 && nodes[0] == header && |header.next| == MAX_HEIGHT
      && 1 <= maxHeight <= MAX_HEIGHT
    }

    /** What holds after every single pointer store of an insertion. */
    ghost predicate Consistent()
      reads this, nodes
    {
      Shape() && Arranged(compare, nodes, keys, linked, Pointers(), header, maxHeight)
    }

    /** What holds between operations: besides, every node is linked on all its levels. */
    ghost predicate Valid()
      reads this, Repr
    {
      && rand in Repr && (forall n :: n in nodes ==> n in Repr)
      && Consistent()
      && rand.Valid()
      && forall i :: 0 <= i < |nodes| ==> 1 <= linked[i] == |nodes[i].next|
    }

    /** The keys in the list, in order. */
    ghost function Contents(): seq<K>
      requires |keys| >= 1
      reads this
    {
      keys[1..]
    }

    // ---------- operations ----------

    constructor (compare: (K, K) -> int, headerKey: K)
      requires TotalOrder(compare)
      ensures Valid() && fresh(Repr)
      ensures this.compare == compare && keys == [headerKey] && Contents() == []
      ensures maxHeight == 1 && rand.seed == 0x5eadbeef
      ensures |header.next| == 12 && forall l :: 0 <= l < 12 ==> header.next[l] == null
    {
      hide Arranged;
      hide TotalOrder;
      hide PointersOf;
      hide At;
      this.compare := compare;
      header := new Node(headerKey, MAX_HEIGHT);
      maxHeight := 1;
      rand := new Random(0xdeadbeef);
      new;
      nodes, keys, linked := [header], [headerKey], [MAX_HEIGHT];
      Repr := {this, header, rand};
      ArrangedAlone(compare, header, header.next);
      assert PointersOf(nodes) == [header.next];
      assert Consistent();
    }

    /** One more level for every draw in a row that is a multiple of four. */
    method RandomHeight() returns (height: nat)
      requires rand.Valid()
      modifies rand
      ensures rand.Valid()
      ensures Drawn(old(rand.seed), height)
      ensures 1 <= height <= 12
      ensures forall j :: 1 <= j < height ==> After(old(rand.seed), j) % 4 == 0
      ensures height < 12 ==> After(old(rand.seed), height) % 4 != 0
      ensures rand.seed == After(old(rand.seed), Draws(height))
    {
      height := 1;
      while height < MAX_HEIGHT
        invariant rand.Valid()
        invariant 1 <= height <= MAX_HEIGHT
        invariant rand.seed == After(old(rand.seed), height - 1)
        invariant forall j :: 1 <= j < height ==> After(old(rand.seed), j) % BRANCHING == 0
      {
        var r := rand.Next();
        if r % BRANCHING != 0 { break; }
        height := height + 1;
      }
    }

    /** Is the key after the node? */
    predicate KeyIsAfterNode(key: K, node: Node?<K>)
    {
      node != null && compare(node.key, key) < 0
    }

    lemma Basics()
      requires Valid()
      ensures |nodes| == |keys| == |linked| >= 1 && nodes[0] == header && linked[0] == MAX_HEIGHT
      ensures 1 <= maxHeight <= MAX_HEIGHT
    {}

    /** One look ahead of the search, from position x on a level. */
    lemma LookAhead(key: K, x: nat, level: nat)
      requires Valid() && level < MAX_HEIGHT
      requires x < LowerBound(compare, keys, 1, key) && linked[x] > level
      ensures x < |nodes| && level < |nodes[x].next|
      ensures var r, y := LowerBound(compare, keys, 1, key), NextAt(linked, x, level);
              && nodes[x].next[level] == NodeAt(y)
              && (KeyIsAfterNode(key, nodes[x].next[level]) <==> y < r)
              && (y < r ==> linked[y] > level)
              && (y >= r ==> PrevAt(linked, r, level) == x)
              && (y >= r && level == 0 ==> y == r)
    {
      var r, y := LowerBound(compare, keys, 1, key), NextAt(linked, x, level);
      NextAtMeans(linked, x, level);
      if y < |nodes| { AfterLowerBound(compare, keys, 1, key, y); }
      if y >= r {
        PrevAtUnique(linked, r, level, x);
        if level == 0 {
          NextAtUnique(linked, x, 0, x + 1);
        }
      }
    }

    /**
     The first node whose key is not below the given one, found from the top level down;
     prev, when given, receives the last node below the key on every level in use.
     */
    method FindGreaterOrEqual(key: K, prev: array?<Node?<K>>) returns (node: Node?<K>, ghost r: nat)
      requires Valid()
      requires prev != null ==> prev !in Repr && prev.Length == MAX_HEIGHT
      modifies prev
      ensures r == LowerBound(compare, keys, 1, key) && node == NodeAt(r)
      ensures prev != null ==> Predecessors<Node?<K>>(nodes, linked, prev[..], r, 0, maxHeight)
    {
      Basics();
      r := LowerBound(compare, keys, 1, key);
      var pNode := header;
      ghost var x := 0;
      var level := maxHeight - 1;
      assert prev != null ==> Predecessors<Node?<K>>(nodes, linked, prev[..], r, maxHeight, maxHeight);
      hide Valid;
      hide Predecessors;
      while true
        invariant Valid()
        invariant 0 <= level < maxHeight
        invariant 0 <= x < r && pNode == nodes[x] && linked[x] > level
        invariant prev != null ==> Predecessors<Node?<K>>(nodes, linked, prev[..], r, level + 1, maxHeight)
        decreases level + |nodes| - x
      {
        LookAhead(key, x, level);
        var next := pNode.next[level];
        if KeyIsAfterNode(key, next) {
          pNode := next;
          x := NextAt(linked, x, level);
        } else {
          if prev != null {
            ghost var before := prev[..];
            PredecessorsExtend<Node?<K>>(nodes, linked, before, r, level, x, level + 1, maxHeight);
            prev[level] := pNode;
            assert prev[..] == before[level := pNode];
          }
          if level == 0 { return next, r; }
          level := level - 1;
        }
      }
    }

    // ---------- insertion ----------

    static lemma OwnedWith(nodes: seq<Node<K>>, repr: set<object>, r: nat, node: Node<K>)
      requires r <= |nodes| && |nodes| >= 1 && forall i :: 0 <= i < |nodes| ==> nodes[i] in repr
      ensures var after := Inserted(nodes, r, node);
              (r > 0 ==> after[0] == nodes[0]) && forall i :: 0 <= i < |after| ==> after[i] in repr + {node}
    {}

    /** The new node takes its place in the order; no pointer changes. */
    ghost method Place(node: Node<K>, r: nat)
      requires Consistent()
      requires node !in Repr
      requires r == LowerBound(compare, keys, 1, node.key) && (r < |keys| ==> compare(keys[r], node.key) != 0)
      modifies this`nodes, this`keys, this`linked, this`Repr
      ensures Consistent()
      ensures nodes == Inserted(old(nodes), r, node) && keys == Inserted(old(keys), r, node.key)
      ensures linked == Inserted(old(linked), r, 0) && Repr == old(Repr) + {node}
    {
      hide TotalOrder;
      hide Increasing;
      hide Threaded;
      hide Listed;
      hide Arranged;
      hide At;
      hide NextAt;
      hide LowerBound;
      ArrangedWith(compare, nodes, keys, linked, Pointers(), header, maxHeight, node, node.next, r);
      PointersInserted(nodes, r, node);
      hide PointersOf;
      ghost var placed := Inserted(Pointers(), r, node.next);
      OwnedWith(nodes, Repr, r, node);
      hide Inserted;
      nodes, keys, linked := Inserted(nodes, r, node), Inserted(keys, r, node.key), Inserted(linked, r, 0);
      Repr := Repr + {node};
      assert Pointers() == placed;
      assert Shape();
    }

    /** Levels that no node but the header reaches have the header as predecessor. */
    lemma TopPredecessor(r: nat, l: nat)
      requires Consistent() && 0 < r <= |linked| && maxHeight <= l < MAX_HEIGHT
      ensures PrevAt(linked, r, l) == 0
    {
      PrevAtUnique(linked, r, l, 0);
    }

    lemma Sizes()
      requires Consistent()
      ensures |nodes| == |keys| == |linked| >= 1 && nodes[0] == header && linked[0] == MAX_HEIGHT
      ensures 1 <= maxHeight <= MAX_HEIGHT
    {}

    lemma Raised(h: nat, r: nat)
      requires Consistent() && maxHeight <= h <= MAX_HEIGHT && 0 < r <= |linked|
      ensures forall l :: maxHeight <= l < h ==> PrevAt(linked, r, l) == 0
    {
      forall l | maxHeight <= l < h
        ensures PrevAt(linked, r, l) == 0
      {
        TopPredecessor(r, l);
      }
    }

    /** When the new node is the highest yet, the header precedes it on the new levels. */
    method RaiseTo(height: nat, prev: array<Node?<K>>, ghost r: nat)
      requires Valid() && 0 < r <= |nodes| && height <= MAX_HEIGHT
      requires prev !in Repr && prev.Length == MAX_HEIGHT
      requires Predecessors<Node?<K>>(nodes, linked, prev[..], r, 0, maxHeight)
      modifies this`maxHeight, prev
      ensures Valid()
      ensures maxHeight == if height > old(maxHeight) then height else old(maxHeight)
      ensures Predecessors<Node?<K>>(nodes, linked, prev[..], r, 0, maxHeight)
    {
      if height > maxHeight {
        Sizes();
        Raised(height, r);
        hide Predecessors;
        hide PrevAt;
        FillHeader(prev, maxHeight, height, r);
        maxHeight := height;
      }
    }

    method FillHeader(prev: array<Node?<K>>, from: nat, to: nat, ghost r: nat)
      requires from <= to <= MAX_HEIGHT == prev.Length
      requires 0 < |linked| == |nodes| && nodes[0] == header && linked[0] == MAX_HEIGHT && 0 < r <= |linked|
      requires forall l :: from <= l < to ==> PrevAt(linked, r, l) == 0
      requires Predecessors<Node?<K>>(nodes, linked, prev[..], r, 0, from)
      modifies prev
      ensures Predecessors<Node?<K>>(nodes, linked, prev[..], r, 0, to)
    {
      hide Predecessors;
      hide PrevAt;
      var i := from;
      while i < to
        invariant from <= i <= to
        invariant Predecessors<Node?<K>>(nodes, linked, prev[..], r, 0, i)
      {
        ghost var before := prev[..];
        PredecessorsExtend<Node?<K>>(nodes, linked, before, r, i, 0, 0, i);
        prev[i] := header;
        assert prev[..] == before[i := nodes[0]];
        i := i + 1;
      }
    }

    /** The node at position r is linked on its lowest levels; prev holds its predecessors. */
    ghost predicate Linking(n: Node<K>, prev: seq<Node?<K>>, level: nat, r: nat)
      reads this, nodes
    {
      && Consistent()
      && 0 < r < |nodes| && nodes[r] == n && linked[r] == level <= |n.next| <= maxHeight
      && FullExcept(Pointers(), linked, r)
      && Predecessors<Node?<K>>(nodes, linked, prev, r, 0, maxHeight)
    }

    /** The node that precedes the new one on a level. */
    lemma Predecessor(n: Node<K>, prev: seq<Node?<K>>, level: nat, r: nat) returns (p: nat)
      requires Linking(n, prev, level, r) && level < |n.next|
      ensures p == PrevAt(linked, r, level) < r && linked[p] > level
      ensures level < |prev| && prev[level] == nodes[p] && level < |nodes[p].next|
    {
      p := PrevAt(linked, r, level);
      PrevAtMeans(linked, r, level);
    }

    /** The first store of a level, into the new node: no reader can tell. */
    method PrepareLevel(n: Node<K>, prevNode: Node<K>, ghost prev: seq<Node?<K>>, level: nat, ghost r: nat, ghost p: nat)
      requires Linking(n, prev, level, r) && level < |n.next|
      requires p < r && linked[p] > level && prevNode == nodes[p] && level < |prevNode.next|
      modifies n
      ensures Linking(n, prev, level, r)
      ensures Pointers() == Prepared<Node?<K>>(old(Pointers()), r, p, level)
    {
      ghost var before := Pointers();
      ThreadedPrepare<Node?<K>>(nodes, null, before, linked, r, level, before[p][level]);
      FullAfterPrepare<Node?<K>>(before, linked, r, p, level);
      hide Predecessors;
      hide FullExcept;
      hide TotalOrder;
      hide Increasing;
      n.next := n.next[level := prevNode.next[level]];
      assert Pointers() == Prepared(before, r, p, level);
    }

    /** The second store, into the predecessor: the node is now in the list of this level. */
    method PublishLevel(n: Node<K>, prevNode: Node<K>, ghost prev: seq<Node?<K>>, level: nat, ghost r: nat, ghost p: nat)
      requires Linking(n, prev, level, r) && level < |n.next|
      requires p == PrevAt(linked, r, level) && linked[p] > level && prevNode == nodes[p] && level < |prevNode.next|
      requires n.next[level] == prevNode.next[level]
      modifies prevNode, this`linked
      ensures Linking(n, prev, level + 1, r) && linked == old(linked)[r := level + 1]
      ensures Pointers() == Stored<Node?<K>>(old(Pointers()), p, level, n)
    {
      hide Predecessors;
      hide FullExcept;
      hide TotalOrder;
      hide Increasing;
      hide Threaded;
      ghost var before := Pointers();
      ThreadedPublish<Node?<K>>(nodes, null, before, linked, r, level, p);
      FullAfterPublish<Node?<K>>(before, linked, r, p, level, n);
      PredecessorsAfterGrowth<Node?<K>>(nodes, linked, prev, r, level + 1, 0, maxHeight);
      prevNode.next := prevNode.next[level := n];
      linked := linked[r := level + 1];
      assert Pointers() == Stored(before, p, level, n);
    }

    /** One more level: between the two stores, and after each, the list is consistent. */
    method LinkLevel(n: Node<K>, prev: array<Node?<K>>, level: nat, ghost r: nat)
      requires Linking(n, prev[..], level, r) && level < |n.next|
      modifies nodes, this`linked
      ensures Linking(n, prev[..], level + 1, r) && |n.next| == old(|n.next|)
      ensures linked == old(linked)[r := level + 1]
    {
      ghost var p := Predecessor(n, prev[..], level, r);
      var prevNode := prev[level];
      hide Linking;
      PrepareLevel(n, prevNode, prev[..], level, r, p);
      assert Pointers()[r][level] == Pointers()[p][level];
      PublishLevel(n, prevNode, prev[..], level, r, p);
    }

    /** When all levels of the new node are linked, the list is whole again. */
    lemma Finished(n: Node<K>, prev: seq<Node?<K>>, r: nat)
      requires 1 <= |n.next| && Linking(n, prev, |n.next|, r)
      requires rand in Repr && rand.Valid()
      ensures Valid()
    {
      assert forall i :: 0 <= i < |nodes| ==> |Pointers()[i]| == |nodes[i].next|;
    }

    lemma Same(s: seq<nat>, r: nat)
      ensures r < |s| && s[r] == 0 ==> s == s[r := 0]
    {}

    /** Links a placed node level by level. */
    method LinkLevels(n: Node<K>, prev: array<Node?<K>>, ghost r: nat)
      requires Linking(n, prev[..], 0, r) && r < |linked| && linked[r] == 0
      requires rand in Repr && rand.Valid()
      modifies nodes, this`linked
      ensures |n.next| == old(|n.next|) && Linking(n, prev[..], |n.next|, r)
      ensures linked == old(linked)[r := |n.next|]
      ensures rand in Repr && rand.Valid()
    {
      hide Linking;
      var i := 0;
      ghost var was := linked;
      Same(linked, r);
      while i < |n.next|
        invariant 0 <= i <= |n.next| == old(|n.next|)
        invariant r < |was| && linked == was[r := i]
        invariant Linking(n, prev[..], i, r)
        invariant rand in Repr && rand.Valid()
        decreases |n.next| - i
      {
        LinkLevel(n, prev, i, r);
        i := i + 1;
      }
    }

    /** After all its levels the list is whole again. */
    method LinkAll(n: Node<K>, prev: array<Node?<K>>, ghost r: nat)
      requires Linking(n, prev[..], 0, r) && 1 <= |n.next|
      requires rand in Repr && rand.Valid()
      modifies nodes, this`linked
      ensures Valid()
      ensures r < |old(linked)| && linked == old(linked)[r := old(|n.next|)]
    {
      assert r < |linked| && linked[r] == 0;
      hide Linking;
      hide Valid;
      LinkLevels(n, prev, r);
      Finished(n, prev[..], r);
    }

    /** The search for a key that equals none in the list has found its place. */
    ghost predicate Found(key: K, prev: array<Node?<K>>, r: nat)
      reads this, Repr, prev
    {
      && Valid()
      && r == LowerBound(compare, keys, 1, key) && (r < |keys| ==> compare(keys[r], key) != 0)
      && prev !in Repr && prev.Length == MAX_HEIGHT
      && Predecessors<Node?<K>>(nodes, linked, prev[..], r, 0, maxHeight)
    }

    /** Allocates the node and puts it in its place, linked nowhere. */
    method PlaceNew(key: K, prev: array<Node?<K>>, height: nat, ghost r: nat) returns (n: Node<K>)
      requires Found(key, prev, r) && 1 <= height <= maxHeight
      modifies this`nodes, this`keys, this`linked, this`Repr
      ensures fresh(n) && 1 <= |n.next| == height && Repr == old(Repr) + {n}
      ensures linked == Inserted(old(linked), r, 0)
      ensures keys == Inserted(old(keys), r, key)
      ensures nodes == Inserted(old(nodes), r, n)
      ensures Linking(n, prev[..], 0, r) && rand in Repr && rand.Valid()
    {
      n := new Node(key, height);
      ghost var before := Pointers();
      FullAfterPlace<Node?<K>>(before, linked, r, n.next);
      PredecessorsAfterPlace<Node?<K>>(nodes, linked, prev[..], r, n, 0, maxHeight);
      hide Predecessors;
      hide LowerBound;
      hide FullExcept;
      Place(n, r);
      assert Pointers() == Inserted(before, r, n.next);
    }

    method RaiseFound(key: K, prev: array<Node?<K>>, height: nat, ghost r: nat)
      requires Found(key, prev, r) && height <= MAX_HEIGHT
      modifies this`maxHeight, prev
      ensures Found(key, prev, r) && maxHeight == if height > old(maxHeight) then height else old(maxHeight)
    {
      hide Predecessors;
      RaiseTo(height, prev, r);
    }

    method LinkNew(key: K, prev: array<Node?<K>>, height: nat, ghost r: nat)
      requires Found(key, prev, r) && 1 <= height <= maxHeight
      modifies nodes, this
      ensures Valid() && fresh(Repr - old(Repr))
      ensures keys == Inserted(old(keys), r, key) && linked == Inserted(old(linked), r, height)
      ensures r < |nodes| && fresh(nodes[r]) && nodes == Inserted(old(nodes), r, nodes[r])
      ensures maxHeight == old(maxHeight)
    {
      hide Linking;
      hide Valid;
      ghost var before := nodes;
      var n := PlaceNew(key, prev, height, r);
      assert forall m :: m in nodes ==> m == n || m in before;
      hide Found;
      LinkAll(n, prev, r);
    }

    /** RandomHeight, which changes nothing but the generator. */
    method DrawHeight(key: K, prev: array<Node?<K>>, ghost r: nat) returns (height: nat)
      requires Found(key, prev, r)
      modifies rand
      ensures Found(key, prev, r) && Drawn(old(rand.seed), height) && 1 <= height <= MAX_HEIGHT
      ensures rand.seed == After(old(rand.seed), Draws(height))
    {
      hide Predecessors;
      height := RandomHeight();
    }

    lemma Footprint()
      requires Valid()
      ensures this in Repr && rand in Repr && forall n :: n in nodes ==> n in Repr
    {}

    method FindPlace(key: K, prev: array<Node?<K>>) returns (ghost r: nat)
      requires Valid() && prev !in Repr && prev.Length == MAX_HEIGHT
      requires forall i :: 1 <= i < |keys| ==> compare(keys[i], key) != 0
      modifies prev
      ensures r == LowerBound(compare, keys, 1, key) && Found(key, prev, r)
    {
      hide Valid;
      hide Predecessors;
      Basics();
      var node;
      node, r := FindGreaterOrEqual(key, prev);
    }

    /**
     Inserts a key that equals none in the list, bottom level first. The keys are the old
     ones with the new one at its place; its node is linked on as many levels as drawn.
     */
    method Insert(key: K) returns (ghost height: nat)
      requires Valid()
      requires forall i :: 1 <= i < |keys| ==> compare(keys[i], key) != 0
      modifies Repr
      ensures Valid() && fresh(Repr - old(Repr))
      ensures var r := LowerBound(compare, old(keys), 1, key);
              keys == Inserted(old(keys), r, key) && linked == Inserted(old(linked), r, height)
      ensures Drawn(old(rand.seed), height) && rand.seed == After(old(rand.seed), Draws(height))
      ensures maxHeight == if height > old(maxHeight) then height else old(maxHeight)
      ensures var r := LowerBound(compare, old(keys), 1, key);
              r < |nodes| && fresh(nodes[r]) && nodes == Inserted(old(nodes), r, nodes[r])
    {
      hide Valid;
      hide Found;
      hide Drawn;
      hide LowerBound;
      Footprint();
      var prev := new Node?<K>[MAX_HEIGHT](_ => null);
      ghost var r := FindPlace(key, prev);
      var h := DrawHeight(key, prev, r);
      height := h;
      RaiseFound(key, prev, h, r);
      LinkNew(key, prev, h, r);
    }

    // ---------- look-up ----------

    /** Is a key that compares equal in the list? */
    method Contains(key: K) returns (found: bool)
      requires Valid()
      ensures found <==> exists i :: 1 <= i < |keys| && compare(keys[i], key) == 0
    {
      var node, r := FindGreaterOrEqual(key, null);
      LowerBoundMeans(compare, keys, 1, key);
      found := node != null && compare(key, node.key) == 0;
      if r < |keys| {
        assert node == nodes[r];
        assert compare(keys[r], key) == 0 <==> compare(key, keys[r]) == 0;
        NoneAfter(r, key);
      }
    }

    /** Only the key at the lower bound can be equal. */
    lemma NoneAfter(r: nat, key: K)
      requires Valid() && r == LowerBound(compare, keys, 1, key) && r < |keys|
      ensures forall i :: 1 <= i < |keys| && compare(keys[i], key) == 0 ==> i == r
    {
      LowerBoundMeans(compare, keys, 1, key);
      forall i | r < i < |keys|
        ensures compare(keys[i], key) != 0
      {
        NotBelow(compare, keys[r], keys[i], key);
      }
    }

    lemma KeyOf(x: nat)
      requires Valid()
      ensures x < |nodes| == |keys| ==> nodes[x].key == keys[x]
    {}

    /** On level 0 every node is followed by the next one in order. */
    lemma NextOnLevel0(x: nat)
      requires Valid() && x < |nodes|
      ensures |nodes| == |keys| && nodes[0] == header
      ensures |nodes[x].next| > 0 && nodes[x].next[0] == NodeAt(x + 1)
      ensures x + 1 < |nodes| ==> nodes[x + 1].key == keys[x + 1]
    {
      NextAtMeans(linked, x, 0);
      if x + 1 < |nodes| { NextAtUnique(linked, x, 0, x + 1); }
    }

    lemma LastIsHeader()
      requires Valid()
      ensures nodes[|nodes| - 1] == header <==> |nodes| == 1
    {}

    /** The last node, the header when the list is empty. */
    method FindLast() returns (node: Node<K>)
      requires Valid()
      ensures node == nodes[|nodes| - 1]
    {
      Basics();
      node := header;
      ghost var x := 0;
      var level := maxHeight - 1;
      while true
        invariant 0 <= level < maxHeight
        invariant 0 <= x < |nodes| && node == nodes[x] && linked[x] > level
        decreases level + |nodes| - x
      {
        NextAtMeans(linked, x, level);
        if level == 0 && x + 1 < |nodes| { NextAtUnique(linked, x, 0, x + 1); }
        var next := node.next[level];
        if next == null {
          if level == 0 { return; }
          level := level - 1;
        } else {
          node := next;
          x := NextAt(linked, x, level);
        }
      }
    }
  }

  /** A position in a list; Valid in the source is IsValid here. */
  class Iterator<K(!new)> {
    const list: SkipList<K>
    var node: Node?<K>
    /** The position of the node; |list.nodes| when it is null. */
    ghost var pos: nat

    ghost predicate Positioned()
      reads this, list, list.Repr
    {
      list.Valid() && this !in list.Repr && 1 <= pos <= |list.nodes| && node == list.NodeAt(pos)
    }

    constructor (list: SkipList<K>)
      requires list.Valid()
      ensures this.list == list && Positioned() && pos == |list.nodes|
    {
      this.list := list;
      node := null;
      pos := |list.nodes|;
    }

    /** Where the iterator is, without the list's invariant. */
    ghost predicate InRange()
      reads this, list
    {
      && 1 <= pos <= |list.keys|
      && (node != null <==> pos < |list.keys|)
      && (node != null ==> node.key == list.keys[pos])
    }

    predicate IsValid()
      reads this
    {
      node != null
    }

    function Key(): K
      requires IsValid()
      reads this
    {
      node.key
    }

    method Next()
      requires Positioned() && IsValid()
      modifies this
      ensures Positioned() && InRange() && pos == old(pos) + 1
    {
      hide SkipList.Valid;
      list.NextOnLevel0(pos);
      node := node.next[0];
      pos := pos + 1;
    }

    /** The first key that is not below the target. */
    method Seek(target: K)
      requires Positioned()
      modifies this
      ensures Positioned() && InRange() && pos == LowerBound(list.compare, list.keys, 1, target)
    {
      hide SkipList.Valid;
      list.Basics();
      node, pos := list.FindGreaterOrEqual(target, null);
      list.KeyOf(pos);
    }

    method SeekForFirst()
      requires Positioned()
      modifies this
      ensures Positioned() && InRange() && pos == 1
    {
      hide SkipList.Valid;
      list.NextOnLevel0(0);
      node := list.header.next[0];
      pos := 1;
    }

    method SeekForLast()
      requires Positioned()
      modifies this
      ensures Positioned()
      ensures if |list.nodes| == 1 then !IsValid() else IsValid() && pos == |list.nodes| - 1
    {
      hide SkipList.Valid;
      list.LastIsHeader();
      list.Basics();
      var last := list.FindLast();
      if last == list.header {
        node := null;
        pos := |list.nodes|;
      } else {
        node := last;
        pos := |list.nodes| - 1;
      }
    }
  }

  /** The keys before position pos. */
  ghost predicate Collected<K>(s: seq<K>, keys: seq<K>, pos: nat) {
    1 <= pos <= |keys| && s == keys[1..pos]
  }

  lemma CollectOne<K>(s: seq<K>, keys: seq<K>, pos: nat)
    requires Collected(s, keys, pos) && pos < |keys|
    ensures Collected(s + [keys[pos]], keys, pos + 1)
  {}

  /** From the first position, Next enumerates exactly the keys of the list, in order. */
  method Scan<K(!new)>(list: SkipList<K>) returns (s: seq<K>)
    requires list.Valid()
    ensures s == list.Contents()
  {
    var iter := new Iterator(list);
    iter.SeekForFirst();
    s := [];
    ghost var keys := list.keys;
    hide Iterator.Positioned;
    assert Collected(s, keys, iter.pos);
    hide Collected;
    while iter.IsValid()
      invariant iter.list == list && iter.Positioned()
      invariant list.keys == keys && iter.InRange()
      invariant Collected(s, keys, iter.pos)
      decreases |keys| - iter.pos
    {
      CollectOne(s, keys, iter.pos);
      s := s + [iter.Key()];
      iter.Next();
    }
    Everything(s, keys, iter.pos);
  }

  lemma Everything<K>(s: seq<K>, keys: seq<K>, pos: nat)
    requires Collected(s, keys, pos) && pos == |keys|
    ensures s == keys[1..]
  {}
}

/**
 The shape of a skip list, as a sequence of towers.

 Tower i reaches levels 0 .. heights[i] - 1; tower 0 is the header. The links are a
 function of the heights alone: the successor of tower i on level l is the next tower
 that reaches l. Inserting a node is then a tower of height 0 put in its place, which
 changes no link, followed by growing it one level at a time.
 */
module Links {

  /** The next tower after i that reaches level l, or |heights| when there is none. */
  function NextAt(heights: seq<nat>, i: nat, l: nat): (r: nat)
    requires i < |heights|
    ensures i < r <= |heights|
    decreases |heights| - i
  {
    if i + 1 == |heights| || heights[i + 1] > l then i + 1 else NextAt(heights, i + 1, l)
  }

  /** The last tower before r that reaches level l. */
  function PrevAt(heights: seq<nat>, r: nat, l: nat): (p: nat)
    requires 0 < r <= |heights| && heights[0] > l
    ensures p < r
  {
    if heights[r - 1] > l then r - 1 else PrevAt(heights, r - 1, l)
  }

  lemma {:induction false} NextAtMeans(heights: seq<nat>, i: nat, l: nat)
    requires i < |heights|
    ensures var r := NextAt(heights, i, l);
            (r < |heights| ==> heights[r] > l) && forall j :: i < j < r ==> heights[j] <= l
    decreases |heights| - i
  {
    if i + 1 < |heights| && heights[i + 1] <= l { NextAtMeans(heights, i + 1, l); }
  }

  lemma {:induction false} PrevAtMeans(heights: seq<nat>, r: nat, l: nat)
    requires 0 < r <= |heights| && heights[0] > l
    ensures var p := PrevAt(heights, r, l);
            heights[p] > l && forall j :: p < j < r ==> heights[j] <= l
  {
    if heights[r - 1] <= l { PrevAtMeans(heights, r - 1, l); }
  }

  /** A new tower of height h before position r. */
  function Inserted<T>(s: seq<T>, r: nat, x: T): (t: seq<T>)
    requires r <= |s|
    ensures |t| == |s| + 1 && t[r] == x
    ensures forall j :: 0 <= j < r ==> t[j] == s[j]
    ensures forall j :: r < j < |t| ==> t[j] == s[j - 1]
  {
    s[..r] + [x] + s[r..]
  }

  lemma InsertedDistinct<T>(s: seq<T>, r: nat, x: T)
    requires r <= |s| && x !in s
    requires forall i, j :: 0 <= i < j < |s| ==> s[i] != s[j]
    ensures var t := Inserted(s, r, x); forall i, j :: 0 <= i < j < |t| ==> t[i] != t[j]
  {}

  lemma InsertedPairs<S, T>(s: seq<S>, t: seq<T>, r: nat, x: S, y: T, p: (S, T) -> bool)
    requires r <= |s| == |t| && p(x, y)
    requires forall i :: 0 <= i < |s| ==> p(s[i], t[i])
    ensures var u, v := Inserted(s, r, x), Inserted(t, r, y); forall i :: 0 <= i < |u| ==> p(u[i], v[i])
  {}

  /** Where position j goes when a tower is inserted at r. */
  function Shifted(j: nat, r: nat): nat {
    if j < r then j else j + 1
  }

  lemma NextAtUnique(heights: seq<nat>, i: nat, l: nat, r: nat)
    requires i < r <= |heights|
    requires r < |heights| ==> heights[r] > l
    requires forall j :: i < j < r ==> heights[j] <= l
    ensures NextAt(heights, i, l) == r
  {
    NextAtMeans(heights, i, l);
  }

  lemma PrevAtUnique(heights: seq<nat>, r: nat, l: nat, p: nat)
    requires p < r <= |heights| && heights[0] > l && heights[p] > l
    requires forall j :: p < j < r ==> heights[j] <= l
    ensures PrevAt(heights, r, l) == p
  {
    PrevAtMeans(heights, r, l);
  }

  /** An invisible tower changes no link. */
  lemma NextAfterInsertion(heights: seq<nat>, r: nat, i: nat, l: nat)
    requires 0 < r <= |heights| && i < |heights|
    ensures NextAt(Inserted(heights, r, 0), Shifted(i, r), l) == Shifted(NextAt(heights, i, l), r)
  {
    var h := Inserted(heights, r, 0);
    var n := NextAt(heights, i, l);
    NextAtMeans(heights, i, l);
    forall j | Shifted(i, r) < j < Shifted(n, r)
      ensures h[j] <= l
    {
      if j < r { assert heights[j] <= l; }
      if j > r { assert heights[j - 1] <= l; }
    }
    NextAtUnique(h, Shifted(i, r), l, Shifted(n, r));
  }

  /** Growing tower r from level l on redirects exactly one link: that of its predecessor on level l. */
  lemma NextAfterGrowth(heights: seq<nat>, r: nat, l: nat, grown: seq<nat>, i: nat, k: nat)
    requires 0 < r < |heights| && heights[r] == l < heights[0]
    requires grown == heights[r := l + 1]
    requires i < |heights| && i != r && k < heights[i]
    ensures NextAt(grown, i, k) == if k == l && i == PrevAt(heights, r, l) then r else NextAt(heights, i, k)
  {
    var p := PrevAt(heights, r, l);
    var n := NextAt(heights, i, k);
    PrevAtMeans(heights, r, l);
    NextAtMeans(heights, i, k);
    if k == l && i == p {
      NextAtUnique(grown, i, k, r);
    } else {
      if k == l && i < p { assert n <= p; }
      NextAtUnique(grown, i, k, n);
    }
  }

  /** The grown tower inherits its predecessor's successor. */
  lemma NextOfGrown(heights: seq<nat>, r: nat, l: nat, grown: seq<nat>)
    requires 0 < r < |heights| && heights[r] == l < heights[0]
    requires grown == heights[r := l + 1]
    ensures NextAt(grown, r, l) == NextAt(heights, PrevAt(heights, r, l), l)
  {
    var p := PrevAt(heights, r, l);
    var n := NextAt(heights, p, l);
    PrevAtMeans(heights, r, l);
    NextAtMeans(heights, p, l);
    assert r < n;
    forall j | r < j < n
      ensures grown[j] <= l
    {
      assert heights[j] <= l;
    }
    NextAtUnique(grown, r, l, n);
  }

  /** The grown tower's links on its other levels stay. */
  lemma NextOfGrownBelow(heights: seq<nat>, r: nat, k: nat)
    requires r < |heights|
    ensures NextAt(heights[r := heights[r] + 1], r, k) == NextAt(heights, r, k)
  {
    NextAtMeans(heights, r, k);
    NextAtUnique(heights[r := heights[r] + 1], r, k, NextAt(heights, r, k));
  }

  lemma PrevAfterInsertion(heights: seq<nat>, r: nat, l: nat)
    requires 0 < r <= |heights| && heights[0] > l
    ensures PrevAt(Inserted(heights, r, 0), r, l) == PrevAt(heights, r, l)
  {
    PrevAtMeans(heights, r, l);
    PrevAtUnique(Inserted(heights, r, 0), r, l, PrevAt(heights, r, l));
  }

  /** Growing r does not move the predecessors of r. */
  lemma PrevAfterGrowth(heights: seq<nat>, r: nat, l: nat, h: nat)
    requires 0 < r < |heights| && heights[0] > l
    ensures PrevAt(heights[r := h], r, l) == PrevAt(heights, r, l)
  {
    PrevAtMeans(heights, r, l);
    PrevAtUnique(heights[r := h], r, l, PrevAt(heights, r, l));
  }

  // ---------- pointers ----------

  /** The node at a position, null past the end. */
  function At<T>(nodes: seq<T>, nil: T, i: nat): T {
    if i < |nodes| then nodes[i] else nil
  }

  /** Every linked level of every node points to the next node that is linked there. */
  ghost predicate Threaded<T>(nodes: seq<T>, nil: T, pointers: seq<seq<T>>, linked: seq<nat>) {
    && |nodes| == |pointers| == |linked|
    && (forall i :: 0 <= i < |nodes| ==> linked[i] <= |pointers[i]|)
    && (forall i, l :: 0 <= i < |nodes| && 0 <= l < linked[i]
          ==> pointers[i][l] == At(nodes, nil, NextAt(linked, i, l)))
  }

  /** A node that is linked nowhere can be put anywhere. */
  lemma ThreadedPlace<T>(nodes: seq<T>, nil: T, pointers: seq<seq<T>>, linked: seq<nat>, r: nat, x: T, own: seq<T>)
    requires Threaded(nodes, nil, pointers, linked)
    requires 0 < r <= |nodes|
    ensures Threaded(Inserted(nodes, r, x), nil, Inserted(pointers, r, own), Inserted(linked, r, 0))
  {
    var ns, ps, ls := Inserted(nodes, r, x), Inserted(pointers, r, own), Inserted(linked, r, 0);
    forall i, l | 0 <= i < |ns| && 0 <= l < ls[i]
      ensures ps[i][l] == At(ns, nil, NextAt(ls, i, l))
    {
      var j := if i < r then i else i - 1;
      assert ls[i] == linked[j] && ps[i] == pointers[j] && i == Shifted(j, r);
      NextAfterInsertion(linked, r, j, l);
      AtShifted(nodes, nil, r, x, NextAt(linked, j, l));
    }
  }

  lemma AtShifted<T>(nodes: seq<T>, nil: T, r: nat, x: T, n: nat)
    requires r <= |nodes| && n <= |nodes|
    ensures At(Inserted(nodes, r, x), nil, Shifted(n, r)) == At(nodes, nil, n)
  {}

  /** One pointer store: node i's level-l pointer becomes x. */
  function Stored<T>(pointers: seq<seq<T>>, i: nat, l: nat, x: T): (q: seq<seq<T>>)
    requires i < |pointers| && l < |pointers[i]|
    ensures |q| == |pointers| && forall j :: 0 <= j < |q| ==> |q[j]| == |pointers[j]|
  {
    pointers[i := pointers[i][l := x]]
  }

  /** The first store that links node r after node p on level l: r's own pointer. */
  function Prepared<T>(pointers: seq<seq<T>>, r: nat, p: nat, l: nat): (q: seq<seq<T>>)
    requires r < |pointers| && p < |pointers| && l < |pointers[r]| && l < |pointers[p]|
    ensures |q| == |pointers| && forall j :: 0 <= j < |q| ==> |q[j]| == |pointers[j]|
  {
    Stored(pointers, r, l, pointers[p][l])
  }

  /** Storing into a level that is not linked yet is invisible. */
  lemma ThreadedPrepare<T>(nodes: seq<T>, nil: T, pointers: seq<seq<T>>, linked: seq<nat>, r: nat, l: nat, x: T)
    requires Threaded(nodes, nil, pointers, linked)
    requires r < |nodes| && linked[r] <= l < |pointers[r]|
    ensures Threaded(nodes, nil, Stored(pointers, r, l, x), linked)
  {}

  /** Publishing the prepared node on its next level. */
  lemma ThreadedPublish<T>(nodes: seq<T>, nil: T, pointers: seq<seq<T>>, linked: seq<nat>, r: nat, l: nat, p: nat)
    requires Threaded(nodes, nil, pointers, linked)
    requires 0 < r < |nodes| && linked[r] == l < linked[0] && l < |pointers[r]|
    requires p == PrevAt(linked, r, l) && linked[p] > l
    requires pointers[r][l] == pointers[p][l]
    ensures Threaded(nodes, nil, Stored(pointers, p, l, nodes[r]), linked[r := l + 1])
  {
    var grown := linked[r := l + 1];
    var ps := pointers[p := pointers[p][l := nodes[r]]];
    NextOfGrown(linked, r, l, grown);
    forall i, k | 0 <= i < |nodes| && 0 <= k < grown[i]
      ensures ps[i][k] == At(nodes, nil, NextAt(grown, i, k))
    {
      if i != r {
        NextAfterGrowth(linked, r, l, grown, i, k);
      } else if k < l {
        NextOfGrownBelow(linked, r, k);
      }
    }
  }
  /** Every node but r is linked on all its levels. */
  ghost predicate FullExcept<T>(pointers: seq<seq<T>>, linked: seq<nat>, r: nat) {
    |pointers| == |linked| && forall j :: 0 <= j < |linked| && j != r ==> 1 <= linked[j] == |pointers[j]|
  }

  lemma FullAfterPrepare<T>(pointers: seq<seq<T>>, linked: seq<nat>, r: nat, p: nat, l: nat)
    requires FullExcept(pointers, linked, r)
    requires r < |pointers| && p < |pointers| && l < |pointers[r]| && l < |pointers[p]|
    ensures FullExcept(Prepared(pointers, r, p, l), linked, r)
  {}

  lemma FullAfterPublish<T>(pointers: seq<seq<T>>, linked: seq<nat>, r: nat, p: nat, l: nat, x: T)
    requires FullExcept(pointers, linked, r)
    requires r < |pointers| && p < |pointers| && l < |pointers[p]|
    ensures FullExcept(Stored(pointers, p, l, x), linked[r := l + 1], r)
  {}

  lemma FullAfterPlace<T>(pointers: seq<seq<T>>, linked: seq<nat>, r: nat, own: seq<T>)
    requires |pointers| == |linked| && r <= |linked|
    requires forall j :: 0 <= j < |linked| ==> 1 <= linked[j] == |pointers[j]|
    ensures FullExcept(Inserted(pointers, r, own), Inserted(linked, r, 0), r)
  {}

  /** On levels from .. to - 1, prev holds the last node before position r. */
  ghost predicate Predecessors<T>(nodes: seq<T>, linked: seq<nat>, prev: seq<T>, r: nat, from: nat, to: nat) {
    && 0 < r <= |linked| == |nodes| && to <= |prev| && to <= linked[0]
    && forall l :: from <= l < to ==> prev[l] == nodes[PrevAt(linked, r, l)]
  }

  lemma PredecessorsAfterGrowth<T>(nodes: seq<T>, linked: seq<nat>, prev: seq<T>, r: nat, h: nat, from: nat, to: nat)
    requires Predecessors(nodes, linked, prev, r, from, to) && r < |linked|
    ensures Predecessors(nodes, linked[r := h], prev, r, from, to)
  {
    forall l | from <= l < to
      ensures prev[l] == nodes[PrevAt(linked[r := h], r, l)]
    {
      PrevAfterGrowth(linked, r, l, h);
    }
  }

  lemma PredecessorsAfterPlace<T>(nodes: seq<T>, linked: seq<nat>, prev: seq<T>, r: nat, x: T, from: nat, to: nat)
    requires Predecessors(nodes, linked, prev, r, from, to)
    ensures Predecessors(Inserted(nodes, r, x), Inserted(linked, r, 0), prev, r, from, to)
  {
    forall l | from <= l < to
      ensures prev[l] == Inserted(nodes, r, x)[PrevAt(Inserted(linked, r, 0), r, l)]
    {
      PrevAfterInsertion(linked, r, l);
    }
  }

  lemma PredecessorsExtend<T>(nodes: seq<T>, linked: seq<nat>, prev: seq<T>, r: nat, l: nat, x: nat, from: nat, to: nat)
    requires Predecessors(nodes, linked, prev, r, from, to)
    requires l < |prev| && l < linked[0] && x < |nodes| && PrevAt(linked, r, l) == x
    ensures from == l + 1 ==> Predecessors(nodes, linked, prev[l := nodes[x]], r, l, to)
    ensures to == l ==> Predecessors(nodes, linked, prev[l := nodes[x]], r, from, l + 1)
  {}
}

/** The address ranges kept in an AVL tree (lib/adt/addrspace.c, lib/adt/range.c): with the interval
    comparator the tree holds pairwise disjoint ranges in address order. */
module Intervals {
  import opened AvlShape
  import opened Avl

  function End(r: Range): nat {
    r.front + r.size
  }

  /** range_has_loc. */
  predicate HasLoc(r: Range, loc: nat) {
    loc >= r.front && loc - r.front < r.size
  }

  /** range_above: `above` lies behind the end of `r`. */
  predicate IsAbove(r: Range, above: Range) {
    above.front >= r.front && above.front - r.front >= r.size
  }

  /** range_overlaps. */
  predicate Overlaps(r: Range, other: Range) {
    HasLoc(r, other.front) || HasLoc(other, r.front)
  }

  /** avltree_compare. */
  function Compare(ours: Node, theirs: Node): int {
    if Overlaps(ours.range, theirs.range) then 0
    else if IsAbove(ours.range, theirs.range) then -1
    else 1
  }

  /** Overlapping is having a location in common. */
  lemma OverlapsMeans(a: Range, b: Range)
    requires a.size > 0 && b.size > 0
    ensures Overlaps(a, b) <==> exists loc: nat :: HasLoc(a, loc) && HasLoc(b, loc)
  {
    if HasLoc(a, b.front) {
      assert HasLoc(b, b.front);
    } else if HasLoc(b, a.front) {
      assert HasLoc(a, a.front);
    }
  }

  /** Non-empty ranges, each ending before the next begins. */
  ghost predicate InOrder(o: seq<Node>) {
    && (forall i | 0 <= i < |o| :: o[i].range.size > 0)
    && forall i, j | 0 <= i < j < |o| :: End(o[i].range) <= o[j].range.front
  }

  /** Against ranges in order, the comparator says greater, then equal, then less. */
  lemma Falls(o: seq<Node>, n: Node) returns (lo: nat, hi: nat)
    requires InOrder(o) && n.range.size > 0
    ensures lo <= hi <= |o|
    ensures forall k | 0 <= k < lo :: Compare(n, o[k]) > 0 && End(o[k].range) <= n.range.front
    ensures forall k | lo <= k < hi :: Compare(n, o[k]) == 0 && Overlaps(n.range, o[k].range)
    ensures forall k | hi <= k < |o| :: Compare(n, o[k]) < 0 && End(n.range) <= o[k].range.front
  {
    var r := n.range;
    lo := 0;
    while lo < |o| && End(o[lo].range) <= r.front
      invariant 0 <= lo <= |o|
      invariant forall k | 0 <= k < lo :: Compare(n, o[k]) > 0 && End(o[k].range) <= r.front
    {
      lo := lo + 1;
    }
    hi := lo;
    while hi < |o| && o[hi].range.front < End(r)
      invariant lo <= hi <= |o|
      invariant forall k | lo <= k < hi :: Compare(n, o[k]) == 0 && Overlaps(r, o[k].range)
    {
      assert lo < hi ==> End(o[lo].range) <= o[hi].range.front;
      hi := hi + 1;
    }
    assert forall k | hi < k < |o| :: End(o[hi].range) <= o[k].range.front;
  }

  lemma PlaceInOrder(o: seq<Node>, n: Node, i: nat)
    requires InOrder(o) && n.range.size > 0 && i <= |o|
    requires forall k | 0 <= k < i :: End(o[k].range) <= n.range.front
    requires forall k | i <= k < |o| :: End(n.range) <= o[k].range.front
    ensures InOrder(o[..i] + [n] + o[i..])
  {
    var s := o[..i] + [n] + o[i..];
    assert forall k | 0 <= k < |s| :: s[k] == if k < i then o[k] else if k == i then n else o[k - 1];
  }

  lemma RemoveInOrder(o: seq<Node>, i: nat)
    requires InOrder(o) && i < |o|
    ensures InOrder(o[..i] + o[i + 1..])
  {
    var s := o[..i] + o[i + 1..];
    assert forall k | 0 <= k < |s| :: s[k] == if k < i then o[k] else o[k + 1];
  }

  /** A descent by the interval comparator is stopped exactly by an overlap somewhere in the tree. */
  lemma SpotOfRange(s: Shape, n: Node)
    requires InOrder(Order(s)) && n.range.size > 0
    ensures Spot(Root, s, n, Compare).None? <==> exists k | 0 <= k < |Order(s)| :: Overlaps(n.range, Order(s)[k].range)
    ensures var r := Spot(Root, s, n, Compare);
            r.Some? ==> var i, o := |Before(r.value)|, Order(s); i <= |o| && InOrder(o[..i] + [n] + o[i..])
  {
    hide Spot;
    var o := Order(s);
    var lo, hi := Falls(o, n);
    SpotSorted(Root, s, n, Compare, lo, hi);
    if lo < hi {
      assert Overlaps(n.range, o[lo].range);
    } else {
      forall k | 0 <= k < |o|
        ensures !Overlaps(n.range, o[k].range)
      {
        assert Compare(n, o[k]) != 0;
      }
      PlaceInOrder(o, n, lo);
    }
  }

  /** Inserting a range: refused exactly when it overlaps a stored range anywhere in the tree. */
  method InsertRange(t: Tree, n: Node) returns (ok: bool)
    requires t.Valid() && n !in Nodes(t.shape) && InOrder(Order(t.shape)) && n.range.size > 0
    modifies t, Nodes(t.shape), n
    ensures t.Valid() && InOrder(Order(t.shape))
    ensures !ok <==> exists k | 0 <= k < |old(Order(t.shape))| :: Overlaps(n.range, old(Order(t.shape))[k].range)
    ensures Nodes(t.shape) == old(Nodes(t.shape)) + if ok then {n} else {}
  {
    hide Spot, Order, Nodes, Overlaps, InOrder;
    SpotOfRange(t.shape, n);
    ok := t.Insert(n, Compare);
  }

  method DeleteRange(t: Tree, n: Node)
    requires t.Valid() && n in Nodes(t.shape) && InOrder(Order(t.shape))
    modifies t, Nodes(t.shape)
    ensures t.Valid() && InOrder(Order(t.shape)) && Nodes(t.shape) == old(Nodes(t.shape)) - {n}
  {
    hide Order, Nodes, InOrder;
    ghost var o := Order(t.shape);
    t.Delete(n);
    ghost var i :| 0 <= i < |o| && o[i] == n && Order(t.shape) == o[..i] + o[i + 1..];
    RemoveInOrder(o, i);
  }
}

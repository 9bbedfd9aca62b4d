/** The nodes of lib/adt/avltree.c and the trees they spell.  A shape is the value that the links and
    the stored heights of a set of nodes describe; a path is a shape with one subtree cut out. */
module AvlShape {
  import opened Common

  const POW32: int := 0x1_0000_0000

  type U32 = w: int | 0 <= w < POW32

  /** A range of lib/adt/range.h; the struct a node is embedded in carries one. */
  datatype Range = Range(front: nat, size: nat)

  class Node {
    var parent: Node?
    var left: Node?
    var right: Node?
    var height: U32
    const range: Range

    constructor (r: Range)
      ensures range == r
    {
      range, parent, left, right, height := r, null, null, null, 0;
    }
  }

  datatype Shape = Leaf | Fork(left: Shape, node: Node, height: U32, right: Shape)

  /** A hole in a tree: the path up from it, with the subtrees hanging off that path. */
  datatype Path =
    | Root
    | LeftOf(up: Path, node: Node, height: U32, right: Shape)
    | RightOf(up: Path, left: Shape, node: Node, height: U32)

  function Top(s: Shape): (r: Node?) {
    if s.Leaf? then null else s.node
  }

  /** node_height. */
  function Height(s: Shape): U32 {
    if s.Leaf? then 0 else s.height
  }

  /** The node above the hole; `base` stands above the whole path. */
  function Holder(p: Path, base: Node?): (r: Node?) {
    if p.Root? then base else p.node
  }

  /** The uppermost node of the path, or what fills the hole of an empty one. */
  function First(p: Path, hole: Node?): (r: Node?) {
    match p
    case Root => hole
    case LeftOf(up, n, _, _) => First(up, n)
    case RightOf(up, _, n, _) => First(up, n)
  }

  function Nodes(s: Shape): set<Node> {
    if s.Leaf? then {} else Nodes(s.left) + {s.node} + Nodes(s.right)
  }

  function PathNodes(p: Path): set<Node> {
    match p
    case Root => {}
    case LeftOf(up, n, _, r) => PathNodes(up) + {n} + Nodes(r)
    case RightOf(up, l, n, _) => PathNodes(up) + {n} + Nodes(l)
  }

  /** No node occurs twice. */
  predicate Distinct(s: Shape) {
    s.Fork? ==>
      && Distinct(s.left) && Distinct(s.right)
      && s.node !in Nodes(s.left) && s.node !in Nodes(s.right) && Nodes(s.left) !! Nodes(s.right)
  }

  predicate PathDistinct(p: Path) {
    match p
    case Root => true
    case LeftOf(up, n, _, r) =>
      PathDistinct(up) && Distinct(r) && n !in PathNodes(up) && n !in Nodes(r) && PathNodes(up) !! Nodes(r)
    case RightOf(up, l, n, _) =>
      PathDistinct(up) && Distinct(l) && n !in PathNodes(up) && n !in Nodes(l) && PathNodes(up) !! Nodes(l)
  }

  predicate Apart(p: Path, s: Shape) {
    PathDistinct(p) && Distinct(s) && PathNodes(p) !! Nodes(s)
  }

  /** The in-order sequence. */
  function Order(s: Shape): (r: seq<Node>) {
    if s.Leaf? then [] else Order(s.left) + [s.node] + Order(s.right)
  }

  function Before(p: Path): (r: seq<Node>) {
    match p
    case Root => []
    case LeftOf(up, _, _, _) => Before(up)
    case RightOf(up, l, n, _) => Before(up) + Order(l) + [n]
  }

  function After(p: Path): (r: seq<Node>) {
    match p
    case Root => []
    case LeftOf(up, n, _, r) => [n] + Order(r) + After(up)
    case RightOf(up, _, _, _) => After(up)
  }

  /** The tree with the hole filled. */
  function Plug(p: Path, s: Shape): (r: Shape)
    ensures Nodes(r) == PathNodes(p) + Nodes(s)
    ensures Apart(p, s) ==> Distinct(r)
    decreases p
  {
    match p
    case Root => s
    case LeftOf(up, n, h, r) => Plug(up, Fork(s, n, h, r))
    case RightOf(up, l, n, h) => Plug(up, Fork(l, n, h, s))
  }

  lemma {:induction false} OrderPlug(p: Path, s: Shape)
    ensures Order(Plug(p, s)) == Before(p) + Order(s) + After(p)
    decreases p
  {
    match p
    case Root =>
      assert [] + Order(s) + [] == Order(s);
    case LeftOf(up, n, h, r) =>
      OrderPlug(up, Fork(s, n, h, r));
      Bracket(Before(up), Order(s), [n], Order(r), After(up));
    case RightOf(up, l, n, h) =>
      OrderPlug(up, Fork(l, n, h, s));
      Bracket(Before(up), Order(l), [n], Order(s), After(up));
  }

  lemma Bracket<T>(a: seq<T>, b: seq<T>, c: seq<T>, d: seq<T>, e: seq<T>)
    ensures a + (b + c + d) + e == a + b + (c + d + e)
    ensures a + (b + c + d) + e == (a + b + c) + d + e
  {
  }

  // ---------- what the heap holds ----------

  datatype Cell = Cell(parent: Node?, left: Node?, right: Node?, height: U32)

  ghost function At(n: Node): Cell
    reads n
  {
    Cell(n.parent, n.left, n.right, n.height)
  }

  /** The fields of a set of nodes. */
  ghost function Heap(ns: set<Node>): (m: map<Node, Cell>)
    reads ns
    ensures m.Keys == ns
  {
    map n | n in ns :: At(n)
  }

  /** The nodes of `s` are linked as `s` says, below `parent`. */
  ghost predicate Linked(s: Shape, parent: Node?, m: map<Node, Cell>) {
    s.Fork? ==>
      && s.node in m && m[s.node] == Cell(parent, Top(s.left), Top(s.right), s.height)
      && Linked(s.left, s.node, m) && Linked(s.right, s.node, m)
  }

  /** The nodes of a path are linked as it says, below `base` and down to the hole. */
  ghost predicate Threaded(p: Path, base: Node?, hole: Node?, m: map<Node, Cell>) {
    match p
    case Root => true
    case LeftOf(up, n, h, r) =>
      && n in m && m[n] == Cell(Holder(up, base), hole, Top(r), h)
      && Linked(r, n, m) && Threaded(up, base, n, m)
    case RightOf(up, l, n, h) =>
      && n in m && m[n] == Cell(Holder(up, base), Top(l), hole, h)
      && Linked(l, n, m) && Threaded(up, base, n, m)
  }

  ghost predicate Agree(m: map<Node, Cell>, m': map<Node, Cell>, ns: set<Node>) {
    forall n | n in ns && n in m :: n in m' && m'[n] == m[n]
  }

  /** A subtree none of whose nodes changed. */
  lemma {:induction false} Kept(s: Shape, parent: Node?, m: map<Node, Cell>, m': map<Node, Cell>)
    requires Linked(s, parent, m) && Agree(m, m', Nodes(s))
    ensures Linked(s, parent, m')
  {
    if s.Fork? {
      Kept(s.left, s.node, m, m');
      Kept(s.right, s.node, m, m');
    }
  }

  /** A subtree of which only the parent link of the top changed. */
  lemma Moved(s: Shape, was: Node?, parent: Node?, m: map<Node, Cell>, m': map<Node, Cell>)
    requires Linked(s, was, m) && Distinct(s) && Agree(m, m', Nodes(s) - {Top(s)})
    requires s.Fork? ==> s.node in m' && m'[s.node] == m[s.node].(parent := parent)
    ensures Linked(s, parent, m')
  {
    if s.Fork? {
      assert Nodes(s.left) + Nodes(s.right) == Nodes(s) - {s.node};
      Kept(s.left, s.node, m, m');
      Kept(s.right, s.node, m, m');
    }
  }

  lemma {:induction false} PathKept(p: Path, base: Node?, hole: Node?, m: map<Node, Cell>, m': map<Node, Cell>)
    requires Threaded(p, base, hole, m) && Agree(m, m', PathNodes(p))
    ensures Threaded(p, base, hole, m')
  {
    match p
    case Root =>
    case LeftOf(up, n, _, r) =>
      Kept(r, n, m, m');
      PathKept(up, base, n, m, m');
    case RightOf(up, l, n, _) =>
      Kept(l, n, m, m');
      PathKept(up, base, n, m, m');
  }

  /** A path of which only the link to the hole changed. */
  lemma Refilled(p: Path, base: Node?, was: Node?, hole: Node?, m: map<Node, Cell>, m': map<Node, Cell>)
    requires Threaded(p, base, was, m)
    requires p.LeftOf? ==> p.node in m' && m'[p.node] == m[p.node].(left := hole)
    requires p.LeftOf? ==> Agree(m, m', Nodes(p.right)) && Agree(m, m', PathNodes(p.up))
    requires p.RightOf? ==> p.node in m' && m'[p.node] == m[p.node].(right := hole)
    requires p.RightOf? ==> Agree(m, m', Nodes(p.left)) && Agree(m, m', PathNodes(p.up))
    ensures Threaded(p, base, hole, m')
  {
    match p
    case Root =>
    case LeftOf(up, n, _, r) =>
      Kept(r, n, m, m');
      PathKept(up, base, n, m, m');
    case RightOf(up, l, n, _) =>
      Kept(l, n, m, m');
      PathKept(up, base, n, m, m');
  }

  /** Cutting a subtree out of a linked tree, and putting it back. */
  lemma {:induction false} LinkedPlug(p: Path, s: Shape, m: map<Node, Cell>)
    ensures Linked(Plug(p, s), null, m) <==> Linked(s, Holder(p, null), m) && Threaded(p, null, Top(s), m)
    ensures Top(Plug(p, s)) == First(p, Top(s))
    decreases p
  {
    match p
    case Root =>
    case LeftOf(up, n, h, r) => LinkedPlug(up, Fork(s, n, h, r), m);
    case RightOf(up, l, n, h) => LinkedPlug(up, Fork(l, n, h, s), m);
  }

  /** `inner` continued upward by `outer`. */
  function Compose(outer: Path, inner: Path): (r: Path)
    ensures PathNodes(r) == PathNodes(outer) + PathNodes(inner)
  {
    match inner
    case Root => outer
    case LeftOf(up, n, h, r) => LeftOf(Compose(outer, up), n, h, r)
    case RightOf(up, l, n, h) => RightOf(Compose(outer, up), l, n, h)
  }

  lemma {:induction false} ComposeParts(outer: Path, inner: Path)
    ensures PathDistinct(outer) && PathDistinct(inner) && PathNodes(outer) !! PathNodes(inner) ==> PathDistinct(Compose(outer, inner))
    ensures Before(Compose(outer, inner)) == Before(outer) + Before(inner)
    ensures After(Compose(outer, inner)) == After(inner) + After(outer)
    decreases inner
  {
    match inner
    case Root =>
    case LeftOf(up, n, h, r) =>
      ComposeParts(outer, up);
      assert [n] + Order(r) + (After(up) + After(outer)) == ([n] + Order(r) + After(up)) + After(outer);
    case RightOf(up, l, n, h) =>
      ComposeParts(outer, up);
      assert (Before(outer) + Before(up)) + Order(l) + [n] == Before(outer) + (Before(up) + Order(l) + [n]);
  }

  lemma {:induction false} ThreadedCompose(outer: Path, inner: Path, hole: Node?, m: map<Node, Cell>)
    ensures Threaded(Compose(outer, inner), null, hole, m) <==>
            Threaded(inner, Holder(outer, null), hole, m) && Threaded(outer, null, First(inner, hole), m)
    ensures First(Compose(outer, inner), hole) == First(outer, First(inner, hole))
    ensures Holder(Compose(outer, inner), null) == Holder(inner, Holder(outer, null))
    decreases inner
  {
    match inner
    case Root =>
    case LeftOf(up, n, h, r) => ThreadedCompose(outer, up, n, m);
    case RightOf(up, l, n, h) => ThreadedCompose(outer, up, n, m);
  }

  /** The path to a node of a tree, and the subtree there. */
  function CutAt(p: Path, s: Shape, n: Node): (r: (Path, Shape))
    requires n in Nodes(s)
    ensures r.1.Fork? && r.1.node == n
    decreases s
  {
    if s.node == n then (p, s)
    else if n in Nodes(s.left) then CutAt(LeftOf(p, s.node, s.height, s.right), s.left, n)
    else CutAt(RightOf(p, s.left, s.node, s.height), s.right, n)
  }

  lemma {:induction false} CutPlugs(p: Path, s: Shape, n: Node)
    requires n in Nodes(s) && Apart(p, s)
    ensures var (q, t) := CutAt(p, s, n); Plug(q, t) == Plug(p, s) && Apart(q, t)
    decreases s
  {
    if s.node == n {
    } else if n in Nodes(s.left) {
      CutPlugs(LeftOf(p, s.node, s.height, s.right), s.left, n);
    } else {
      CutPlugs(RightOf(p, s.left, s.node, s.height), s.right, n);
    }
  }

  lemma {:induction false} OrderHas(s: Shape, n: Node)
    ensures n in Order(s) <==> n in Nodes(s)
  {
    if s.Fork? {
      OrderHas(s.left, n);
      OrderHas(s.right, n);
    }
  }

  /** In a tree without sharing the in-order sequence has every node once. */
  lemma {:induction false} OrderOnce(s: Shape, i: nat, j: nat)
    requires Distinct(s) && i < j < |Order(s)|
    ensures Order(s)[i] != Order(s)[j]
  {
    var l, r := Order(s.left), Order(s.right);
    var x, y := Order(s)[i], Order(s)[j];
    OrderHas(s.left, x);
    OrderHas(s.right, y);
    if j < |l| {
      OrderOnce(s.left, i, j);
    } else if i > |l| {
      OrderOnce(s.right, i - |l| - 1, j - |l| - 1);
    } else if i < |l| && j > |l| {
      assert x == l[i] && y == r[j - |l| - 1];
    }
  }

  // ---------- rebalancing, as a function of the shape ----------

  /** reset_node_height, in 32 bits. */
  function Reset(l: U32, r: U32): U32 {
    (1 + if l < r then r else l) % POW32
  }

  function RotateLeftShape(s: Shape): (r: Shape)
    requires s.Fork? && s.right.Fork?
  {
    var Fork(a, n, h, Fork(b, m, k, c)) := s;
    Fork(Fork(a, n, h, b), m, k, c)
  }

  function RotateRightShape(s: Shape): (r: Shape)
    requires s.Fork? && s.left.Fork?
  {
    var Fork(Fork(a, m, k, b), n, h, c) := s;
    Fork(a, m, k, Fork(b, n, h, c))
  }

  /** The right child, turned the other way first when its inner side is the higher one. */
  function Straight(s: Shape): (r: Shape)
    requires s.Fork?
    ensures r.Fork?
  {
    if Height(s.left) > Height(s.right) then
      var t := RotateRightShape(s);
      t.(height := Reset(Height(t.left), Height(t.right)))
    else s
  }

  function StraightLeft(s: Shape): (r: Shape)
    requires s.Fork?
    ensures r.Fork?
  {
    if Height(s.left) < Height(s.right) then
      var t := RotateLeftShape(s);
      t.(height := Reset(Height(t.left), Height(t.right)))
    else s
  }

  /** A rotation, after which the node pushed down has its height set again. */
  function TurnedLeft(s: Shape): (r: Shape)
    requires s.Fork? && s.right.Fork?
    ensures r.Fork?
  {
    var t := RotateLeftShape(s);
    t.(left := t.left.(height := Reset(Height(t.left.left), Height(t.left.right))))
  }

  function TurnedRight(s: Shape): (r: Shape)
    requires s.Fork? && s.left.Fork?
    ensures r.Fork?
  {
    var t := RotateRightShape(s);
    t.(right := t.right.(height := Reset(Height(t.right.left), Height(t.right.right))))
  }

  /** One round of the climb at a node; only the node that was on top gets its height set again. */
  function Rebalance(s: Shape): (r: Shape)
    requires s.Fork?
    ensures r.Fork?
  {
    if Height(s.right) - Height(s.left) > 1 then
      TurnedLeft(s.(right := Straight(s.right)))
    else if Height(s.right) - Height(s.left) < -1 then
      TurnedRight(s.(left := StraightLeft(s.left)))
    else s.(height := Reset(Height(s.left), Height(s.right)))
  }

  /** The subtree of the node above the hole. */
  function Raise(p: Path, s: Shape): (r: Shape)
    requires !p.Root?
    ensures r.Fork? && r.node == p.node
  {
    if p.LeftOf? then Fork(s, p.node, p.height, p.right) else Fork(p.left, p.node, p.height, s)
  }

  lemma RaiseHolds(p: Path, s: Shape, m: map<Node, Cell>)
    requires !p.Root? && Apart(p, s) && Linked(s, Holder(p, null), m) && Threaded(p, null, Top(s), m)
    ensures var u := Raise(p, s);
            && Apart(p.up, u) && Linked(u, Holder(p.up, null), m) && Threaded(p.up, null, u.node, m)
            && PathNodes(p.up) + Nodes(u) == PathNodes(p) + Nodes(s) && First(p.up, u.node) == First(p, Top(s))
            && m[u.node] == Cell(Holder(p.up, null), Top(u.left), Top(u.right), u.height)
  {
  }

  function GoLeft(p: Path, s: Shape): Path
    requires s.Fork?
  {
    LeftOf(p, s.node, s.height, s.right)
  }

  function GoRight(p: Path, s: Shape): Path
    requires s.Fork?
  {
    RightOf(p, s.left, s.node, s.height)
  }

  ghost predicate Seen(p: Path, s: Shape, root: Node?, m: map<Node, Cell>) {
    Apart(p, s) && Linked(s, Holder(p, null), m) && Threaded(p, null, Top(s), m) && root == First(p, Top(s))
  }

  lemma LowerSeen(p: Path, s: Shape, root: Node?, m: map<Node, Cell>)
    requires s.Fork? && Seen(p, s, root, m)
    ensures Seen(GoLeft(p, s), s.left, root, m) && PathNodes(GoLeft(p, s)) + Nodes(s.left) == PathNodes(p) + Nodes(s)
    ensures Seen(GoRight(p, s), s.right, root, m) && PathNodes(GoRight(p, s)) + Nodes(s.right) == PathNodes(p) + Nodes(s)
    ensures s.node in m && m[s.node] == Cell(Holder(p, null), Top(s.left), Top(s.right), s.height)
  {
  }

  /** The whole climb, from the node above the hole to the root. */
  function Climb(p: Path, s: Shape): (r: Shape)
    decreases p
  {
    match p
    case Root => s
    case LeftOf(up, n, h, r) => Climb(up, Rebalance(Fork(s, n, h, r)))
    case RightOf(up, l, n, h) => Climb(up, Rebalance(Fork(l, n, h, s)))
  }

  /** The heap after rotate_left: three nodes have new links. */
  lemma RotatedLeft(s: Shape, parent: Node?, m: map<Node, Cell>, m': map<Node, Cell>)
    requires s.Fork? && s.right.Fork? && Distinct(s) && Linked(s, parent, m)
    requires var Fork(_, n, _, Fork(b, t, _, _)) := s;
             && n in m' && m'[n] == m[n].(right := Top(b), parent := t)
             && t in m && t in m' && m'[t] == m[t].(left := n, parent := parent)
             && (b.Fork? ==> b.node in m && b.node in m' && m'[b.node] == m[b.node].(parent := n))
             && Agree(m, m', Nodes(s) - {n, t, Top(b)})
    ensures Linked(RotateLeftShape(s), parent, m')
  {
    var Fork(a, n, _, r) := s;
    var Fork(b, t, _, c) := r;
    assert Linked(r, n, m) && Distinct(r) && Nodes(r) == Nodes(b) + {t} + Nodes(c);
    assert Linked(b, t, m) && Distinct(b);
    Kept(a, n, m, m');
    Kept(c, t, m, m');
    Moved(b, t, n, m, m');
  }

  lemma RotatedRight(s: Shape, parent: Node?, m: map<Node, Cell>, m': map<Node, Cell>)
    requires s.Fork? && s.left.Fork? && Distinct(s) && Linked(s, parent, m)
    requires var Fork(Fork(_, t, _, b), n, _, _) := s;
             && n in m' && m'[n] == m[n].(left := Top(b), parent := t)
             && t in m && t in m' && m'[t] == m[t].(right := n, parent := parent)
             && (b.Fork? ==> b.node in m && b.node in m' && m'[b.node] == m[b.node].(parent := n))
             && Agree(m, m', Nodes(s) - {n, t, Top(b)})
    ensures Linked(RotateRightShape(s), parent, m')
  {
    var Fork(l, n, _, c) := s;
    var Fork(a, t, _, b) := l;
    assert Linked(l, n, m) && Distinct(l) && Nodes(l) == Nodes(a) + {t} + Nodes(b);
    assert Linked(b, t, m) && Distinct(b);
    Kept(a, t, m, m');
    Kept(c, n, m, m');
    Moved(b, t, n, m, m');
  }

  /** The same nodes in the same order. */
  ghost predicate Same(t: Shape, s: Shape) {
    Order(t) == Order(s) && Nodes(t) == Nodes(s) && (Distinct(s) ==> Distinct(t))
  }

  lemma SameTurn(a: Shape, n: Node, h: U32, b: Shape, m: Node, k: U32, c: Shape, h': U32, k': U32)
    ensures Same(Fork(Fork(a, n, h, b), m, k, c), Fork(a, n, h', Fork(b, m, k', c)))
    ensures Same(Fork(a, n, h', Fork(b, m, k', c)), Fork(Fork(a, n, h, b), m, k, c))
  {
    TurnOrder(Order(a), [n], Order(b), [m], Order(c));
    var t, s := Fork(Fork(a, n, h, b), m, k, c), Fork(a, n, h', Fork(b, m, k', c));
    assert Nodes(t) == Nodes(s);
    assert Distinct(t) <==> Distinct(s);
  }

  lemma TurnOrder<T>(a: seq<T>, n: seq<T>, b: seq<T>, m: seq<T>, c: seq<T>)
    ensures (a + n + b) + m + c == a + n + (b + m + c)
  {
  }

  lemma SameParts(l: Shape, l': Shape, n: Node, h: U32, h': U32, r: Shape, r': Shape)
    requires Same(l', l) && Same(r', r)
    ensures Same(Fork(l', n, h', r'), Fork(l, n, h, r))
  {
  }

  lemma SameChain(a: Shape, b: Shape, c: Shape)
    requires Same(a, b) && Same(b, c)
    ensures Same(a, c)
  {
  }

  lemma SameSelf(a: Shape)
    ensures Same(a, a)
  {
  }

  lemma TurnedLeftSame(s: Shape)
    requires s.Fork? && s.right.Fork?
    ensures Same(TurnedLeft(s), s) && Same(RotateLeftShape(s), s)
  {
    hide Same;
    var r := s.right;
    SameTurn(s.left, s.node, TurnedLeft(s).left.height, r.left, r.node, r.height, r.right, s.height, r.height);
    SameTurn(s.left, s.node, s.height, r.left, r.node, r.height, r.right, s.height, r.height);
  }

  lemma TurnedRightSame(s: Shape)
    requires s.Fork? && s.left.Fork?
    ensures Same(TurnedRight(s), s) && Same(RotateRightShape(s), s)
  {
    hide Same;
    var l := s.left;
    SameTurn(l.left, l.node, l.height, l.right, s.node, s.height, s.right, l.height, TurnedRight(s).right.height);
    SameTurn(l.left, l.node, l.height, l.right, s.node, s.height, s.right, l.height, s.height);
  }

  /** What node_height reads at the children of a node. */
  lemma ChildHeights(s: Shape, parent: Node?, m: map<Node, Cell>)
    requires s.Fork? && Linked(s, parent, m)
    ensures s.left.Fork? ==> s.left.node in m && m[s.left.node].height == Height(s.left)
    ensures s.right.Fork? ==> s.right.node in m && m[s.right.node].height == Height(s.right)
  {
  }

  lemma HeightSame(s: Shape, h: U32)
    requires s.Fork?
    ensures Same(s.(height := h), s)
  {
  }

  lemma TopParent(s: Shape, parent: Node?, m: map<Node, Cell>)
    requires s.Fork? && Linked(s, parent, m)
    ensures s.node in m && m[s.node] == Cell(parent, Top(s.left), Top(s.right), s.height)
  {
  }

  lemma RightChildren(s: Shape, parent: Node?, m: map<Node, Cell>)
    requires s.Fork? && s.right.Fork? && Linked(s, parent, m)
    ensures Linked(s.right, s.node, m) && Linked(s.right.left, s.right.node, m) && Linked(s.right.right, s.right.node, m)
  {
  }

  lemma LeftChildren(s: Shape, parent: Node?, m: map<Node, Cell>)
    requires s.Fork? && s.left.Fork? && Linked(s, parent, m)
    ensures Linked(s.left, s.node, m) && Linked(s.left.left, s.left.node, m) && Linked(s.left.right, s.left.node, m)
  {
  }

  lemma StraightSame(s: Shape)
    requires s.Fork?
    ensures Same(Straight(s), s) && Same(StraightLeft(s), s)
  {
    hide Same;
    SameSelf(s);
    if Height(s.left) > Height(s.right) {
      var l := s.left;
      var t := Straight(s);
      SameTurn(l.left, l.node, l.height, l.right, s.node, s.height, s.right, t.height, s.height);
    }
    if Height(s.left) < Height(s.right) {
      var r := s.right;
      var t := StraightLeft(s);
      SameTurn(s.left, s.node, s.height, r.left, r.node, t.height, r.right, s.height, r.height);
    }
  }

  /** Whatever the stored heights are, a round keeps the order and the nodes. */
  lemma RebalanceSame(s: Shape)
    requires s.Fork?
    ensures Same(Rebalance(s), s)
  {
    hide Same, Straight, StraightLeft;
    SameSelf(s.left);
    SameSelf(s.right);
    if Height(s.right) - Height(s.left) > 1 {
      StraightSame(s.right);
      var r := Straight(s.right);
      var u := Fork(s.left, s.node, s.height, r);
      SameParts(s.left, s.left, s.node, s.height, s.height, s.right, r);
      SameTurn(s.left, s.node, Rebalance(s).left.height, r.left, r.node, r.height, r.right, s.height, r.height);
      SameChain(Rebalance(s), u, s);
    } else if Height(s.right) - Height(s.left) < -1 {
      StraightSame(s.left);
      var l := StraightLeft(s.left);
      var u := Fork(l, s.node, s.height, s.right);
      SameParts(s.left, l, s.node, s.height, s.height, s.right, s.right);
      SameTurn(l.left, l.node, l.height, l.right, s.node, s.height, s.right, l.height, Rebalance(s).right.height);
      SameChain(Rebalance(s), u, s);
    } else {
      SameParts(s.left, s.left, s.node, s.height, Rebalance(s).height, s.right, s.right);
    }
  }

  /** Whatever the stored heights are, the climb keeps the order and the nodes. */
  lemma {:induction false} ClimbKeeps(p: Path, s: Shape)
    ensures Order(Climb(p, s)) == Before(p) + Order(s) + After(p)
    ensures Nodes(Climb(p, s)) == PathNodes(p) + Nodes(s)
    ensures Apart(p, s) ==> Distinct(Climb(p, s))
    decreases p
  {
    hide Rebalance;
    match p
    case Root =>
      assert [] + Order(s) + [] == Order(s);
    case LeftOf(up, n, h, r) =>
      var t := Fork(s, n, h, r);
      RebalanceSame(t);
      ClimbKeeps(up, Rebalance(t));
      Bracket(Before(up), Order(s), [n], Order(r), After(up));
    case RightOf(up, l, n, h) =>
      var t := Fork(l, n, h, s);
      RebalanceSame(t);
      ClimbKeeps(up, Rebalance(t));
      Bracket(Before(up), Order(l), [n], Order(s), After(up));
  }

  // ---------- finding a place ----------

  /** Where a comparator leads: the empty place reached, or nothing when it says equal on the way. */
  function Spot(p: Path, s: Shape, node: Node, cmp: (Node, Node) -> int): (r: Option<Path>)
    decreases s
  {
    if s.Leaf? then Some(p)
    else
      var c := cmp(node, s.node);
      if c == 0 then None
      else if c < 0 then Spot(LeftOf(p, s.node, s.height, s.right), s.left, node, cmp)
      else Spot(RightOf(p, s.left, s.node, s.height), s.right, node, cmp)
  }

  lemma {:induction false} SpotFits(p: Path, s: Shape, node: Node, cmp: (Node, Node) -> int)
    requires Spot(p, s, node, cmp).Some?
    ensures var q := Spot(p, s, node, cmp).value;
            Before(q) + After(q) == Before(p) + Order(s) + After(p) && Plug(q, Leaf) == Plug(p, s)
    decreases s
  {
    if s.Leaf? {
      assert Before(p) + [] + After(p) == Before(p) + After(p);
    } else if cmp(node, s.node) < 0 {
      SpotFits(LeftOf(p, s.node, s.height, s.right), s.left, node, cmp);
      Bracket(Before(p), Order(s.left), [s.node], Order(s.right), After(p));
    } else {
      SpotFits(RightOf(p, s.left, s.node, s.height), s.right, node, cmp);
      Bracket(Before(p), Order(s.left), [s.node], Order(s.right), After(p));
    }
  }

  /** In a sequence where the comparator's answers fall (greater, then equal, then less), the descent
      is stopped exactly when there is an equal node anywhere, and else ends between the two sides. */
  lemma {:induction false} SpotSorted(p: Path, s: Shape, node: Node, cmp: (Node, Node) -> int, lo: nat, hi: nat)
    requires lo <= hi <= |Order(s)|
    requires forall k | 0 <= k < lo :: cmp(node, Order(s)[k]) > 0
    requires forall k | lo <= k < hi :: cmp(node, Order(s)[k]) == 0
    requires forall k | hi <= k < |Order(s)| :: cmp(node, Order(s)[k]) < 0
    ensures Spot(p, s, node, cmp).None? <==> lo < hi
    ensures lo == hi ==> |Before(Spot(p, s, node, cmp).value)| == |Before(p)| + lo
    decreases s
  {
    if s.Fork? {
      var l, r, o := Order(s.left), Order(s.right), Order(s);
      assert o[|l|] == s.node;
      assert forall k | 0 <= k < |l| :: l[k] == o[k];
      assert forall k | 0 <= k < |r| :: r[k] == o[|l| + 1 + k];
      if cmp(node, s.node) < 0 {
        SpotSorted(LeftOf(p, s.node, s.height, s.right), s.left, node, cmp, lo, hi);
      } else if cmp(node, s.node) > 0 {
        SpotSorted(RightOf(p, s.left, s.node, s.height), s.right, node, cmp, lo - |l| - 1, hi - |l| - 1);
      }
    }
  }

  lemma NewNode(n: Node, parent: Node?, m: map<Node, Cell>)
    requires n in m && m[n] == Cell(parent, null, null, 1)
    ensures Linked(Fork(Leaf, n, 1, Leaf), parent, m)
  {
  }

  lemma ViewedFromRoot(s: Shape, root: Node?, m: map<Node, Cell>)
    requires Distinct(s) && Linked(s, null, m) && root == Top(s)
    ensures Seen(Root, s, root, m) && PathNodes(Root) + Nodes(s) == Nodes(s)
  {
  }

  lemma NothingAround()
    ensures Before(Root) == [] && After(Root) == []
  {
  }

  lemma PlacedAt(p: Path, o: seq<Node>, n: Node)
    requires Before(p) + After(p) == [] + o + []
    ensures var i, t := |Before(p)|, Climb(p, Fork(Leaf, n, 1, Leaf));
            i <= |o| && Order(t) == o[..i] + [n] + o[i..] && Nodes(t) == PathNodes(p) + {n}
  {
    hide Climb;
    var leaf := Fork(Leaf, n, 1, Leaf);
    ClimbKeeps(p, leaf);
    assert Order(leaf) == [n] && Nodes(leaf) == {n};
    assert o == Before(p) + After(p);
  }

  // ---------- the next node ----------

  /** What follows the hole in the sequence. */
  function Following(p: Path): (r: Node?) {
    if After(p) == [] then null else After(p)[0]
  }

  /** Where avlnode_successor stops on its way up: at the first node that has a left child. */
  function FirstWithLeft(p: Path, hole: Shape): (r: Node?)
    decreases p
  {
    match p
    case Root => null
    case LeftOf(up, n, h, r) => if hole.Fork? then n else FirstWithLeft(up, Fork(hole, n, h, r))
    case RightOf(up, l, n, h) => if l.Fork? then n else FirstWithLeft(up, Fork(l, n, h, hole))
  }

  /** No node of which the hole is the rightmost end has a left child. */
  predicate Clear(p: Path) {
    p.RightOf? ==> p.left.Leaf? && Clear(p.up)
  }

  lemma {:induction false} AfterIn(p: Path, n: Node)
    requires n in After(p)
    ensures n in PathNodes(p)
  {
    match p
    case Root =>
    case LeftOf(up, m, _, r) =>
      OrderHas(r, n);
      if n in After(up) {
        AfterIn(up, n);
      }
    case RightOf(up, _, _, _) => AfterIn(up, n);
  }

  /** From a node without a right child, avlnode_successor finds the next node exactly when the nodes it
      has to climb over from the right have no left child. */
  lemma {:induction false} ClimbsToNext(p: Path, s: Shape)
    requires PathDistinct(p) && s.Fork?
    ensures FirstWithLeft(p, s) == Following(p) <==> Clear(p)
    decreases p
  {
    match p
    case Root =>
    case LeftOf(up, n, h, r) =>
      assert After(p)[0] == n;
    case RightOf(up, l, n, h) =>
      if l.Leaf? {
        ClimbsToNext(up, Fork(l, n, h, s));
      } else if After(up) != [] && After(up)[0] == n {
        AfterIn(up, n);
      }
  }

  lemma ClimbsUp(p: Path, s: Shape)
    requires Apart(p, s) && s.Fork?
    ensures FirstWithLeft(p, s) == Following(p) <==> Clear(p)
  {
    ClimbsToNext(p, s);
  }

  lemma FirstStep(p: Path, s: Shape)
    requires s.Fork?
    ensures p.Root? ==> FirstWithLeft(p, s) == null
    ensures !p.Root? ==> FirstWithLeft(p, s) == if Raise(p, s).left.Fork? then p.node else FirstWithLeft(p.up, Raise(p, s))
  {
  }

  lemma FirstOfOrder(p: Path, s: Shape)
    requires s.Fork? && s.right.Fork?
    ensures Order(s.right) != [] && |Order(s.left)| + 1 < |Order(s)| + |After(p)|
    ensures (Order(s) + After(p))[|Order(s.left)| + 1] == Order(s.right)[0]
  {
    assert Order(s) == Order(s.left) + [s.node] + Order(s.right) && Order(s.right) != [];
    hide Order, After;
    BehindMiddle(Order(s.left), s.node, Order(s.right), After(p));
  }

  lemma BehindMiddle<T>(l: seq<T>, n: T, r: seq<T>, a: seq<T>)
    requires r != []
    ensures ((l + [n] + r) + a)[|l| + 1] == r[0]
  {
  }

  lemma LeftFirst(s: Shape)
    requires s.Fork? && s.left.Fork?
    ensures Order(s.left) != [] && Order(s)[0] == Order(s.left)[0]
  {
  }

  lemma OrderLeaf(s: Shape)
    requires s.Fork? && s.left.Leaf?
    ensures Order(s) != [] && Order(s)[0] == s.node
  {
  }

  // ---------- deletion ----------

  /** The leftmost node of a tree, with the path to it. */
  function Leftmost(p: Path, s: Shape): (r: (Path, Shape))
    requires s.Fork?
    ensures r.1.Fork? && r.1.left.Leaf?
    decreases s
  {
    if s.left.Leaf? then (p, s) else Leftmost(GoLeft(p, s), s.left)
  }

  lemma {:induction false} LeftmostOrder(p: Path, s: Shape)
    requires s.Fork?
    ensures var (q, u) := Leftmost(p, s);
            Before(q) == Before(p) && [u.node] + Order(u.right) + After(q) == Order(s) + After(p)
    decreases s
  {
    if s.left.Leaf? {
      assert Order(s) == [s.node] + Order(s.right);
    } else {
      LeftmostOrder(LeftOf(p, s.node, s.height, s.right), s.left);
      assert Order(s.left) + ([s.node] + Order(s.right) + After(p)) == Order(s.left) + [s.node] + Order(s.right) + After(p);
    }
  }

  lemma {:induction false} LeftmostFirst(p: Path, s: Shape)
    requires s.Fork?
    ensures First(Leftmost(p, s).0, Leftmost(p, s).1.node) == First(p, s.node)
    decreases s
  {
    if s.left.Fork? {
      LeftmostFirst(GoLeft(p, s), s.left);
    }
  }

  lemma {:induction false} LeftmostCompose(p: Path, q: Path, s: Shape)
    requires s.Fork?
    ensures Leftmost(Compose(p, q), s) == (Compose(p, Leftmost(q, s).0), Leftmost(q, s).1)
    decreases s
  {
    if s.left.Fork? {
      LeftmostCompose(p, LeftOf(q, s.node, s.height, s.right), s.left);
    }
  }

  /** The place from which the climb starts after avltree_delete_node, and the subtree put there: the
      place of the node itself, or, when it has two children, that of its successor, which has moved
      into the place of the node. */
  function Vacated(p: Path, s: Shape): (r: (Path, Shape))
    requires s.Fork?
  {
    if s.left.Leaf? then (p, s.right)
    else if s.right.Leaf? then (p, s.left)
    else
      var successor := Leftmost(Root, s.right).1.node;
      var (q, u) := Leftmost(RightOf(p, s.left, successor, s.height), s.right);
      (q, u.right)
  }

  /** What is left is the old sequence without the node. */
  lemma VacatedOrder(p: Path, s: Shape)
    requires s.Fork?
    ensures var (q, t) := Vacated(p, s);
            Before(q) + Order(t) + After(q) == Before(p) + Order(s.left) + Order(s.right) + After(p)
  {
    if s.left.Fork? && s.right.Fork? {
      var successor := Leftmost(Root, s.right).1.node;
      var outer := RightOf(p, s.left, successor, s.height);
      LeftmostCompose(outer, Root, s.right);
      LeftmostOrder(outer, s.right);
      var (q, u) := Leftmost(outer, s.right);
      Step4(Before(p) + Order(s.left), [successor], Order(u.right), After(q), Order(s.right), After(p));
    } else {
      assert Before(p) + [] == Before(p);
      assert Before(p) + Order(s.left) + [] == Before(p) + Order(s.left);
    }
  }

  lemma Step4<T>(a: seq<T>, n: seq<T>, b: seq<T>, c: seq<T>, d: seq<T>, e: seq<T>)
    requires n + b + c == d + e
    ensures a + n + b + c == a + d + e
  {
    assert a + n + b + c == a + (n + b + c);
    assert a + (d + e) == a + d + e;
  }

  /** A hole and its filling, below the node `base`. */
  ghost predicate Hangs(q: Path, t: Shape, base: Node?, m: map<Node, Cell>) {
    Apart(q, t) && Linked(t, Holder(q, base), m) && Threaded(q, base, Top(t), m)
  }

  lemma LowerHangs(q: Path, t: Shape, base: Node?, m: map<Node, Cell>)
    requires t.Fork? && Hangs(q, t, base, m)
    ensures Hangs(GoLeft(q, t), t.left, base, m) && PathNodes(GoLeft(q, t)) + Nodes(t.left) == PathNodes(q) + Nodes(t)
    ensures t.node in m && m[t.node] == Cell(Holder(q, base), Top(t.left), Top(t.right), t.height)
  {
  }

  lemma LinkFork(l: Shape, n: Node, h: U32, r: Shape, parent: Node?, m: map<Node, Cell>)
    requires n in m && m[n] == Cell(parent, Top(l), Top(r), h) && Linked(l, n, m) && Linked(r, n, m)
    ensures Linked(Fork(l, n, h, r), parent, m)
  {
  }

  lemma ThreadRight(up: Path, l: Shape, n: Node, h: U32, hole: Node?, m: map<Node, Cell>)
    requires n in m && m[n] == Cell(Holder(up, null), Top(l), hole, h) && Linked(l, n, m) && Threaded(up, null, n, m)
    ensures Threaded(RightOf(up, l, n, h), null, hole, m)
  {
  }

  lemma ThreadLeft(up: Path, n: Node, h: U32, r: Shape, hole: Node?, m: map<Node, Cell>)
    requires n in m && m[n] == Cell(Holder(up, null), hole, Top(r), h) && Linked(r, n, m) && Threaded(up, null, n, m)
    ensures Threaded(LeftOf(up, n, h, r), null, hole, m)
  {
  }

  lemma ForkLinks(s: Shape, parent: Node?, m: map<Node, Cell>)
    requires s.Fork? && Linked(s, parent, m)
    ensures Linked(s.left, s.node, m) && Linked(s.right, s.node, m)
  {
  }

  lemma NoLinks(n: Node, m: map<Node, Cell>)
    ensures Linked(Leaf, n, m)
  {
  }

  /** The nodes taking part in the swap are different ones. */
  lemma NearParts(p: Path, s: Shape)
    requires s.Fork? && s.left.Fork? && s.right.Fork? && s.right.left.Leaf? && Apart(p, s)
    ensures s.node != s.right.node && s.node != s.left.node && s.right.node != s.left.node
    ensures Top(s.right.right) != s.node && Top(s.right.right) != s.right.node && Top(s.right.right) != s.left.node
    ensures Holder(p, null) != s.node && Holder(p, null) != s.right.node && Holder(p, null) != s.left.node
    ensures Holder(p, null) == null || Holder(p, null) != Top(s.right.right)
    ensures s.node in Nodes(s) && s.left.node in Nodes(s) && s.right.node in Nodes(s)
    ensures s.right.right.Fork? ==> s.right.right.node in Nodes(s)
    ensures !p.Root? ==> p.node in PathNodes(p)
  {
    var u := s.right;
    assert s.left.node in Nodes(s.left) && u.node in Nodes(u) && Distinct(u);
    if u.right.Fork? {
      assert u.right.node in Nodes(u.right);
      assert u.right.node in Nodes(u);
    }
  }

  /** The swap of a node with a successor that is its right child. */
  lemma SwappedNear(p: Path, s: Shape, root: Node?, m: map<Node, Cell>, m': map<Node, Cell>)
    requires s.Fork? && s.left.Fork? && s.right.Fork? && s.right.left.Leaf? && Seen(p, s, root, m)
    requires Relinked(p, s, s.right, m, m') && var u := s.right;
             && m'[u.node] == Cell(Holder(p, null), Top(s.left), s.node, s.height)
             && m'[s.node] == Cell(u.node, null, Top(u.right), u.height)
             && Agree(m, m', PathNodes(p) + Nodes(s) - Touched(p, s, u))
    ensures var u := s.right; var q, t := RightOf(p, s.left, u.node, s.height), Fork(Leaf, s.node, u.height, u.right);
            Seen(q, t, First(p, u.node), m') && PathNodes(q) + Nodes(t) == PathNodes(p) + Nodes(s)
  {
    hide Nodes, PathNodes, PathDistinct, Apart, Linked, Threaded, Distinct;
    var l, u := s.left, s.right;
    ForkLinks(s, Holder(p, null), m);
    ForkLinks(u, s.node, m);
    NearApart(p, s);
    NearSides(p, s, m, m');
    Refilled(p, null, s.node, u.node, m, m');
    Moved(l, s.node, u.node, m, m');
    Moved(u.right, u.node, s.node, m, m');
    NoLinks(s.node, m');
    LinkFork(Leaf, s.node, u.height, u.right, u.node, m');
    ThreadRight(p, l, u.node, s.height, s.node, m');
  }

  lemma NearApart(p: Path, s: Shape)
    requires s.Fork? && s.left.Fork? && s.right.Fork? && s.right.left.Leaf? && Apart(p, s)
    ensures var u := s.right; var q, t := RightOf(p, s.left, u.node, s.height), Fork(Leaf, s.node, u.height, u.right);
            Apart(q, t) && PathNodes(q) + Nodes(t) == PathNodes(p) + Nodes(s)
    ensures Distinct(s.left) && Distinct(s.right.right)
  {
    assert Distinct(s.right);
  }

  lemma NoPath(t: Shape)
    ensures PathNodes(Root) + Nodes(t) == Nodes(t)
  {
  }

  /** The left subtree of the right child, seen from the right child. */
  lemma DeepStart(p: Path, s: Shape, root: Node?, m: map<Node, Cell>)
    requires s.Fork? && s.left.Fork? && s.right.Fork? && s.right.left.Fork? && Seen(p, s, root, m)
    ensures Hangs(Root, s.right.left, s.right.node, m) && Nodes(s.right.left) <= Nodes(s)
    ensures s.node in m && m[s.node] == Cell(Holder(p, null), s.left.node, s.right.node, s.height)
    ensures s.right.node in m && m[s.right.node] == Cell(s.node, s.right.left.node, Top(s.right.right), s.right.height)
  {
    RightChildren(s, Holder(p, null), m);
    assert Distinct(s.right) && Nodes(s.right.left) <= Nodes(s.right);
  }

  /** The nodes taking part in the swap are different ones, except that the right child may be the
      parent of the successor. */
  lemma DeepParts(p: Path, s: Shape, q: Path, u: Shape, root: Node?, m: map<Node, Cell>)
    requires s.Fork? && s.left.Fork? && s.right.Fork? && Seen(p, s, root, m)
    requires u.Fork? && u.left.Leaf? && !q.RightOf? && Hangs(q, u, s.right.node, m) && PathNodes(q) + Nodes(u) == Nodes(s.right.left)
    ensures var n, l, t, c, h := s.node, s.left.node, s.right.node, Top(u.right), Holder(q, s.right.node);
            && n != l && n != t && l != t && u.node != n && u.node != l && u.node != t
            && c != n && c != l && c != t && c != u.node && h != n && h != l && h != u.node && h != c
            && (!p.Root? ==> p.node != n && p.node != l && p.node != t && p.node != c && p.node != u.node && p.node != h)
            && {n, l, t, u.node, h} <= Nodes(s) && (c != null ==> c in Nodes(s)) && (!p.Root? ==> p.node in PathNodes(p))
    ensures u.node in m && m[u.node] == Cell(Holder(q, s.right.node), null, Top(u.right), u.height)
    ensures q.LeftOf? ==> Holder(q, null) != s.right.node
  {
    DeepSets(p, s);
    UnderLeftmost(q, u, Nodes(s.right.left));
    TopParent(u, Holder(q, s.right.node), m);
  }

  lemma DeepLeftmost(p: Path, s: Shape, q: Path, u: Shape)
    requires s.Fork? && s.right.Fork? && s.right.left.Fork? && (q, u) == Leftmost(Root, s.right.left)
    ensures u == Leftmost(Root, s.right).1
    ensures Compose(LeftOf(RightOf(p, s.left, u.node, s.height), s.right.node, s.right.height, s.right.right), q) ==
            Leftmost(RightOf(p, s.left, u.node, s.height), s.right).0
  {
    var r := s.right;
    var inner := RightOf(p, s.left, u.node, s.height);
    LeftmostCompose(LeftOf(inner, r.node, r.height, r.right), Root, r.left);
    LeftmostCompose(LeftOf(Root, r.node, r.height, r.right), Root, r.left);
  }

  /** The swap of a node with a successor further down: `top` is the right child, and the successor
      hangs at `q` in its left subtree. */
  lemma SwappedDeep(p: Path, s: Shape, q: Path, u: Shape, root: Node?, m: map<Node, Cell>, m': map<Node, Cell>)
    requires s.Fork? && s.left.Fork? && s.right.Fork? && Seen(p, s, root, m)
    requires u.Fork? && u.left.Leaf? && Hangs(q, u, s.right.node, m) && PathNodes(q) + Nodes(u) == Nodes(s.right.left)
    requires !q.RightOf? && Relinked(p, s, u, m, m') && var top := s.right.node;
             && m'[u.node] == Cell(Holder(p, null), Top(s.left), top, s.height)
             && m'[s.node] == Cell(Holder(q, top), null, Top(u.right), u.height)
             && top in m'
             && (q.Root? ==> m'[top] == Cell(u.node, s.node, Top(s.right.right), s.right.height))
             && (q.LeftOf? ==>
                   && m'[top] == Cell(u.node, First(q, u.node), Top(s.right.right), s.right.height)
                   && q.node in m && q.node in m' && m'[q.node] == m[q.node].(left := s.node))
             && Agree(m, m', PathNodes(p) + Nodes(s) - Touched(p, s, u) - {top, Holder(q, null)})
    ensures var outer := LeftOf(RightOf(p, s.left, u.node, s.height), s.right.node, s.right.height, s.right.right);
            var q', t := Compose(outer, q), Fork(Leaf, s.node, u.height, u.right);
            Seen(q', t, First(p, u.node), m') && PathNodes(q') + Nodes(t) == PathNodes(p) + Nodes(s)
  {
    hide Nodes, PathNodes, PathDistinct, Apart, Linked, Threaded, Distinct, Compose;
    var l, r := s.left, s.right;
    var inner := RightOf(p, l, u.node, s.height);
    var outer := LeftOf(inner, r.node, r.height, r.right);
    ForkLinks(s, Holder(p, null), m);
    ForkLinks(r, s.node, m);
    ForkLinks(u, Holder(q, r.node), m);
    DeepApart(p, s, q, u);
    DeepSides(p, s, q, u, m, m');
    Refilled(p, null, s.node, u.node, m, m');
    Moved(l, s.node, u.node, m, m');
    Moved(u.right, u.node, s.node, m, m');
    Refilled(q, r.node, u.node, s.node, m, m');
    Kept(r.right, r.node, m, m');
    NoLinks(s.node, m');
    LinkFork(Leaf, s.node, u.height, u.right, Holder(q, r.node), m');
    ThreadRight(p, l, u.node, s.height, r.node, m');
    ThreadLeft(inner, r.node, r.height, r.right, First(q, s.node), m');
    ThreadedCompose(outer, q, s.node, m');
  }

  lemma DeepApart(p: Path, s: Shape, q: Path, u: Shape)
    requires s.Fork? && s.left.Fork? && s.right.Fork? && Apart(p, s)
    requires u.Fork? && u.left.Leaf? && Apart(q, u) && PathNodes(q) + Nodes(u) == Nodes(s.right.left)
    ensures var outer := LeftOf(RightOf(p, s.left, u.node, s.height), s.right.node, s.right.height, s.right.right);
            var q', t := Compose(outer, q), Fork(Leaf, s.node, u.height, u.right);
            Apart(q', t) && PathNodes(q') + Nodes(t) == PathNodes(p) + Nodes(s)
    ensures Distinct(s.left) && Distinct(u.right)
  {
    var l, r := s.left, s.right;
    var outer := LeftOf(RightOf(p, l, u.node, s.height), r.node, r.height, r.right);
    assert Distinct(r) && Nodes(r) == Nodes(r.left) + {r.node} + Nodes(r.right) && u.node in Nodes(r.left);
    assert PathDistinct(RightOf(p, l, u.node, s.height));
    assert PathDistinct(outer);
    ComposeParts(outer, q);
  }

  /** The nodes that a swap of `s.node` with `u.node` writes to, besides those above the successor. */
  ghost function Touched(p: Path, s: Shape, u: Shape): set<Node?>
    requires s.Fork? && u.Fork?
  {
    {s.node, u.node, Top(s.left), Top(u.right), Holder(p, null)}
  }

  /** The links that every swap changes: those to the two places, and the parents of the subtrees moved. */
  ghost predicate Relinked(p: Path, s: Shape, u: Shape, m: map<Node, Cell>, m': map<Node, Cell>) {
    && s.Fork? && s.left.Fork? && u.Fork?
    && u.node in m' && s.node in m'
    && s.left.node in m && s.left.node in m' && m'[s.left.node] == m[s.left.node].(parent := u.node)
    && (u.right.Fork? ==> u.right.node in m && u.right.node in m' && m'[u.right.node] == m[u.right.node].(parent := s.node))
    && (p.LeftOf? ==> p.node in m && p.node in m' && m'[p.node] == m[p.node].(left := u.node))
    && (p.RightOf? ==> p.node in m && p.node in m' && m'[p.node] == m[p.node].(right := u.node))
  }

  ghost predicate SidesKept(p: Path, s: Shape, u: Shape, m: map<Node, Cell>, m': map<Node, Cell>)
    requires s.Fork? && u.Fork?
  {
    && Agree(m, m', Nodes(s.left) - {Top(s.left)}) && Agree(m, m', Nodes(u.right) - {Top(u.right)})
    && (p.LeftOf? ==> Agree(m, m', Nodes(p.right)) && Agree(m, m', PathNodes(p.up)))
    && (p.RightOf? ==> Agree(m, m', Nodes(p.left)) && Agree(m, m', PathNodes(p.up)))
  }

  lemma NearSides(p: Path, s: Shape, m: map<Node, Cell>, m': map<Node, Cell>)
    requires s.Fork? && s.left.Fork? && s.right.Fork? && s.right.left.Leaf? && Apart(p, s)
    requires Agree(m, m', PathNodes(p) + Nodes(s) - Touched(p, s, s.right))
    ensures SidesKept(p, s, s.right, m, m')
  {
    assert Distinct(s.right) && Nodes(s.right) == {s.right.node} + Nodes(s.right.right);
  }

  lemma DeepSides(p: Path, s: Shape, q: Path, u: Shape, m: map<Node, Cell>, m': map<Node, Cell>)
    requires s.Fork? && s.left.Fork? && s.right.Fork? && Apart(p, s) && !q.RightOf?
    requires u.Fork? && u.left.Leaf? && Apart(q, u) && PathNodes(q) + Nodes(u) == Nodes(s.right.left)
    requires Agree(m, m', PathNodes(p) + Nodes(s) - Touched(p, s, u) - {s.right.node, Holder(q, null)})
    ensures SidesKept(p, s, u, m, m') && Agree(m, m', Nodes(s.right.right))
    ensures q.LeftOf? ==> Agree(m, m', Nodes(q.right)) && Agree(m, m', PathNodes(q.up))
  {
    hide Nodes, PathNodes, Distinct, PathDistinct, Agree, Apart;
    var r := s.right;
    var kept := PathNodes(p) + Nodes(s) - Touched(p, s, u) - {r.node, Holder(q, null)};
    var inner := Nodes(r.left);
    DeepSets(p, s);
    UnderLeftmost(q, u, inner);
    UpperSides(p, kept, m, m');
    AgreeOn(m, m', kept, Nodes(s.left) - {s.left.node});
    AgreeOn(m, m', kept, Nodes(u.right) - {Top(u.right)});
    AgreeOn(m, m', kept, Nodes(r.right));
    if q.LeftOf? {
      AgreeOn(m, m', kept, Nodes(q.right));
      AgreeOn(m, m', kept, PathNodes(q.up));
    }
  }

  lemma AgreeOn(m: map<Node, Cell>, m': map<Node, Cell>, kept: set<Node>, part: set<Node>)
    requires Agree(m, m', kept) && part <= kept
    ensures Agree(m, m', part)
  {
  }

  lemma DeepSets(p: Path, s: Shape)
    requires s.Fork? && s.left.Fork? && s.right.Fork? && Apart(p, s)
    ensures var l, i, r := Nodes(s.left), Nodes(s.right.left), Nodes(s.right.right);
            && Nodes(s) == l + {s.node} + i + {s.right.node} + r
            && PathNodes(p) !! l + {s.node} + i + {s.right.node} + r
            && s.node !in l + i + {s.right.node} + r && s.right.node !in l + i + r && l !! i + r && i !! r
            && s.left.node in l && (!p.Root? ==> p.node in PathNodes(p)) && PathDistinct(p)
  {
    assert Distinct(s.right);
  }

  lemma UnderLeftmost(q: Path, u: Shape, inner: set<Node>)
    requires !q.RightOf? && u.Fork? && u.left.Leaf? && Apart(q, u) && PathNodes(q) + Nodes(u) == inner
    ensures u.node in inner && Nodes(u.right) <= inner && u.node !in Nodes(u.right)
    ensures q.LeftOf? ==> q.node in inner && Nodes(q.right) <= inner && PathNodes(q.up) <= inner
    ensures q.LeftOf? ==> {u.node, q.node} !! Nodes(q.right) + PathNodes(q.up) && q.node != u.node && q.node !in Nodes(u.right)
    ensures q.LeftOf? ==> Nodes(q.right) + PathNodes(q.up) !! Nodes(u.right)
    ensures u.right.Fork? ==> u.right.node in Nodes(u.right)
  {
  }

  lemma UpperSides(p: Path, kept: set<Node>, m: map<Node, Cell>, m': map<Node, Cell>)
    requires Agree(m, m', kept) && PathDistinct(p) && PathNodes(p) - {Holder(p, null)} <= kept
    ensures p.LeftOf? ==> Agree(m, m', Nodes(p.right)) && Agree(m, m', PathNodes(p.up))
    ensures p.RightOf? ==> Agree(m, m', Nodes(p.left)) && Agree(m, m', PathNodes(p.up))
  {
    if !p.Root? {
      assert PathNodes(p.up) <= kept;
      if p.LeftOf? { assert Nodes(p.right) <= kept; } else { assert Nodes(p.left) <= kept; }
    }
  }

  /** The tree after avltree_delete_node, for every stored heights. */
  function Without(shape: Shape, n: Node): (r: Shape)
    requires n in Nodes(shape)
  {
    var (p, s) := CutAt(Root, shape, n);
    var (q, t) := Vacated(p, s);
    Climb(q, t)
  }

  lemma VacatedIs(p: Path, s: Shape)
    requires s.Fork?
    ensures s.left.Leaf? ==> Vacated(p, s) == (p, s.right)
    ensures s.left.Fork? && s.right.Leaf? ==> Vacated(p, s) == (p, s.left)
    ensures s.left.Fork? && s.right.Fork? ==>
              var u := Leftmost(Root, s.right).1;
              Vacated(p, s) == (Leftmost(RightOf(p, s.left, u.node, s.height), s.right).0, u.right)
    ensures s.right.Fork? && s.right.left.Leaf? ==> Leftmost(Root, s.right).1 == s.right
    ensures s.left.Fork? && s.right.Fork? && s.right.left.Leaf? ==>
              Vacated(p, s).0 == RightOf(p, s.left, s.right.node, s.height)
  {
    if s.left.Fork? && s.right.Fork? {
      var u := Leftmost(Root, s.right).1;
      LeftmostCompose(RightOf(p, s.left, u.node, s.height), Root, s.right);
    }
  }

  /** The tree cut at a node. */
  lemma Cut(shape: Shape, root: Node?, n: Node, m: map<Node, Cell>)
    requires n in Nodes(shape) && Distinct(shape) && Linked(shape, null, m) && root == Top(shape)
    ensures var (p, s) := CutAt(Root, shape, n);
            s.Fork? && s.node == n && Seen(p, s, root, m) && PathNodes(p) + Nodes(s) == Nodes(shape)
  {
    var (p, s) := CutAt(Root, shape, n);
    CutPlugs(Root, shape, n);
    LinkedPlug(p, s, m);
  }

  lemma OnlyChild(p: Path, s: Shape, c: Shape)
    requires s.Fork? && Apart(p, s) && (s.left.Leaf? || s.right.Leaf?) && c == if s.left.Leaf? then s.right else s.left
    ensures Apart(p, c) && PathNodes(p) + Nodes(c) == PathNodes(p) + Nodes(s) - {s.node} && Nodes(s) == Nodes(c) + {s.node}
    ensures c.Fork? ==> c.node in Nodes(c)
  {
  }

  /** Deleting a node takes exactly that node out of the sequence. */
  lemma WithoutOrder(shape: Shape, n: Node)
    requires Distinct(shape) && n in Nodes(shape)
    ensures exists i | 0 <= i < |Order(shape)| ::
              Order(shape)[i] == n && Order(Without(shape, n)) == Order(shape)[..i] + Order(shape)[i + 1..]
  {
    hide Climb, Vacated, CutAt;
    var (p, s) := CutAt(Root, shape, n);
    var (q, t) := Vacated(p, s);
    CutPlugs(Root, shape, n);
    OrderPlug(p, s);
    VacatedOrder(p, s);
    ClimbKeeps(q, t);
    TakenOut(Before(p), Order(s.left), n, Order(s.right), After(p));
  }

  lemma TakenOut<T>(a: seq<T>, l: seq<T>, n: T, r: seq<T>, b: seq<T>)
    ensures var o, i := a + (l + [n] + r) + b, |a| + |l|;
            i < |o| && o[i] == n && o[..i] + o[i + 1..] == a + l + r + b
  {
    var o, i := a + (l + [n] + r) + b, |a| + |l|;
    assert o[..i] == a + l;
    assert o[i + 1..] == r + b;
    assert (a + l) + (r + b) == a + l + r + b;
  }

  // ---------- stored heights ----------

  function Depth(s: Shape): nat {
    if s.Leaf? then 0 else 1 + if Depth(s.left) < Depth(s.right) then Depth(s.right) else Depth(s.left)
  }

  /** Every stored height is the height of its subtree. */
  predicate Measured(s: Shape) {
    s.Fork? ==> s.height == Depth(s) && Measured(s.left) && Measured(s.right)
  }

  /** A round over measured subtrees leaves every stored height right exactly when it rotates not at
      all, or once and with the inner side strictly lower; the top of a rotation and the node pushed
      down by a double one keep the height they had. */
  lemma RebalanceMeasured(s: Shape)
    requires s.Fork? && Measured(s.left) && Measured(s.right) && Depth(s) < POW32 - 1
    ensures Measured(Rebalance(s)) <==>
              var d := Depth(s.right) - Depth(s.left);
              -1 <= d <= 1
              || (d > 1 && Depth(s.right.left) < Depth(s.right.right))
              || (d < -1 && Depth(s.left.right) < Depth(s.left.left))
  {
    hide Rebalance, Straight, StraightLeft;
    MeasuredHeight(s.left);
    MeasuredHeight(s.right);
    if Height(s.right) - Height(s.left) > 1 {
      RightHeavyMeasured(s);
    } else if Height(s.right) - Height(s.left) < -1 {
      LeftHeavyMeasured(s);
    } else {
      LevelMeasured(s);
    }
  }

  lemma MeasuredHeight(s: Shape)
    requires Measured(s)
    ensures Height(s) == Depth(s)
  {
  }

  lemma LevelMeasured(s: Shape)
    requires s.Fork? && Measured(s.left) && Measured(s.right) && Depth(s) < POW32 - 1 && -1 <= Height(s.right) - Height(s.left) <= 1
    ensures Measured(Rebalance(s))
  {
    MeasuredFork(s.left, s.node, s.right);
  }

  /** reset_node_height over measured subtrees. */
  lemma MeasuredFork(l: Shape, n: Node, r: Shape)
    requires Measured(l) && Measured(r) && Depth(l) < POW32 - 1 && Depth(r) < POW32 - 1
    ensures var s := Fork(l, n, Reset(Height(l), Height(r)), r);
            Measured(s) && Depth(s) == 1 + Max(Depth(l), Depth(r))
  {
    MeasuredHeight(l);
    MeasuredHeight(r);
    ResetExact(Height(l), Height(r));
    hide Reset;
  }

  lemma ResetExact(l: U32, r: U32)
    requires l < POW32 - 1 && r < POW32 - 1
    ensures Reset(l, r) == 1 + Max(l, r)
  {
  }

  lemma RightHeavyMeasured(s: Shape)
    requires s.Fork? && Measured(s.left) && Measured(s.right) && Depth(s) < POW32 - 1 && Height(s.right) - Height(s.left) > 1
    ensures Measured(Rebalance(s)) <==> Depth(s.right.left) < Depth(s.right.right)
  {
    hide Reset;
    var r := s.right;
    MeasuredHeight(s.left);
    MeasuredHeight(r.left);
    MeasuredHeight(r.right);
    if Height(r.left) > Height(r.right) {
      var k := r.left;
      PushedDown(Fork(k.right, r.node, r.height, r.right), Max(Depth(k.right), Depth(r.right)));
    } else {
      TurnMeasured(s.left, s.node, r.left, r.node, r.height, r.right);
    }
  }

  lemma LeftHeavyMeasured(s: Shape)
    requires s.Fork? && Measured(s.left) && Measured(s.right) && Depth(s) < POW32 - 1 && Height(s.right) - Height(s.left) < -1
    ensures Measured(Rebalance(s)) <==> Depth(s.left.right) < Depth(s.left.left)
  {
    hide Reset;
    var l := s.left;
    MeasuredHeight(s.right);
    MeasuredHeight(l.left);
    MeasuredHeight(l.right);
    if Height(l.left) < Height(l.right) {
      var k := l.right;
      PushedDown(Fork(l.left, l.node, l.height, k.left), Max(Depth(l.left), Depth(k.left)));
    } else {
      TurnLeftMeasured(l.left, l.node, l.height, l.right, s.node, s.right);
    }
  }

  function Max(a: nat, b: nat): nat { if a < b then b else a }

  lemma PushedDown(s: Shape, d: nat)
    requires s.Fork? && d == Max(Depth(s.left), Depth(s.right)) && s.height > 1 + d
    ensures !Measured(s)
  {
  }

  lemma MeasuredTop(l: Shape, n: Node, k: U32, r: Shape)
    requires Measured(l) && Measured(r)
    ensures Measured(Fork(l, n, k, r)) <==> k == 1 + Max(Depth(l), Depth(r))
  {
  }

  lemma TurnMeasured(a: Shape, n: Node, b: Shape, m: Node, k: U32, c: Shape)
    requires Measured(a) && Measured(b) && Measured(c) && k == 1 + Max(Depth(b), Depth(c)) < POW32 - 1
    requires Depth(b) <= Depth(c) && k - Depth(a) > 1
    ensures Measured(Fork(Fork(a, n, Reset(Height(a), Height(b)), b), m, k, c)) <==> Depth(b) < Depth(c)
  {
    hide Reset;
    MeasuredFork(a, n, b);
    MeasuredTop(Fork(a, n, Reset(Height(a), Height(b)), b), m, k, c);
  }

  lemma TurnLeftMeasured(a: Shape, m: Node, k: U32, b: Shape, n: Node, c: Shape)
    requires Measured(a) && Measured(b) && Measured(c) && k == 1 + Max(Depth(a), Depth(b)) < POW32 - 1
    requires Depth(b) <= Depth(a) && k - Depth(c) > 1
    ensures Measured(Fork(a, m, k, Fork(b, n, Reset(Height(b), Height(c)), c))) <==> Depth(b) < Depth(a)
  {
    hide Reset;
    MeasuredFork(b, n, c);
    MeasuredTop(a, m, k, Fork(b, n, Reset(Height(b), Height(c)), c));
  }

  // ---------- balance, by true depth ----------

  /** At every node the sides differ by at most one in depth. */
  predicate Level(s: Shape) {
    s.Fork? ==> -1 <= Depth(s.right) - Depth(s.left) <= 1 && Level(s.left) && Level(s.right)
  }

  lemma DepthFork(l: Shape, n: Node, h: U32, r: Shape)
    ensures Depth(Fork(l, n, h, r)) == 1 + Max(Depth(l), Depth(r))
    ensures Level(Fork(l, n, h, r)) <==> -1 <= Depth(r) - Depth(l) <= 1 && Level(l) && Level(r)
  {
  }

  lemma MeasuredParts(s: Shape)
    requires s.Fork? && Measured(s)
    ensures Measured(s.left) && Measured(s.right) && s.height == Depth(s) == 1 + Max(Depth(s.left), Depth(s.right))
    ensures Height(s.left) == Depth(s.left) && Height(s.right) == Depth(s.right)
  {
    MeasuredHeight(s.left);
    MeasuredHeight(s.right);
  }

  /** A round over two level subtrees with right heights, differing by at most two, gives a level tree,
      no deeper than before and at most one less; it is one less only after a rotation. */
  lemma RebalanceLevel(s: Shape)
    requires s.Fork? && Measured(s.left) && Measured(s.right) && Level(s.left) && Level(s.right)
    requires -2 <= Depth(s.right) - Depth(s.left) <= 2
    ensures Level(Rebalance(s)) && Depth(s) - 1 <= Depth(Rebalance(s)) <= Depth(s)
    ensures -1 <= Depth(s.right) - Depth(s.left) <= 1 ==> Depth(Rebalance(s)) == Depth(s)
    ensures Depth(s.right) - Depth(s.left) == 2 && Depth(s.right.left) != Depth(s.right.right) ==> Depth(Rebalance(s)) == Depth(s) - 1
    ensures Depth(s.right) - Depth(s.left) == -2 && Depth(s.left.left) != Depth(s.left.right) ==> Depth(Rebalance(s)) == Depth(s) - 1
  {
    hide Rebalance, Straight, StraightLeft, Depth, Level, Measured;
    DepthFork(s.left, s.node, s.height, s.right);
    MeasuredHeight(s.left);
    MeasuredHeight(s.right);
    if Depth(s.right) - Depth(s.left) == 2 {
      HeavyForks(s.right, s.left);
      RightHeavyLevel(s.left, s.node, s.height, s.right);
    } else if Depth(s.right) - Depth(s.left) == -2 {
      HeavyForks(s.left, s.right);
      LeftHeavyLevel(s.left, s.node, s.height, s.right);
    } else {
      LevelLevel(s);
    }
  }

  lemma HeavyForks(s: Shape, t: Shape)
    requires Depth(s) - Depth(t) > 0
    ensures s.Fork?
  {
  }

  lemma LevelLevel(s: Shape)
    requires s.Fork? && Level(s.left) && Level(s.right) && -1 <= Depth(s.right) - Depth(s.left) <= 1
    requires Height(s.left) == Depth(s.left) && Height(s.right) == Depth(s.right)
    ensures Level(Rebalance(s)) && Depth(Rebalance(s)) == Depth(s)
  {
    hide Depth, Level, Reset;
    DepthFork(s.left, s.node, s.height, s.right);
    DepthFork(s.left, s.node, Reset(Height(s.left), Height(s.right)), s.right);
  }

  lemma RightHeavyLevel(a: Shape, n: Node, h: U32, r: Shape)
    requires r.Fork? && Measured(a) && Measured(r) && Level(a) && Level(r) && Depth(r) - Depth(a) == 2
    ensures var t := Rebalance(Fork(a, n, h, r));
            Level(t) && Depth(r) <= Depth(t) <= Depth(r) + 1 && (Depth(r.left) != Depth(r.right) ==> Depth(t) == Depth(r))
  {
    hide Depth, Level, Measured, Reset;
    MeasuredHeight(a);
    MeasuredHeight(r);
    MeasuredParts(r);
    DepthFork(r.left, r.node, r.height, r.right);
    var t := Rebalance(Fork(a, n, h, r));
    if Depth(r.left) > Depth(r.right) {
      HeavyForks(r.left, r.right);
      var k := r.left;
      DepthFork(k.left, k.node, k.height, k.right);
      assert t.left == Fork(a, n, t.left.height, k.left) && t.right == Fork(k.right, r.node, r.height, r.right);
      DepthFork(a, n, t.left.height, k.left);
      DepthFork(k.right, r.node, r.height, r.right);
    } else {
      assert t.left == Fork(a, n, t.left.height, r.left) && t.right == r.right;
      DepthFork(a, n, t.left.height, r.left);
    }
    DepthFork(t.left, t.node, t.height, t.right);
  }

  lemma LeftHeavyLevel(l: Shape, n: Node, h: U32, c: Shape)
    requires l.Fork? && Measured(c) && Measured(l) && Level(c) && Level(l) && Depth(l) - Depth(c) == 2
    ensures var t := Rebalance(Fork(l, n, h, c));
            Level(t) && Depth(l) <= Depth(t) <= Depth(l) + 1 && (Depth(l.left) != Depth(l.right) ==> Depth(t) == Depth(l))
  {
    hide Depth, Level, Measured, Reset;
    MeasuredHeight(c);
    MeasuredHeight(l);
    MeasuredParts(l);
    DepthFork(l.left, l.node, l.height, l.right);
    var t := Rebalance(Fork(l, n, h, c));
    if Depth(l.right) > Depth(l.left) {
      HeavyForks(l.right, l.left);
      var k := l.right;
      DepthFork(k.left, k.node, k.height, k.right);
      assert t.left == Fork(l.left, l.node, l.height, k.left) && t.right == Fork(k.right, n, t.right.height, c);
      DepthFork(l.left, l.node, l.height, k.left);
      DepthFork(k.right, n, t.right.height, c);
    } else {
      assert t.left == l.left && t.right == Fork(l.right, n, t.right.height, c);
      DepthFork(l.right, n, t.right.height, c);
    }
    DepthFork(t.left, t.node, t.height, t.right);
  }

  // ---------- a whole insertion into a level tree with right heights ----------

  /** Around a hole of depth `d`, heights are right and the sides differ by at most one. */
  predicate Balanced(p: Path, d: nat) {
    match p
    case Root => true
    case LeftOf(up, _, h, r) => Measured(r) && Level(r) && -1 <= Depth(r) - d <= 1 && h == 1 + Max(d, Depth(r)) && Balanced(up, h)
    case RightOf(up, l, _, h) => Measured(l) && Level(l) && -1 <= d - Depth(l) <= 1 && h == 1 + Max(Depth(l), d) && Balanced(up, h)
  }

  /** The side of the node above the hole of depth `d` that is not the hole. */
  function OtherDepth(p: Path): nat
    requires !p.Root?
  {
    if p.LeftOf? then Depth(p.right) else Depth(p.left)
  }

  /** The subtree `s`, one deeper than the hole of depth `d` was, has grown on the side away from the middle
      of the node above, wherever that node then is too heavy. */
  predicate GrownOutside(p: Path, s: Shape, d: nat)
    decreases p
  {
    if p.Root? then true
    else if d == OtherDepth(p) + 1 then
      s.Fork? && if p.LeftOf? then Depth(s.right) < Depth(s.left) else Depth(s.left) < Depth(s.right)
    else if d == OtherDepth(p) then GrownOutside(p.up, Raise(p, s), d + 1)
    else true
  }

  /** Every round of the climb leaves every stored height right. */
  predicate StaysMeasured(p: Path, s: Shape)
    decreases p
  {
    p.Root? || (Measured(Rebalance(Raise(p, s))) && StaysMeasured(p.up, Rebalance(Raise(p, s))))
  }

  lemma {:induction false} SpotBalanced(p: Path, s: Shape, node: Node, cmp: (Node, Node) -> int)
    requires Spot(p, s, node, cmp).Some? && Measured(s) && Level(s) && Balanced(p, Depth(s))
    ensures Balanced(Spot(p, s, node, cmp).value, 0)
    decreases s
  {
    if s.Fork? {
      MeasuredParts(s);
      if cmp(node, s.node) < 0 {
        SpotBalanced(LeftOf(p, s.node, s.height, s.right), s.left, node, cmp);
      } else {
        SpotBalanced(RightOf(p, s.left, s.node, s.height), s.right, node, cmp);
      }
    }
  }

  /** A subtree of the depth the hole had: nothing above changes. */
  lemma {:induction false} SettledClimb(p: Path, s: Shape)
    requires Balanced(p, Depth(s)) && Measured(s) && Level(s) && PathLow(p)
    ensures Measured(Climb(p, s)) && Level(Climb(p, s)) && StaysMeasured(p, s)
    decreases p
  {
    hide Depth, Level, Measured, Rebalance;
    if !p.Root? {
      SettledRound(p, s);
      ClimbStep(p, s);
      SettledClimb(p.up, Rebalance(Raise(p, s)));
    }
  }

  /** Heights on the way up are below the 32-bit limit. */
  predicate PathLow(p: Path) {
    p.Root? || (p.height < POW32 - 2 && PathLow(p.up))
  }

  lemma ClimbStep(p: Path, s: Shape)
    requires !p.Root?
    ensures Climb(p, s) == Climb(p.up, Rebalance(Raise(p, s)))
  {
  }

  lemma SettledRound(p: Path, s: Shape)
    requires !p.Root? && Balanced(p, Depth(s)) && Measured(s) && Level(s) && PathLow(p)
    ensures var t := Rebalance(Raise(p, s));
            Measured(t) && Level(t) && Depth(t) == p.height && Balanced(p.up, Depth(t))
  {
    hide Depth, Level, Measured, Rebalance;
    var u := Raise(p, s);
    DepthFork(u.left, u.node, u.height, u.right);
    RebalanceLevel(u);
    RebalanceMeasured(u);
  }

  /** A subtree one deeper than the hole was.  The climb ends level with all heights right, and every round
      leaves them right, exactly when it grew outside: no double rotation is needed. */
  lemma {:induction false} GrownClimb(p: Path, s: Shape, d: nat)
    requires Balanced(p, d) && s.Fork? && Measured(s) && Level(s) && Depth(s) == d + 1 && PathLow(p)
    requires d == 0 || Depth(s.left) != Depth(s.right)
    ensures StaysMeasured(p, s) <==> GrownOutside(p, s, d)
    ensures GrownOutside(p, s, d) ==> Measured(Climb(p, s)) && Level(Climb(p, s))
    decreases p
  {
    hide Depth, Level, Measured, Rebalance;
    if !p.Root? {
      ClimbStep(p, s);
      var u := Raise(p, s);
      var t := Rebalance(u);
      DepthFork(u.left, u.node, u.height, u.right);
      if d == OtherDepth(p) + 1 {
        RebalanceLevel(u);
        RebalanceMeasured(u);
        if GrownOutside(p, s, d) {
          SettledClimb(p.up, t);
        }
      } else if d == OtherDepth(p) {
        GrownRound(p, s, d);
        GrownClimb(p.up, t, d + 1);
        SameGrowth(p.up, u, t, d + 1);
      } else {
        RebalanceLevel(u);
        RebalanceMeasured(u);
        SettledClimb(p.up, t);
      }
    }
  }

  /** A round at a node that was even and now leans: only its height is set. */
  lemma GrownRound(p: Path, s: Shape, d: nat)
    requires !p.Root? && Balanced(p, d) && s.Fork? && Measured(s) && Level(s) && Depth(s) == d + 1 && PathLow(p) && d == OtherDepth(p)
    ensures var u := Raise(p, s);
            var t := Rebalance(u);
            && t == u.(height := t.height) && Measured(t) && Level(t) && Depth(t) == d + 2 && Depth(t.left) != Depth(t.right)
            && Balanced(p.up, d + 1)
  {
    hide Depth, Level, Measured, Reset;
    var u := Raise(p, s);
    DepthFork(u.left, u.node, u.height, u.right);
    MeasuredHeight(u.left);
    MeasuredHeight(u.right);
    RebalanceLevel(u);
    RebalanceMeasured(u);
  }

  /** Which side grew does not depend on stored heights. */
  lemma {:induction false} SameGrowth(p: Path, s: Shape, t: Shape, d: nat)
    requires s.Fork? && t.Fork? && Depth(s.left) == Depth(t.left) && Depth(s.right) == Depth(t.right)
    ensures GrownOutside(p, s, d) <==> GrownOutside(p, t, d)
    decreases p
  {
    hide Depth;
    if !p.Root? && d == OtherDepth(p) {
      SameSides(p, s, t);
      SameGrowth(p.up, Raise(p, s), Raise(p, t), d + 1);
    }
  }

  lemma SameSides(p: Path, s: Shape, t: Shape)
    requires !p.Root? && s.Fork? && t.Fork? && Depth(s.left) == Depth(t.left) && Depth(s.right) == Depth(t.right)
    ensures Depth(Raise(p, s).left) == Depth(Raise(p, t).left) && Depth(Raise(p, s).right) == Depth(Raise(p, t).right)
  {
    DepthFork(s.left, s.node, s.height, s.right);
    DepthFork(t.left, t.node, t.height, t.right);
    hide Depth;
  }

  /** avltree_insert into a level tree with right heights: the tree stays level with right heights, and the
      heights are right after every round, exactly when no double rotation is needed. */
  lemma InsertLevel(shape: Shape, node: Node, cmp: (Node, Node) -> int)
    requires Measured(shape) && Level(shape) && Depth(shape) < POW32 - 2 && Spot(Root, shape, node, cmp).Some?
    ensures var p, s := Spot(Root, shape, node, cmp).value, Fork(Leaf, node, 1, Leaf);
            && (StaysMeasured(p, s) <==> GrownOutside(p, s, 0))
            && (GrownOutside(p, s, 0) ==> Measured(Climb(p, s)) && Level(Climb(p, s)))
  {
    SpotBalanced(Root, shape, node, cmp);
    SpotLow(Root, shape, node, cmp);
    NewLeaf(node);
    GrownClimb(Spot(Root, shape, node, cmp).value, Fork(Leaf, node, 1, Leaf), 0);
  }

  lemma NewLeaf(node: Node)
    ensures Measured(Fork(Leaf, node, 1, Leaf)) && Level(Fork(Leaf, node, 1, Leaf)) && Depth(Fork(Leaf, node, 1, Leaf)) == 1
  {
    assert Depth(Leaf) == 0 && Measured(Leaf) && Level(Leaf);
  }

  lemma {:induction false} SpotLow(p: Path, s: Shape, node: Node, cmp: (Node, Node) -> int)
    requires Spot(p, s, node, cmp).Some? && Measured(s) && Depth(s) < POW32 - 2 && PathLow(p)
    ensures PathLow(Spot(p, s, node, cmp).value)
    decreases s
  {
    if s.Fork? {
      MeasuredParts(s);
      if cmp(node, s.node) < 0 {
        SpotLow(LeftOf(p, s.node, s.height, s.right), s.left, node, cmp);
      } else {
        SpotLow(RightOf(p, s.left, s.node, s.height), s.right, node, cmp);
      }
    }
  }
}

/** The pointer AVL tree of lib/adt/avltree.c: rotations, the climbing fix-up, insertion by a comparator
    and deletion by swapping with the successor.  Nothing is assumed of the stored heights. */
module Avl {
  import Common
  import opened AvlShape

  /** A `struct avlnode **`: the field that points to a node. */
  datatype Link = AtRoot | AtLeft(of: Node) | AtRight(of: Node)

  ghost function LinkOf(p: Path): Link {
    match p
    case Root => AtRoot
    case LeftOf(_, n, _, _) => AtLeft(n)
    case RightOf(_, _, n, _) => AtRight(n)
  }

  ghost function Written(link: Link): set<Node> {
    if link.AtRoot? then {} else {link.of}
  }

  /** node_height. */
  function NodeHeight(n: Node?): U32
    reads n
  {
    if n == null then 0 else n.height
  }

  method RotateLeft(node: Node, ghost s: Shape, ghost ns: set<Node>) returns (top: Node)
    requires s.Fork? && s.node == node && s.right.Fork? && Distinct(s)
    requires Nodes(s) <= ns && Linked(s, node.parent, Heap(ns))
    modifies Nodes(s)
    ensures top == s.right.node && Linked(RotateLeftShape(s), old(node.parent), Heap(ns))
  {
    ghost var m := Heap(ns);
    assert Linked(s.right, node, m) && Linked(s.right.left, s.right.node, m) && Distinct(s.right);
    top := node.right;
    var topParent := node.parent;
    var inner := node.right.left;
    node.right := inner;
    node.parent := top;
    if inner != null {
      inner.parent := node;
    }
    top.parent := topParent;
    top.left := node;
    RotatedLeft(s, topParent, m, Heap(ns));
  }

  method RotateRight(node: Node, ghost s: Shape, ghost ns: set<Node>) returns (top: Node)
    requires s.Fork? && s.node == node && s.left.Fork? && Distinct(s)
    requires Nodes(s) <= ns && Linked(s, node.parent, Heap(ns))
    modifies Nodes(s)
    ensures top == s.left.node && Linked(RotateRightShape(s), old(node.parent), Heap(ns))
  {
    ghost var m := Heap(ns);
    assert Linked(s.left, node, m) && Linked(s.left.right, s.left.node, m) && Distinct(s.left);
    top := node.left;
    var topParent := node.parent;
    var inner := node.left.right;
    node.left := inner;
    node.parent := top;
    if inner != null {
      inner.parent := node;
    }
    top.parent := topParent;
    top.right := node;
    RotatedRight(s, topParent, m, Heap(ns));
  }

  /** reset_node_height. */
  method ResetHeight(node: Node, ghost s: Shape, ghost ns: set<Node>)
    requires s.Fork? && s.node == node && Distinct(s) && Nodes(s) <= ns && Linked(s, node.parent, Heap(ns))
    modifies node`height
    ensures Linked(s.(height := Reset(Height(s.left), Height(s.right))), node.parent, Heap(ns))
  {
    ghost var m := Heap(ns);
    var l, r := NodeHeight(node.left), NodeHeight(node.right);
    node.height := (1 + if l < r then r else l) % POW32;
    Kept(s.left, node, m, Heap(ns));
    Kept(s.right, node, m, Heap(ns));
  }

  /** The first half of a double rotation at a right-heavy node. */
  method StraightenRight(node: Node, ghost s: Shape, ghost ns: set<Node>) returns (top: Node)
    requires s.Fork? && s.node == node && Distinct(s) && Nodes(s) <= ns && Linked(s, node.parent, Heap(ns))
    requires s.right.Fork? && Height(s.right.left) > Height(s.right.right)
    modifies Nodes(s)
    ensures var t := s.(right := Straight(s.right)); Linked(t, old(node.parent), Heap(ns)) && top == t.right.node
  {
    hide Reset;
    ghost var m := Heap(ns);
    ghost var r := RotateRightShape(s.right);
    StraightSame(s.right);
    assert Linked(s.right, node, m);
    top := RotateRight(node.right, s.right, ns);
    ghost var m' := Heap(ns);
    node.right := top;
    Kept(r, node, m', Heap(ns));
    ResetHeight(top, r, ns);
    Kept(s.left, node, m, Heap(ns));
  }

  /** The first half of a double rotation at a left-heavy node. */
  method StraightenLeft(node: Node, ghost s: Shape, ghost ns: set<Node>) returns (top: Node)
    requires s.Fork? && s.node == node && Distinct(s) && Nodes(s) <= ns && Linked(s, node.parent, Heap(ns))
    requires s.left.Fork? && Height(s.left.left) < Height(s.left.right)
    modifies Nodes(s)
    ensures var t := s.(left := StraightLeft(s.left)); Linked(t, old(node.parent), Heap(ns)) && top == t.left.node
  {
    hide Reset;
    ghost var m := Heap(ns);
    ghost var r := RotateLeftShape(s.left);
    StraightSame(s.left);
    assert Linked(s.left, node, m);
    top := RotateLeft(node.left, s.left, ns);
    ghost var m' := Heap(ns);
    node.left := top;
    Kept(r, node, m', Heap(ns));
    ResetHeight(top, r, ns);
    Kept(s.right, node, m, Heap(ns));
  }

  class Tree {
    var root: Node?
    ghost var shape: Shape

    constructor ()
      ensures Valid() && shape == Leaf
    {
      root, shape := null, Leaf;
    }

    /** Every link and its parent link agree, and no node is reached twice. */
    ghost predicate Valid()
      reads this, Nodes(shape)
    {
      root == Top(shape) && Linked(shape, null, Heap(Nodes(shape))) && Distinct(shape)
    }

    /** The tree, seen from the hole of `p`, which `s` fills. */
    ghost predicate Holds(p: Path, s: Shape, ns: set<Node>)
      reads this, ns
    {
      PathNodes(p) + Nodes(s) == ns && Seen(p, s, root, Heap(ns))
    }

    /** get_node_link. */
    method NodeLink(node: Node, ghost p: Path, ghost s: Shape, ghost ns: set<Node>) returns (link: Link)
      requires Holds(p, s, ns) && s.Fork? && s.node == node
      ensures link == LinkOf(p)
    {
      var parent := node.parent;
      if parent != null {
        return if node == parent.left then AtLeft(parent) else AtRight(parent);
      }
      return AtRoot;
    }

    /** `*link = v`. */
    method Store(link: Link, v: Node?)
      modifies this`root, Written(link)
      ensures root == if link.AtRoot? then v else old(root)
      ensures !link.AtRoot? ==> link.of.height == old(link.of.height) && link.of.parent == old(link.of.parent)
      ensures !link.AtRoot? ==> link.of.left == if link.AtLeft? then v else old(link.of.left)
      ensures !link.AtRoot? ==> link.of.right == if link.AtRight? then v else old(link.of.right)
    {
      match link
      case AtRoot => root := v;
      case AtLeft(n) => n.left := v;
      case AtRight(n) => n.right := v;
    }

    /** The same, for the link to the hole of a path. */
    method SetLink(link: Link, v: Node?, ghost p: Path, ghost was: Node?, ghost ns: set<Node>)
      requires link == LinkOf(p) && PathDistinct(p) && PathNodes(p) <= ns
      requires Threaded(p, null, was, Heap(ns)) && root == First(p, was)
      modifies this`root, PathNodes(p)
      ensures Threaded(p, null, v, Heap(ns)) && root == First(p, v)
    {
      ghost var m := Heap(ns);
      Store(link, v);
      Refilled(p, null, was, v, m, Heap(ns));
    }

    /** `*link = rotate_left(node)` and the height of the node pushed down. */
    method TurnLeft(node: Node, ghost p: Path, ghost s: Shape, ghost ns: set<Node>) returns (top: Node)
      requires Holds(p, s, ns) && s.Fork? && s.node == node && s.right.Fork?
      modifies this`root, ns
      ensures Holds(p, TurnedLeft(s), ns) && top == TurnedLeft(s).node
    {
      hide Reset, Linked, Threaded, Nodes, PathNodes, Distinct, PathDistinct, Order;
      ghost var m := Heap(ns);
      ghost var t := RotateLeftShape(s);
      TopParent(s, Holder(p, null), m);
      TurnedLeftSame(s);
      var link := NodeLink(node, p, s, ns);
      top := RotateLeft(node, s, ns);
      PathKept(p, null, node, m, Heap(ns));
      ghost var m' := Heap(ns);
      SetLink(link, top, p, node, ns);
      Kept(t, Holder(p, null), m', Heap(ns));
      ResetLeft(node, p, t, ns);
    }

    method ResetLeft(node: Node, ghost p: Path, ghost s: Shape, ghost ns: set<Node>)
      requires Holds(p, s, ns) && s.Fork? && s.left.Fork? && s.left.node == node
      modifies node`height
      ensures Holds(p, s.(left := s.left.(height := Reset(Height(s.left.left), Height(s.left.right)))), ns)
    {
      hide Reset;
      ghost var m := Heap(ns);
      assert Linked(s.left, s.node, m) && Distinct(s.left) && m[node].parent == s.node;
      assert node in Nodes(s.left) && node !in PathNodes(p) && node !in Nodes(s.right) && node != s.node;
      ResetHeight(node, s.left, ns);
      Kept(s.right, s.node, m, Heap(ns));
      PathKept(p, null, s.node, m, Heap(ns));
      ghost var c := s.left.(height := Reset(Height(s.left.left), Height(s.left.right)));
      SameSelf(s.left);
      SameSelf(s.right);
      HeightSame(s.left, c.height);
      SameParts(s.left, c, s.node, s.height, s.height, s.right, s.right);
    }

    /** The right-heavy round of avltree_fixup. */
    method FixRight(node: Node, ghost p: Path, ghost s: Shape, ghost ns: set<Node>) returns (top: Node)
      requires Holds(p, s, ns) && s.Fork? && s.node == node && Height(s.right) - Height(s.left) > 1
      modifies this`root, ns
      ensures Holds(p, Rebalance(s), ns) && top == Rebalance(s).node
    {
      hide Reset, Linked, Threaded, Nodes, PathNodes, Distinct, PathDistinct, Order;
      ghost var m := Heap(ns);
      ghost var t := s;
      TopParent(s, Holder(p, null), m);
      top := node.right;
      RightChildren(s, node.parent, m);
      ChildHeights(s.right, node, m);
      TopParent(s.right, node, m);
      if NodeHeight(top.left) > NodeHeight(top.right) {
        StraightSame(s.right);
        t := s.(right := Straight(s.right));
        SameParts(s.left, s.left, s.node, s.height, s.height, s.right, t.right);
        top := StraightenRight(node, s, ns);
        PathKept(p, null, node, m, Heap(ns));
      }
      assert Nodes(t) == Nodes(s);
      top := TurnLeft(node, p, t, ns);
    }

    /** `*link = rotate_right(node)` and the height of the node pushed down. */
    method TurnRight(node: Node, ghost p: Path, ghost s: Shape, ghost ns: set<Node>) returns (top: Node)
      requires Holds(p, s, ns) && s.Fork? && s.node == node && s.left.Fork?
      modifies this`root, ns
      ensures Holds(p, TurnedRight(s), ns) && top == TurnedRight(s).node
    {
      hide Reset, Linked, Threaded, Nodes, PathNodes, Distinct, PathDistinct, Order;
      ghost var m := Heap(ns);
      ghost var t := RotateRightShape(s);
      TopParent(s, Holder(p, null), m);
      TurnedRightSame(s);
      var link := NodeLink(node, p, s, ns);
      top := RotateRight(node, s, ns);
      PathKept(p, null, node, m, Heap(ns));
      ghost var m' := Heap(ns);
      SetLink(link, top, p, node, ns);
      Kept(t, Holder(p, null), m', Heap(ns));
      ResetRight(node, p, t, ns);
    }

    method ResetRight(node: Node, ghost p: Path, ghost s: Shape, ghost ns: set<Node>)
      requires Holds(p, s, ns) && s.Fork? && s.right.Fork? && s.right.node == node
      modifies node`height
      ensures Holds(p, s.(right := s.right.(height := Reset(Height(s.right.left), Height(s.right.right)))), ns)
    {
      hide Reset;
      ghost var m := Heap(ns);
      assert Linked(s.right, s.node, m) && Distinct(s.right) && m[node].parent == s.node;
      assert node in Nodes(s.right) && node !in PathNodes(p) && node !in Nodes(s.left) && node != s.node;
      ResetHeight(node, s.right, ns);
      Kept(s.left, s.node, m, Heap(ns));
      PathKept(p, null, s.node, m, Heap(ns));
      ghost var c := s.right.(height := Reset(Height(s.right.left), Height(s.right.right)));
      SameSelf(s.left);
      SameSelf(s.right);
      HeightSame(s.right, c.height);
      SameParts(s.left, s.left, s.node, s.height, s.height, s.right, c);
    }

    /** The left-heavy round of avltree_fixup. */
    method FixLeft(node: Node, ghost p: Path, ghost s: Shape, ghost ns: set<Node>) returns (top: Node)
      requires Holds(p, s, ns) && s.Fork? && s.node == node && Height(s.right) - Height(s.left) < -1
      modifies this`root, ns
      ensures Holds(p, Rebalance(s), ns) && top == Rebalance(s).node
    {
      hide Reset, Linked, Threaded, Nodes, PathNodes, Distinct, PathDistinct, Order;
      ghost var m := Heap(ns);
      ghost var t := s;
      TopParent(s, Holder(p, null), m);
      top := node.left;
      LeftChildren(s, node.parent, m);
      ChildHeights(s.left, node, m);
      TopParent(s.left, node, m);
      if NodeHeight(top.left) < NodeHeight(top.right) {
        StraightSame(s.left);
        t := s.(left := StraightLeft(s.left));
        SameParts(s.left, t.left, s.node, s.height, s.height, s.right, s.right);
        top := StraightenLeft(node, s, ns);
        PathKept(p, null, node, m, Heap(ns));
      }
      assert Nodes(t) == Nodes(s);
      top := TurnRight(node, p, t, ns);
    }

    /** One round of the climb, on to the parent. */
    method FixOnce(node: Node, ghost p: Path, ghost s: Shape, ghost ns: set<Node>) returns (up: Node?)
      requires Holds(p, s, ns) && s.Fork? && s.node == node
      modifies this`root, ns
      ensures Holds(p, Rebalance(s), ns) && up == Holder(p, null)
    {
      hide Rebalance, Threaded, Distinct, PathDistinct;
      ChildHeights(s, Holder(p, null), Heap(ns));
      var balance := NodeHeight(node.right) - NodeHeight(node.left);
      var top := node;
      if balance > 1 {
        top := FixRight(node, p, s, ns);
      } else if balance < -1 {
        top := FixLeft(node, p, s, ns);
      } else {
        FixLevel(node, p, s, ns);
        SameTop(s);
      }
      return top.parent;
    }

    /** avltree_fixup: from the node above the hole to the root.  It ends whatever the heights are. */
    method Fixup(start: Node?, ghost p: Path, ghost s: Shape, ghost ns: set<Node>)
      requires Holds(p, s, ns) && start == Holder(p, null)
      modifies this, ns
      ensures Valid() && shape == Climb(p, s)
    {
      hide Rebalance, Climb, Linked, Threaded, Raise, Distinct, PathDistinct;
      ghost var q, t := p, s;
      var node := start;
      while node != null
        invariant Holds(q, t, ns) && node == Holder(q, null) && Climb(q, t) == Climb(p, s)
        decreases q
      {
        ghost var u := Raise(q, t);
        RaiseHolds(q, t, Heap(ns));
        ClimbOnce(q, t);
        q := q.up;
        t := Rebalance(u);
        node := FixOnce(node, q, u, ns);
      }
      AtTheRoot(q, t, root, Heap(ns));
      shape := t;
    }

    method FixLevel(node: Node, ghost p: Path, ghost s: Shape, ghost ns: set<Node>)
      requires Holds(p, s, ns) && s.Fork? && s.node == node && -1 <= Height(s.right) - Height(s.left) <= 1
      modifies node`height
      ensures Holds(p, Rebalance(s), ns)
    {
      hide Reset;
      RebalanceSame(s);
      ghost var m := Heap(ns);
      ResetHeight(node, s, ns);
      PathKept(p, null, node, m, Heap(ns));
    }

    /** insert_at_loc. */
    method InsertAt(node: Node, parent: Node?, link: Link, ghost p: Path, ghost ns: set<Node>)
      requires Holds(p, Leaf, ns) && node !in ns && parent == Holder(p, null) && link == LinkOf(p)
      modifies this, ns, node
      ensures Valid() && shape == Climb(p, Fork(Leaf, node, 1, Leaf))
    {
      hide Linked, Threaded, PathNodes, PathDistinct, Climb;
      ghost var all := ns + {node};
      ghost var m := Heap(ns);
      node.height := 1;
      node.left := null;
      node.right := null;
      node.parent := parent;
      PathKept(p, null, null, m, Heap(all));
      ghost var m' := Heap(all);
      SetLink(link, node, p, null, all);
      NewNode(node, parent, Heap(all));
      Fixup(parent, p, Fork(Leaf, node, 1, Leaf), all);
    }

    /** The descent of avltree_insert, to an empty link or to an equal node. */
    method Descend(node: Node, cmp: (Node, Node) -> int) returns (equal: bool, parent: Node?, link: Link, ghost p: Path)
      requires Valid()
      ensures equal <==> Spot(Root, shape, node, cmp).None?
      ensures !equal ==>
                p == Spot(Root, shape, node, cmp).value && parent == Holder(p, null) && link == LinkOf(p) &&
                Holds(p, Leaf, Nodes(shape))
    {
      hide Linked, Threaded, Nodes, PathNodes, Distinct, PathDistinct;
      ghost var ns := Nodes(shape);
      parent := null;
      var curr := root;
      link := AtRoot;
      p := Root;
      ghost var s := shape;
      ViewedFromRoot(shape, root, Heap(ns));
      while curr != null
        invariant Holds(p, s, ns) && curr == Top(s) && parent == Holder(p, null) && link == LinkOf(p)
        invariant Spot(p, s, node, cmp) == Spot(Root, shape, node, cmp)
        decreases s
      {
        var compare := cmp(node, curr);
        LowerSeen(p, s, root, Heap(ns));
        if compare == 0 {
          return true, parent, link, p;
        }
        parent := curr;
        if compare < 0 {
          link := AtLeft(curr);
          curr := curr.left;
          p, s := GoLeft(p, s), s.left;
        } else {
          link := AtRight(curr);
          curr := curr.right;
          p, s := GoRight(p, s), s.right;
        }
      }
      equal := false;
    }

    /** avltree_insert: false, and nothing changed, exactly when the comparator says equal on the way
        down; else the node stands in the sequence where the descent ended. */
    method Insert(node: Node, cmp: (Node, Node) -> int) returns (ok: bool)
      requires Valid() && node !in Nodes(shape)
      modifies this, Nodes(shape), node
      ensures Valid()
      ensures ok <==> Spot(Root, old(shape), node, cmp).Some?
      ensures !ok ==> shape == old(shape) && root == old(root) && Heap(Nodes(shape)) == old(Heap(Nodes(shape)))
      ensures ok ==>
                var p := Spot(Root, old(shape), node, cmp).value;
                var i, o := |Before(p)|, old(Order(shape));
                shape == Climb(p, Fork(Leaf, node, 1, Leaf)) && Nodes(shape) == old(Nodes(shape)) + {node} &&
                i <= |o| && Order(shape) == o[..i] + [node] + o[i..]
    {
      hide Linked, Threaded, Climb, Spot, Order, Before, Distinct, PathDistinct;
      ghost var ns, m := Nodes(shape), Heap(Nodes(shape));
      var equal, parent, link, p := Descend(node, cmp);
      assert Heap(ns) == m by {
        assert forall n | n in ns :: Heap(ns)[n] == m[n];
      }
      if equal {
        return false;
      }
      SpotFits(Root, shape, node, cmp);
      NothingAround();
      PlacedAt(p, Order(shape), node);
      InsertAt(node, parent, link, p, Nodes(shape));
      return true;
    }

    /** The writes of avltree_delete_node when the successor is the right child. */
    method ExchangeNear(node: Node, nodeLink: Link)
      requires node.left != null && node.right != null
      requires node != node.left && node != node.right && node.left != node.right
      requires node.right.right != node && node.right.right != node.left && node.right.right != node.right
      requires nodeLink.AtRoot? || nodeLink.of !in {node, node.left, node.right, node.right.right}
      modifies this`root, node, node.left, node.right, node.right.right, Written(nodeLink)
      ensures var l, u, c := old(node.left), old(node.right), old(node.right.right);
              && At(node) == Cell(u, null, c, old(u.height))
              && At(u) == Cell(old(node.parent), l, node, old(node.height))
              && At(l) == old(At(l)).(parent := u)
              && (c != null ==> At(c) == old(At(c)).(parent := node))
              && StoredIn(nodeLink, u)
    {
      var successor := node.right;
      var left := node.left;
      node.left := null;
      node.right := successor.right;
      successor.left := left;
      successor.right := node;
      left.parent := successor;
      if node.right != null {
        node.right.parent := node;
      }
      successor.right := node;
      successor.parent := node.parent;
      node.parent := successor;
      Store(nodeLink, successor);
      node.height, successor.height := successor.height, node.height;
    }

    twostate predicate StoredIn(link: Link, v: Node?)
      reads this, Written(link)
    {
      match link
      case AtRoot => root == v
      case AtLeft(n) => root == old(root) && At(n) == old(At(n)).(left := v)
      case AtRight(n) => root == old(root) && At(n) == old(At(n)).(right := v)
    }

    /** avltree_delete_node, when the successor is the right child: afterwards the two have changed
        places, heights included. */
    method SwapNear(node: Node, nodeLink: Link, ghost p: Path, ghost s: Shape, ghost ns: set<Node>)
      returns (link: Link, parent: Node)
      requires Holds(p, s, ns) && s.Fork? && s.node == node && nodeLink == LinkOf(p)
      requires s.left.Fork? && s.right.Fork? && s.right.left.Leaf?
      modifies this`root, ns
      ensures var u := s.right;
              var q := RightOf(p, s.left, u.node, s.height);
              Holds(q, Fork(Leaf, node, u.height, u.right), ns) && link == LinkOf(q) && parent == u.node
    {
      hide Nodes, PathNodes, Distinct, PathDistinct, Linked, Threaded, Apart;
      ghost var m := Heap(ns);
      NearParts(p, s);
      TopParent(s, Holder(p, null), m);
      ForkLinks(s, Holder(p, null), m);
      TopParent(s.right, node, m);
      var successor := node.right;
      ExchangeNear(node, nodeLink);
      assert Relinked(p, s, s.right, m, Heap(ns));
      FirstRefilled(p, node, successor);
      SwappedNear(p, s, old(root), m, Heap(ns));
      return AtRight(successor), successor;
    }

    /** The loop to the successor, below a right child that has a left child. */
    method FindSuccessor(top: Node, ghost t: Shape, ghost ns: set<Node>)
      returns (successor: Node, parent: Node, ghost q: Path, ghost u: Shape)
      requires t.Fork? && Nodes(t) <= ns && top.left == t.node && Hangs(Root, t, top, Heap(ns))
      ensures (q, u) == Leftmost(Root, t) && Hangs(q, u, top, Heap(ns)) && PathNodes(q) + Nodes(u) == Nodes(t)
      ensures successor == u.node && parent == Holder(q, top) && !q.RightOf?
    {
      hide Nodes, PathNodes, Distinct, PathDistinct, Linked, Threaded, Apart;
      successor := top.left;
      parent := top;
      q, u := Root, t;
      NoPath(t);
      LowerHangs(q, u, top, Heap(ns));
      while successor.left != null
        invariant u.Fork? && u.node == successor && Hangs(q, u, top, Heap(ns)) && PathNodes(q) + Nodes(u) == Nodes(t)
        invariant Leftmost(q, u) == Leftmost(Root, t) && parent == Holder(q, top) && !q.RightOf?
        invariant successor in Heap(ns) && At(successor) == Cell(parent, Top(u.left), Top(u.right), u.height)
        decreases u
      {
        parent := successor;
        LowerHangs(q, u, top, Heap(ns));
        q, u := GoLeft(q, u), u.left;
        LowerHangs(q, u, top, Heap(ns));
        successor := successor.left;
      }
    }

    /** The writes to the children: the successor, which has no left child, takes those of the node. */
    method ExchangeChildren(node: Node, successor: Node)
      requires node.left != null && node.right != null
      requires var l, t, c := node.left, node.right, successor.right;
               node != l && node != t && l != t && successor !in {node, l, t} && c !in {node, l, t, successor}
      modifies node, node.left, node.right, successor, successor.right
      ensures var l, t, c := old(node.left), old(node.right), old(successor.right);
              && At(node) == old(At(node)).(left := null, right := c)
              && At(successor) == old(At(successor)).(left := l, right := t)
              && At(l) == old(At(l)).(parent := successor) && At(t) == old(At(t)).(parent := successor)
              && (c != null ==> At(c) == old(At(c)).(parent := node))
    {
      var left := node.left;
      successor.left := left;
      left.parent := successor;
      node.left := null;
      node.right, successor.right := successor.right, node.right;
      successor.right.parent := successor;
      if node.right != null {
        node.right.parent := node;
      }
    }

    /** The writes of avltree_delete_node when the successor, found below `parent`, is further down. */
    method ExchangeDeep(node: Node, nodeLink: Link, successor: Node, parent: Node)
      requires node.left != null && node.right != null
      requires var l, t, c := node.left, node.right, successor.right;
               && node != l && node != t && l != t && successor !in {node, l, t}
               && c !in {node, l, t, successor} && parent !in {node, l, successor, c}
               && (nodeLink.AtRoot? || nodeLink.of !in {node, l, t, c, successor, parent})
      modifies this`root, node, node.left, node.right, successor, successor.right, parent, Written(nodeLink)
      ensures var l, t, c := old(node.left), old(node.right), old(successor.right);
              && At(node) == Cell(parent, null, c, old(successor.height))
              && At(successor) == Cell(old(node.parent), l, t, old(node.height))
              && At(l) == old(At(l)).(parent := successor)
              && (c != null ==> At(c) == old(At(c)).(parent := node))
              && At(t) == (if parent == t then old(At(t)).(parent := successor, left := node) else old(At(t)).(parent := successor))
              && (parent != t ==> At(parent) == old(At(parent)).(left := node))
              && StoredIn(nodeLink, successor)
    {
      ExchangeChildren(node, successor);
      var successorLink := AtLeft(parent);
      Store(successorLink, node);
      Store(nodeLink, successor);
      successor.parent := node.parent;
      node.parent := parent;
      node.height, successor.height := successor.height, node.height;
    }

    /** avltree_delete_node, when the successor is further down. */
    method SwapDeep(node: Node, nodeLink: Link, ghost p: Path, ghost s: Shape, ghost ns: set<Node>)
      returns (link: Link, parent: Node, ghost q: Path, ghost u: Shape)
      requires Holds(p, s, ns) && s.Fork? && s.node == node && nodeLink == LinkOf(p)
      requires s.left.Fork? && s.right.Fork? && s.right.left.Fork?
      modifies this`root, ns
      ensures u.Fork? && u == Leftmost(Root, s.right).1
      ensures q == Leftmost(RightOf(p, s.left, u.node, s.height), s.right).0
      ensures Holds(q, Fork(Leaf, node, u.height, u.right), ns) && link == LinkOf(q) && parent == Holder(q, null)
    {
      hide Nodes, PathNodes, Distinct, PathDistinct, Linked, Threaded, Apart;
      ghost var m := Heap(ns);
      ghost var r := s.right;
      DeepStart(p, s, root, m);
      ghost var t: Path;
      var successor;
      var top := node.right;
      successor, parent, t, u := FindSuccessor(top, r.left, ns);
      assert Heap(ns) == m;
      DeepParts(p, s, t, u, root, m);
      LeftmostFirst(Root, r.left);
      ExchangeDeep(node, nodeLink, successor, parent);
      assert Relinked(p, s, u, m, Heap(ns));
      FirstRefilled(p, node, successor);
      SwappedDeep(p, s, t, u, old(root), m, Heap(ns));
      link := AtLeft(parent);
      q := Compose(LeftOf(RightOf(p, s.left, u.node, s.height), r.node, r.height, r.right), t);
      DeepLeftmost(p, s, t, u);
    }

    /** The end of avltree_delete_node: a node with at most one child gives its place to that child. */
    method Unlink(node: Node, link: Link, parent: Node?, ghost p: Path, ghost s: Shape, ghost ns: set<Node>)
      requires Holds(p, s, ns) && s.Fork? && s.node == node && link == LinkOf(p) && parent == Holder(p, null)
      requires s.left.Leaf? || s.right.Leaf?
      modifies this, ns
      ensures Valid() && shape == Climb(p, if s.left.Leaf? then s.right else s.left) && Nodes(shape) == ns - {node}
    {
      hide Nodes, PathNodes, Distinct, PathDistinct, Linked, Threaded, Climb;
      ghost var m := Heap(ns);
      ghost var c := if s.left.Leaf? then s.right else s.left;
      TopParent(s, parent, m);
      ForkLinks(s, parent, m);
      OnlyChild(p, s, c);
      var child := if node.left != null then node.left else node.right;
      ghost var rest := ns - {node};
      SetLink(link, child, p, node, ns);
      Kept(c, node, m, Heap(ns));
      ghost var m' := Heap(ns);
      if child != null {
        child.parent := parent;
      }
      Moved(c, node, parent, m', Heap(rest));
      PathKept(p, null, child, m', Heap(rest));
      ClimbKeeps(p, c);
      Fixup(parent, p, c, rest);
    }

    /** avltree_delete_node: the old sequence without exactly that node. */
    method Delete(node: Node)
      requires Valid() && node in Nodes(shape)
      modifies this, Nodes(shape)
      ensures Valid() && shape == Without(old(shape), node) && Nodes(shape) == old(Nodes(shape)) - {node}
      ensures exists i | 0 <= i < |old(Order(shape))| ::
                old(Order(shape))[i] == node && Order(shape) == old(Order(shape))[..i] + old(Order(shape))[i + 1..]
    {
      hide Nodes, PathNodes, Distinct, PathDistinct, Linked, Threaded, Climb, Vacated, Leftmost, Order, CutAt;
      ghost var ns := Nodes(shape);
      ghost var (p, s) := CutAt(Root, shape, node);
      WithoutOrder(shape, node);
      Cut(shape, root, node, Heap(ns));
      TopParent(s, Holder(p, null), Heap(ns));
      ForkLinks(s, Holder(p, null), Heap(ns));
      VacatedIs(p, s);
      var link := NodeLink(node, p, s, ns);
      var parent := node.parent;
      ghost var q, t := p, s;
      if node.left != null {
        if node.right != null {
          TopParent(s.right, node, Heap(ns));
          ghost var u := s.right;
          if node.right.left != null {
            link, parent, q, u := SwapDeep(node, link, p, s, ns);
          } else {
            link, parent := SwapNear(node, link, p, s, ns);
            q := RightOf(p, s.left, u.node, s.height);
          }
          t := Fork(Leaf, node, u.height, u.right);
        }
      }
      Unlink(node, link, parent, q, t, ns);
    }

    /** avlnode_successor.  Below a right child it finds the next node of the sequence; else it goes up to
        the first node that has a left child, be it from the left or from the right. */
    method Successor(start: Node, ghost p: Path, ghost s: Shape, ghost ns: set<Node>) returns (r: Node?)
      requires Holds(p, s, ns) && s.Fork? && s.node == start
      ensures s.right.Fork? ==> r == Order(s.right)[0] == (Order(s) + After(p))[|Order(s.left)| + 1]
      ensures s.right.Leaf? ==> (r == Following(p) <==> Clear(p))
    {
      hide Linked, Threaded, Nodes, PathNodes, Distinct, PathDistinct, Order;
      ghost var m := Heap(ns);
      LowerSeen(p, s, root, m);
      var node := start;
      if node.right != null {
        node := node.right;
        ghost var q, t := GoRight(p, s), s.right;
        FirstOfOrder(p, s);
        LowerSeen(q, t, root, m);
        while node.left != null
          invariant t.Fork? && t.node == node && Holds(q, t, ns) && Order(t) != [] && Order(t)[0] == Order(s.right)[0]
          invariant node in ns && At(node) == Cell(Holder(q, null), Top(t.left), Top(t.right), t.height)
          decreases t
        {
          LeftFirst(t);
          LowerSeen(q, t, root, m);
          q, t := GoLeft(q, t), t.left;
          LowerSeen(q, t, root, m);
          node := node.left;
        }
        OrderLeaf(t);
        return node;
      }
      ClimbsUp(p, s);
      ghost var q, t := p, s;
      var up := node.parent;
      while up != null
        invariant Holds(q, t, ns) && t.Fork? && up == Holder(q, null) && FirstWithLeft(q, t) == FirstWithLeft(p, s)
        decreases q
      {
        RaiseHolds(q, t, m);
        FirstStep(q, t);
        q, t := q.up, Raise(q, t);
        if up.left != null {
          return up;
        }
        up := up.parent;
      }
      return null;
    }
  }

  lemma SameTop(s: Shape)
    requires s.Fork? && -1 <= Height(s.right) - Height(s.left) <= 1
    ensures Rebalance(s).node == s.node
  {
  }

  lemma ClimbOnce(p: Path, s: Shape)
    requires !p.Root?
    ensures Climb(p, s) == Climb(p.up, Rebalance(Raise(p, s)))
  {
  }

  lemma AtTheRoot(p: Path, s: Shape, root: Node?, m: map<Node, Cell>)
    requires Seen(p, s, root, m) && Holder(p, null) == null
    ensures PathNodes(p) + Nodes(s) == Nodes(s) && Climb(p, s) == s
    ensures root == Top(s) && Linked(s, null, m) && Distinct(s)
  {
  }

  lemma FirstRefilled(p: Path, was: Node?, hole: Node?)
    ensures First(p, hole) == if p.Root? then hole else First(p, was)
  {
  }

  // ---------- where heights and the successor go wrong ----------

  function ByFront(a: Node, b: Node): int {
    a.range.front - b.range.front
  }

  /** Three insertions, the last of which rotates twice: the node pushed down and the new top keep heights
      that are too large. */
  method DoubleRotation() returns (t: Tree, a: Node, b: Node, c: Node)
    ensures t.Valid() && t.shape == Fork(Fork(Leaf, a, 2, Leaf), b, 3, Fork(Leaf, c, 1, Leaf)) && !Measured(t.shape)
  {
    hide Linked, Heap;
    t := new Tree();
    a := new Node(Range(1, 1));
    b := new Node(Range(2, 1));
    c := new Node(Range(3, 1));
    var ok := t.Insert(c, ByFront);
    assert t.shape == Fork(Leaf, c, 1, Leaf);
    ok := t.Insert(a, ByFront);
    SecondSpot(a, c);
    assert t.shape == Fork(Fork(Leaf, a, 1, Leaf), c, 2, Leaf);
    ok := t.Insert(b, ByFront);
    ThirdSpot(a, b, c);
    assert Depth(Leaf) == 0 && Depth(Fork(Leaf, a, 2, Leaf)) == 1;
  }

  lemma SecondSpot(a: Node, c: Node)
    requires ByFront(a, c) < 0
    ensures Spot(Root, Fork(Leaf, c, 1, Leaf), a, ByFront) == Common.Some(LeftOf(Root, c, 1, Leaf))
    ensures Climb(LeftOf(Root, c, 1, Leaf), Fork(Leaf, a, 1, Leaf)) == Fork(Fork(Leaf, a, 1, Leaf), c, 2, Leaf)
  {
    var s := Fork(Fork(Leaf, a, 1, Leaf), c, 1, Leaf);
    assert Climb(Root, Rebalance(s)) == Rebalance(s);
  }

  lemma ThirdSpot(a: Node, b: Node, c: Node)
    requires ByFront(b, c) < 0 < ByFront(b, a)
    ensures var q := RightOf(LeftOf(Root, c, 2, Leaf), Leaf, a, 1);
            && Spot(Root, Fork(Fork(Leaf, a, 1, Leaf), c, 2, Leaf), b, ByFront) == Common.Some(q)
            && Climb(q, Fork(Leaf, b, 1, Leaf)) == Fork(Fork(Leaf, a, 2, Leaf), b, 3, Fork(Leaf, c, 1, Leaf))
  {
    var up := LeftOf(Root, c, 2, Leaf);
    assert Spot(up, Fork(Leaf, a, 1, Leaf), b, ByFront) == Common.Some(RightOf(up, Leaf, a, 1));
    var s := Rebalance(Fork(Leaf, a, 1, Fork(Leaf, b, 1, Leaf)));
    assert s == Fork(Leaf, a, 2, Fork(Leaf, b, 1, Leaf));
    var t := Rebalance(Fork(s, c, 2, Leaf));
    assert StraightLeft(s) == Fork(Fork(Leaf, a, 2, Leaf), b, 3, Leaf);
    assert t == Fork(Fork(Leaf, a, 2, Leaf), b, 3, Fork(Leaf, c, 1, Leaf));
    assert Climb(up, s) == Climb(Root, t) == t;
  }

  lemma OrderOfThree(a: Node, b: Node, c: Node)
    ensures Order(Fork(Fork(Leaf, a, 2, Leaf), b, 3, Fork(Leaf, c, 1, Leaf))) == [a, b, c]
  {
    assert Order(Leaf) == [] && Order(Fork(Leaf, a, 2, Leaf)) == [a] && Order(Fork(Leaf, c, 1, Leaf)) == [c];
  }

  lemma WholeSeen(s: Shape, root: Node?, m: map<Node, Cell>)
    requires root == Top(s) && Linked(s, null, m) && Distinct(s)
    ensures Seen(Root, s, root, m)
  {
  }

  lemma LastOnRight(left: Shape, n: Node, h: U32)
    requires left.Fork?
    ensures Following(RightOf(Root, left, n, h)) == null && !Clear(RightOf(Root, left, n, h))
  {
    assert After(Root) == [];
  }

  /** In the same tree the last node of the sequence has a successor all the same. */
  method LastHasSuccessor() returns (t: Tree, last: Node, r: Node?)
    ensures t.Valid() && |Order(t.shape)| == 3 && Order(t.shape)[2] == last && r != null
  {
    hide Linked, Heap;
    var a, b;
    t, a, b, last := DoubleRotation();
    OrderOfThree(a, b, last);
    ghost var ns := Nodes(t.shape);
    WholeSeen(t.shape, t.root, Heap(ns));
    LowerSeen(Root, t.shape, t.root, Heap(ns));
    LastOnRight(Fork(Leaf, a, 2, Leaf), b, 3);
    r := t.Successor(last, RightOf(Root, Fork(Leaf, a, 2, Leaf), b, 3), Fork(Leaf, last, 1, Leaf), ns);
  }
}

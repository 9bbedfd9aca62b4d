/** Device trees as values, the item sequence a tree is written as (Devicetree Specification v0.4,
    section 5.4.2), the parser that undoes it, and contexts that single out one node of a tree. */
module FdtTree {
  import opened Bytes

  datatype Property = Property(name: seq<Byte>, value: seq<Byte>)

  datatype Node = Node(name: seq<Byte>, props: seq<Property>, children: seq<Node>)

  datatype Item = Open(name: seq<Byte>) | Attr(prop: Property) | Close

  function Attrs(ps: seq<Property>): (s: seq<Item>)
    ensures |s| == |ps|
    ensures forall i | 0 <= i < |s| :: s[i] == Attr(ps[i])
  {
    seq(|ps|, i requires 0 <= i < |ps| => Attr(ps[i]))
  }

  function Flatten(n: Node): (s: seq<Item>)
    decreases n, 1
  {
    [Open(n.name)] + Attrs(n.props) + FlattenAll(n.children) + [Close]
  }

  function FlattenAll(ns: seq<Node>): (s: seq<Item>)
    decreases ns, 0
  {
    if ns == [] then [] else Flatten(ns[0]) + FlattenAll(ns[1..])
  }

  // ---------- parsing ----------

  datatype Parsed<T> = Fail | Done(value: T, rest: seq<Item>)

  /** The attributes at the front of `s`. */
  function ParseAttrs(s: seq<Item>): (r: (seq<Property>, seq<Item>))
    ensures s == Attrs(r.0) + r.1
    ensures r.1 != [] ==> !r.1[0].Attr?
  {
    if s == [] || !s[0].Attr? then ([], s)
    else
      var (ps, rest) := ParseAttrs(s[1..]);
      assert Attrs([s[0].prop] + ps) == [s[0]] + Attrs(ps);
      assert s == [s[0]] + s[1..];
      ([s[0].prop] + ps, rest)
  }

  function ParseNode(s: seq<Item>): (r: Parsed<Node>)
    ensures r.Done? ==> |r.rest| < |s|
    decreases |s|, 0
  {
    if s == [] || !s[0].Open? then Fail
    else
      var (props, body) := ParseAttrs(s[1..]);
      match ParseNodes(body)
      case Fail => Fail
      case Done(children, rest) =>
        if rest != [] && rest[0].Close? then Done(Node(s[0].name, props, children), rest[1..]) else Fail
  }

  function ParseNodes(s: seq<Item>): (r: Parsed<seq<Node>>)
    ensures r.Done? ==> |r.rest| <= |s|
    decreases |s|, 1
  {
    if s == [] || !s[0].Open? then Done([], s)
    else
      match ParseNode(s)
      case Fail => Fail
      case Done(n, rest) =>
        match ParseNodes(rest)
        case Fail => Fail
        case Done(ns, rest') => Done([n] + ns, rest')
  }

  /** What the parser accepts is what printing its result gives. */
  lemma {:induction false} ParseSound(s: seq<Item>)
    requires ParseNode(s).Done?
    ensures s == Flatten(ParseNode(s).value) + ParseNode(s).rest
    decreases |s|, 0
  {
    hide ParseNodes, FlattenAll, Attrs, ParseAttrs;
    var a := ParseAttrs(s[1..]);
    ParseNodesSound(a.1);
    var r := ParseNodes(a.1);
    assert s == [s[0]] + s[1..];
    assert r.rest == [Close] + r.rest[1..];
    Regroup([s[0]], Attrs(a.0), FlattenAll(r.value), [Close], r.rest[1..]);
  }

  /** Bracketing of concatenations. */
  lemma Regroup<T>(a: seq<T>, b: seq<T>, c: seq<T>, d: seq<T>, e: seq<T>)
    ensures a + (b + (c + (d + e))) == a + b + c + d + e
    ensures a + (b + c + d) + e == (a + b) + c + (d + e)
  {
  }

  lemma {:induction false} ParseNodesSound(s: seq<Item>)
    requires ParseNodes(s).Done?
    ensures s == FlattenAll(ParseNodes(s).value) + ParseNodes(s).rest
    decreases |s|, 1
  {
    hide ParseNode, Flatten;
    if s != [] && s[0].Open? {
      ParseSound(s);
      var n, rest := ParseNode(s).value, ParseNode(s).rest;
      ParseNodesSound(rest);
      var ns := ParseNodes(rest).value;
      FlattenCons(n, ns);
      assert Flatten(n) + (FlattenAll(ns) + ParseNodes(rest).rest) == Flatten(n) + FlattenAll(ns) + ParseNodes(rest).rest;
    } else {
      assert [] + s == s;
    }
  }

  lemma FlattenCons(n: Node, ns: seq<Node>)
    ensures FlattenAll([n] + ns) == Flatten(n) + FlattenAll(ns)
  {
    hide Flatten;
    assert ([n] + ns)[1..] == ns;
  }

  lemma {:induction false} ParseAttrsComplete(ps: seq<Property>, t: seq<Item>)
    requires t == [] || !t[0].Attr?
    ensures ParseAttrs(Attrs(ps) + t) == (ps, t)
  {
    if ps == [] {
      assert Attrs(ps) + t == t;
    } else {
      ParseAttrsComplete(ps[1..], t);
      assert (Attrs(ps) + t)[1..] == Attrs(ps[1..]) + t;
      assert [ps[0]] + ps[1..] == ps;
    }
  }

  /** Parsing undoes printing, whatever follows. */
  lemma {:induction false} ParseComplete(n: Node, t: seq<Item>)
    ensures ParseNode(Flatten(n) + t) == Done(n, t)
    decreases n, 1
  {
    var s := Flatten(n) + t;
    var inner := FlattenAll(n.children) + ([Close] + t);
    assert s[1..] == Attrs(n.props) + inner;
    if n.children != [] {
      assert inner[0] == Flatten(n.children[0])[0];
    }
    ParseAttrsComplete(n.props, inner);
    ParseNodesComplete(n.children, [Close] + t);
    assert ([Close] + t)[1..] == t;
  }

  lemma {:induction false} ParseNodesComplete(ns: seq<Node>, t: seq<Item>)
    requires t == [] || !t[0].Open?
    ensures ParseNodes(FlattenAll(ns) + t) == Done(ns, t)
    decreases ns, 0
  {
    if ns == [] {
      assert FlattenAll(ns) + t == t;
    } else {
      var rest := FlattenAll(ns[1..]) + t;
      assert FlattenAll(ns) + t == Flatten(ns[0]) + rest;
      ParseComplete(ns[0], rest);
      ParseNodesComplete(ns[1..], t);
      assert [ns[0]] + ns[1..] == ns;
    }
  }

  lemma FlattenInjective(m: Node, n: Node)
    requires Flatten(m) == Flatten(n)
    ensures m == n
  {
    ParseComplete(m, []);
    ParseComplete(n, []);
    assert Flatten(m) + [] == Flatten(n) + [];
  }

  // ---------- contexts ----------

  /** A tree with one child position left open. */
  datatype Context =
    | Top
    | Inside(up: Context, name: seq<Byte>, props: seq<Property>, left: seq<Node>, right: seq<Node>)

  function Plug(c: Context, n: Node): Node {
    match c
    case Top => n
    case Inside(up, name, props, left, right) => Plug(up, Node(name, props, left + [n] + right))
  }

  /** The tree with the nodes `ns` at the open position. */
  function PlugAll(c: Context, ns: seq<Node>): Node
    requires c.Inside?
  {
    Plug(c.up, Node(c.name, c.props, c.left + ns + c.right))
  }

  function Before(c: Context): (s: seq<Item>) {
    match c
    case Top => []
    case Inside(up, name, props, left, right) => Before(up) + [Open(name)] + Attrs(props) + FlattenAll(left)
  }

  function After(c: Context): (s: seq<Item>) {
    match c
    case Top => []
    case Inside(up, name, props, left, right) => FlattenAll(right) + [Close] + After(up)
  }

  lemma {:induction false} FlattenAllConcat(ms: seq<Node>, ns: seq<Node>)
    ensures FlattenAll(ms + ns) == FlattenAll(ms) + FlattenAll(ns)
  {
    if ms == [] {
      assert ms + ns == ns;
    } else {
      assert (ms + ns)[1..] == ms[1..] + ns;
      FlattenAllConcat(ms[1..], ns);
    }
  }

  lemma FlattenOne(n: Node)
    ensures FlattenAll([n]) == Flatten(n)
  {
    assert [n][1..] == [];
    assert Flatten(n) + [] == Flatten(n);
  }

  /** Replacing the node at a position replaces exactly its items. */
  lemma {:induction false} FlattenPlug(c: Context, n: Node)
    ensures Flatten(Plug(c, n)) == Before(c) + Flatten(n) + After(c)
    decreases c, 1
  {
    match c
    case Top =>
    case Inside(up, name, props, left, right) =>
      FlattenOne(n);
      FlattenPlugAll(c, [n]);
      assert Plug(c, n) == PlugAll(c, [n]);
  }

  lemma {:induction false} FlattenPlugAll(c: Context, ns: seq<Node>)
    requires c.Inside?
    ensures Flatten(PlugAll(c, ns)) == Before(c) + FlattenAll(ns) + After(c)
    decreases c, 0
  {
    var m := Node(c.name, c.props, c.left + ns + c.right);
    FlattenPlug(c.up, m);
    FlattenAllConcat(c.left + ns, c.right);
    FlattenAllConcat(c.left, ns);
    RegroupPlug(Before(c.up), [Open(c.name)], Attrs(c.props), FlattenAll(c.left), FlattenAll(ns),
                FlattenAll(c.right), [Close], After(c.up));
  }

  lemma RegroupPlug<T>(a: seq<T>, b: seq<T>, c: seq<T>, l: seq<T>, m: seq<T>, r: seq<T>, d: seq<T>, e: seq<T>)
    ensures a + (b + c + (l + m + r) + d) + e == (a + b + c + l) + m + (r + d + e)
  {
    assert b + c + (l + m + r) + d == (b + c + l) + m + (r + d);
    assert a + ((b + c + l) + m + (r + d)) + e == (a + (b + c + l)) + m + ((r + d) + e);
    assert a + (b + c + l) == a + b + c + l;
  }

  /** Every Open item of a tree belongs to one node, in one context. */
  lemma {:induction false} Locate(t: Node, i: nat) returns (c: Context, n: Node)
    requires i < |Flatten(t)| && Flatten(t)[i].Open?
    ensures t == Plug(c, n) && |Before(c)| == i
    decreases t, 1
  {
    if i == 0 {
      return Top, t;
    }
    assert Flatten(t)[1..1 + |t.props|] == Attrs(t.props);
    var j := i - 1 - |t.props|;
    assert forall k | 1 <= k < 1 + |t.props| :: Flatten(t)[k] == Attrs(t.props)[k - 1];
    assert 0 <= j < |FlattenAll(t.children)| && FlattenAll(t.children)[j] == Flatten(t)[i];
    var left, m, right, k := LocateAll(t.children, j);
    c, n := Locate(m, k);
    var base := Inside(Top, t.name, t.props, left, right);
    assert Plug(base, m) == t;
    PlugCompose(base, c, n);
    c := Compose(base, c);
  }

  lemma {:induction false} LocateAll(ns: seq<Node>, j: nat)
    returns (left: seq<Node>, m: Node, right: seq<Node>, k: nat)
    requires j < |FlattenAll(ns)| && FlattenAll(ns)[j].Open?
    ensures ns == left + [m] + right && j == |FlattenAll(left)| + k
    ensures k < |Flatten(m)| && Flatten(m)[k].Open?
    ensures m in ns
    decreases ns, 0
  {
    if j < |Flatten(ns[0])| {
      left, m, right, k := [], ns[0], ns[1..], j;
    } else {
      left, m, right, k := LocateAll(ns[1..], j - |Flatten(ns[0])|);
      FlattenOne(ns[0]);
      FlattenAllConcat([ns[0]], left);
      left := [ns[0]] + left;
      assert ns == [ns[0]] + ns[1..];
    }
  }

  /** `inner` placed at the open position of `outer`. */
  function Compose(outer: Context, inner: Context): Context {
    match inner
    case Top => outer
    case Inside(up, name, props, left, right) => Inside(Compose(outer, up), name, props, left, right)
  }

  lemma {:induction false} PlugCompose(outer: Context, inner: Context, n: Node)
    ensures Plug(Compose(outer, inner), n) == Plug(outer, Plug(inner, n))
    ensures Before(Compose(outer, inner)) == Before(outer) + Before(inner)
    decreases inner
  {
    hide FlattenAll, Attrs;
    match inner
    case Top =>
      assert Before(outer) + [] == Before(outer);
    case Inside(up, name, props, left, right) =>
      PlugCompose(outer, up, Node(name, props, left + [n] + right));
      Rebracket(Before(outer), Before(up), [Open(name)], Attrs(props), FlattenAll(left));
  }

  // ---------- nesting ----------

  /** Change of depth over a run of items. */
  function Net(s: seq<Item>): int {
    if s == [] then 0 else Step(s[0]) + Net(s[1..])
  }

  function Step(i: Item): int {
    match i
    case Open(_) => 1
    case Close => -1
    case Attr(_) => 0
  }

  /** Reading `s` from depth `d` never closes the node at depth 0 and opens none at depth `t`. */
  predicate Stays(s: seq<Item>, d: int, t: int) {
    s == [] ||
    (d + Step(s[0]) >= 0 && (s[0].Open? ==> d + 1 != t) && Stays(s[1..], d + Step(s[0]), t))
  }

  lemma {:induction false} StaysConcat(s: seq<Item>, u: seq<Item>, d: int, t: int)
    ensures Net(s + u) == Net(s) + Net(u)
    ensures Stays(s + u, d, t) <==> Stays(s, d, t) && Stays(u, d + Net(s), t)
  {
    if s == [] {
      assert s + u == u;
    } else {
      assert (s + u)[1..] == s[1..] + u;
      StaysConcat(s[1..], u, d + Step(s[0]), t);
    }
  }

  lemma {:induction false} StaysAttrs(ps: seq<Property>, d: int, t: int)
    requires d >= 0
    ensures Stays(Attrs(ps), d, t) && Net(Attrs(ps)) == 0
  {
    if ps != [] {
      assert Attrs(ps)[1..] == Attrs(ps[1..]);
      StaysAttrs(ps[1..], d, t);
    }
  }

  /** A whole subtree is skipped by depth counting. */
  lemma {:induction false} StaysNode(n: Node, d: int, t: int)
    requires d >= 0 && t <= d
    ensures Stays(Flatten(n), d, t) && Net(Flatten(n)) == 0
    decreases n, 1
  {
    var a, b := [Open(n.name)], Attrs(n.props);
    StaysAttrs(n.props, d + 1, t);
    StaysNodes(n.children, d + 1, t);
    assert a[1..] == [] && [Close][1..] == [];
    StaysConcat(a, b, d, t);
    StaysConcat(a + b, FlattenAll(n.children), d, t);
    StaysConcat(a + b + FlattenAll(n.children), [Close], d, t);
  }

  lemma {:induction false} StaysNodes(ns: seq<Node>, d: int, t: int)
    requires d >= 0 && t <= d
    ensures Stays(FlattenAll(ns), d, t) && Net(FlattenAll(ns)) == 0
    decreases ns, 0
  {
    if ns != [] {
      StaysNode(ns[0], d, t);
      StaysNodes(ns[1..], d, t);
      StaysConcat(Flatten(ns[0]), FlattenAll(ns[1..]), d, t);
    }
  }

  lemma {:induction false} StaysPrefix(s: seq<Item>, d: int, t: int, i: nat)
    requires Stays(s, d, t) && d >= 0 && i <= |s|
    ensures d + Net(s[..i]) >= 0
  {
    if i == 0 {
    } else {
      StaysPrefix(s[1..], d + Step(s[0]), t, i - 1);
      assert s[..i][1..] == s[1..][..i - 1];
    }
  }

  // ---------- ancestors ----------

  function ContextDepth(c: Context): (d: nat) {
    match c
    case Top => 0
    case Inside(up, _, _, _, _) => 1 + ContextDepth(up)
  }

  /** The context and the node found `k` levels below the root on the way to `n`. */
  function Ancestor(c: Context, n: Node, k: nat): (r: (Context, Node))
    requires k <= ContextDepth(c)
    ensures Plug(r.0, r.1) == Plug(c, n) && ContextDepth(r.0) == k
  {
    if k == ContextDepth(c) then (c, n)
    else Ancestor(c.up, Node(c.name, c.props, c.left + [n] + c.right), k)
  }

  /** What stands between a parent's begin tag and the node keeps the parent open. */
  lemma BeforeSinceParent(c: Context, d: nat) returns (own: seq<Item>)
    requires c.Inside?
    ensures Before(c) == Before(c.up) + ([Open(c.name)] + own)
    ensures Stays(own, d, -1) && Net(own) == 0
  {
    hide Stays, Net, Attrs, FlattenAll;
    var p, q := Attrs(c.props), FlattenAll(c.left);
    own := p + q;
    StaysAttrs(c.props, d, -1);
    StaysNodes(c.left, d, -1);
    StaysConcat(p, q, d, -1);
    Rebracket3(Before(c.up), [Open(c.name)], p, q);
  }

  /** Behind an ancestor's begin tag, and up to the node, the ancestor is never closed. */
  lemma {:induction false} BeforeSinceAncestor(c: Context, n: Node, k: nat) returns (z: seq<Item>)
    requires k < ContextDepth(c)
    ensures Before(c) == Before(Ancestor(c, n, k).0) + ([Open(Ancestor(c, n, k).1.name)] + z)
    ensures Stays(z, 0, -1) && Net(z) == ContextDepth(c) - k - 1
  {
    hide Stays, Net, Before;
    var m := Node(c.name, c.props, c.left + [n] + c.right);
    var d := ContextDepth(c) - k - 1;
    assert Ancestor(c, n, k) == Ancestor(c.up, m, k);
    var own := BeforeSinceParent(c, d);
    if d == 0 {
      z := own;
    } else {
      var y := BeforeSinceAncestor(c.up, m, k);
      var r := Ancestor(c.up, m, k);
      var o := [Open(c.name)];
      OneOpen(c.name, d - 1);
      StaysConcat(o, own, d - 1, -1);
      StaysConcat(y, o + own, 0, -1);
      z := y + (o + own);
      Rebracket3(Before(r.0), [Open(r.1.name)], y, o + own);
    }
  }

  lemma OneOpen(name: seq<Byte>, d: int)
    requires d >= 0
    ensures Net([Open(name)]) == 1 && Stays([Open(name)], d, -1)
  {
    assert [Open(name)][1..] == [];
  }

  lemma Rebracket3<T>(a: seq<T>, b: seq<T>, p: seq<T>, q: seq<T>)
    ensures a + b + p + q == a + (b + (p + q))
    ensures (a + (b + p)) + q == a + (b + (p + q))
  {
    assert (a + b) + p == a + (b + p);
    assert (b + p) + q == b + (p + q);
    assert (a + (b + p)) + q == a + ((b + p) + q);
  }

  lemma Rebracket<T>(a: seq<T>, b: seq<T>, o: seq<T>, p: seq<T>, q: seq<T>)
    ensures (a + b) + o + p + q == a + (b + o + p + q)
  {
    assert (a + b) + o == a + (b + o);
    assert (a + (b + o)) + p == a + ((b + o) + p);
    assert (a + ((b + o) + p)) + q == a + (((b + o) + p) + q);
  }
}

/** fdt_supernode_atdepth_offset, fdt_node_depth and fdt_parent_offset (kernel/fdt/fdt_ro.c): one
    forward scan from the root that remembers the last begin tag seen at a depth. */
module FdtParent {
  import opened Bytes
  import opened FdtFormat
  import opened FdtTree
  import opened FdtDecode
  import opened FdtPlace
  import opened FdtTags
  import opened FdtNav
  import opened FdtFamily

  /** The scan, from offset `at` at depth `d`; `last` is the remembered offset. */
  function Super(s: seq<Byte>, at: int, d: int, node: int, k: int, last: int): (r: (int, int))
    decreases |s| + 4 - at
  {
    if at < 0 || at >= |s| + 4 then (-BADOFFSET, d)
    else if at > node then (-BADOFFSET, d)
    else
      var last' := if d == k then at else last;
      if at == node then (if k > d then -NOTFOUND else last', d)
      else if NodeNext(s, at) < 0 then (-BADSTRUCTURE, d)
      else
        match Ahead(s, NodeNext(s, at), d)
        case Found(at', d') => if at' > at then Super(s, at', d', node, k, last') else (0, d)
        case Left(at', d') => if at' > at then Super(s, at', d', node, k, last') else (0, d)
        case Stop(e) => (if e == NOTFOUND then -BADOFFSET else -e, d)
  }

  /** fdt_supernode_atdepth_offset. */
  method SupernodeAtDepth(b: Blob, node: I32, k: int) returns (r: I32, nodedepth: int)
    requires Readable(b)
    ensures if k < 0 then r == -NOTFOUND
            else r == Super(StructBlock(b), 0, 0, node, k, -INTERNAL).0
    ensures k >= 0 && r >= 0 ==> nodedepth == Super(StructBlock(b), 0, 0, node, k, -INTERNAL).1
  {
    hide LexOne, StructBlock, Ahead, NodeNext;
    BlockSize(b);
    nodedepth := 0;
    if k < 0 {
      return -NOTFOUND, nodedepth;
    }
    ghost var s := StructBlock(b);
    ghost var goal := Super(s, 0, 0, node, k, -INTERNAL);
    var offset: I32, depth := 0, 0;
    r := -INTERNAL;
    while offset >= 0 && offset <= node
      invariant -POW31 <= offset < |s| + 4
      invariant offset >= 0 ==> goal == Super(s, offset, depth, node, k, r)
      invariant offset < 0 ==>
                  goal.0 == if offset == -NOTFOUND then -BADOFFSET else if offset == -BADOFFSET then -BADSTRUCTURE else offset
      decreases if offset < 0 then 0 else |s| + 5 - offset
    {
      if depth == k {
        r := offset;
      }
      if offset == node {
        nodedepth := depth;
        if k > depth {
          r := -NOTFOUND;
        }
        return;
      }
      ghost var d, was := depth, offset;
      if NodeNext(s, offset) >= 0 {
        AheadBounds(s, NodeNext(s, offset), d);
        NodeNextUp(s, offset);
      }
      offset, depth := NextNode(b, offset, depth);
    }
    if offset == -NOTFOUND || offset >= 0 {
      r := -BADOFFSET;
    } else if offset == -BADOFFSET {
      r := -BADSTRUCTURE;
    } else {
      r := offset;
    }
  }

  lemma NodeNextUp(s: seq<Byte>, o: int)
    requires NodeNext(s, o) >= 0
    ensures NodeNext(s, o) > o
  {
  }

  /** fdt_node_depth. */
  method NodeDepth(b: Blob, node: I32) returns (r: int)
    requires Readable(b)
    ensures var top := Super(StructBlock(b), 0, 0, node, 0, -INTERNAL);
            r == if top.0 < 0 then top.0 else if top.0 > 0 then -INTERNAL else top.1
  {
    hide StructBlock, Super;
    var err, nodedepth := SupernodeAtDepth(b, node, 0);
    if err != 0 {
      return if err < 0 then err else -INTERNAL;
    }
    return nodedepth;
  }

  /** fdt_parent_offset. */
  method ParentOffset(b: Blob, node: I32) returns (r: int)
    requires Readable(b)
    ensures r == Parent(StructBlock(b), node)
  {
    hide StructBlock, Super;
    var nodedepth := NodeDepth(b, node);
    if nodedepth < 0 {
      return nodedepth;
    }
    var depth;
    r, depth := SupernodeAtDepth(b, node, nodedepth - 1);
  }

  function Parent(s: seq<Byte>, node: int): int {
    var top := Super(s, 0, 0, node, 0, -INTERNAL);
    if top.0 < 0 then top.0
    else if top.0 > 0 then -INTERNAL
    else if top.1 <= 0 then (if top.1 < 0 then top.1 else -NOTFOUND)
    else Super(s, 0, 0, node, top.1 - 1, -INTERNAL).0
  }

  // ---------- what the scan reaches ----------

  /** In the run `ts` at `o`..`e`, `at` is the offset of the first begin tag, token `j`, or the end. */
  ghost predicate FirstBegin(s: seq<Byte>, o: nat, e: nat, ts: seq<Token>, at: nat, j: nat) {
    && j <= |ts| && o <= at <= e <= |s| && Lexes(s[o..at], ts[..j])
    && ((j < |ts| && ts[j].Begin? && at < e) || (j == |ts| && at == e))
    && forall i | 0 <= i < j :: !ts[i].Begin?
  }

  lemma FirstBeginHere(s: seq<Byte>, o: nat, e: nat, ts: seq<Token>)
    requires o <= e <= |s| && Lexes(s[o..e], ts) && (ts == [] || ts[0].Begin?)
    ensures FirstBegin(s, o, e, ts, o, 0)
    ensures ts == [] ==> o == e
  {
    hide LexOne;
    assert s[o..o] == [] && ts[..0] == [];
    LexesAligned(s[o..e], ts);
  }

  lemma FirstBeginCons(s: seq<Byte>, o: nat, e: nat, ts: seq<Token>, at: nat, j: nat)
    requires o <= e <= |s| && ts != [] && !ts[0].Begin? && !ts[0].Finish?
    requires LexOne(s[o..]).Good? && LexOne(s[o..]).tok == ts[0] && o + LexOne(s[o..]).len <= e
    requires FirstBegin(s, o + LexOne(s[o..]).len, e, ts[1..], at, j)
    ensures FirstBegin(s, o, e, ts, at, j + 1)
  {
    hide LexOne, Lexes;
    assert ts[..j + 1][1..] == ts[1..][..j];
    RunCons(s, o, at, ts[..j + 1]);
    forall i | 0 <= i < j + 1
      ensures !ts[i].Begin?
    {
      if i > 0 { assert ts[i] == ts[1..][i - 1]; }
    }
  }

  /** Over a run that stays inside, the next begin tag is the first one of the run, or the one behind it. */
  lemma {:induction false} AheadRun(s: seq<Byte>, strs: seq<Byte>, o: nat, e: nat, ts: seq<Token>, d: int)
    returns (at: nat, j: nat)
    requires o <= e <= |s| && Lexes(s[o..e], ts)
    requires Stays(Items(strs, ts), d, -1) && d >= 0
    requires LexOne(s[e..]).Good? && LexOne(s[e..]).tok.Begin?
    ensures FirstBegin(s, o, e, ts, at, j)
    ensures j <= |ts| && Ahead(s, o, d) == Found(at, d + Net(Items(strs, ts[..j])) + 1)
    decreases |ts|
  {
    hide LexOne, Lexes, Items, Stays, Net, Ahead;
    AheadStep(s, o, d);
    if ts != [] {
      HeadOfRun(s, o, e, ts);
    }
    if ts == [] || ts[0].Begin? {
      at, j := o, 0;
      FirstBeginHere(s, o, e, ts);
      assert ts[..0] == [];
      NetEmpty(strs);
    } else {
      var d' := StepItems(strs, ts, d);
      var o' := o + LexOne(s[o..]).len;
      at, j := AheadRun(s, strs, o', e, ts[1..], d');
      NetPrefix(strs, ts, j, d, d');
      FirstBeginCons(s, o, e, ts, at, j);
      j := j + 1;
    }
  }

  lemma NetEmpty(strs: seq<Byte>)
    ensures Net(Items(strs, [])) == 0
  {
  }

  lemma AheadStep(s: seq<Byte>, o: nat, d: int)
    requires o <= |s| && d >= 0
    ensures LexOne(s[o..]).Good? ==>
              var l := LexOne(s[o..]);
              match l.tok
              case Begin(_) => Ahead(s, o, d) == Found(o, d + 1)
              case End => d > 0 ==> Ahead(s, o, d) == Ahead(s, o + l.len, d - 1)
              case Finish => true
              case _ => Ahead(s, o, d) == Ahead(s, o + l.len, d)
  {
    hide LexOne;
  }

  /** One token's effect on the depth. */
  lemma StepItems(strs: seq<Byte>, ts: seq<Token>, d: int) returns (d': int)
    requires ts != [] && !ts[0].Finish? && Stays(Items(strs, ts), d, -1) && d >= 0
    ensures d' == d + (match ts[0] case Begin(_) => 1 case End => -1 case _ => 0)
    ensures d' >= 0 && Stays(Items(strs, ts[1..]), d', -1)
  {
    hide Stays, Net, Item1;
    StaysConcat(Item1(strs, ts[0]), Items(strs, ts[1..]), d, -1);
    NetItem1(strs, ts[0], d, -1);
    d' := d + Net(Item1(strs, ts[0]));
  }

  lemma NetPrefix(strs: seq<Byte>, ts: seq<Token>, j: nat, d: int, d': int)
    requires ts != [] && !ts[0].Finish? && j < |ts|
    requires d' == d + (match ts[0] case Begin(_) => 1 case End => -1 case _ => 0)
    ensures d + Net(Items(strs, ts[..j + 1])) == d' + Net(Items(strs, ts[1..][..j]))
  {
    hide Stays, Net, Item1, Items;
    assert ts[..j + 1] == [ts[0]] + ts[1..][..j];
    ItemsConcat(strs, [ts[0]], ts[1..][..j]);
    ItemsOne(strs, ts[0]);
    StaysConcat(Item1(strs, ts[0]), Items(strs, ts[1..][..j]), d, -1);
    NetItem1(strs, ts[0], d, -1);
  }

  /** The state of the scan at a begin tag on the way to the node at `o`. */
  ghost predicate OnTheWay(s: seq<Byte>, strs: seq<Byte>, o: nat, p: Place, at: nat, q: seq<Token>, d: int) {
    && at <= o <= |s|
    && Lexes(s[..at], q) && q <= p.pre
    && (if q == p.pre then at == o else at < o && p.pre[|q|].Begin?)
    && d == Net(Items(strs, q))
  }

  /** Before the node, behind an ancestor's begin tag, every node is deeper than the ancestor. */
  lemma DeeperThanAncestor(s: seq<Byte>, strs: seq<Byte>, o: nat, p: Place, c: Context, n: Node, k: nat,
                           a: nat, pa: Place, q: seq<Token>)
    requires At(s, strs, o, p, c, n) && k < ContextDepth(c)
    requires At(s, strs, a, pa, Ancestor(c, n, k).0, Ancestor(c, n, k).1)
    requires pa.pre < q && q <= p.pre
    ensures Net(Items(strs, q)) > k
  {
    hide LexOne, Lexes, Lex, Before, After, Ancestor, Flatten, Attrs, Items, Stays, AllNamed;
    var r := Ancestor(c, n, k);
    var z := BeforeSinceAncestor(c, n, k);
    DepthOfBefore(r.0);
    ItemsPrefix(strs, pa.pre, q);
    ItemsPrefix(strs, q, p.pre);
    AncestorFirst(s, strs, o, p, c, n, a, pa, r.0, r.1);
    var y := Items(strs, q[|pa.pre|..]);
    OpensFirst(strs, q[|pa.pre|..]);
    PrefixOf(Before(r.0), [Open(r.1.name)] + z, y, Items(strs, p.pre[|q|..]));
    NetOfPrefix(z, y, r.1.name);
    StaysConcat(Before(r.0), y, 0, -1);
  }

  lemma OpensFirst(strs: seq<Byte>, ts: seq<Token>)
    requires ts != [] && ts[0].Begin?
    ensures Items(strs, ts) != [] && Items(strs, ts)[0].Open?
  {
  }

  lemma NetOfPrefix(z: seq<Item>, y: seq<Item>, name: seq<Byte>)
    requires Stays(z, 0, -1) && y != [] && y <= [Open(name)] + z
    ensures Net(y) >= 1
  {
    assert y[1..] == z[..|y| - 1];
    StaysPrefix(z, 0, -1, |y| - 1);
  }

  lemma PrefixOf<T>(a: seq<T>, all: seq<T>, y: seq<T>, rest: seq<T>)
    requires a + all == a + y + rest
    ensures y <= all && |all| == |y| + |rest|
  {
    assert all == (a + all)[|a|..] == (a + y + rest)[|a|..] == y + rest;
  }

  lemma {:induction false} DepthOfBefore(c: Context)
    ensures Net(Before(c)) == ContextDepth(c)
  {
    if c.Inside? {
      DepthOfBefore(c.up);
      StaysAttrs(c.props, 0, 0);
      StaysNodes(c.left, 0, 0);
      assert [Open(c.name)][1..] == [];
      StaysConcat(Before(c.up), [Open(c.name)], 0, 0);
      StaysConcat(Before(c.up) + [Open(c.name)], Attrs(c.props), 0, 0);
      StaysConcat(Before(c.up) + [Open(c.name)] + Attrs(c.props), FlattenAll(c.left), 0, 0);
    }
  }

  lemma AncestorFirst(s: seq<Byte>, strs: seq<Byte>, o: nat, p: Place, c: Context, n: Node,
                      a: nat, pa: Place, ca: Context, na: Node)
    requires At(s, strs, o, p, c, n) && At(s, strs, a, pa, ca, na) && |Before(ca)| < |Before(c)|
    ensures a < o && pa.pre < p.pre && p.pre[|pa.pre|].Begin?
  {
    Between(s, strs, a, pa, ca, na, o, p, c, n);
  }

  /** On the way to the node the scan never leaves the root. */
  lemma StaysOnTheWay(s: seq<Byte>, strs: seq<Byte>, o: nat, p: Place, c: Context, n: Node, q: seq<Token>)
    requires At(s, strs, o, p, c, n) && q < p.pre && p.pre[|q|].Begin?
    requires q == [] || q[0].Begin?
    ensures Net(Items(strs, q)) >= 0
    ensures Stays(Items(strs, p.pre[|q| + 1..]), Net(Items(strs, q)), -1)
  {
    hide LexOne, Lexes, Lex, After, Flatten, Attrs, AllNamed, Ancestor, Items, Stays, Net;
    var b, x, y := p.pre[|q|], Items(strs, q), Items(strs, p.pre[|q| + 1..]);
    ItemsPrefix(strs, q, p.pre);
    ItemsConcat(strs, [b], p.pre[|q| + 1..]);
    ItemsOne(strs, b);
    assert p.pre[|q|..] == [b] + p.pre[|q| + 1..];
    assert Before(c) == x + ([Open(b.name)] + y);
    assert c.Inside?;
    var z := BeforeSinceAncestor(c, n, 0);
    RootBefore(c, n);
    if q == [] {
      ItemsPrefix(strs, q, q);
    } else {
      OpensFirst(strs, q);
    }
    StaysAfter(x, b.name, y, z, Ancestor(c, n, 0).1.name);
  }

  lemma StaysAfter(x: seq<Item>, m: seq<Byte>, y: seq<Item>, z: seq<Item>, root: seq<Byte>)
    requires x + ([Open(m)] + y) == [] + ([Open(root)] + z) && Stays(z, 0, -1)
    requires x == [] || x[0].Open?
    ensures Net(x) >= 0 && Stays(y, Net(x), -1)
  {
    assert z == (x + ([Open(m)] + y))[1..];
    if x == [] {
      assert z == y;
    } else {
      assert z == x[1..] + ([Open(m)] + y);
      StaysBehind(x[1..], m, y);
    }
  }

  lemma StaysBehind(u: seq<Item>, m: seq<Byte>, y: seq<Item>)
    requires Stays(u + ([Open(m)] + y), 0, -1)
    ensures 1 + Net(u) >= 0 && Stays(y, 1 + Net(u), -1)
  {
    hide Stays, Net;
    StaysConcat(u, [Open(m)] + y, 0, -1);
    StaysOpened(m, y, Net(u));
  }

  lemma StaysOpened(m: seq<Byte>, y: seq<Item>, d: int)
    requires Stays([Open(m)] + y, d, -1)
    ensures d + 1 >= 0 && Stays(y, d + 1, -1)
  {
    assert ([Open(m)] + y)[1..] == y;
  }

  lemma {:induction false} RootBefore(c: Context, n: Node)
    ensures Before(Ancestor(c, n, 0).0) == []
  {
    if c.Inside? {
      RootBefore(c.up, Node(c.name, c.props, c.left + [n] + c.right));
    }
  }

  lemma SameRun(s: seq<Byte>, a: nat, b: nat, ts: seq<Token>)
    requires a <= |s| && b <= |s| && Lexes(s[..a], ts) && Lexes(s[..b], ts)
    ensures a == b
  {
    RunBetween(s, a, ts, b, ts);
    RunBetween(s, b, ts, a, ts);
  }

  /** One step of the scan towards the node. */
  lemma StepOnTheWay(s: seq<Byte>, strs: seq<Byte>, o: nat, p: Place, c: Context, n: Node,
                     at: nat, q: seq<Token>, d: int) returns (at': nat, q': seq<Token>, d': int)
    requires At(s, strs, o, p, c, n) && OnTheWay(s, strs, o, p, at, q, d) && at < o
    requires q == [] || q[0].Begin?
    ensures q < q' && at < at' && q'[0].Begin? && OnTheWay(s, strs, o, p, at', q', d')
    ensures NodeNext(s, at) >= 0 && Ahead(s, NodeNext(s, at), d) == Found(at', d')
    ensures forall i | |q| < i < |q'| :: !p.pre[i].Begin?
  {
    hide LexOne, Lexes, Lex, Before, After, Flatten, Attrs, AllNamed, Items, Stays, Net, Ahead, FirstBegin;
    RunBetween(s, at, q, o, p.pre);
    var run := p.pre[|q|..];
    if q == p.pre { SameRun(s, at, o, q); }
    HeadOfRun(s, at, o, run);
    LexesAligned(s[..at], q);
    var from := at + LexOne(s[at..]).len;
    assert NodeNext(s, at) == from;
    var ts := p.pre[|q| + 1..];
    assert run[1..] == ts;
    StaysOnTheWay(s, strs, o, p, c, n, q);
    BeginAt(s, strs, o, p, c, n);
    var j;
    at', j := AheadRun(s, strs, from, o, ts, d);
    q', d' := ExtendRun(s, strs, o, p.pre, at, q, from, at', j);
  }

  lemma ExtendRun(s: seq<Byte>, strs: seq<Byte>, o: nat, pre: seq<Token>, at: nat, q: seq<Token>, from: nat, at': nat, j: nat)
    returns (q': seq<Token>, d': int)
    requires at < from <= o <= |s| && q < pre && pre[|q|].Begin? && Lexes(s[..at], q)
    requires LexOne(s[at..]).Good? && LexOne(s[at..]).tok == pre[|q|] && from == at + LexOne(s[at..]).len
    requires FirstBegin(s, from, o, pre[|q| + 1..], at', j)
    ensures at < at' <= |s| && q < q' <= pre && |q'| == |q| + 1 + j && Lexes(s[..at'], q')
    ensures if q' == pre then at' == o else at' < o && pre[|q'|].Begin?
    ensures d' == Net(Items(strs, q')) == Net(Items(strs, q)) + Net(Items(strs, pre[|q| + 1..][..j])) + 1
    ensures forall i | |q| < i < |q'| :: !pre[i].Begin?
  {
    hide LexOne, Lexes, Items, Net;
    var ts := pre[|q| + 1..];
    q' := pre[..|q| + 1 + j];
    var more := [pre[|q|]] + ts[..j];
    assert q' == q + more && more[1..] == ts[..j];
    RunCons(s, at, at', more);
    LexesConcat(s[..at], q, s[at..at'], more);
    assert s[..at] + s[at..at'] == s[..at'];
    DepthAfter(strs, q, pre[|q|], ts[..j]);
    d' := Net(Items(strs, q'));
    forall i | |q| < i < |q'|
      ensures !pre[i].Begin?
    {
      assert pre[i] == ts[i - |q| - 1];
    }
  }

  lemma DepthAfter(strs: seq<Byte>, q: seq<Token>, b: Token, ts: seq<Token>)
    requires b.Begin?
    ensures Net(Items(strs, q + ([b] + ts))) == Net(Items(strs, q)) + Net(Items(strs, ts)) + 1
  {
    ItemsConcat(strs, q, [b] + ts);
    ItemsConcat(strs, [b], ts);
    ItemsOne(strs, b);
    assert [Open(b.name)][1..] == [];
    StaysConcat(Items(strs, q), Item1(strs, b) + Items(strs, ts), 0, 0);
    StaysConcat(Item1(strs, b), Items(strs, ts), 0, 0);
  }

  /** The scan comes to the node with the ancestor's offset remembered. */
  lemma {:induction false} SuperReaches(s: seq<Byte>, strs: seq<Byte>, o: nat, p: Place, c: Context, n: Node, k: nat,
                                        a: nat, pa: Place, at: nat, q: seq<Token>, d: int, last: int)
    requires At(s, strs, o, p, c, n) && k <= ContextDepth(c)
    requires At(s, strs, a, pa, Ancestor(c, n, k).0, Ancestor(c, n, k).1)
    requires if k == ContextDepth(c) then a == o && pa == p else a < o && pa.pre < p.pre && p.pre[|pa.pre|].Begin?
    requires OnTheWay(s, strs, o, p, at, q, d) && (q == [] || q[0].Begin?)
    requires pa.pre < q ==> last == a
    ensures Super(s, at, d, o, k, last) == (a, ContextDepth(c))
    decreases |p.pre| - |q|
  {
    hide LexOne, Lexes, Lex, Before, After, Flatten, Attrs, AllNamed, Items, Stays, Net, Ahead, Ancestor, NodeNext;
    DepthOfBefore(c);
    DepthOfBefore(Ancestor(c, n, k).0);
    if pa.pre < q {
      DeeperThanAncestor(s, strs, o, p, c, n, k, a, pa, q);
    }
    if q == pa.pre {
      SameRun(s, at, a, q);
    }
    var last' := if d == k then at else last;
    if at == o {
      if q != p.pre { assert false; }
    } else {
      var at', q', d' := StepOnTheWay(s, strs, o, p, c, n, at, q, d);
      assert |pa.pre| < |q'| ==> |pa.pre| <= |q|;
      SuperReaches(s, strs, o, p, c, n, k, a, pa, at', q', d', last');
    }
  }

  /** The scan comes to the node and finds it less deep than asked for. */
  lemma {:induction false} SuperTooDeep(s: seq<Byte>, strs: seq<Byte>, o: nat, p: Place, c: Context, n: Node, k: nat,
                                        at: nat, q: seq<Token>, d: int, last: int)
    requires At(s, strs, o, p, c, n) && k > ContextDepth(c)
    requires OnTheWay(s, strs, o, p, at, q, d) && (q == [] || q[0].Begin?)
    ensures Super(s, at, d, o, k, last) == (-NOTFOUND, ContextDepth(c))
    decreases |p.pre| - |q|
  {
    hide LexOne, Lexes, Lex, Before, After, Flatten, Attrs, AllNamed, Items, Stays, Net, Ahead, NodeNext;
    DepthOfBefore(c);
    if at == o {
      if q != p.pre { assert false; }
    } else {
      var at', q', d' := StepOnTheWay(s, strs, o, p, c, n, at, q, d);
      SuperTooDeep(s, strs, o, p, c, n, k, at', q', d', if d == k then at else last);
    }
  }

  /** fdt_supernode_atdepth_offset yields the ancestor at that depth, or NOTFOUND below the node. */
  lemma SupernodeIsAncestor(s: seq<Byte>, strs: seq<Byte>, o: nat, p: Place, c: Context, n: Node, k: nat)
    returns (a: nat, pa: Place)
    requires At(s, strs, o, p, c, n) && LexOne(s).Good? && LexOne(s).tok.Begin?
    ensures k <= ContextDepth(c) ==>
              At(s, strs, a, pa, Ancestor(c, n, k).0, Ancestor(c, n, k).1) &&
              Super(s, 0, 0, o, k, -INTERNAL) == (a, ContextDepth(c))
    ensures k > ContextDepth(c) ==> Super(s, 0, 0, o, k, -INTERNAL) == (-NOTFOUND, ContextDepth(c))
  {
    hide LexOne, Lexes, Lex, After, Flatten, Attrs, AllNamed, Stays, Ahead, Super, NodeNext;
    a, pa := o, p;
    if k < ContextDepth(c) {
      AtDecodes(s, strs, o, p, c, n);
      var r := Ancestor(c, n, k);
      a, pa := PlaceOf(s, strs, r.0, r.1);
      var z := BeforeSinceAncestor(c, n, k);
      AncestorFirst(s, strs, o, p, c, n, a, pa, r.0, r.1);
    }
    RootFirst(s, strs, o, p, c, n);
    if k <= ContextDepth(c) {
      SuperReaches(s, strs, o, p, c, n, k, a, pa, 0, [], 0, -INTERNAL);
    } else {
      SuperTooDeep(s, strs, o, p, c, n, k, 0, [], 0, -INTERNAL);
    }
  }

  /** The tag at offset 0 is the root's. */
  lemma RootFirst(s: seq<Byte>, strs: seq<Byte>, o: nat, p: Place, c: Context, n: Node)
    requires At(s, strs, o, p, c, n) && LexOne(s).Good? && LexOne(s).tok.Begin?
    ensures OnTheWay(s, strs, o, p, 0, [], 0)
  {
    hide LexOne;
    assert s[..0] == [];
    if p.pre != [] {
      assert s[0..o] == s[..o] && s[0..] == s;
      HeadOfRun(s, 0, o, p.pre);
      LexesAligned(s[..o], p.pre);
    }
  }

  /** fdt_node_depth is the depth of the node in the tree. */
  lemma DepthIsDepth(s: seq<Byte>, strs: seq<Byte>, o: nat, p: Place, c: Context, n: Node)
    requires At(s, strs, o, p, c, n) && LexOne(s).Good? && LexOne(s).tok.Begin?
    ensures Super(s, 0, 0, o, 0, -INTERNAL) == (0, ContextDepth(c))
  {
    hide LexOne, Lexes, Lex, After, Before, Flatten, Attrs, AllNamed, Stays, Ahead, Super, NodeNext, Items;
    var r, pr := SupernodeIsAncestor(s, strs, o, p, c, n, 0);
    RootPlace(s, strs, r, pr, Ancestor(c, n, 0).0, Ancestor(c, n, 0).1);
  }

  /** The root has no parent. */
  lemma RootHasNone(s: seq<Byte>, strs: seq<Byte>, o: nat, p: Place, c: Context, n: Node)
    requires At(s, strs, o, p, c, n) && LexOne(s).Good? && LexOne(s).tok.Begin? && ContextDepth(c) == 0
    ensures Parent(s, o) == -NOTFOUND
  {
    hide LexOne, Lexes, Lex, After, Before, Flatten, Attrs, AllNamed, Stays, Ahead, Super, NodeNext, Items;
    DepthIsDepth(s, strs, o, p, c, n);
  }

  /** fdt_parent_offset of a child is the offset of the node that holds it. */
  lemma ParentIsParent(s: seq<Byte>, strs: seq<Byte>, o: nat, p: Place, c: Context, n: Node, k: nat, o': nat, p': Place)
    requires At(s, strs, o, p, c, n) && LexOne(s).Good? && LexOne(s).tok.Begin?
    requires k < |n.children| && At(s, strs, o', p', ChildContext(c, n, k), n.children[k])
    ensures Parent(s, o') == o
  {
    hide LexOne, Lexes, Lex, After, Before, Flatten, Attrs, AllNamed, Stays, Ahead, Super, NodeNext, Items;
    var c' := ChildContext(c, n, k);
    var r, pr := SupernodeIsAncestor(s, strs, o', p', c', n.children[k], 0);
    var a, pa := SupernodeIsAncestor(s, strs, o', p', c', n.children[k], ContextDepth(c));
    assert n.children[..k] + [n.children[k]] + n.children[k + 1..] == n.children;
    assert Ancestor(c', n.children[k], ContextDepth(c)) == (c, n);
    SameNode(s, strs, o, p, c, n, a, pa, n);
    RootPlace(s, strs, r, pr, Ancestor(c', n.children[k], 0).0, Ancestor(c', n.children[k], 0).1);
  }

  /** A context has one place. */
  lemma SameNode(s: seq<Byte>, strs: seq<Byte>, o: nat, p: Place, c: Context, n: Node, o': nat, p': Place, n': Node)
    requires At(s, strs, o, p, c, n) && At(s, strs, o', p', c, n')
    ensures o == o'
  {
    hide LexOne, Lexes, Lex, Items, Before, After, Flatten, AllNamed;
    NotLater(s, strs, o, p, c, n, o', p', n');
    NotLater(s, strs, o', p', c, n', o, p, n);
    RunBetween(s, o, p.pre, o', p'.pre);
    RunBetween(s, o', p'.pre, o, p.pre);
  }

  lemma NotLater(s: seq<Byte>, strs: seq<Byte>, o: nat, p: Place, c: Context, n: Node, o': nat, p': Place, n': Node)
    requires At(s, strs, o, p, c, n) && At(s, strs, o', p', c, n')
    ensures |p'.pre| <= |p.pre|
  {
    hide LexOne, Lexes, Lex, Items, Before, After, Flatten, AllNamed;
    if |p.pre| < |p'.pre| {
      RunBetween(s, o, p.pre, o', p'.pre);
      HeadOfRun(s, o, o', p'.pre[|p.pre|..]);
      HeadOfRun(s, o, p.end, p.mid);
      ItemsPrefix(strs, p.pre, p'.pre);
      OpensFirst(strs, p'.pre[|p.pre|..]);
    }
  }

  lemma RootPlace(s: seq<Byte>, strs: seq<Byte>, o: nat, p: Place, c: Context, n: Node)
    requires At(s, strs, o, p, c, n) && LexOne(s).Good? && LexOne(s).tok.Begin? && ContextDepth(c) == 0
    ensures o == 0
  {
    hide LexOne, Lexes;
    RootFirst(s, strs, o, p, c, n);
    if p.pre != [] { OpensFirst(strs, p.pre); }
  }
}

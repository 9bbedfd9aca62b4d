/** Children: fdt_first_subnode and fdt_next_subnode enumerate exactly the direct children of a node, in
    order. */
module FdtFamily {
  import opened Bytes
  import opened FdtFormat
  import opened FdtTree
  import opened FdtDecode
  import opened FdtPlace
  import opened FdtTags
  import opened FdtNav

  /** The context of child `k` of the node `n` in context `c`. */
  function ChildContext(c: Context, n: Node, k: nat): Context
    requires k < |n.children|
  {
    Inside(c, n.name, n.props, n.children[..k], n.children[k + 1..])
  }

  lemma ChildPlace(s: seq<Byte>, strs: seq<Byte>, o: nat, p: Place, c: Context, n: Node, k: nat)
    returns (o': nat, p': Place)
    requires At(s, strs, o, p, c, n) && k < |n.children|
    ensures At(s, strs, o', p', ChildContext(c, n, k), n.children[k])
  {
    hide LexOne, Lexes, Lex, Items, At, DecodeBlocks;
    AtDecodes(s, strs, o, p, c, n);
    var c' := ChildContext(c, n, k);
    assert n.children[..k] + [n.children[k]] + n.children[k + 1..] == n.children;
    assert Plug(c', n.children[k]) == Plug(c, n);
    o', p' := PlaceOf(s, strs, c', n.children[k]);
  }

  lemma BeforeChild(c: Context, n: Node, k: nat)
    requires k < |n.children|
    ensures Before(ChildContext(c, n, k)) == Before(c) + ([Open(n.name)] + (Attrs(n.props) + FlattenAll(n.children[..k])))
  {
  }

  lemma BeforeNextChild(c: Context, n: Node, k: nat)
    requires k + 1 < |n.children|
    ensures Before(ChildContext(c, n, k + 1)) == Before(ChildContext(c, n, k)) + Flatten(n.children[k])
  {
    hide Flatten, Attrs;
    FlattenOne(n.children[k]);
    FlattenAllConcat(n.children[..k], [n.children[k]]);
    assert n.children[..k + 1] == n.children[..k] + [n.children[k]];
  }

  lemma NodeNextIs(s: seq<Byte>, strs: seq<Byte>, o: nat, p: Place, c: Context, n: Node)
    requires At(s, strs, o, p, c, n)
    ensures o <= |s| && LexOne(s[o..]).Good? && NodeNext(s, o) == o + LexOne(s[o..]).len
  {
    hide LexOne;
    NodeNextAt(s, strs, o, p, c, n);
  }

  /** Between a node's begin tag and that of its child `k` stand its attributes and earlier children. */
  lemma DownToChild(s: seq<Byte>, strs: seq<Byte>, o: nat, p: Place, c: Context, n: Node, k: nat, o': nat, p': Place)
    returns (gap: seq<Token>)
    requires At(s, strs, o, p, c, n) && k < |n.children|
    requires At(s, strs, o', p', ChildContext(c, n, k), n.children[k])
    ensures 0 <= o < NodeNext(s, o) <= o' <= |s| && Lexes(s[NodeNext(s, o)..o'], gap)
    ensures Items(strs, gap) == Attrs(n.props) + FlattenAll(n.children[..k])
  {
    hide LexOne, Lexes, Lex, Items, Before, After, Flatten, FlattenAll, Attrs, NodeNext, AllNamed;
    NodeNextAt(s, strs, o, p, c, n);
    NodeNextIs(s, strs, o, p, c, n);
    var c' := ChildContext(c, n, k);
    var x := Attrs(n.props) + FlattenAll(n.children[..k]);
    BeforeChild(c, n, k);
    Between(s, strs, o, p, c, n, o', p', c', n.children[k]);
    var g := p'.pre[|p.pre|..];
    HeadOfRun(s, o, o', g);
    gap := g[1..];
    ItemsConcat(strs, [g[0]], gap);
    ItemsOne(strs, g[0]);
    assert g == [g[0]] + gap;
    assert Items(strs, gap) == Items(strs, g)[1..] == x;
  }

  lemma BeginAt(s: seq<Byte>, strs: seq<Byte>, o: nat, p: Place, c: Context, n: Node)
    requires At(s, strs, o, p, c, n)
    ensures o <= |s| && LexOne(s[o..]).Good? && LexOne(s[o..]).tok == Begin(n.name)
  {
    hide LexOne, Lexes, Lex, Before, After;
    HeadOfRun(s, o, p.end, p.mid);
    assert Items(strs, p.mid)[0] == Open(p.mid[0].name);
  }

  lemma FirstSubnodeIsFirstChild(s: seq<Byte>, strs: seq<Byte>, o: nat, p: Place, c: Context, n: Node)
    returns (o': nat, p': Place)
    requires At(s, strs, o, p, c, n)
    ensures n.children == [] ==> Subnode(s, NodeNext(s, o), 0) == -NOTFOUND
    ensures n.children != [] ==>
              At(s, strs, o', p', ChildContext(c, n, 0), n.children[0]) && Subnode(s, NodeNext(s, o), 0) == o'
  {
    hide LexOne, Lexes, Lex, Items, Before, After, Attrs, At;
    o', p' := o, p;
    NodeNextAt(s, strs, o, p, c, n);
    StaysAttrs(n.props, 0, 1);
    if n.children == [] {
      NothingBelow(s, strs, o, p, c, n);
    } else {
      o', p' := ChildPlace(s, strs, o, p, c, n, 0);
      var gap := DownToChild(s, strs, o, p, c, n, 0, o', p');
      assert Attrs(n.props) + FlattenAll(n.children[..0]) == Attrs(n.props);
      WalkRun(s, strs, NodeNext(s, o), o', gap, 0, 1);
      BeginAt(s, strs, o', p', ChildContext(c, n, 0), n.children[0]);
    }
  }

  lemma NothingBelow(s: seq<Byte>, strs: seq<Byte>, o: nat, p: Place, c: Context, n: Node)
    requires At(s, strs, o, p, c, n) && n.children == []
    ensures NodeNext(s, o) >= 0 && Walk(s, NodeNext(s, o), 0, 1).Left?
  {
    hide LexOne, Lexes, Lex, Items, Before, After, Attrs, Flatten, Walk;
    NodeNextAt(s, strs, o, p, c, n);
    StaysAttrs(n.props, 0, 1);
    var a := NodeNext(s, o);
    LexAppend(s[a..p.end], p.mid[1..], s[p.end..]);
    assert s[a..p.end] + s[p.end..] == s[a..];
    ItemsConcat(strs, p.mid[1..], p.post);
    assert Attrs(n.props) + [] + [Close] == Attrs(n.props) + [Close];
    WalkToClose(s, strs, a, p.mid[1..] + p.post, Attrs(n.props), After(c), 0, 1);
  }

  /** From inside a child, at depth 1, the scan for depth 1 goes on behind the child at depth 0. */
  lemma SkipChild(s: seq<Byte>, strs: seq<Byte>, o: nat, p: Place, c: Context, n: Node)
    requires At(s, strs, o, p, c, n)
    ensures 0 <= NodeNext(s, o) && p.end <= |s| && Walk(s, NodeNext(s, o), 1, 1) == Walk(s, p.end, 0, 1)
  {
    hide LexOne, Lexes, Lex, Items, Before, After, Attrs, Flatten, FlattenAll, Walk;
    NodeNextAt(s, strs, o, p, c, n);
    var x := Attrs(n.props) + FlattenAll(n.children);
    StaysAttrs(n.props, 1, 1);
    StaysNodes(n.children, 1, 1);
    StaysConcat(Attrs(n.props), FlattenAll(n.children), 1, 1);
    StaysConcat(x, [Close], 1, 1);
    assert [Close][1..] == [];
    WalkRun(s, strs, NodeNext(s, o), p.end, p.mid[1..], 1, 1);
  }

  lemma NextSubnodeIsNextSibling(s: seq<Byte>, strs: seq<Byte>, o: nat, p: Place, c: Context, n: Node, k: nat,
                                 o': nat, p': Place) returns (o'': nat, p'': Place)
    requires At(s, strs, o, p, c, n) && k < |n.children|
    requires At(s, strs, o', p', ChildContext(c, n, k), n.children[k])
    ensures k + 1 == |n.children| ==> Subnode(s, NodeNext(s, o'), 1) == -NOTFOUND
    ensures k + 1 < |n.children| ==>
              At(s, strs, o'', p'', ChildContext(c, n, k + 1), n.children[k + 1]) && Subnode(s, NodeNext(s, o'), 1) == o''
  {
    hide LexOne, Lexes, Lex, Items, Attrs, Before;
    o'', p'' := o', p';
    var c' := ChildContext(c, n, k);
    SkipChild(s, strs, o', p', c', n.children[k]);
    if k + 1 == |n.children| {
      assert After(c') == [] + [Close] + After(c);
      WalkToClose(s, strs, p'.end, p'.post, [], After(c), 0, 1);
    } else {
      o'', p'' := ChildPlace(s, strs, o, p, c, n, k + 1);
      GapBetweenSiblings(s, strs, c, n, k, o', p', o'', p'');
      WalkRun(s, strs, p'.end, o'', p''.pre[|p'.pre + p'.mid|..], 0, 1);
      BeginAt(s, strs, o'', p'', ChildContext(c, n, k + 1), n.children[k + 1]);
    }
  }

  /** Only NOP tags can stand between neighbouring children. */
  lemma GapBetweenSiblings(s: seq<Byte>, strs: seq<Byte>, c: Context, n: Node, k: nat,
                           o': nat, p': Place, o'': nat, p'': Place)
    requires k + 1 < |n.children|
    requires At(s, strs, o', p', ChildContext(c, n, k), n.children[k])
    requires At(s, strs, o'', p'', ChildContext(c, n, k + 1), n.children[k + 1])
    ensures p'.end <= o'' <= |s| && |p'.pre + p'.mid| <= |p''.pre|
    ensures Lexes(s[p'.end..o''], p''.pre[|p'.pre + p'.mid|..])
    ensures Items(strs, p''.pre[|p'.pre + p'.mid|..]) == []
  {
    hide LexOne, Lexes, Lex, Before, After, Flatten, FlattenAll, Attrs, Items, AllNamed, ChildContext;
    BeforeNextChild(c, n, k);
    var run := p'.pre + p'.mid;
    assert run[|run| - 1] == p'.mid[|p'.mid| - 1];
    LexesConcat(s[..o'], p'.pre, s[o'..p'.end], p'.mid);
    assert s[..o'] + s[o'..p'.end] == s[..p'.end];
    ItemsConcat(strs, p'.pre, p'.mid);
    OnlyNopsBetween(s, strs, p'.end, p'.pre + p'.mid, o'', p''.pre);
  }

  /** Two runs from the start that carry the same items: past a last end tag, only NOP tags follow. */
  lemma OnlyNopsBetween(s: seq<Byte>, strs: seq<Byte>, a: nat, run: seq<Token>, b: nat, more: seq<Token>)
    requires a <= |s| && b <= |s| && Lexes(s[..a], run) && Lexes(s[..b], more)
    requires Items(strs, run) == Items(strs, more) && run != [] && run[|run| - 1].End?
    ensures a <= b && |run| <= |more| && Lexes(s[a..b], more[|run|..]) && Items(strs, more[|run|..]) == []
  {
    hide LexOne, Lexes, Items;
    if |run| > |more| {
      RunBetween(s, b, more, a, run);
      ItemsPrefix(strs, more, run);
      LastCarries(strs, run[|more|..]);
      assert false;
    }
    RunBetween(s, a, run, b, more);
    ItemsPrefix(strs, run, more);
  }

  lemma LastCarries(strs: seq<Byte>, ts: seq<Token>)
    requires ts != [] && ts[|ts| - 1].End?
    ensures Items(strs, ts) != []
  {
    var m := |ts| - 1;
    assert ts == ts[..m] + [End];
    ItemsConcat(strs, ts[..m], [End]);
    ItemsOne(strs, End);
  }

  /** The loop of fdt_for_each_subnode, collecting the offsets it visits: the places of the children
      of the node at `offset`, all of them, each once, in order. */
  method EachSubnode(b: Blob, offset: I32, ghost p: Place, ghost c: Context, ghost n: Node)
    returns (offs: seq<I32>, ghost places: seq<Place>)
    requires Readable(b) && offset >= 0
    requires At(StructBlock(b), StringsBlock(b), offset, p, c, n)
    ensures |offs| == |n.children| == |places|
    ensures forall k | 0 <= k < |offs| ::
              offs[k] >= 0 &&
              At(StructBlock(b), StringsBlock(b), offs[k], places[k], ChildContext(c, n, k), n.children[k])
  {
    hide LexOne, Lexes, Lex, Items, Attrs, Before, StructBlock, StringsBlock, At, Subnode, FlattenAll;
    ghost var s, strs := StructBlock(b), StringsBlock(b);
    offs, places := [], [];
    var sub := FirstSubnode(b, offset);
    ghost var o', p' := FirstSubnodeIsFirstChild(s, strs, offset, p, c, n);
    NodeNextAt(s, strs, offset, p, c, n);
    while sub >= 0
      invariant |offs| == |places| <= |n.children|
      invariant forall k | 0 <= k < |offs| ::
                  offs[k] >= 0 && At(s, strs, offs[k], places[k], ChildContext(c, n, k), n.children[k])
      invariant if |offs| == |n.children| then sub == -NOTFOUND
                else sub == o' && At(s, strs, o', p', ChildContext(c, n, |offs|), n.children[|offs|])
      decreases |n.children| - |offs|
    {
      offs := offs + [sub];
      places := places + [p'];
      NodeNextAt(s, strs, o', p', ChildContext(c, n, |offs| - 1), n.children[|offs| - 1]);
      sub := NextSubnode(b, sub);
      o', p' := NextSubnodeIsNextSibling(s, strs, offset, p, c, n, |offs| - 1, o', p');
    }
  }
}

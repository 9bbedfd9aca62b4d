/** What replacing a run of tokens inside the structure block does to the decoded tree. */
module FdtSplice {
  import opened Common
  import opened Bytes
  import opened FdtFormat
  import opened FdtTree
  import opened FdtDecode
  import opened FdtPlace
  import opened FdtNav
  import opened FdtProps

  /** `t` is `s` with the bytes from `a` to `e` replaced by others that end at `e'`. */
  ghost predicate Replaced(s: seq<Byte>, a: nat, e: nat, t: seq<Byte>, e': nat) {
    a <= e <= |s| && a <= e' <= |t| && t[..a] == s[..a] && t[e'..] == s[e..]
  }

  /** A run of tokens `y'` in place of whatever stood there, inside the node `n` at `o`: when the items
      then spell the node `n'`, the node at the same offset, in the same context, has become `n'`. */
  lemma EditInside(s: seq<Byte>, strs: seq<Byte>, o: nat, p: Place, c: Context, n: Node,
                   a: nat, x: seq<Token>, e: nat, z: seq<Token>,
                   t: seq<Byte>, more: seq<Byte>, e': nat, y': seq<Token>, n': Node) returns (p': Place)
    requires At(s, strs, o, p, c, n)
    requires o < NodeNext(s, o) <= a && Replaced(s, a, e, t, e')
    requires Lexes(s[NodeNext(s, o)..a], x) && Lex(s[e..]) == Tokens(z) && Lexes(t[a..e'], y')
    requires AllNamed(strs, x) && AllNamed(strs, z) && AllNamed(strs + more, y')
    requires n'.name == n.name
    requires [Open(n.name)] + Items(strs, x) + Items(strs + more, y') + Items(strs, z) == Flatten(n') + After(c)
    ensures At(t, strs + more, o, p', c, n') && p'.pre == p.pre
    ensures DecodeBlocks(t, strs + more) == Some(Plug(c, n'))
  {
    hide LexOne, Lexes, Lex, Items, Before, After, Flatten, AllNamed, DecodeBlocks;
    var u := strs + more;
    var f := NodeNext(s, o);
    var b := p.mid[0];
    HeadOfRun(s, o, p.end, p.mid);
    BeginName(s, strs, o, p, c, n);
    // The begin tag and the run `x` are unchanged.
    var head := [b] + x;
    RunCons(s, o, a, head);
    assert t[o..a] == t[..a][o..] == s[..a][o..] == s[o..a];
    assert t[..o] == t[..a][..o] == s[..a][..o] == s[..o];
    // Everything from `o` on.
    var rest := head + (y' + z);
    LexAppend(t[a..e'], y', t[e'..]);
    assert t[a..e'] + t[e'..] == t[a..];
    LexAppend(t[o..a], head, t[a..]);
    assert t[o..a] + t[a..] == t[o..];
    // Its items.
    ItemsAppendStrings(strs, more, p.pre);
    ItemsAppendStrings(strs, more, x);
    ItemsAppendStrings(strs, more, z);
    ItemsConcat(u, [b], x);
    ItemsOne(u, b);
    ItemsConcat(u, y', z);
    ItemsConcat(u, head, y' + z);
    ItemsConcat(u, p.pre, rest);
    assert AllNamed(u, [b]) by { NamedBegin(u, b); }
    Regroup([Open(n.name)], Items(u, x), Items(u, y'), Items(u, z), []);
    assert Items(u, rest) == Flatten(n') + After(c) by {
      SameItems([Open(n.name)], Items(u, x), Items(u, y'), Items(u, z), Flatten(n') + After(c));
    }
    assert Before(c) + (Flatten(n') + After(c)) == Before(c) + Flatten(n') + After(c);
    p' := PlaceFrom(t, u, o, p.pre, rest, c, n');
    AtDecodes(t, u, o, p', c, n');
  }

  lemma SameItems<T>(a: seq<T>, x: seq<T>, y: seq<T>, z: seq<T>, all: seq<T>)
    requires a + x + y + z == all
    ensures (a + x) + (y + z) == all
  {
  }

  lemma NamedBegin(strs: seq<Byte>, b: Token)
    requires b.Begin?
    ensures AllNamed(strs, [b])
  {
  }

  lemma BeginName(s: seq<Byte>, strs: seq<Byte>, o: nat, p: Place, c: Context, n: Node)
    requires At(s, strs, o, p, c, n)
    ensures p.mid[0] == Begin(n.name)
    ensures o <= |s| && LexOne(s[o..]).Good? && NodeNext(s, o) == o + LexOne(s[o..]).len
  {
    hide LexOne, Lexes, Lex, Before, After;
    HeadOfRun(s, o, p.end, p.mid);
    LexesAligned(s[..o], p.pre);
    assert Items(strs, p.mid)[0] == Open(p.mid[0].name);
  }

  /** What is left of a tree without the node in context `c`: nothing when that is the root. */
  function Erased(c: Context): (r: Option<Node>) {
    if c.Inside? then Some(PlugAll(c, [])) else None
  }

  /** Replacing a whole node by a run without items removes exactly that node. */
  lemma EraseNode(s: seq<Byte>, strs: seq<Byte>, o: nat, p: Place, c: Context, n: Node,
                  t: seq<Byte>, e': nat, y': seq<Token>)
    requires At(s, strs, o, p, c, n)
    requires Replaced(s, o, p.end, t, e') && Lexes(t[o..e'], y') && Items(strs, y') == [] && AllNamed(strs, y')
    ensures DecodeBlocks(t, strs) == Erased(c)
  {
    hide LexOne, Lexes, Lex, Items, Before, After, Flatten, AllNamed, PlugAll, DecodeBlocks;
    LexThree(t, o, e', p.pre, y', p.post);
    ItemsConcat(strs, y', p.post);
    ItemsConcat(strs, p.pre, y' + p.post);
    assert [] + After(c) == After(c) && Before(c) + [] + After(c) == Before(c) + After(c);
    if c.Inside? {
      FlattenPlugAll(c, []);
      assert FlattenAll([]) == [];
      DecodeIff(t, strs, PlugAll(c, []));
    } else {
      TopIsEmpty();
      NothingDecodes(t, strs, p.pre + (y' + p.post));
    }
  }

  lemma TopIsEmpty()
    ensures Before(Top) == [] && After(Top) == []
  {
  }

  lemma NothingDecodes(t: seq<Byte>, strs: seq<Byte>, ts: seq<Token>)
    requires Lex(t) == Tokens(ts) && Items(strs, ts) == []
    ensures DecodeBlocks(t, strs) == None
  {
    hide LexOne, Lex, Items;
  }

  lemma LexThree(t: seq<Byte>, o: nat, e: nat, x: seq<Token>, y: seq<Token>, z: seq<Token>)
    requires o <= e <= |t| && Lexes(t[..o], x) && Lexes(t[o..e], y) && Lex(t[e..]) == Tokens(z)
    ensures Lex(t) == Tokens(x + (y + z))
  {
    hide LexOne, Lexes, Lex;
    LexAppend(t[o..e], y, t[e..]);
    assert t[o..e] + t[e..] == t[o..];
    LexAppend(t[..o], x, t[o..]);
    assert t[..o] + t[o..] == t;
  }

  // ---------- runs of NOP tags ----------

  function Nops(k: nat): (ts: seq<Token>)
    ensures |ts| == k
  {
    seq(k, _ => Nop)
  }

  function NopBytes(k: nat): (s: seq<Byte>)
    ensures |s| == 4 * k
  {
    if k == 0 then [] else NopBytes(k - 1) + Word(TAG_NOP)
  }

  lemma {:induction false} NopRun(k: nat, strs: seq<Byte>)
    ensures Lexes(NopBytes(k), Nops(k)) && Items(strs, Nops(k)) == [] && AllNamed(strs, Nops(k))
  {
    if k > 0 {
      NopRun(k - 1, strs);
      var w := Word(TAG_NOP);
      LexWord(TAG_NOP, []);
      assert w + [] == w;
      LexesOne(w);
      LexesConcat(NopBytes(k - 1), Nops(k - 1), w, [Nop]);
      assert Nops(k) == Nops(k - 1) + [Nop];
      ItemsConcat(strs, Nops(k - 1), [Nop]);
      ItemsOne(strs, Nop);
    }
  }

  // ---------- the attributes of a node ----------

  /** The tokens behind a node's begin tag. */
  lemma Inner(s: seq<Byte>, strs: seq<Byte>, o: nat, p: Place, c: Context, n: Node) returns (ts: seq<Token>, y: seq<Item>)
    requires At(s, strs, o, p, c, n)
    ensures 0 <= o < NodeNext(s, o) <= |s| && Lex(s[NodeNext(s, o)..]) == Tokens(ts) && AllNamed(strs, ts)
    ensures y == FlattenAll(n.children) + [Close] + After(c) && y != [] && !y[0].Attr?
    ensures Items(strs, ts) == Attrs(n.props) + y
    ensures [Open(n.name)] + (Attrs(n.props) + y) == Flatten(n) + After(c)
  {
    hide LexOne, Lexes, Lex, Items, Before, After, Flatten, FlattenAll, AllNamed, Attrs;
    y := FlattenAll(n.children) + [Close] + After(c);
    ItemsOfNode(c, n);
    NodeNextAt(s, strs, o, p, c, n);
    var f := NodeNext(s, o);
    ts := p.mid[1..] + p.post;
    LexAppend(s[f..p.end], p.mid[1..], s[p.end..]);
    assert s[f..p.end] + s[p.end..] == s[f..];
    ItemsConcat(strs, [p.mid[0]], p.mid[1..]);
    assert p.mid == [p.mid[0]] + p.mid[1..];
    ItemsConcat(strs, p.mid[1..], p.post);
    SameItems(Attrs(n.props), FlattenAll(n.children), [Close], After(c), Attrs(n.props) + FlattenAll(n.children) + [Close] + After(c));
    assert FlattenAll(n.children) + [Close] + After(c) == FlattenAll(n.children) + ([Close] + After(c));
  }

  lemma ItemsOfNode(c: Context, n: Node)
    ensures var y := FlattenAll(n.children) + [Close] + After(c);
            y != [] && !y[0].Attr? && [Open(n.name)] + (Attrs(n.props) + y) == Flatten(n) + After(c)
    ensures Attrs(n.props) + (FlattenAll(n.children) + [Close] + After(c)) ==
            Attrs(n.props) + FlattenAll(n.children) + [Close] + After(c)
  {
    hide After, Attrs;
    var y := FlattenAll(n.children) + [Close] + After(c);
    if n.children != [] {
      assert y[0] == FlattenAll(n.children)[0] == Flatten(n.children[0])[0];
    }
    assert Flatten(n) == [Open(n.name)] + Attrs(n.props) + FlattenAll(n.children) + [Close];
    hide Flatten, FlattenAll;
    RegroupProps([Open(n.name)], Attrs(n.props), [], [], FlattenAll(n.children), [Close], After(c));
  }

  /** fdt_get_property_namelen_ on a node: the first property of that name, with its place. */
  lemma PropOfNode(s: seq<Byte>, strs: seq<Byte>, o: nat, p: Place, c: Context, n: Node, name: seq<Byte>)
    returns (ts: seq<Token>, y: seq<Item>, at: nat, j: nat)
    requires At(s, strs, o, p, c, n)
    ensures 0 <= o < NodeNext(s, o) <= |s| && Lex(s[NodeNext(s, o)..]) == Tokens(ts) && AllNamed(strs, ts)
    ensures y == FlattenAll(n.children) + [Close] + After(c)
    ensures var i := FirstNamed(n.props, name);
            if i == |n.props| then FindProp(s, strs, NodeNext(s, o), name) == Miss(NOTFOUND)
            else FindProp(s, strs, NodeNext(s, o), name) == Hit(at, n.props[i].value) &&
                 PropAt(s, strs, NodeNext(s, o), ts, n.props, y, i, at, j)
  {
    hide LexOne, Lexes, Lex, Items, Before, After, Flatten, FlattenAll, AllNamed, Attrs, PropAt;
    ts, y := Inner(s, strs, o, p, c, n);
    at, j := FindPropIn(s, strs, NodeNext(s, o), ts, n.props, y, name);
  }

  /** Replacing the tokens of one property by others that stand for the attributes `qs`. */
  lemma EditProp(s: seq<Byte>, strs: seq<Byte>, o: nat, p: Place, c: Context, n: Node, i: nat,
                 ts: seq<Token>, y: seq<Item>, at: nat, j: nat, t: seq<Byte>, e': nat, y': seq<Token>, qs: seq<Property>)
    returns (p': Place)
    requires At(s, strs, o, p, c, n) && NodeNext(s, o) >= 0
    requires y == FlattenAll(n.children) + [Close] + After(c) && AllNamed(strs, ts)
    requires PropAt(s, strs, NodeNext(s, o), ts, n.props, y, i, at, j)
    requires LexOne(s[at..]).Good? && at + LexOne(s[at..]).len <= |s|
    requires Replaced(s, at, at + LexOne(s[at..]).len, t, e') && Lexes(t[at..e'], y')
    requires Items(strs, y') == Attrs(qs) && AllNamed(strs, y')
    ensures var n' := n.(props := n.props[..i] + qs + n.props[i + 1..]);
            At(t, strs, o, p', c, n') && p'.pre == p.pre && DecodeBlocks(t, strs) == Some(Plug(c, n'))
  {
    hide LexOne, Lexes, Lex, Items, Before, After, Flatten, FlattenAll, AllNamed, Attrs;
    var n' := n.(props := n.props[..i] + qs + n.props[i + 1..]);
    NodeNextAt(s, strs, o, p, c, n);
    var e := at + LexOne(s[at..]).len;
    SplitAtProp(s, strs, ts, at, j);
    AttrsConcat(n.props[..i], qs, n.props[i + 1..]);
    ItemsOfNode(c, n');
    assert strs + [] == strs;
    RegroupEdit([Open(n.name)], Attrs(n.props[..i]), Attrs(qs), Attrs(n.props[i + 1..]), y);
    p' := EditInside(s, strs, o, p, c, n, at, ts[..j], e, ts[j + 1..], t, [], e', y', n');
  }

  lemma SplitAtProp(s: seq<Byte>, strs: seq<Byte>, ts: seq<Token>, at: nat, j: nat)
    requires at <= |s| && j < |ts| && Lex(s[at..]) == Tokens(ts[j..]) && AllNamed(strs, ts)
    ensures LexOne(s[at..]).Good? && at + LexOne(s[at..]).len <= |s| && LexOne(s[at..]).tok == ts[j]
    ensures Lex(s[at + LexOne(s[at..]).len..]) == Tokens(ts[j + 1..])
    ensures AllNamed(strs, ts[..j]) && AllNamed(strs, ts[j + 1..])
  {
    hide LexOne, Lexes, Lex, AllNamed, Items;
    LexHead(s[at..], ts[j..]);
    var e := at + LexOne(s[at..]).len;
    assert s[at..][LexOne(s[at..]).len..] == s[e..];
    assert ts[j..][1..] == ts[j + 1..];
    ItemsConcat(strs, ts[..j], ts[j..]);
    assert ts == ts[..j] + ts[j..];
    ItemsConcat(strs, [ts[j]], ts[j + 1..]);
    assert ts[j..] == [ts[j]] + ts[j + 1..];
  }

  lemma RegroupEdit<T>(o: seq<T>, a: seq<T>, b: seq<T>, c: seq<T>, y: seq<T>)
    ensures o + a + b + (c + y) == o + ((a + b + c) + y)
  {
  }

  lemma AttrsConcat(a: seq<Property>, b: seq<Property>, c: seq<Property>)
    ensures Attrs(a + b + c) == Attrs(a) + Attrs(b) + Attrs(c)
  {
  }

  lemma RegroupProps<T>(o: seq<T>, a: seq<T>, b: seq<T>, c: seq<T>, f: seq<T>, d: seq<T>, e: seq<T>)
    ensures o + a + b + (c + (f + d + e)) == (o + (a + b + c) + f + d) + e
  {
  }

  // ---------- insertions ----------

  /** A property token inserted right behind the begin tag becomes the node's first property. */
  lemma InsertProp(s: seq<Byte>, strs: seq<Byte>, o: nat, p: Place, c: Context, n: Node,
                   t: seq<Byte>, more: seq<Byte>, e': nat, off: U32, q: Property) returns (p': Place)
    requires At(s, strs, o, p, c, n) && NodeNext(s, o) >= 0
    requires Replaced(s, NodeNext(s, o), NodeNext(s, o), t, e')
    requires Lexes(t[NodeNext(s, o)..e'], [Prop(off, q.value)])
    requires Named(strs + more, off) && NameAt(strs + more, off) == q.name
    ensures var n' := n.(props := [q] + n.props);
            At(t, strs + more, o, p', c, n') && p'.pre == p.pre && DecodeBlocks(t, strs + more) == Some(Plug(c, n'))
  {
    hide LexOne, Lexes, Lex, Items, Before, After, Flatten, FlattenAll, AllNamed, Attrs, Named, NameAt;
    var n', u, y' := n.(props := [q] + n.props), strs + more, [Prop(off, q.value)];
    var ts, y := Inner(s, strs, o, p, c, n);
    var a := NodeNext(s, o);
    assert s[a..a] == [];
    EmptyRun(strs);
    OneProp(u, off, q);
    AttrsConcat([q], [], n.props);
    AttrsOne(q);
    assert [q] + [] + n.props == [q] + n.props;
    ItemsOfNode(c, n');
    RegroupEdit([Open(n.name)], [], Attrs([q]), Attrs(n.props), y);
    assert [] + Attrs([q]) + Attrs(n.props) == Attrs([q]) + [] + Attrs(n.props);
    p' := EditInside(s, strs, o, p, c, n, a, [], a, ts, t, more, e', y', n');
  }

  lemma EmptyRun(strs: seq<Byte>)
    ensures Lexes([], []) && Items(strs, []) == [] && AllNamed(strs, [])
  {
  }

  lemma OneProp(strs: seq<Byte>, off: U32, q: Property)
    requires Named(strs, off) && NameAt(strs, off) == q.name
    ensures Items(strs, [Prop(off, q.value)]) == Attrs([q]) && AllNamed(strs, [Prop(off, q.value)])
  {
    ItemsOne(strs, Prop(off, q.value));
  }

  lemma AttrsOne(q: Property)
    ensures Attrs([q]) == [Attr(q)] && Attrs([]) == []
  {
  }

  /** The end of a node's attributes: where the loop of fdt_add_subnode_namelen stops. */
  function AfterProps(s: seq<Byte>, o: nat): (r: nat)
    decreases |s| - o
  {
    if o <= |s| && LexOne(s[o..]).Good? && (LexOne(s[o..]).tok.Prop? || LexOne(s[o..]).tok.Nop?)
    then AfterProps(s, o + LexOne(s[o..]).len)
    else o
  }

  lemma {:induction false} AfterPropsIn(s: seq<Byte>, strs: seq<Byte>, f: nat, ts: seq<Token>, ps: seq<Property>, y: seq<Item>)
    returns (j: nat)
    requires f <= |s| && Lex(s[f..]) == Tokens(ts) && AllNamed(strs, ts)
    requires Items(strs, ts) == Attrs(ps) + y && y != [] && !y[0].Attr?
    ensures var a := AfterProps(s, f);
            j <= |ts| && f <= a <= |s| && Lexes(s[f..a], ts[..j]) && Lex(s[a..]) == Tokens(ts[j..]) &&
            Items(strs, ts[..j]) == Attrs(ps) && Items(strs, ts[j..]) == y && AllNamed(strs, ts[..j]) && AllNamed(strs, ts[j..])
    decreases |ts|
  {
    hide LexOne, Lexes, Lex, Items, AllNamed, Attrs, Named, NameAt;
    assert ts != [] by { ItemsNil(strs); }
    LexHead(s[f..], ts);
    var l := LexOne(s[f..]);
    assert s[f..][l.len..] == s[f + l.len..];
    if ts[0].Nop? || ts[0].Prop? {
      if ts[0].Nop? { NopFirst(strs, ts); } else { PropFirst(strs, ts, ps, y); }
      var ps' := if ts[0].Nop? then ps else ps[1..];
      ItemsNamedOne(strs, ts);
      j := AfterPropsIn(s, strs, f + l.len, ts[1..], ps', y);
      var a := AfterProps(s, f);
      j := j + 1;
      assert ts[..j][1..] == ts[1..][..j - 1] && ts[j..] == ts[1..][j - 1..];
      RunCons(s, f, a, ts[..j]);
      assert ts[..j] == [ts[0]] + ts[1..][..j - 1];
      ItemsConcat(strs, [ts[0]], ts[1..][..j - 1]);
      ItemsOne(strs, ts[0]);
      if ts[0].Prop? {
        AttrsConcat([ps[0]], [], ps[1..]);
        AttrsOne(ps[0]);
        assert [ps[0]] + [] + ps[1..] == ps;
      }
    } else {
      OtherFirst(strs, ts, ps, y);
      j := 0;
      EmptyRun(strs);
      AttrsNone(y);
      assert s[f..f] == [] && ts[..0] == [] && ts[0..] == ts;
    }
  }

  lemma AttrsNone(y: seq<Item>)
    ensures Attrs([]) == [] && Attrs([]) + y == y
  {
  }

  lemma ItemsNamedOne(strs: seq<Byte>, ts: seq<Token>)
    requires ts != [] && AllNamed(strs, ts)
    ensures AllNamed(strs, [ts[0]])
  {
  }

  /** An empty node inserted behind the attributes becomes the first child. */
  lemma InsertChild(s: seq<Byte>, strs: seq<Byte>, o: nat, p: Place, c: Context, n: Node,
                    t: seq<Byte>, e': nat, name: seq<Byte>) returns (p': Place)
    requires At(s, strs, o, p, c, n) && NodeNext(s, o) >= 0
    requires Replaced(s, AfterProps(s, NodeNext(s, o)), AfterProps(s, NodeNext(s, o)), t, e')
    requires Lexes(t[AfterProps(s, NodeNext(s, o))..e'], [Begin(name), End])
    ensures var n' := n.(children := [Node(name, [], [])] + n.children);
            At(t, strs, o, p', c, n') && p'.pre == p.pre && DecodeBlocks(t, strs) == Some(Plug(c, n'))
  {
    hide LexOne, Lexes, Lex, Items, Before, After, Flatten, FlattenAll, AllNamed, Attrs, AfterProps;
    var n', y' := n.(children := [Node(name, [], [])] + n.children), [Begin(name), End];
    var ts, y := Inner(s, strs, o, p, c, n);
    var f := NodeNext(s, o);
    var j := AfterPropsIn(s, strs, f, ts, n.props, y);
    var a := AfterProps(s, f);
    EmptyNode(strs, name);
    FlattenAllConcat([Node(name, [], [])], n.children);
    ItemsOfNode(c, n');
    assert strs + [] == strs;
    RegroupChild([Open(n.name)], Attrs(n.props), [Open(name), Close], FlattenAll(n.children), [Close], After(c));
    p' := EditInside(s, strs, o, p, c, n, a, ts[..j], a, ts[j..], t, [], e', y', n');
  }

  lemma EmptyNode(strs: seq<Byte>, name: seq<Byte>)
    ensures Items(strs, [Begin(name), End]) == [Open(name), Close] == FlattenAll([Node(name, [], [])])
    ensures AllNamed(strs, [Begin(name), End])
  {
    ItemsConcat(strs, [Begin(name)], [End]);
    assert [Begin(name)] + [End] == [Begin(name), End];
    ItemsOne(strs, Begin(name));
    ItemsOne(strs, End);
    FlattenOne(Node(name, [], []));
  }

  lemma RegroupChild<T>(o: seq<T>, a: seq<T>, k: seq<T>, f: seq<T>, d: seq<T>, e: seq<T>)
    ensures o + a + k + (f + d + e) == o + (a + ((k + f) + d + e))
  {
  }
}

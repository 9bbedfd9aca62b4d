/** fdt_subnode_offset_namelen and fdt_nodename_eq_ (kernel/fdt/fdt_ro.c): the first direct child with
    a given name. */
module FdtFind {
  import opened Bytes
  import opened FdtFormat
  import opened FdtTree
  import opened FdtDecode
  import opened FdtPlace
  import opened FdtTags
  import opened FdtNav
  import opened FdtFamily

  const AT_SIGN: Byte := 64

  /** A node name matches itself and, unless a unit address is given, the part before the '@'. */
  predicate NameMatches(node: seq<Byte>, name: seq<Byte>) {
    |node| >= |name| && node[..|name|] == name &&
    (|node| == |name| || (AT_SIGN !in name && node[|name|] == AT_SIGN))
  }

  /** A name with a unit address finds only itself. */
  lemma MatchesExactly(node: seq<Byte>, name: seq<Byte>)
    requires AT_SIGN in name
    ensures NameMatches(node, name) <==> node == name
  {
  }

  /** A name without one finds itself, and itself with any unit address behind it. */
  lemma MatchesUnit(node: seq<Byte>, name: seq<Byte>)
    requires AT_SIGN !in name
    ensures NameMatches(node, name) <==> node == name || exists unit: seq<Byte> :: node == name + [AT_SIGN] + unit
  {
    if NameMatches(node, name) && |node| > |name| {
      assert node == name + [AT_SIGN] + node[|name| + 1..];
    }
    if unit: seq<Byte> :| node == name + [AT_SIGN] + unit {
      assert node[..|name|] == name && node[|name|] == AT_SIGN;
    }
  }

  /** "cpu" finds "cpu@0", and "cpu@0" does not find "cpu". */
  lemma CpuMatches()
    ensures NameMatches([99, 112, 117, 64, 48], [99, 112, 117]) && !NameMatches([99, 112, 117], [99, 112, 117, 64, 48])
  {
  }

  /** fdt_nodename_eq_, comparing in the blob. */
  method NodenameEq(b: Blob, offset: I32, name: seq<Byte>) returns (r: bool)
    requires Readable(b) && 0 <= offset <= |StructBlock(b)| && offset % 4 == 0
    requires LexOne(StructBlock(b)[offset..]).Good? && LexOne(StructBlock(b)[offset..]).tok.Begin?
    ensures r <==> NameMatches(LexOne(StructBlock(b)[offset..]).tok.name, name)
  {
    ghost var s := StructBlock(b);
    ghost var node := LexOne(s[offset..]).tok.name;
    NameInBlob(b, offset);
    hide LexOne, StructBlock;
    BlockSize(b);
    var p := OffStruct(b) + offset + 4;
    var ok, end := SkipName(b, offset + 4);
    var olen := end - (offset + 4);
    ghost var w := node + [0];
    if olen < |name| {
      return false;
    }
    assert b[p..p + |name|] == b[p..p + olen + 1][..|name|] == w[..|name|] == node[..|name|];
    if b[p..p + |name|] != name {
      return false;
    }
    assert b[p + |name|] == b[p..p + olen + 1][|name|] == w[|name|];
    if b[p + |name|] == 0 {
      return true;
    }
    return AT_SIGN !in name && b[p + |name|] == AT_SIGN;
  }

  /** The name behind a begin tag, with its NUL, as it stands in the blob. */
  lemma NameInBlob(b: Blob, offset: nat)
    requires Readable(b) && offset <= |StructBlock(b)|
    requires LexOne(StructBlock(b)[offset..]).Good? && LexOne(StructBlock(b)[offset..]).tok.Begin?
    ensures var name := LexOne(StructBlock(b)[offset..]).tok.name;
            var p: int := OffStruct(b) + offset + 4;
            NulFree(name) && offset + 4 + |name| < |StructBlock(b)| && NulFrom(StructBlock(b), offset + 4) == offset + 4 + |name| &&
            p + |name| + 1 <= |b| && b[p..p + |name| + 1] == name + [0]
  {
    var s := StructBlock(b);
    var name := LexOne(s[offset..]).tok.name;
    NameInStruct(s, offset);
    hide LexOne, StructBlock, NulFrom, NulFree;
    BlockSize(b);
    OffsetPtrBlock(b, offset + 4, |name| + 1);
    hide OffsetPtr;
    assert b[OffStruct(b) + (offset + 4)..OffStruct(b) + (offset + 4) + (|name| + 1)] == name + [0];
  }

  lemma NameInStruct(s: seq<Byte>, offset: nat)
    requires offset <= |s| && LexOne(s[offset..]).Good? && LexOne(s[offset..]).tok.Begin?
    ensures var name := LexOne(s[offset..]).tok.name;
            NulFree(name) && offset + 4 + |name| < |s| && NulFrom(s, offset + 4) == offset + 4 + |name| &&
            s[offset + 4..offset + 4 + |name| + 1] == name + [0]
  {
    var t, name := s[offset..], LexOne(s[offset..]).tok.name;
    BeginBytes(t);
    hide LexOne, NulFree;
    NulFromRest(s, offset, 4);
    hide NulFrom;
    SliceOfSlice(s, offset, |s|, 4, 4 + |name| + 1);
    assert t[4..4 + |name| + 1] == t[4..4 + |name|] + [t[4 + |name|]];
  }

  lemma BeginBytes(t: seq<Byte>)
    requires LexOne(t).Good? && LexOne(t).tok.Begin?
    ensures |t| > 4 + |LexOne(t).tok.name| && NulFrom(t, 4) == 4 + |LexOne(t).tok.name|
    ensures t[4..4 + |LexOne(t).tok.name|] == LexOne(t).tok.name && t[4 + |LexOne(t).tok.name|] == 0
    ensures NulFree(LexOne(t).tok.name)
  {
  }

  /** The first node at depth 1 that matches, scanning from `from` at depth `d`. */
  function SubNamed(s: seq<Byte>, from: nat, d: int, name: seq<Byte>): (r: int)
    requires d >= 0
    decreases |s| + 4 - from
  {
    match Walk(s, from, d, 1)
    case Found(at, _) =>
      if !(from <= at <= |s|) || !LexOne(s[at..]).Good? || !LexOne(s[at..]).tok.Begin? then 0
      else if NameMatches(LexOne(s[at..]).tok.name, name) then at
      else SubNamed(s, at + LexOne(s[at..]).len, 1, name)
    case Left(_, _) => -NOTFOUND
    case Stop(e) => -e
  }

  /** fdt_subnode_offset_namelen. */
  method SubnodeOffset(b: Blob, offset: I32, name: seq<Byte>) returns (r: I32)
    requires Readable(b)
    ensures var s := StructBlock(b);
            r == if offset < 0 then offset
                 else if NodeNext(s, offset) < 0 then -BADOFFSET else SubNamed(s, NodeNext(s, offset), 0, name)
  {
    hide LexOne, StructBlock, Ahead, Walk, NameMatches;
    BlockSize(b);
    ghost var s := StructBlock(b);
    var depth := 0;
    r := offset;
    ghost var goal := if offset < 0 then offset
                      else if NodeNext(s, offset) < 0 then -BADOFFSET else SubNamed(s, NodeNext(s, offset), 0, name);
    while r >= 0 && depth >= 0
      invariant r >= 0 && depth >= 1 ==> NodeNext(s, r) >= 0
      invariant r < 0 ==> goal == r
      invariant r >= 0 && depth < 0 ==> goal == -NOTFOUND
      invariant r >= 0 && depth >= 0 && NodeNext(s, r) < 0 ==> goal == -BADOFFSET
      invariant r >= 0 && depth >= 0 && NodeNext(s, r) >= 0 ==>
                  goal == if depth == 1 && NameMatches(LexOne(s[r..]).tok.name, name) then r
                          else SubNamed(s, NodeNext(s, r), depth, name)
      decreases if r < 0 || depth < 0 then 0 else if r <= |s| then |s| + 2 - r else 1
    {
      if depth == 1 {
        var eq := NodenameEq(b, r, name);
        if eq {
          return;
        }
      }
      ghost var from := NodeNext(s, r);
      if from >= 0 {
        AheadBounds(s, from, depth);
        WalkAhead(s, from, depth, 1);
        WalkBounds(s, from, depth, 1);
        if Ahead(s, from, depth).Found? {
          ghost var w := Ahead(s, from, depth);
          WalkBounds(s, w.at + LexOne(s[w.at..]).len, w.depth, 1);
        }
      }
      r, depth := NextNode(b, r, depth);
    }
    if depth < 0 && r >= 0 {
      return -NOTFOUND;
    }
  }

  /** Index of the first child that matches, or the number of children. */
  function FirstMatch(ns: seq<Node>, name: seq<Byte>): (k: nat)
    ensures k <= |ns|
    ensures k < |ns| ==> NameMatches(ns[k].name, name)
    ensures forall i | 0 <= i < k :: !NameMatches(ns[i].name, name)
  {
    if ns == [] || NameMatches(ns[0].name, name) then 0 else 1 + FirstMatch(ns[1..], name)
  }

  lemma {:induction false} FirstMatchFrom(ns: seq<Node>, name: seq<Byte>, k: nat)
    requires k <= |ns| && forall i | 0 <= i < k :: !NameMatches(ns[i].name, name)
    ensures FirstMatch(ns, name) >= k
    ensures k < |ns| && NameMatches(ns[k].name, name) ==> FirstMatch(ns, name) == k
  {
    hide NameMatches;
  }

  /** From child `k` on, none of the earlier ones matching, the scan finds the first match. */
  lemma {:induction false} SubNamedFrom(s: seq<Byte>, strs: seq<Byte>, o: nat, p: Place, c: Context, n: Node,
                                        name: seq<Byte>, k: nat, o': nat, p': Place) returns (at: nat, pa: Place)
    requires At(s, strs, o, p, c, n) && k < |n.children|
    requires At(s, strs, o', p', ChildContext(c, n, k), n.children[k])
    requires forall i | 0 <= i <= k :: !NameMatches(n.children[i].name, name)
    ensures 0 <= NodeNext(s, o')
    ensures var m := FirstMatch(n.children, name);
            if m == |n.children| then SubNamed(s, NodeNext(s, o'), 1, name) == -NOTFOUND
            else At(s, strs, at, pa, ChildContext(c, n, m), n.children[m]) && SubNamed(s, NodeNext(s, o'), 1, name) == at
    decreases |n.children| - k
  {
    hide LexOne, Lexes, Lex, Items, Attrs, Before, After, NameMatches, AllNamed, Walk, At;
    NodeNextAt(s, strs, o', p', ChildContext(c, n, k), n.children[k]);
    FirstMatchFrom(n.children, name, k + 1);
    at, pa := o', p';
    var o'', p'' := NextSubnodeIsNextSibling(s, strs, o, p, c, n, k, o', p');
    if k + 1 == |n.children| {
      LastLeaves(s, strs, o, p, c, n, k, o', p');
    } else {
      BeginAt(s, strs, o'', p'', ChildContext(c, n, k + 1), n.children[k + 1]);
      NodeNextIs(s, strs, o'', p'', ChildContext(c, n, k + 1), n.children[k + 1]);
      LaterSibling(s, strs, c, n, k, o', p', o'', p'');
      if NameMatches(n.children[k + 1].name, name) {
        at, pa := o'', p'';
      } else {
        at, pa := SubNamedFrom(s, strs, o, p, c, n, name, k + 1, o'', p'');
      }
    }
  }

  lemma LaterSibling(s: seq<Byte>, strs: seq<Byte>, c: Context, n: Node, k: nat, o': nat, p': Place, o'': nat, p'': Place)
    requires k + 1 < |n.children|
    requires At(s, strs, o', p', ChildContext(c, n, k), n.children[k])
    requires At(s, strs, o'', p'', ChildContext(c, n, k + 1), n.children[k + 1])
    ensures NodeNext(s, o') <= o''
  {
    NodeNextAt(s, strs, o', p', ChildContext(c, n, k), n.children[k]);
    GapBetweenSiblings(s, strs, c, n, k, o', p', o'', p'');
  }

  lemma LastLeaves(s: seq<Byte>, strs: seq<Byte>, o: nat, p: Place, c: Context, n: Node, k: nat, o': nat, p': Place)
    requires At(s, strs, o, p, c, n) && k + 1 == |n.children|
    requires At(s, strs, o', p', ChildContext(c, n, k), n.children[k])
    ensures NodeNext(s, o') >= 0 && Walk(s, NodeNext(s, o'), 1, 1).Left?
  {
    hide LexOne, Lexes, Lex, Items, Attrs, Before;
    var c' := ChildContext(c, n, k);
    SkipChild(s, strs, o', p', c', n.children[k]);
    assert After(c') == [] + [Close] + After(c);
    WalkToClose(s, strs, p'.end, p'.post, [], After(c), 0, 1);
  }

  /** fdt_subnode_offset_namelen finds the first child that matches, or reports NOTFOUND. */
  lemma SubNamedIsFirstMatch(s: seq<Byte>, strs: seq<Byte>, o: nat, p: Place, c: Context, n: Node, name: seq<Byte>)
    returns (at: nat, pa: Place)
    requires At(s, strs, o, p, c, n)
    ensures 0 <= NodeNext(s, o)
    ensures var m := FirstMatch(n.children, name);
            if m == |n.children| then SubNamed(s, NodeNext(s, o), 0, name) == -NOTFOUND
            else At(s, strs, at, pa, ChildContext(c, n, m), n.children[m]) && SubNamed(s, NodeNext(s, o), 0, name) == at
  {
    hide LexOne, Lexes, Lex, Items, Attrs, Before, After, NameMatches, AllNamed, Walk, At;
    NodeNextAt(s, strs, o, p, c, n);
    at, pa := o, p;
    var o', p' := FirstSubnodeIsFirstChild(s, strs, o, p, c, n);
    if n.children == [] {
      NothingBelow(s, strs, o, p, c, n);
    } else {
      BeginAt(s, strs, o', p', ChildContext(c, n, 0), n.children[0]);
      NodeNextIs(s, strs, o', p', ChildContext(c, n, 0), n.children[0]);
      var gap := DownToChild(s, strs, o, p, c, n, 0, o', p');
      FirstMatchFrom(n.children, name, 0);
      if NameMatches(n.children[0].name, name) {
        at, pa := o', p';
      } else {
        at, pa := SubNamedFrom(s, strs, o, p, c, n, name, 0, o', p');
      }
    }
  }
}

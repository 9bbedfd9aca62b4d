/** Tree navigation by depth counting (kernel/fdt/fdt.c, fdt_ro.c, fdt_wip.c): the scans below never
    see a tree, only tags and a counter; the lemmas say which node of the decoded tree they reach. */
module FdtNav {
  import opened Bytes
  import opened FdtFormat
  import opened FdtTree
  import opened FdtDecode
  import opened FdtPlace
  import opened FdtTags

  datatype Walked =
    | Found(at: nat, depth: int)  // a begin tag
    | Left(at: nat, depth: int)   // behind the end tag that took the depth below zero
    | Stop(error: int)

  /** From the tag at `o`, at depth `d`: the next begin tag, unless the depth drops below zero first. */
  function Ahead(s: seq<Byte>, o: nat, d: int): (w: Walked)
    decreases |s| - o
  {
    if o > |s| then Stop(TRUNCATED)
    else
      match LexOne(s[o..])
      case Bad(e) => Stop(e)
      case Good(tok, len) =>
        match tok
        case Finish => Stop(NOTFOUND)
        case Begin(_) => Found(o, d + 1)
        case End => if d - 1 < 0 then Left(o + len, d - 1) else Ahead(s, o + len, d - 1)
        case _ => Ahead(s, o + len, d)
  }

  /** The same scan, going on past every begin tag that does not reach depth `t`. */
  function Walk(s: seq<Byte>, o: nat, d: int, t: int): (w: Walked)
    decreases |s| - o
  {
    if o > |s| then Stop(TRUNCATED)
    else
      match LexOne(s[o..])
      case Bad(e) => Stop(e)
      case Good(tok, len) =>
        match tok
        case Finish => Stop(NOTFOUND)
        case Begin(_) => if d + 1 == t then Found(o, d + 1) else Walk(s, o + len, d + 1, t)
        case End => if d - 1 < 0 then Left(o + len, d - 1) else Walk(s, o + len, d - 1, t)
        case _ => Walk(s, o + len, d, t)
  }

  lemma {:induction false} WalkAhead(s: seq<Byte>, o: nat, d: int, t: int)
    ensures Walk(s, o, d, t) ==
            match Ahead(s, o, d)
            case Found(at, d') =>
              (if d' == t then Found(at, d')
               else if at <= |s| && LexOne(s[at..]).Good? then Walk(s, at + LexOne(s[at..]).len, d', t)
               else Stop(0))
            case w => w
    decreases |s| - o
  {
    hide LexOne;
    if o <= |s| && LexOne(s[o..]).Good? {
      var l := LexOne(s[o..]);
      match l.tok
      case Finish =>
      case Begin(_) =>
      case End => if d - 1 >= 0 { WalkAhead(s, o + l.len, d - 1, t); }
      case Prop(_, _) => WalkAhead(s, o + l.len, d, t);
      case Nop => WalkAhead(s, o + l.len, d, t);
    }
  }

  ghost predicate InBounds(s: seq<Byte>, o: nat, d: int, w: Walked) {
    match w
    case Found(at, d') =>
      o <= at <= |s| && (o % 4 == 0 ==> at % 4 == 0) && LexOne(s[at..]).Good? && LexOne(s[at..]).tok.Begin? && d' <= d + 1 && (d >= 0 ==> d' >= 1)
    case Left(at, d') => o < at < |s| + 4 && (o % 4 == 0 ==> at % 4 == 0) && d' <= -1
    case Stop(e) => e == NOTFOUND || e == TRUNCATED || e == BADSTRUCTURE
  }

  lemma {:induction false} AheadBounds(s: seq<Byte>, o: nat, d: int)
    ensures InBounds(s, o, d, Ahead(s, o, d))
    decreases |s| - o
  {
    hide LexOne;
    if o <= |s| && LexOne(s[o..]).Good? {
      var l := LexOne(s[o..]);
      match l.tok
      case Finish =>
      case Begin(_) =>
      case End => if d - 1 >= 0 { AheadBounds(s, o + l.len, d - 1); }
      case Prop(_, _) => AheadBounds(s, o + l.len, d);
      case Nop => AheadBounds(s, o + l.len, d);
    }
  }

  lemma {:induction false} WalkBounds(s: seq<Byte>, o: nat, d: int, t: int)
    ensures var w := Walk(s, o, d, t);
            w.Found? ==> o <= w.at <= |s| && LexOne(s[w.at..]).Good? && LexOne(s[w.at..]).tok.Begin?
    decreases |s| - o
  {
    hide LexOne;
    if o <= |s| && LexOne(s[o..]).Good? {
      var l := LexOne(s[o..]);
      if l.tok.Begin? {
        WalkBounds(s, o + l.len, d + 1, t);
      } else if l.tok.End? {
        WalkBounds(s, o + l.len, d - 1, t);
      } else {
        WalkBounds(s, o + l.len, d, t);
      }
    }
  }

  /** One token's effect on the depth. */
  lemma NetItem1(strs: seq<Byte>, t: Token, d: int, k: int)
    ensures Net(Item1(strs, t)) == match t case Begin(_) => 1 case End => -1 case _ => 0
    ensures Stays(Item1(strs, t), d, k) ==> (t.Begin? ==> d + 1 != k) && (t.End? ==> d - 1 >= 0)
  {
    var s := Item1(strs, t);
    if s != [] {
      assert s[1..] == [];
    }
  }

  /** A run that stays inside is walked over. */
  lemma {:induction false} WalkRun(s: seq<Byte>, strs: seq<Byte>, o: nat, e: nat, ts: seq<Token>, d: int, t: int)
    requires o <= e <= |s| && Lexes(s[o..e], ts)
    requires Stays(Items(strs, ts), d, t)
    ensures Walk(s, o, d, t) == Walk(s, e, d + Net(Items(strs, ts)), t)
    decreases |ts|
  {
    hide LexOne, Stays, Net, Item1;
    if ts == [] {
      WalkedAll(strs);
    } else {
      HeadOfRun(s, o, e, ts);
      var l := LexOne(s[o..]);
      assert l.tok == ts[0] && !l.tok.Finish?;
      StaysConcat(Item1(strs, ts[0]), Items(strs, ts[1..]), d, t);
      NetItem1(strs, ts[0], d, t);
      WalkRun(s, strs, o + l.len, e, ts[1..], d + Net(Item1(strs, ts[0])), t);
    }
  }

  lemma WalkedAll(strs: seq<Byte>)
    ensures Net(Items(strs, [])) == 0
  {
  }

  /** One tag of the scan, seen from the answer of fdt_next_tag. */
  lemma AheadTag(s: seq<Byte>, o: nat, d: int)
    requires o <= |s| && LexOne(s[o..]).Good?
    ensures var l := LexOne(s[o..]);
            Ahead(s, o, d) ==
            if l.tok.Finish? then Stop(NOTFOUND)
            else if l.tok.Begin? then Found(o, d + 1)
            else if l.tok.End? then (if d - 1 < 0 then Left(o + l.len, d - 1) else Ahead(s, o + l.len, d - 1))
            else Ahead(s, o + l.len, d)
  {
    hide LexOne;
  }

  lemma AheadBad(s: seq<Byte>, o: nat, d: int)
    ensures o > |s| ==> Ahead(s, o, d) == Stop(TRUNCATED)
    ensures o <= |s| && LexOne(s[o..]).Bad? ==> Ahead(s, o, d) == Stop(LexOne(s[o..]).error)
  {
    hide LexOne;
  }

  // ---------- the code ----------

  /** fdt_check_node_offset_: the offset behind the begin tag at `offset`, or -BADOFFSET. */
  function NodeNext(s: seq<Byte>, offset: int): (r: int) {
    if 0 <= offset <= |s| && offset % 4 == 0 && LexOne(s[offset..]).Good? && LexOne(s[offset..]).tok.Begin?
    then offset + LexOne(s[offset..]).len
    else -BADOFFSET
  }

  method CheckNodeOffset(b: Blob, offset: I32) returns (r: I32)
    requires Readable(b)
    ensures r == NodeNext(StructBlock(b), offset)
  {
    hide LexOne, StructBlock;
    BlockSize(b);
    if offset < 0 || offset % 4 != 0 {
      return -BADOFFSET;
    }
    var tag, next := NextTag(b, offset);
    if tag != TAG_BEGIN_NODE {
      return -BADOFFSET;
    }
    return next;
  }

  /** fdt_next_node with a depth counter. */
  method NextNode(b: Blob, offset: I32, depth: int) returns (r: I32, depth': int)
    requires Readable(b)
    ensures var s := StructBlock(b);
            if offset >= 0 && NodeNext(s, offset) < 0 then r == -BADOFFSET && depth' == depth
            else
              match Ahead(s, if offset >= 0 then NodeNext(s, offset) else 0, depth)
              case Found(at, d) => r == at && depth' == d
              case Left(at, d) => r == at && depth' == d
              case Stop(e) => r == -e
  {
    hide LexOne, StructBlock, Ahead;
    BlockSize(b);
    var next: I32 := 0;
    depth' := depth;
    if offset >= 0 {
      next := CheckNodeOffset(b, offset);
      if next < 0 {
        return next, depth';
      }
    }
    ghost var s := StructBlock(b);
    ghost var goal := Ahead(s, next, depth);
    r := next;
    var tag := TAG_NOP;
    while tag != TAG_BEGIN_NODE
      invariant tag != TAG_BEGIN_NODE ==> 0 <= next && next % 4 == 0 && Ahead(s, next, depth') == goal
      invariant 0 <= r
      invariant tag == TAG_BEGIN_NODE ==> goal == Found(r, depth')
      decreases if tag == TAG_BEGIN_NODE then -1 else |s| + 8 - next
    {
      r := next;
      LexEmpty();
      AheadBad(s, r, depth');
      if r <= |s| && LexOne(s[r..]).Good? { AheadTag(s, r, depth'); }
      tag, next := NextTag(b, r);
      if tag == TAG_BEGIN_NODE {
        depth' := depth' + 1;
      } else if tag == TAG_END_NODE {
        depth' := depth' - 1;
        if depth' < 0 {
          r := next;
          return;
        }
      } else if tag == TAG_END {
        if next >= 0 {
          r := -NOTFOUND;
        } else {
          r := next;
        }
        return;
      }
    }
  }

  /** Where a scan started at `offset` begins. */
  function ScanFrom(s: seq<Byte>, offset: int): int {
    if offset < 0 then 0 else NodeNext(s, offset)
  }

  /** Offset reached by a scan for a node at depth 1. */
  function Subnode(s: seq<Byte>, from: int, d: int): (r: int) {
    if from < 0 then -NOTFOUND
    else
      match Walk(s, from, d, 1)
      case Found(at, _) => at
      case _ => -NOTFOUND
  }

  /** fdt_first_subnode. */
  method FirstSubnode(b: Blob, offset: I32) returns (r: I32)
    requires Readable(b)
    ensures r == Subnode(StructBlock(b), ScanFrom(StructBlock(b), offset), 0)
  {
    hide LexOne, StructBlock, Ahead, Walk;
    var depth;
    r, depth := NextNode(b, offset, 0);
    ghost var s := StructBlock(b);
    ghost var from := ScanFrom(s, offset);
    if from >= 0 {
      AheadBounds(s, from, 0);
      WalkAhead(s, from, 0, 1);
    }
    if r < 0 || depth != 1 {
      r := -NOTFOUND;
    }
  }

  /** fdt_next_subnode. */
  method NextSubnode(b: Blob, offset: I32) returns (r: I32)
    requires Readable(b)
    ensures r == Subnode(StructBlock(b), ScanFrom(StructBlock(b), offset), 1)
  {
    hide LexOne, StructBlock, Ahead, Walk;
    BlockSize(b);
    ghost var s := StructBlock(b);
    ghost var goal := Subnode(s, ScanFrom(s, offset), 1);
    var depth := 1;
    r := offset;
    while true
      invariant depth >= 1
      invariant Subnode(s, ScanFrom(s, r), depth) == goal
      decreases if r < 0 then |s| + 5 else |s| + 4 - r
    {
      ghost var from := ScanFrom(s, r);
      ghost var d := depth;
      if from >= 0 {
        AheadBounds(s, from, d);
        WalkAhead(s, from, d, 1);
      }
      r, depth := NextNode(b, r, depth);
      if r < 0 || depth < 1 {
        return -NOTFOUND;
      }
      if depth == 1 {
        return;
      }
      assert Ahead(s, from, d) == Found(r, depth);
    }
  }

  function EndOf(s: seq<Byte>, offset: int): (r: int) {
    if offset < 0 then offset
    else if NodeNext(s, offset) < 0 then -BADOFFSET
    else
      match Walk(s, NodeNext(s, offset), 0, 0)
      case Left(at, _) => at
      case Stop(e) => -e
      case Found(at, _) => at
  }

  /** fdt_node_end_offset_. */
  method NodeEndOffset(b: Blob, offset: I32) returns (r: I32)
    requires Readable(b)
    ensures r == EndOf(StructBlock(b), offset)
  {
    hide LexOne, StructBlock, Ahead, Walk;
    BlockSize(b);
    ghost var s := StructBlock(b);
    ghost var goal := EndOf(s, offset);
    var depth := 0;
    r := offset;
    while r >= 0 && depth >= 0
      invariant depth < 0 || r < 0 ==> r == goal
      invariant depth >= 0 && r >= 0 ==>
                  (if NodeNext(s, r) < 0 then goal == -BADOFFSET
                   else goal == match Walk(s, NodeNext(s, r), depth, 0) case Left(at, _) => at case Stop(e) => -e case Found(at, _) => at)
      decreases if r < 0 || depth < 0 then 0 else if r <= |s| then |s| + 2 - r else 1
    {
      ghost var from := NodeNext(s, r);
      if from >= 0 {
        AheadBounds(s, from, depth);
        WalkAhead(s, from, depth, 0);
      }
      r, depth := NextNode(b, r, depth);
    }
  }

  // ---------- what the scans reach ----------

  lemma NodeNextAt(s: seq<Byte>, strs: seq<Byte>, o: nat, p: Place, c: Context, n: Node)
    requires At(s, strs, o, p, c, n)
    ensures 0 <= o < NodeNext(s, o) <= p.end && Lexes(s[NodeNext(s, o)..p.end], p.mid[1..])
    ensures Items(strs, p.mid[1..]) == Attrs(n.props) + FlattenAll(n.children) + [Close]
  {
    hide LexOne, Lexes, Lex, Before, After, Attrs, FlattenAll;
    LexesAligned(s[..o], p.pre);
    HeadOfRun(s, o, p.end, p.mid);
    assert Flatten(n)[1..] == Attrs(n.props) + FlattenAll(n.children) + [Close];
    assert Items(strs, p.mid) == Item1(strs, p.mid[0]) + Items(strs, p.mid[1..]);
    assert Items(strs, p.mid)[1..] == Items(strs, p.mid[1..]);
  }

  /** From a run that ends at depth zero right before a closing item, the scan leaves the node. */
  lemma WalkToClose(s: seq<Byte>, strs: seq<Byte>, e: nat, ts: seq<Token>, x: seq<Item>, y: seq<Item>, d: int, t: int)
    requires e <= |s| && Lex(s[e..]) == Tokens(ts)
    requires Items(strs, ts) == x + [Close] + y
    requires Stays(x, d, t) && d + Net(x) == 0
    ensures Walk(s, e, d, t).Left?
  {
    hide LexOne, Lexes, Lex, Items, Stays, Net;
    var m := TokenOfItem(strs, ts, |x|);
    assert (x + [Close] + y)[..|x|] == x;
    var j := LexSplit(s[e..], ts, m);
    assert s[e..][..j] == s[e..e + j] && s[e..][j..] == s[e + j..];
    WalkRun(s, strs, e, e + j, ts[..m], d, t);
    assert ts[m].End?;
    LexHead(s[e + j..], ts[m..]);
  }

  /** fdt_node_end_offset_ finds the end of exactly the node it is given. */
  lemma EndOfNode(s: seq<Byte>, strs: seq<Byte>, o: nat, p: Place, c: Context, n: Node)
    requires At(s, strs, o, p, c, n)
    ensures EndOf(s, o) == p.end
  {
    hide LexOne, Lexes, Before, After, Flatten, Attrs, FlattenAll, Lex, Items;
    NodeNextAt(s, strs, o, p, c, n);
    var a, ts := NodeNext(s, o), p.mid[1..];
    var m := |ts| - 1;
    ItemsConcat(strs, ts[..m], [End]);
    ItemsOne(strs, End);
    assert ts == ts[..m] + [End];
    var x := Attrs(n.props) + FlattenAll(n.children);
    assert Items(strs, ts[..m]) == x by {
      assert Items(strs, ts)[..|x|] == x;
    }
    StaysAttrs(n.props, 0, 0);
    StaysNodes(n.children, 0, 0);
    StaysConcat(Attrs(n.props), FlattenAll(n.children), 0, 0);
    var j := LexesSplit(s[a..p.end], ts, m);
    assert s[a..p.end][..j] == s[a..a + j] && s[a..p.end][j..] == s[a + j..p.end];
    WalkRun(s, strs, a, a + j, ts[..m], 0, 0);
    assert ts[m..] == [End];
    HeadOfRun(s, a + j, p.end, [End]);
    LastRun(s, a + j, p.end);
  }

  lemma LastRun(s: seq<Byte>, o: nat, e: nat)
    requires o <= e <= |s| && Lexes(s[o..e], [End])
    ensures LexOne(s[o..]) == Good(End, e - o)
  {
    HeadOfRun(s, o, e, [End]);
    assert [End][1..] == [];
  }
}

/** Where the nodes of a decoded tree sit in the bytes of the structure block. */
module FdtPlace {
  import opened Common
  import opened Bytes
  import opened FdtFormat
  import opened FdtTree
  import opened FdtDecode

  /** The tokens before a node, of the node, and after it; `end` is the offset behind its end tag. */
  datatype Place = Place(pre: seq<Token>, mid: seq<Token>, post: seq<Token>, end: nat)

  /** The node `n`, in context `c` of the decoded tree, has its begin tag at offset `o`. */
  ghost predicate At(s: seq<Byte>, strs: seq<Byte>, o: nat, p: Place, c: Context, n: Node) {
    && o < p.end <= |s|
    && Lexes(s[..o], p.pre) && Lexes(s[o..p.end], p.mid) && Lex(s[p.end..]) == Tokens(p.post)
    && AllNamed(strs, p.pre) && AllNamed(strs, p.mid) && AllNamed(strs, p.post)
    && Items(strs, p.pre) == Before(c) && Items(strs, p.mid) == Flatten(n) && Items(strs, p.post) == After(c)
    && p.mid != [] && p.mid[0].Begin? && p.mid[|p.mid| - 1].End?
  }

  lemma AtDecodes(s: seq<Byte>, strs: seq<Byte>, o: nat, p: Place, c: Context, n: Node)
    requires At(s, strs, o, p, c, n)
    ensures DecodeBlocks(s, strs) == Some(Plug(c, n))
  {
    hide LexOne, Lexes, Lex, Items, Before, After, Flatten, Plug, DecodeBlocks;
    LexAppend(s[o..p.end], p.mid, s[p.end..]);
    assert s[o..p.end] + s[p.end..] == s[o..];
    LexAppend(s[..o], p.pre, s[o..]);
    assert s[..o] + s[o..] == s;
    ItemsConcat(strs, p.mid, p.post);
    ItemsConcat(strs, p.pre, p.mid + p.post);
    FlattenPlug(c, n);
    DecodeIff(s, strs, Plug(c, n));
    assert Before(c) + (Flatten(n) + After(c)) == Before(c) + Flatten(n) + After(c);
  }

  /** The token that carries item `k`. */
  lemma {:induction false} TokenOfItem(strs: seq<Byte>, ts: seq<Token>, k: nat) returns (m: nat)
    requires k < |Items(strs, ts)|
    ensures m < |ts|
    ensures Items(strs, ts[..m]) == Items(strs, ts)[..k]
    ensures Item1(strs, ts[m]) == [Items(strs, ts)[k]]
    ensures Items(strs, ts[m + 1..]) == Items(strs, ts)[k + 1..]
  {
    hide Item1;
    var a, rest := Item1(strs, ts[0]), Items(strs, ts[1..]);
    ItemsOne(strs, ts[0]);
    if |a| > k {
      m := 0;
      assert ts[..0] == [] && (a + rest)[..0] == [] && a == [(a + rest)[0]] && (a + rest)[1..] == rest;
    } else {
      var m' := TokenOfItem(strs, ts[1..], k - |a|);
      m := m' + 1;
      assert ts[..m] == [ts[0]] + ts[1..][..m'];
      ItemsConcat(strs, [ts[0]], ts[1..][..m']);
      assert ts[m + 1..] == ts[1..][m..];
      CutBehind(a, rest, k);
    }
  }

  lemma CutBehind<T>(a: seq<T>, b: seq<T>, k: nat)
    requires |a| <= k < |a| + |b|
    ensures (a + b)[..k] == a + b[..k - |a|] && (a + b)[k] == b[k - |a|]
    ensures (a + b)[k + 1..] == b[k - |a| + 1..]
  {
  }

  /** Cutting a token run cuts its bytes. */
  lemma {:induction false} LexSplit(s: seq<Byte>, ts: seq<Token>, m: nat) returns (j: nat)
    requires Lex(s) == Tokens(ts) && m <= |ts|
    ensures j <= |s| && Lexes(s[..j], ts[..m]) && Lex(s[j..]) == Tokens(ts[m..])
  {
    hide LexOne;
    if m == 0 {
      j := 0;
      assert s[0..] == s && ts[0..] == ts;
    } else {
      var n := LexOne(s).len;
      j := LexSplit(s[n..], ts[1..], m - 1);
      assert s[n..][..j] == s[n..n + j] && s[n..][j..] == s[n + j..];
      assert ts[..m] == [ts[0]] + ts[1..][..m - 1] && ts[m..] == ts[1..][m - 1..];
      assert s[..n + j][n..] == s[n..n + j];
      LexOnePrefix(s, n + j);
      j := n + j;
    }
  }

  lemma {:induction false} LexesSplit(s: seq<Byte>, ts: seq<Token>, m: nat) returns (j: nat)
    requires Lexes(s, ts) && m <= |ts|
    ensures j <= |s| && Lexes(s[..j], ts[..m]) && Lexes(s[j..], ts[m..])
  {
    hide LexOne;
    if m == 0 {
      j := 0;
      assert s[0..] == s && ts[0..] == ts;
    } else {
      var n := LexOne(s).len;
      j := LexesSplit(s[n..], ts[1..], m - 1);
      assert s[n..][..j] == s[n..n + j] && s[n..][j..] == s[n + j..];
      assert ts[..m] == [ts[0]] + ts[1..][..m - 1] && ts[m..] == ts[1..][m - 1..];
      assert s[..n + j][n..] == s[n..n + j];
      LexOnePrefix(s, n + j);
      j := n + j;
    }
  }

  lemma DropTake<T>(s: seq<T>, n: nat, a: nat)
    requires n <= a <= |s|
    ensures s[..a][n..] == s[n..][..a - n]
  {
  }

  lemma SameHead(s: seq<Byte>, a: nat, b: nat)
    requires a <= |s| && b <= |s|
    requires LexOne(s[..a]).Good? && LexOne(s[..a]).len <= a && LexOne(s[..b]).Good? && LexOne(s[..b]).len <= b
    ensures LexOne(s[..a]) == LexOne(s[..b])
  {
    hide LexOne;
    LexOneLocal(s[..a], s[a..]);
    LexOneLocal(s[..b], s[b..]);
    assert s[..a] + s[a..] == s && s[..b] + s[b..] == s;
  }

  lemma LexesHead(s: seq<Byte>, ts: seq<Token>)
    requires Lexes(s, ts) && ts != []
    ensures LexOne(s).Good? && LexOne(s).tok == ts[0] && LexOne(s).len <= |s| && Lexes(s[LexOne(s).len..], ts[1..])
  {
    hide LexOne;
  }

  lemma NoRun(s: seq<Byte>)
    requires Lexes(s, [])
    ensures s == []
  {
  }

  /** Runs that start at the same place are nested. */
  lemma {:induction false} RunBetween(s: seq<Byte>, a: nat, ts: seq<Token>, b: nat, us: seq<Token>)
    requires a <= |s| && b <= |s| && Lexes(s[..a], ts) && Lexes(s[..b], us)
    requires |ts| <= |us|
    ensures a <= b && ts <= us && Lexes(s[a..b], us[|ts|..])
    decreases |ts|
  {
    hide LexOne, Lexes;
    if ts == [] {
      NoRun(s[..a]);
      assert s[a..b] == s[..b] && us[0..] == us;
    } else {
      LexesHead(s[..a], ts);
      LexesHead(s[..b], us);
      SameHead(s, a, b);
      var n := LexOne(s[..a]).len;
      DropTake(s, n, a);
      DropTake(s, n, b);
      RunBetween(s[n..], a - n, ts[1..], b - n, us[1..]);
      DropSlice(s, n, a - n, b - n);
      assert us[1..][|ts| - 1..] == us[|ts|..];
      assert ts == [ts[0]] + ts[1..] && us == [us[0]] + us[1..];
    }
  }

  /** A node known by its context has a place. */
  lemma PlaceOf(s: seq<Byte>, strs: seq<Byte>, c: Context, n: Node) returns (o: nat, p: Place)
    requires DecodeBlocks(s, strs) == Some(Plug(c, n))
    ensures At(s, strs, o, p, c, n)
  {
    hide LexOne, Lexes, Lex, Items, Before, After, Flatten, Plug, DecodeBlocks, At, AllNamed, Item1;
    DecodeIff(s, strs, Plug(c, n));
    FlattenPlug(c, n);
    var ts := Lex(s).toks;
    OpensWith(n, Before(c), After(c));
    var m := TokenOfItem(strs, ts, |Before(c)|);
    OpenIsBegin(strs, ts[m], n.name);
    assert ts[..m] + ts[m..] == ts;
    o := LexSplit(s, ts, m);
    p := PlaceFrom(s, strs, o, ts[..m], ts[m..], c, n);
  }

  lemma OpensWith(n: Node, a: seq<Item>, b: seq<Item>)
    ensures |a| < |a + Flatten(n) + b| && (a + Flatten(n) + b)[|a|] == Open(n.name)
  {
    assert (a + Flatten(n) + b)[|a|] == Flatten(n)[0];
  }

  lemma OpenIsBegin(strs: seq<Byte>, t: Token, name: seq<Byte>)
    requires Item1(strs, t) == [Open(name)]
    ensures t == Begin(name)
  {
  }

  lemma PlaceFrom(s: seq<Byte>, strs: seq<Byte>, o: nat, pre: seq<Token>, rest: seq<Token>, c: Context, n: Node)
    returns (p: Place)
    requires o <= |s| && Lexes(s[..o], pre) && Lex(s[o..]) == Tokens(rest)
    requires AllNamed(strs, pre + rest)
    requires Items(strs, pre + rest) == Before(c) + Flatten(n) + After(c)
    requires |Items(strs, pre)| == |Before(c)|
    requires rest != [] && rest[0].Begin?
    ensures At(s, strs, o, p, c, n)
    ensures p.pre == pre
  {
    hide LexOne, Lexes, Lex, Items, Before, After;
    var f := Flatten(n);
    assert f != [] && f[|f| - 1] == Close;
    hide Flatten;
    ItemsConcat(strs, pre, rest);
    CutApart(Items(strs, pre), Items(strs, rest), Before(c), f, After(c));
    var k := TokenOfItem(strs, rest, |f| - 1);
    var mid, post := rest[..k + 1], rest[k + 1..];
    assert rest == mid + post && mid == rest[..k] + [rest[k]];
    ItemsConcat(strs, mid, post);
    ItemsConcat(strs, rest[..k], [rest[k]]);
    ItemsOne(strs, rest[k]);
    assert Items(strs, mid) == f && Items(strs, post) == After(c);
    assert rest[k].End?;
    var j := LexSplit(s[o..], rest, k + 1);
    assert s[o..][..j] == s[o..o + j] && s[o..][j..] == s[o + j..];
    LexesAligned(s[o..o + j], mid);
    p := Place(pre, mid, post, o + j);
  }

  lemma CutApart<T>(a: seq<T>, x: seq<T>, b: seq<T>, f: seq<T>, e: seq<T>)
    requires a + x == b + f + e && |a| == |b| && f != []
    ensures a == b && x == f + e
    ensures x[..|f| - 1] + [x[|f| - 1]] == f && x[|f|..] == e
  {
    assert a == (a + x)[..|a|] == (b + f + e)[..|b|] == b;
    assert x == (a + x)[|a|..] == (b + f + e)[|b|..] == f + e;
  }

  /** Every begin tag on a token boundary of a decodable block is the place of a node. */
  lemma FindPlace(s: seq<Byte>, strs: seq<Byte>, t: Node, o: nat, pre: seq<Token>)
    returns (p: Place, c: Context, n: Node)
    requires DecodeBlocks(s, strs) == Some(t)
    requires o <= |s| && Lexes(s[..o], pre)
    requires LexOne(s[o..]).Good? && LexOne(s[o..]).tok.Begin?
    ensures t == Plug(c, n) && At(s, strs, o, p, c, n) && p.pre == pre
  {
    hide LexOne;
    DecodeIff(s, strs, t);
    LexAppend(s[..o], pre, s[o..]);
    assert s[..o] + s[o..] == s;
    var rest := Lex(s[o..]).toks;
    ItemsConcat(strs, pre, rest);
    var i := |Items(strs, pre)|;
    assert Flatten(t)[i] == Items(strs, rest)[0] == Open(rest[0].name);
    c, n := Locate(t, i);
    FlattenPlug(c, n);
    p := PlaceFrom(s, strs, o, pre, rest, c, n);
  }

  lemma ItemsPrefix(strs: seq<Byte>, ts: seq<Token>, us: seq<Token>)
    requires ts <= us
    ensures Items(strs, us) == Items(strs, ts) + Items(strs, us[|ts|..])
  {
    assert us == ts + us[|ts|..];
    ItemsConcat(strs, ts, us[|ts|..]);
  }

  /** Of two nodes, the one with fewer items before it comes first; the bytes from the first begin
      tag up to the second are a run of the items in between. */
  lemma Between(s: seq<Byte>, strs: seq<Byte>, o: nat, p: Place, c: Context, n: Node,
                o': nat, p': Place, c': Context, n': Node)
    requires At(s, strs, o, p, c, n) && At(s, strs, o', p', c', n')
    requires |Before(c)| < |Before(c')|
    ensures o < o' && p.pre < p'.pre
    ensures Lexes(s[o..o'], p'.pre[|p.pre|..])
    ensures Items(strs, p'.pre[|p.pre|..]) == Before(c')[|Before(c)|..]
    ensures p'.pre[|p.pre|].Begin?
  {
    hide LexOne, Lexes, Lex, Items, Before, After, Flatten, AllNamed;
    if |p.pre| >= |p'.pre| {
      RunBetween(s, o', p'.pre, o, p.pre);
      ItemsPrefix(strs, p'.pre, p.pre);
      assert false;
    }
    RunBetween(s, o, p.pre, o', p'.pre);
    ItemsPrefix(strs, p.pre, p'.pre);
    var gap := p'.pre[|p.pre|..];
    HeadOfRun(s, o, o', gap);
    HeadOfRun(s, o, p.end, p.mid);
  }

  lemma LexHead(s: seq<Byte>, ts: seq<Token>)
    requires Lex(s) == Tokens(ts) && ts != []
    ensures LexOne(s).Good? && LexOne(s).tok == ts[0] && !ts[0].Finish? && LexOne(s).len <= |s|
    ensures Lex(s[LexOne(s).len..]) == Tokens(ts[1..])
  {
    hide LexOne;
  }

  /** The first token of a run, read from a longer suffix. */
  lemma HeadOfRun(s: seq<Byte>, o: nat, e: nat, ts: seq<Token>)
    requires o <= e <= |s| && ts != [] && Lexes(s[o..e], ts)
    ensures LexOne(s[o..]).Good? && LexOne(s[o..]).tok == ts[0] && !ts[0].Finish? && o + LexOne(s[o..]).len <= e
    ensures Lexes(s[o + LexOne(s[o..]).len..e], ts[1..])
  {
    hide LexOne;
    LexOneLocal(s[o..e], s[e..]);
    assert s[o..e] + s[e..] == s[o..];
    var l := LexOne(s[o..]).len;
    assert s[o..e][l..] == s[o + l..e];
  }

  lemma RunCons(s: seq<Byte>, o: nat, e: nat, ts: seq<Token>)
    requires o <= e <= |s| && ts != []
    requires LexOne(s[o..]).Good? && LexOne(s[o..]).tok == ts[0] && !ts[0].Finish? && o + LexOne(s[o..]).len <= e
    requires Lexes(s[o + LexOne(s[o..]).len..e], ts[1..])
    ensures Lexes(s[o..e], ts)
  {
    hide LexOne;
    var l := LexOne(s[o..]).len;
    assert s[o..][..e - o] == s[o..e];
    LexOnePrefix(s[o..], e - o);
    assert s[o..e][l..] == s[o + l..e];
  }
}

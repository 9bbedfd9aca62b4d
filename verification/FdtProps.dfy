/** Property lookup by name (fdt_get_string, nextprop_, fdt_get_property_namelen_ of
    kernel/fdt/fdt_ro.c): the scan finds the first property of that name of the node, and nothing of
    any other node. */
module FdtProps {
  import opened Bytes
  import opened FdtFormat
  import opened FdtTree
  import opened FdtDecode
  import opened FdtPlace
  import opened FdtTags
  import opened FdtNav

  /** The strings block starts inside the blob, as fdt_check_header establishes. */
  predicate StringsIn(b: Blob) {
    OffStrings(b) <= TotalSize(b) && Magic(b) == MAGIC
  }

  /** fdt_get_string on a finished blob: the string's length, or an error. */
  method GetString(b: Blob, stroffset: I32) returns (r: I32, s: seq<Byte>)
    requires Readable(b) && StringsIn(b)
    ensures r >= 0 <==> stroffset >= 0 && Named(StringsBlock(b), stroffset)
    ensures r >= 0 ==> s == NameAt(StringsBlock(b), stroffset) && r == |s|
    ensures r < 0 && stroffset >= 0 ==> r == -NameError(StringsBlock(b), stroffset)
    ensures stroffset < 0 ==> r == -BADOFFSET
  {
    hide Load32, StringsBlock, Named, NameAt, NameError, Wrap;
    s := [];
    WrapSum(b, stroffset);
    StringsSize(b);
    var absoffset := Wrap(stroffset + OffStrings(b));
    if stroffset >= 0 { NameAtBytes(b, stroffset); }
    if absoffset >= TotalSize(b) {
      return -BADOFFSET, s;
    }
    var len := TotalSize(b) - absoffset;
    if stroffset < 0 {
      return -BADOFFSET, s;
    }
    if Version(b) >= 17 {
      if stroffset >= SizeStrings(b) {
        return -BADOFFSET, s;
      }
      if SizeStrings(b) - stroffset < len {
        len := SizeStrings(b) - stroffset;
      }
    }
    var n := absoffset;
    while n < absoffset + len && b[n] != 0
      invariant absoffset <= n <= absoffset + len
      invariant forall k | absoffset <= k < n :: b[k] != 0
    {
      n := n + 1;
    }
    ghost var end := absoffset + len;
    assert n == NulFrom(b[..end], absoffset) by {
      if n < end { NulFromUnique(b[..end], absoffset, n); }
    }
    if n == absoffset + len {
      return -TRUNCATED, s;
    }
    s := b[absoffset..n];
    return n - absoffset, s;
  }

  lemma WrapSum(b: Blob, off: I32)
    requires Readable(b) && StringsIn(b)
    ensures off >= 0 ==> Wrap(off + OffStrings(b)) == off + OffStrings(b)
  {
    hide Load32;
  }

  lemma StringsSize(b: Blob)
    requires Readable(b) && StringsIn(b)
    ensures |StringsBlock(b)| ==
            (if Version(b) >= 17 then Min(TotalSize(b), OffStrings(b) + SizeStrings(b)) else TotalSize(b)) - OffStrings(b)
    ensures OffStrings(b) + |StringsBlock(b)| <= |b|
    ensures StringsBlock(b) == b[OffStrings(b)..OffStrings(b) + |StringsBlock(b)|]
  {
    hide Load32;
  }

  /** Looking for the NUL in the blob, up to the end of the block. */
  lemma NameAtBytes(b: Blob, off: nat)
    requires Readable(b) && StringsIn(b)
    ensures off >= |StringsBlock(b)| ==> !Named(StringsBlock(b), off) && NameError(StringsBlock(b), off) == BADOFFSET
    ensures off < |StringsBlock(b)| ==>
              var end := OffStrings(b) + |StringsBlock(b)|;
              var n := NulFrom(b[..end], OffStrings(b) + off);
              (Named(StringsBlock(b), off) <==> n < end) &&
              (n < end ==> NameAt(StringsBlock(b), off) == b[OffStrings(b) + off..n]) &&
              (n == end ==> NameError(StringsBlock(b), off) == TRUNCATED)
  {
    hide Load32, StringsBlock, Readable, StringsIn, NulFrom;
    StringsSize(b);
    var strs, lo := StringsBlock(b), OffStrings(b);
    var end := lo + |strs|;
    if off < |strs| {
      NulFromRest(b[..end], lo, off);
      assert b[..end][lo..] == strs;
      SliceOfSlice(b, lo, end, off, NulFrom(strs, off));
    }
  }

  /** Why there is no string at an offset. */
  function NameError(strs: seq<Byte>, off: nat): int {
    if off >= |strs| then BADOFFSET else TRUNCATED
  }

  datatype Lookup = Hit(at: nat, value: seq<Byte>) | Miss(error: int)

  /** The first property called `name` among the tags from `o` on, up to the first tag that is
      neither a property nor a NOP. */
  function FindProp(s: seq<Byte>, strs: seq<Byte>, o: nat, name: seq<Byte>): (r: Lookup)
    ensures r.Miss? ==> r.error > 0
    decreases |s| - o
  {
    if o > |s| then Miss(TRUNCATED)
    else
      match LexOne(s[o..])
      case Bad(e) => Miss(e)
      case Good(tok, len) =>
        match tok
        case Finish => Miss(BADSTRUCTURE)
        case Nop => FindProp(s, strs, o + len, name)
        case Prop(off, value) =>
          if Named(strs, off) && NameAt(strs, off) == name then Hit(o, value) else FindProp(s, strs, o + len, name)
        case _ => Miss(NOTFOUND)
  }

  /** nextprop_: the next property tag, seen from the tag at `start`. */
  method NextProp(b: Blob, start: I32, ghost strs: seq<Byte>, ghost name: seq<Byte>) returns (r: I32)
    requires Readable(b) && start >= 0 && start % 4 == 0
    ensures if r < 0 then FindProp(StructBlock(b), strs, start, name) == Miss(-(r as int))
            else start <= r <= |StructBlock(b)| && r % 4 == 0 &&
                 LexOne(StructBlock(b)[r..]).Good? && LexOne(StructBlock(b)[r..]).tok.Prop? &&
                 FindProp(StructBlock(b), strs, start, name) == FindProp(StructBlock(b), strs, r, name)
  {
    hide LexOne, StructBlock, Named, NameAt;
    BlockSize(b);
    ghost var s := StructBlock(b);
    r := start;
    while true
      invariant start <= r && r % 4 == 0
      invariant FindProp(s, strs, start, name) == FindProp(s, strs, r, name)
      decreases |s| + 4 - r
    {
      LexEmpty();
      var tag, next := NextTag(b, r);
      if tag == TAG_END {
        return if next >= 0 then -BADSTRUCTURE else next;
      }
      if tag == TAG_PROP {
        return;
      }
      if tag != TAG_NOP {
        return -NOTFOUND;
      }
      r := next;
    }
  }

  /** fdt_get_property_namelen_: offset and length of the property, or a negative offset. */
  method GetProperty(b: Blob, node: I32, name: seq<Byte>) returns (poffset: I32, len: I32)
    requires Readable(b) && StringsIn(b)
    ensures var s := StructBlock(b);
            if NodeNext(s, node) < 0 then poffset == -BADOFFSET
            else
              match FindProp(s, StringsBlock(b), NodeNext(s, node), name)
              case Hit(at, value) => poffset == at && len == |value|
              case Miss(e) => poffset == -e
  {
    hide LexOne, StructBlock, Named, NameAt, StringsBlock;
    BlockSize(b);
    ghost var s, strs := StructBlock(b), StringsBlock(b);
    len := 0;
    var next := CheckNodeOffset(b, node);
    if next < 0 {
      return next, len;
    }
    NodeNextAligned(s, node);
    ghost var goal := FindProp(s, strs, next, name);
    poffset := NextProp(b, next, strs, name);
    while poffset >= 0
      invariant poffset < 0 ==> goal == Miss(-(poffset as int))
      invariant poffset >= 0 ==>
                  poffset <= |s| && poffset % 4 == 0 &&
                  LexOne(s[poffset..]).Good? && LexOne(s[poffset..]).tok.Prop? &&
                  FindProp(s, strs, poffset, name) == goal
      decreases if poffset < 0 then 0 else |s| + 4 - poffset
    {
      ghost var l := LexOne(s[poffset..]);
      var nameoff: U32;
      nameoff, len := PropWords(b, poffset);
      // The word is an int in the source; from POW31 on it is negative there.
      var ok, str := GetString(b, if nameoff < POW31 then nameoff else nameoff - POW32);
      if nameoff >= POW31 { HighOffset(b, nameoff); }
      if ok >= 0 && str == name {
        return;
      }
      var tag, after := NextTag(b, poffset);
      poffset := NextProp(b, after, strs, name);
    }
  }

  lemma NodeNextAligned(s: seq<Byte>, o: int)
    requires NodeNext(s, o) >= 0
    ensures NodeNext(s, o) % 4 == 0
  {
  }

  lemma HighOffset(b: Blob, off: U32)
    requires Readable(b) && off >= POW31
    ensures !Named(StringsBlock(b), off)
  {
  }

  /** The words of the property structure at `offset`. */
  method PropWords(b: Blob, offset: I32) returns (nameoff: U32, len: I32)
    requires Readable(b) && 0 <= offset <= |StructBlock(b)|
    requires LexOne(StructBlock(b)[offset..]).Good? && LexOne(StructBlock(b)[offset..]).tok.Prop?
    ensures nameoff == LexOne(StructBlock(b)[offset..]).tok.nameoff
    ensures len == |LexOne(StructBlock(b)[offset..]).tok.value|
  {
    PropBytes(StructBlock(b)[offset..]);
    hide LexOne, StructBlock, Load32;
    BlockSize(b);
    BlockWord(b, offset, 4);
    BlockWord(b, offset, 8);
    nameoff := Load32(b, OffStruct(b) + offset + 8);
    len := Load32(b, OffStruct(b) + offset + 4);
  }

  lemma PropBytes(t: seq<Byte>)
    requires LexOne(t).Good? && LexOne(t).tok.Prop?
    ensures |t| >= 12 + |LexOne(t).tok.value|
    ensures Load32(t, 0) == TAG_PROP && Load32(t, 4) == |LexOne(t).tok.value| && Load32(t, 8) == LexOne(t).tok.nameoff
    ensures t[12..12 + Load32(t, 4)] == LexOne(t).tok.value
  {
  }

  // ---------- what the lookup finds ----------

  /** Index of the first property called `name`, or |ps|. */
  function FirstNamed(ps: seq<Property>, name: seq<Byte>): (i: nat)
    ensures i <= |ps|
    ensures i < |ps| ==> ps[i].name == name
    ensures forall k | 0 <= k < i :: ps[k].name != name
  {
    if ps == [] || ps[0].name == name then 0 else 1 + FirstNamed(ps[1..], name)
  }

  /** Token `j` of the run at `a`, at offset `at`, is attribute `i` of `ps`; `y` follows them all. */
  ghost predicate PropAt(s: seq<Byte>, strs: seq<Byte>, a: nat, ts: seq<Token>, ps: seq<Property>, y: seq<Item>,
                         i: nat, at: nat, j: nat) {
    && i < |ps| && a <= at <= |s| && j < |ts|
    && Lexes(s[a..at], ts[..j]) && Lex(s[at..]) == Tokens(ts[j..])
    && ts[j].Prop? && ts[j].value == ps[i].value
    && Items(strs, ts[..j]) == Attrs(ps[..i]) && Items(strs, ts[j + 1..]) == Attrs(ps[i + 1..]) + y
  }

  lemma PropAtHere(s: seq<Byte>, strs: seq<Byte>, a: nat, ts: seq<Token>, ps: seq<Property>, y: seq<Item>)
    requires a <= |s| && Lex(s[a..]) == Tokens(ts) && ts != [] && ts[0].Prop? && ps != []
    requires ts[0].value == ps[0].value && Items(strs, ts[1..]) == Attrs(ps[1..]) + y
    ensures PropAt(s, strs, a, ts, ps, y, 0, a, 0)
  {
    hide LexOne, Lex;
    assert s[a..a] == [] && ts[..0] == [] && ps[..0] == [] && ts[0..] == ts;
  }

  lemma PropAtLater(s: seq<Byte>, strs: seq<Byte>, a: nat, ts: seq<Token>, ps: seq<Property>, y: seq<Item>,
                    ps': seq<Property>, i: nat, at: nat, j: nat)
    requires a <= |s| && ts != []
    requires LexOne(s[a..]).Good? && LexOne(s[a..]).tok == ts[0] && !ts[0].Finish? && a + LexOne(s[a..]).len <= |s|
    requires PropAt(s, strs, a + LexOne(s[a..]).len, ts[1..], ps', y, i, at, j)
    requires if ts[0].Nop? then ps == ps' else ts[0].Prop? && ps == [Property(NameAt(strs, ts[0].nameoff), ts[0].value)] + ps'
    ensures PropAt(s, strs, a, ts, ps, y, if ts[0].Nop? then i else i + 1, at, j + 1)
  {
    hide LexOne, Lexes, Lex, Items, NameAt;
    PushToken(s, strs, a, ts, at, j);
    assert ts[1..][j..] == ts[j + 1..];
    if ts[0].Prop? {
      assert ps[..i + 1] == [ps[0]] + ps'[..i] && ps[i + 2..] == ps'[i + 1..];
      assert Attrs(ps[..i + 1]) == [Attr(ps[0])] + Attrs(ps'[..i]);
    }
  }

  /** Over the attributes `ps` of a node, with `y` behind them, the scan stops at the first of that
      name and misses when there is none. */
  lemma {:induction false} FindPropIn(s: seq<Byte>, strs: seq<Byte>, a: nat, ts: seq<Token>,
                                      ps: seq<Property>, y: seq<Item>, name: seq<Byte>) returns (at: nat, j: nat)
    requires a <= |s| && Lex(s[a..]) == Tokens(ts) && AllNamed(strs, ts)
    requires Items(strs, ts) == Attrs(ps) + y && y != [] && !y[0].Attr?
    ensures var i := FirstNamed(ps, name);
            if i == |ps| then FindProp(s, strs, a, name) == Miss(NOTFOUND)
            else FindProp(s, strs, a, name) == Hit(at, ps[i].value) && PropAt(s, strs, a, ts, ps, y, i, at, j)
    decreases |ts|
  {
    hide LexOne, Lexes, Lex, Named, NameAt, Items, PropAt, AllNamed;
    assert ts != [] by { ItemsNil(strs); }
    LexHead(s[a..], ts);
    var l := LexOne(s[a..]);
    assert s[a..][l.len..] == s[a + l.len..];
    at, j := a, 0;
    if ts[0].Nop? {
      NopFirst(strs, ts);
      at, j := FindPropIn(s, strs, a + l.len, ts[1..], ps, y, name);
      if FirstNamed(ps, name) < |ps| {
        PropAtLater(s, strs, a, ts, ps, y, ps, FirstNamed(ps, name), at, j);
        j := j + 1;
      }
    } else if ts[0].Prop? {
      PropFirst(strs, ts, ps, y);
      if ps[0].name == name {
        PropAtHere(s, strs, a, ts, ps, y);
      } else {
        at, j := FindPropIn(s, strs, a + l.len, ts[1..], ps[1..], y, name);
        var i := FirstNamed(ps[1..], name);
        if i < |ps[1..]| {
          assert ps == [ps[0]] + ps[1..];
          PropAtLater(s, strs, a, ts, ps, y, ps[1..], i, at, j);
          j := j + 1;
        }
      }
    } else {
      OtherFirst(strs, ts, ps, y);
    }
  }

  lemma OtherFirst(strs: seq<Byte>, ts: seq<Token>, ps: seq<Property>, y: seq<Item>)
    requires ts != [] && (ts[0].Begin? || ts[0].End?) && Items(strs, ts) == Attrs(ps) + y
    ensures ps == []
  {
    assert Items(strs, ts)[0] == Item1(strs, ts[0])[0];
  }

  lemma ItemsNil(strs: seq<Byte>)
    ensures Items(strs, []) == []
  {
  }

  lemma NopFirst(strs: seq<Byte>, ts: seq<Token>)
    requires ts != [] && ts[0].Nop?
    ensures Items(strs, ts[1..]) == Items(strs, ts)
    ensures AllNamed(strs, ts) ==> AllNamed(strs, ts[1..])
  {
    assert forall i | 0 <= i < |ts[1..]| :: ts[1..][i] == ts[i + 1];
  }

  lemma PropFirst(strs: seq<Byte>, ts: seq<Token>, ps: seq<Property>, y: seq<Item>)
    requires ts != [] && ts[0].Prop? && Items(strs, ts) == Attrs(ps) + y && AllNamed(strs, ts)
    requires y != [] && !y[0].Attr?
    ensures ps != [] && Items(strs, ts[1..]) == Attrs(ps[1..]) + y && AllNamed(strs, ts[1..])
    ensures Named(strs, ts[0].nameoff) && ps[0] == Property(NameAt(strs, ts[0].nameoff), ts[0].value)
  {
    assert forall i | 0 <= i < |ts[1..]| :: ts[1..][i] == ts[i + 1];
    assert Attrs([]) + y == y;
    assert Items(strs, ts)[0] == Attr(ps[0]);
    assert Items(strs, ts)[1..] == Items(strs, ts[1..]);
    assert (Attrs(ps) + y)[1..] == Attrs(ps[1..]) + y;
  }

  lemma PushToken(s: seq<Byte>, strs: seq<Byte>, a: nat, ts: seq<Token>, at: nat, j: nat)
    requires a <= |s| && ts != [] && j + 1 < |ts|
    requires LexOne(s[a..]).Good? && LexOne(s[a..]).tok == ts[0] && !ts[0].Finish?
    requires a + LexOne(s[a..]).len <= at <= |s| && Lexes(s[a + LexOne(s[a..]).len..at], ts[1..][..j])
    ensures Lexes(s[a..at], ts[..j + 1])
    ensures Items(strs, ts[..j + 1]) == Item1(strs, ts[0]) + Items(strs, ts[1..][..j])
    ensures ts[1..][j] == ts[j + 1] && ts[1..][j + 1..] == ts[j + 2..]
  {
    hide LexOne, Lexes;
    assert ts[..j + 1] == [ts[0]] + ts[1..][..j];
    assert ts[..j + 1][1..] == ts[1..][..j];
    RunCons(s, a, at, ts[..j + 1]);
    ItemsConcat(strs, [ts[0]], ts[1..][..j]);
    ItemsOne(strs, ts[0]);
  }
}

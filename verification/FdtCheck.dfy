/** fdt_check_header and fdt_check_full (kernel/fdt/fdt.c, fdt_check.c). */
module FdtCheck {
  import opened Common
  import opened Bytes
  import opened FdtFormat
  import opened FdtTree
  import opened FdtDecode
  import opened FdtPlace
  import opened FdtTags
  import opened FdtProps

  /** In a header that is in order no block begins inside the header fields of its version: up to version 16
      the size of the strings block is the last field, from 17 on that of the structure block. */
  lemma HeaderClear(b: Blob)
    requires HeaderOk(b)
    ensures Version(b) >= 3 ==> H_SIZE_STRINGS + 4 <= OffRsvmap(b) && H_SIZE_STRINGS + 4 <= OffStruct(b) && H_SIZE_STRINGS + 4 <= OffStrings(b)
    ensures Version(b) >= 17 ==> H_SIZE_STRUCT + 4 <= OffRsvmap(b) && H_SIZE_STRUCT + 4 <= OffStruct(b) && H_SIZE_STRUCT + 4 <= OffStrings(b)
  {
    hide Load32;
  }

  /** check_off_ and check_block_, with the overflow test on the 32-bit sum. */
  predicate CheckOff(hdrsize: U32, totalsize: U32, off: U32) {
    off >= hdrsize && off <= totalsize
  }

  predicate CheckBlock(hdrsize: U32, totalsize: U32, base: U32, size: U32) {
    CheckOff(hdrsize, totalsize, base) && !(Wrap(base + size) < base) && CheckOff(hdrsize, totalsize, Wrap(base + size))
  }

  function HeaderSize(version: U32): U32 {
    if version <= 1 then 28 else if version <= 2 then 32 else if version <= 16 then 36 else 40
  }

  /** The blocks lie between the header and the end of the blob. */
  predicate HeaderOk(b: Blob) {
    var h, t := HeaderSize(Version(b)), TotalSize(b);
    && Magic(b) == MAGIC && Version(b) >= 2 && LastComp(b) <= 17 && LastComp(b) <= Version(b)
    && h <= t < POW31
    && h <= OffRsvmap(b) <= t
    && h <= OffStruct(b) && OffStruct(b) + (if Version(b) < 17 then 0 else SizeStruct(b)) <= t
    && h <= OffStrings(b) && OffStrings(b) + SizeStrings(b) <= t
  }

  /** fdt_check_header. */
  method CheckHeader(b: Blob) returns (r: int)
    ensures r == 0 <==> HeaderOk(b)
    ensures r == -BADMAGIC <==> Magic(b) != MAGIC
    ensures r == -BADVERSION <==> Magic(b) == MAGIC && !(Version(b) >= 2 && LastComp(b) <= 17 && LastComp(b) <= Version(b))
    ensures r == 0 || r == -BADMAGIC || r == -BADVERSION || r == -TRUNCATED
  {
    hide Load32;
    if Magic(b) != MAGIC {
      return -BADMAGIC;
    }
    if Version(b) < 2 || LastComp(b) > 17 {
      return -BADVERSION;
    }
    if Version(b) < LastComp(b) {
      return -BADVERSION;
    }
    var hdrsize, total := HeaderSize(Version(b)), TotalSize(b);
    if total < hdrsize || total > POW31 - 1 {
      return -TRUNCATED;
    }
    if !CheckOff(hdrsize, total, OffRsvmap(b)) {
      return -TRUNCATED;
    }
    if Version(b) < 17 {
      if !CheckOff(hdrsize, total, OffStruct(b)) {
        return -TRUNCATED;
      }
    } else if !CheckBlock(hdrsize, total, OffStruct(b), SizeStruct(b)) {
      return -TRUNCATED;
    }
    if !CheckBlock(hdrsize, total, OffStrings(b), SizeStrings(b)) {
      return -TRUNCATED;
    }
    return 0;
  }

  /** Entry `i` of the memory reservation block fits into the blob. */
  predicate RsvFits(b: Blob, i: nat) {
    OffRsvmap(b) + 16 * i + 16 <= TotalSize(b)
  }

  predicate RsvZero(b: Blob, i: nat)
    requires RsvFits(b, i) && TotalSize(b) <= |b|
  {
    var a := OffRsvmap(b) + 16 * i + 8;
    b[a..a + 8] == [0, 0, 0, 0, 0, 0, 0, 0]
  }

  /** The tests on the 32-bit offset of an entry accept exactly the entries inside the blob. */
  lemma RsvOffset(off: U32, total: nat, i: nat)
    requires 16 <= total < POW31 && 16 * i <= total
    ensures var a := Wrap(off + Wrap(16 * i));
            && (off + 16 * i + 16 <= total <==> !(a < off || a > total - 16))
            && (off + 16 * i + 16 <= total ==> a == off + 16 * i)
  {
  }

  /** fdt_num_mem_rsv: the index of the terminating entry. */
  method NumMemRsv(b: Blob) returns (r: int)
    requires TotalSize(b) <= |b| && 16 <= TotalSize(b) < POW31
    ensures r >= 0 ==> RsvFits(b, r) && RsvZero(b, r)
    ensures r >= 0 ==> forall i | 0 <= i < r :: RsvFits(b, i) && !RsvZero(b, i)
    ensures r < 0 ==> r == -TRUNCATED && forall i: nat | RsvFits(b, i) :: !RsvZero(b, i)
  {
    hide Load32, Wrap;
    var i := 0;
    while true
      invariant 0 <= i && 16 * i <= TotalSize(b)
      invariant forall k | 0 <= k < i :: RsvFits(b, k) && !RsvZero(b, k)
      decreases TotalSize(b) - 16 * i
    {
      var absoffset := Wrap(OffRsvmap(b) + Wrap(16 * i));
      RsvOffset(OffRsvmap(b), TotalSize(b), i);
      if absoffset < OffRsvmap(b) || absoffset > TotalSize(b) - 16 {
        return -TRUNCATED;
      }
      assert RsvFits(b, i);
      if b[absoffset + 8..absoffset + 16] == [0, 0, 0, 0, 0, 0, 0, 0] {
        return i;
      }
      i := i + 1;
    }
  }

  /** The tag loop of fdt_check_full, from the tag at `o` at depth `d`. */
  function CheckTags(s: seq<Byte>, strs: seq<Byte>, o: nat, d: nat, expectEnd: bool): (r: int)
    decreases |s| - o
  {
    if o > |s| then -TRUNCATED
    else
      match LexOne(s[o..])
      case Bad(e) => -e
      case Good(tok, len) =>
        if expectEnd && !tok.Finish? then -BADSTRUCTURE
        else
          match tok
          case Finish => if d != 0 then -BADSTRUCTURE else 0
          case Nop => CheckTags(s, strs, o + len, d, expectEnd)
          case Begin(name) => if d == 0 && name != [] then -BADSTRUCTURE else CheckTags(s, strs, o + len, d + 1, expectEnd)
          case End => if d == 0 then -BADSTRUCTURE else CheckTags(s, strs, o + len, d - 1, expectEnd || d == 1)
          case Prop(off, _) =>
            if Named(strs, off) then CheckTags(s, strs, o + len, d, expectEnd) else -NameError(strs, off)
  }

  /** What fdt_check_full accepts. */
  ghost predicate Accepted(b: Blob) {
    && HeaderOk(b) && TotalSize(b) <= |b| && (exists i: nat :: RsvFits(b, i) && RsvZero(b, i))
    && CheckTags(StructBlock(b), StringsBlock(b), 0, 0, false) == 0
  }

  /** Not one of the versions 2 to 15, nor a version up to 16 in a buffer shorter than the header of 17,
      nor a total size of exactly 2^31 - 1. */
  predicate Modelled(buf: seq<Byte>) {
    |buf| >= 28 ==>
      if |buf| < HEADER then Load32(buf, H_VERSION) >= 17
      else !(2 <= Load32(buf, H_VERSION) < 16) && Load32(buf, H_TOTALSIZE) != POW31 - 1
  }

  /** fdt_check_full. */
  method CheckFull(buf: seq<Byte>) returns (r: int)
    requires Modelled(buf)
    ensures r == 0 <==> |buf| >= HEADER && Accepted(buf)
  {
    hide LexOne, StructBlock, StringsBlock, Load32, Named, NameAt;
    if |buf| < 28 {
      return -TRUNCATED;
    }
    if |buf| < HeaderSize(Load32(buf, H_VERSION)) {
      return -TRUNCATED;
    }
    var b: Blob := buf;
    r := CheckHeader(b);
    if r != 0 {
      return;
    }
    if |b| < TotalSize(b) {
      return -TRUNCATED;
    }
    var num := NumMemRsv(b);
    if num < 0 {
      return num;
    }
    assert RsvFits(b, num) && RsvZero(b, num);
    BlockSize(b);
    ghost var s, strs := StructBlock(b), StringsBlock(b);
    var next: I32, depth, expectEnd := 0, 0, false;
    while true
      invariant next >= 0 && next % 4 == 0 && depth >= 0
      invariant CheckTags(s, strs, next, depth, expectEnd) == CheckTags(s, strs, 0, 0, false)
      decreases |s| + 4 - next
    {
      LexEmpty();
      var offset := next;
      var tag;
      tag, next := NextTag(b, offset);
      if next < 0 {
        return next;
      }
      if expectEnd && tag != TAG_END {
        return -BADSTRUCTURE;
      }
      if tag == TAG_END {
        return if depth != 0 then -BADSTRUCTURE else 0;
      } else if tag == TAG_BEGIN_NODE {
        depth := depth + 1;
        if depth == 1 {
          // fdt_get_name: the name at offset + 4 must be the empty string.
          NameByte(b, offset);
          if b[OffStruct(b) + offset + 4] != 0 {
            return -BADSTRUCTURE;
          }
        }
      } else if tag == TAG_END_NODE {
        if depth == 0 {
          return -BADSTRUCTURE;
        }
        depth := depth - 1;
        if depth == 0 {
          expectEnd := true;
        }
      } else if tag == TAG_PROP {
        var nameoff, _ := PropWords(b, offset);
        var ok, _ := GetString(b, if nameoff < POW31 then nameoff else nameoff - POW32);
        if nameoff >= POW31 { HighOffset(b, nameoff); HighError(b, nameoff); }
        if ok < 0 {
          return ok;
        }
      }
    }
  }

  lemma HighError(b: Blob, off: U32)
    requires Readable(b) && off >= POW31
    ensures NameError(StringsBlock(b), off) == BADOFFSET
  {
  }

  /** The byte behind a begin tag is NUL exactly when the name is empty. */
  lemma NameByte(b: Blob, o: nat)
    requires Readable(b) && o <= |StructBlock(b)|
    requires LexOne(StructBlock(b)[o..]).Good? && LexOne(StructBlock(b)[o..]).tok.Begin?
    ensures OffStruct(b) + o + 4 < |b|
    ensures b[OffStruct(b) + o + 4] == 0 <==> LexOne(StructBlock(b)[o..]).tok.name == []
  {
    var s := StructBlock(b);
    BlockSize(b);
    OffsetPtrBlock(b, o + 4, 1);
    var a := OffStruct(b) + o + 4;
    assert b[a] == b[a..a + 1][0] == s[o + 4..o + 5][0] == s[o..][4];
  }

  // ---------- what acceptance means ----------

  ghost predicate Flat(ts: seq<Token>) {
    forall i | 0 <= i < |ts| :: !ts[i].Begin? && !ts[i].End?
  }

  /** Tokens inside a node `e` levels down, up to and including the end tag of the outermost one:
      well nested, and nothing behind. */
  ghost predicate Inner(ts: seq<Token>, e: int) {
    ts != [] && ts[|ts| - 1].End? &&
    var x := Items([], ts[..|ts| - 1]);
    Stays(x, e, -1) && e + Net(x) == 0
  }

  ghost predicate RootAt(ts: seq<Token>, i: nat) {
    i < |ts| && Flat(ts[..i]) && ts[i] == Begin([]) && Inner(ts[i + 1..], 0)
  }

  /** Well nested with at most one root; that root has no name and ends the block. */
  ghost predicate OneRoot(ts: seq<Token>) {
    Flat(ts) || exists i: nat :: RootAt(ts, i)
  }

  lemma InnerStep(ts: seq<Token>, e: int)
    requires ts != [] && e >= 0 && !ts[0].Finish?
    ensures Inner(ts, e) <==>
            match ts[0]
            case Begin(_) => Inner(ts[1..], e + 1)
            case End => if e == 0 then ts[1..] == [] else Inner(ts[1..], e - 1)
            case _ => Inner(ts[1..], e)
  {
    if |ts| == 1 {
      assert ts[..0] == [];
    } else {
      var f, r := ts[..|ts| - 1], ts[1..];
      assert f == [ts[0]] + r[..|r| - 1];
      ItemsConcat([], [ts[0]], r[..|r| - 1]);
      ItemsOne([], ts[0]);
      StaysConcat(Item1([], ts[0]), Items([], r[..|r| - 1]), e, -1);
      if !ts[0].Nop? {
        assert Item1([], ts[0])[1..] == [];
      }
    }
  }

  lemma OneRootStep(ts: seq<Token>)
    requires ts != []
    ensures OneRoot(ts) <==>
            match ts[0]
            case Begin(name) => name == [] && Inner(ts[1..], 0)
            case End => false
            case _ => OneRoot(ts[1..])
  {
    hide Inner;
    var r := ts[1..];
    if ts[0].Begin? {
      if ts[0].name == [] && Inner(r, 0) {
        assert ts[..0] == [] && ts[0 + 1..] == r;
        assert RootAt(ts, 0);
      }
    }
    if !ts[0].Begin? && !ts[0].End? {
      if OneRoot(r) && !Flat(r) {
        var i: nat :| RootAt(r, i);
        assert ts[i + 2..] == r[i + 1..] && ts[i + 1] == r[i];
        assert ts[..i + 1] == [ts[0]] + r[..i];
        assert RootAt(ts, i + 1);
      }
      if exists i: nat :: RootAt(ts, i) {
        var i: nat :| RootAt(ts, i);
        assert ts[i + 1..] == r[i..] && r[i - 1] == ts[i];
        var q := r[..i - 1];
        forall k | 0 <= k < |q|
          ensures !q[k].Begin? && !q[k].End?
        {
          assert q[k] == ts[..i][k + 1];
        }
        assert RootAt(r, i - 1);
      }
      if Flat(r) {
        assert forall k | 1 <= k < |ts| :: ts[k] == r[k - 1];
      }
      if Flat(ts) {
        assert forall k | 0 <= k < |r| :: r[k] == ts[k + 1];
      }
    } else {
      NotFlat(ts);
      forall i: nat | 0 < i < |ts|
        ensures !RootAt(ts, i)
      {
        NotFlat(ts[..i]);
      }
    }
  }

  lemma NotFlat(ts: seq<Token>)
    requires ts != [] && (ts[0].Begin? || ts[0].End?)
    ensures !Flat(ts)
  {
    assert ts[0].Begin? || ts[0].End?;
  }

  lemma NamedStep(strs: seq<Byte>, ts: seq<Token>)
    requires ts != []
    ensures AllNamed(strs, ts) <==> (ts[0].Prop? ==> Named(strs, ts[0].nameoff)) && AllNamed(strs, ts[1..])
  {
    hide Named;
    ItemsConcat(strs, [ts[0]], ts[1..]);
    assert ts == [ts[0]] + ts[1..];
    assert AllNamed(strs, [ts[0]]) <==> (ts[0].Prop? ==> Named(strs, ts[0].nameoff));
  }

  /** One step of `Lex`. */
  lemma LexStep(s: seq<Byte>, o: nat)
    requires o <= |s| && LexOne(s[o..]).Good? && !LexOne(s[o..]).tok.Finish?
    ensures var l := LexOne(s[o..]);
            if o + l.len > |s| then Lex(s[o..]).Broken?
            else Lex(s[o..]) == Prepend([l.tok], Lex(s[o + l.len..]))
  {
    hide LexOne;
    LexEmpty();
    var l := LexOne(s[o..]);
    if o + l.len <= |s| {
      assert s[o..][l.len..] == s[o + l.len..];
      assert o + l.len == |s| ==> s[o + l.len..] == [];
    }
  }

  lemma {:induction false} CheckExpectEnd(s: seq<Byte>, strs: seq<Byte>, o: nat)
    ensures CheckTags(s, strs, o, 0, true) == 0 <==> o <= |s| && Lex(s[o..]) == Tokens([])
  {
    hide LexOne;
    if o <= |s| && LexOne(s[o..]).Good? && !LexOne(s[o..]).tok.Finish? {
      LexStep(s, o);
    }
  }

  lemma {:induction false} CheckInner(s: seq<Byte>, strs: seq<Byte>, o: nat, d: nat)
    requires d >= 1
    ensures CheckTags(s, strs, o, d, false) == 0 <==>
            o <= |s| && Lex(s[o..]).Tokens? && AllNamed(strs, Lex(s[o..]).toks) && Inner(Lex(s[o..]).toks, d - 1)
    decreases |s| - o
  {
    hide LexOne, Named, Inner, AllNamed;
    if o > |s| {
    } else if LexOne(s[o..]).Bad? {
    } else if LexOne(s[o..]).tok.Finish? {
      InnerNil(d - 1);
    } else {
      LexStep(s, o);
      var l := LexOne(s[o..]);
      var tok, o' := l.tok, o + l.len;
      if tok.Begin? {
        CheckInner(s, strs, o', d + 1);
      } else if tok.End? && d == 1 {
        CheckExpectEnd(s, strs, o');
      } else {
        CheckInner(s, strs, o', if tok.End? then d - 1 else d);
      }
      if o' <= |s| && Lex(s[o'..]).Tokens? {
        var ts := Lex(s[o..]).toks;
        assert ts[1..] == Lex(s[o'..]).toks;
        InnerStep(ts, d - 1);
        NamedStep(strs, ts);
        NamedNil(strs);
      }
    }
  }

  lemma InnerNil(e: int)
    ensures !Inner([], e)
  {
  }

  lemma NamedNil(strs: seq<Byte>)
    ensures AllNamed(strs, [])
  {
  }

  /** fdt_check_full accepts exactly the blocks whose tags can be followed to FDT_END, are well nested
      with at most one, nameless, root, and whose property names are terminated strings of the
      strings block. */
  lemma {:induction false} CheckTagsIff(s: seq<Byte>, strs: seq<Byte>, o: nat)
    ensures CheckTags(s, strs, o, 0, false) == 0 <==>
            o <= |s| && Lex(s[o..]).Tokens? && AllNamed(strs, Lex(s[o..]).toks) && OneRoot(Lex(s[o..]).toks)
    decreases |s| - o
  {
    hide LexOne, Named, Inner, AllNamed, OneRoot;
    if o > |s| {
    } else if LexOne(s[o..]).Bad? {
    } else if LexOne(s[o..]).tok.Finish? {
      NamedNil(strs);
      OneRootNil();
    } else {
      LexStep(s, o);
      var l := LexOne(s[o..]);
      var tok, o' := l.tok, o + l.len;
      if tok.Begin? {
        CheckInner(s, strs, o', 1);
      } else if !tok.End? {
        CheckTagsIff(s, strs, o');
      }
      if o' <= |s| && Lex(s[o'..]).Tokens? {
        var ts := Lex(s[o..]).toks;
        assert ts[1..] == Lex(s[o'..]).toks;
        OneRootStep(ts);
        NamedStep(strs, ts);
      }
    }
  }

  lemma OneRootNil()
    ensures OneRoot([])
  {
  }

  /** Every blob that decodes to a tree with a nameless root, and has nothing behind the root's end
      tag, is accepted. */
  lemma DecodedIsAccepted(s: seq<Byte>, strs: seq<Byte>, t: Node)
    requires DecodeBlocks(s, strs) == Some(t) && t.name == []
    requires Lex(s).toks != [] && Lex(s).toks[|Lex(s).toks| - 1].End?
    ensures CheckTags(s, strs, 0, 0, false) == 0
  {
    hide LexOne, Named, Lex, DecodeBlocks, CheckTags, Items, AllNamed, Inner;
    DecodeIff(s, strs, t);
    var ts := Lex(s).toks;
    assert s[0..] == s;
    CheckTagsIff(s, strs, 0);
    var x := Attrs(t.props) + FlattenAll(t.children);
    assert Flatten(t) == [Open([])] + x + [Close];
    hide Flatten, FlattenAll, Attrs;
    var m := TokenOfItem(strs, ts, 0);
    NoItems(strs, ts[..m]);
    assert Flatten(t)[1..] == x + [Close];
    var rest := ts[m + 1..];
    assert rest != [] by { ItemsNil(strs); }
    assert rest[|rest| - 1] == ts[|ts| - 1];
    BodyIsInner(strs, rest, t);
    assert RootAt(ts, m);
  }

  lemma BodyIsInner(strs: seq<Byte>, rest: seq<Token>, t: Node)
    requires rest != [] && rest[|rest| - 1].End?
    requires Items(strs, rest) == Attrs(t.props) + FlattenAll(t.children) + [Close]
    ensures Inner(rest, 0)
  {
    hide Items, Attrs, FlattenAll, Stays, Net;
    var x := Attrs(t.props) + FlattenAll(t.children);
    var f := rest[..|rest| - 1];
    assert rest == f + [End];
    ItemsConcat(strs, f, [End]);
    ItemsOne(strs, End);
    assert Items(strs, rest)[..|x|] == x;
    assert Items(strs, f) == x;
    StaysAttrs(t.props, 0, -1);
    StaysNodes(t.children, 0, -1);
    StaysConcat(Attrs(t.props), FlattenAll(t.children), 0, -1);
    NamesDoNotMatter(strs, [], f, 0);
  }

  lemma {:induction false} NoItems(strs: seq<Byte>, ts: seq<Token>)
    requires Items(strs, ts) == []
    ensures Flat(ts)
  {
    if ts != [] {
      NoItems(strs, ts[1..]);
      assert forall k | 1 <= k < |ts| :: ts[k] == ts[1..][k - 1];
    }
  }

  lemma {:induction false} NamesDoNotMatter(strs: seq<Byte>, strs': seq<Byte>, ts: seq<Token>, d: int)
    ensures Net(Items(strs, ts)) == Net(Items(strs', ts))
    ensures Stays(Items(strs, ts), d, -1) <==> Stays(Items(strs', ts), d, -1)
  {
    if ts != [] {
      var a, b := Item1(strs, ts[0]), Item1(strs', ts[0]);
      StaysConcat(a, Items(strs, ts[1..]), d, -1);
      StaysConcat(b, Items(strs', ts[1..]), d, -1);
      if a != [] {
        assert a[1..] == [] && b[1..] == [];
      }
      NamesDoNotMatter(strs, strs', ts[1..], d + Net(a));
    }
  }
}

/** The in-place editor of kernel/fdt/fdt_rw.c and the overwriting operations of fdt_wip.c.  Each
    method works on bytes; its contract says which single node of the decoded tree it changes, and
    how. */
module FdtEdit {
  import opened Common
  import opened Bytes
  import opened FdtFormat
  import opened FdtTree
  import opened FdtDecode
  import opened FdtPlace
  import opened FdtTags
  import opened FdtNav
  import opened FdtProps
  import opened FdtBuffer
  import opened FdtSplice
  import W = FdtWriter

  /** A finished version 17 blob with its blocks in the order the editor relies on. */
  predicate Ordered(b: Blob) {
    && Magic(b) == MAGIC && Version(b) == 17
    && TotalSize(b) <= |b| && TotalSize(b) < POW31 - 1
    && HEADER <= OffRsvmap(b) && OffRsvmap(b) + 16 <= OffStruct(b)
    && OffStruct(b) + SizeStruct(b) <= OffStrings(b) && OffStrings(b) + SizeStrings(b) <= TotalSize(b)
  }

  /** fdt_rw_probe_ with fdt_ro_probe_ and fdt_blocks_misordered_, sums in 32 bits. */
  function RwProbe(b: Blob): int {
    if Magic(b) != MAGIC then -BADMAGIC
    else if Version(b) < 2 || LastComp(b) > 17 then -BADVERSION
    else if TotalSize(b) >= POW31 - 1 then -TRUNCATED
    else if Version(b) < 17 then -BADVERSION
    else if || OffRsvmap(b) < 40 || OffStruct(b) < Wrap(OffRsvmap(b) + 16)
            || OffStrings(b) < Wrap(OffStruct(b) + SizeStruct(b)) || TotalSize(b) < Wrap(OffStrings(b) + SizeStrings(b))
    then -BADLAYOUT
    else 0
  }

  /** What the library takes for granted about a header it has not checked: `totalsize` bytes are
      there, no block size overflows 32 bits, the structure block is whole words, and the blob is not
      one still being written. */
  predicate Sane(b: Blob) {
    && TotalSize(b) <= |b| && Version(b) <= 17 && Magic(b) != SW_MAGIC && SizeStruct(b) % 4 == 0
    && OffRsvmap(b) + 16 < POW32 && OffStruct(b) + SizeStruct(b) < POW32 && OffStrings(b) + SizeStrings(b) < POW32
  }

  /** The probe lets through exactly the finished blobs of version 17 with their blocks in order. */
  lemma ProbeIff(b: Blob)
    requires Sane(b)
    ensures RwProbe(b) == 0 <==> Ordered(b) && LastComp(b) <= 17
  {
    hide Load32;
  }

  /** What each refusal means. */
  lemma ProbeCodes(b: Blob)
    requires Sane(b)
    ensures RwProbe(b) == -BADMAGIC <==> Magic(b) != MAGIC
    ensures RwProbe(b) == -BADVERSION <==> Magic(b) == MAGIC && (LastComp(b) > 17 || (Version(b) != 17 && !Oversized(b)))
    ensures RwProbe(b) == -TRUNCATED <==> Magic(b) == MAGIC && LastComp(b) <= 17 && Oversized(b)
    ensures RwProbe(b) == -BADLAYOUT <==>
            Magic(b) == MAGIC && LastComp(b) <= 17 && Version(b) == 17 && TotalSize(b) < POW31 - 1 && !Ordered(b)
    ensures RwProbe(b) in {0, -BADMAGIC, -BADVERSION, -TRUNCATED, -BADLAYOUT}
  {
    hide Load32;
  }

  /** A total size that does not fit, in a version that may be read. */
  predicate Oversized(b: Blob) {
    Version(b) >= 2 && TotalSize(b) >= POW31 - 1
  }

  lemma ProbeOrders(b: Blob)
    requires Sane(b) && RwProbe(b) == 0
    ensures Ordered(b)
  {
    ProbeIff(b);
  }

  lemma OrderedBlocks(b: Blob)
    requires Ordered(b)
    ensures Readable(b) && StringsIn(b)
    ensures StructBlock(b) == b[OffStruct(b)..OffStruct(b) + SizeStruct(b)] && |StructBlock(b)| == SizeStruct(b)
    ensures StringsBlock(b) == b[OffStrings(b)..OffStrings(b) + SizeStrings(b)] && |StringsBlock(b)| == SizeStrings(b)
  {
    hide Load32;
  }

  /** Both blocks read the same. */
  ghost predicate SameBlocks(b: Blob, b': Blob) {
    StructBlock(b') == StructBlock(b) && StringsBlock(b') == StringsBlock(b)
  }

  /** `newlen` bytes have taken the place of `oldlen` bytes at offset `o` of the structure block. */
  ghost predicate Spliced(b: Blob, b': Blob, o: nat, oldlen: nat, newlen: nat) {
    && Ordered(b) && Ordered(b') && |b'| == |b| && TotalSize(b') == TotalSize(b) && OffStruct(b') == OffStruct(b)
    && StringsBlock(b') == StringsBlock(b)
    && Replaced(StructBlock(b), o, o + oldlen, StructBlock(b'), o + newlen)
  }

  /** The two header stores of fdt_splice_struct_. */
  lemma SpliceHeader(b: Blob, b1: Blob, b2: Blob, b3: Blob, x: int)
    requires Ordered(b) && |b1| == |b| && (forall j | 0 <= j < HEADER && j % 4 == 0 :: Load32(b1, j) == Load32(b, j))
    requires 0 <= SizeStruct(b) + x && OffStrings(b) + SizeStrings(b) + x <= TotalSize(b)
    requires b2 == Patch(b1, H_SIZE_STRUCT, Word(SizeStruct(b) + x)) && b3 == Patch(b2, H_OFF_STRINGS, Word(OffStrings(b) + x))
    ensures |b3| == |b| && Ordered(b3) && b3[HEADER..] == b1[HEADER..]
    ensures TotalSize(b3) == TotalSize(b) && OffStruct(b3) == OffStruct(b) && SizeStruct(b3) == SizeStruct(b) + x
    ensures OffStrings(b3) == OffStrings(b) + x && SizeStrings(b3) == SizeStrings(b)
  {
    hide Load32, Patch;
    PatchHeader(b1, H_SIZE_STRUCT, SizeStruct(b) + x);
    PatchHeader(b2, H_OFF_STRINGS, OffStrings(b) + x);
  }

  lemma SpliceLemma(b: Blob, b1: Blob, b2: Blob, b3: Blob, o: nat, oldlen: nat, newlen: nat)
    requires Ordered(b) && o + oldlen <= SizeStruct(b)
    requires var p: int, d: int := OffStruct(b) + o, OffStrings(b) + SizeStrings(b);
             d - oldlen + newlen <= TotalSize(b) && b1 == Patch(b, p + newlen, b[p + oldlen..d])
    requires b2 == Patch(b1, H_SIZE_STRUCT, Word(SizeStruct(b) + newlen - oldlen))
    requires b3 == Patch(b2, H_OFF_STRINGS, Word(OffStrings(b) + newlen - oldlen))
    ensures Spliced(b, b3, o, oldlen, newlen)
  {
    hide Load32, Patch, StructBlock, StringsBlock;
    var p: int, d: int := OffStruct(b) + o, OffStrings(b) + SizeStrings(b);
    var tail := b[p + oldlen..d];
    PatchBody(b, p + newlen, tail);
    SpliceHeader(b, b1, b2, b3, newlen - oldlen);
    var lo, x := OffStruct(b), newlen - oldlen;
    PatchSlice(b, p + newlen, tail, lo, p);
    PatchSlice(b, p + newlen, tail, p + newlen, d + x);
    W.KeepBehind(b1, b3, lo, p);
    W.KeepBehind(b1, b3, p + newlen, d + x);
    SpliceBlocks(b, b3, o, oldlen, newlen);
  }

  lemma SpliceBlocks(b: Blob, b': Blob, o: nat, oldlen: nat, newlen: nat)
    requires Ordered(b) && Ordered(b') && |b'| == |b| && o + oldlen <= SizeStruct(b)
    requires TotalSize(b') == TotalSize(b) && OffStruct(b') == OffStruct(b) && SizeStruct(b') == SizeStruct(b) + newlen - oldlen
    requires OffStrings(b') == OffStrings(b) + newlen - oldlen && SizeStrings(b') == SizeStrings(b)
    requires var p: int, d: int := OffStruct(b) + o, OffStrings(b) + SizeStrings(b);
             b'[OffStruct(b)..p] == b[OffStruct(b)..p] && b'[p + newlen..d + newlen - oldlen] == b[p + oldlen..d]
    ensures Spliced(b, b', o, oldlen, newlen)
  {
    hide Load32, StructBlock, StringsBlock;
    OrderedBlocks(b);
    OrderedBlocks(b');
    SpliceBytes(b, b', OffStruct(b), SizeStruct(b), OffStrings(b), SizeStrings(b), o, oldlen, newlen);
  }

  /** The same on plain bytes: the parts before and behind the splice, and the strings behind them. */
  lemma SpliceBytes(b: seq<Byte>, b': seq<Byte>, lo: nat, z: nat, st: nat, ss: nat, o: nat, oldlen: nat, newlen: nat)
    requires o + oldlen <= z && lo + z <= st && st + ss <= |b| && st + ss - oldlen + newlen <= |b'|
    requires b'[lo..lo + o] == b[lo..lo + o]
    requires b'[lo + o + newlen..st + ss + newlen - oldlen] == b[lo + o + oldlen..st + ss]
    ensures var x := newlen - oldlen;
            b'[lo..lo + z + x][..o] == b[lo..lo + z][..o] &&
            b'[lo..lo + z + x][o + newlen..] == b[lo..lo + z][o + oldlen..] &&
            b'[st + x..st + x + ss] == b[st..st + ss]
  {
    var x, p, d := newlen - oldlen, lo + o, st + ss;
    SliceOfSlice(b', lo, lo + z + x, 0, o);
    SliceOfSlice(b, lo, lo + z, 0, o);
    SliceOfSlice(b', lo, lo + z + x, o + newlen, z + x);
    SliceOfSlice(b, lo, lo + z, o + oldlen, z);
    SliceOfSlice(b', p + newlen, d + x, 0, z - o - oldlen);
    SliceOfSlice(b, p + oldlen, d, 0, z - o - oldlen);
    SliceOfSlice(b', p + newlen, d + x, st - (p + oldlen), d - (p + oldlen));
    SliceOfSlice(b, p + oldlen, d, st - (p + oldlen), d - (p + oldlen));
  }

  /** A store inside the structure block. */
  lemma StoreInStruct(b: Blob, i: nat, s: seq<Byte>)
    requires Ordered(b) && i + |s| <= SizeStruct(b)
    ensures var b' := Patch(b, OffStruct(b) + i, s);
            Ordered(b') && |b'| == |b| && OffStruct(b') == OffStruct(b) && SizeStruct(b') == SizeStruct(b) &&
            TotalSize(b') == TotalSize(b) &&
            StringsBlock(b') == StringsBlock(b) && i + |s| <= |StructBlock(b)| && StructBlock(b') == Patch(StructBlock(b), i, s)
  {
    hide Load32, Patch, StructBlock, StringsBlock;
    var p := OffStruct(b) + i;
    PatchBody(b, p, s);
    OrderedBlocks(b);
    OrderedBlocks(Patch(b, p, s));
    PatchSlice(b, p, s, OffStruct(b), OffStruct(b) + SizeStruct(b));
    PatchSlice(b, p, s, OffStrings(b), OffStrings(b) + SizeStrings(b));
  }

  /** A blob of version 16 or 17 that can be read, its blocks in any order, its structure block whole words. */
  predicate Overwritable(b: Blob) {
    Readable(b) && StringsIn(b) && (Version(b) >= 17 ==> OffStruct(b) >= HEADER) && |StructBlock(b)| % 4 == 0
  }

  /** No byte of the structure block from `o` up to `e` is in the strings block as well. */
  predicate ClearOf(b: Blob, o: int, e: int) {
    OffStruct(b) + e <= OffStrings(b) || OffStrings(b) + |StringsBlock(b)| <= OffStruct(b) + o
  }

  lemma OrderedClear(b: Blob, o: nat, e: nat)
    requires Ordered(b) && SizeStruct(b) % 4 == 0 && o <= e <= SizeStruct(b)
    ensures Overwritable(b) && ClearOf(b, o, e)
  {
    hide Load32, StructBlock, StringsBlock;
    OrderedBlocks(b);
  }

  /** A store behind the header fields in use leaves them alone. */
  lemma HeaderKept(b: Blob, p: nat, s: seq<Byte>)
    requires 36 <= p && p + |s| <= |b| && (Version(b) >= 17 ==> HEADER <= p)
    ensures var b' := Patch(b, p, s);
            |b'| == |b| && OffStruct(b') == OffStruct(b) && OffStrings(b') == OffStrings(b) && TotalSize(b') == TotalSize(b) &&
            Version(b') == Version(b) && SizeStrings(b') == SizeStrings(b) && (Version(b) >= 17 ==> SizeStruct(b') == SizeStruct(b))
  {
    hide Load32, Patch;
    PatchAt(b, p, s);
    PatchLoad(b, p, s, H_OFF_STRUCT);
    PatchLoad(b, p, s, H_OFF_STRINGS);
    PatchLoad(b, p, s, H_TOTALSIZE);
    PatchLoad(b, p, s, H_VERSION);
    PatchLoad(b, p, s, H_SIZE_STRINGS);
    PatchLoad(b, p, s, H_SIZE_STRUCT);
  }

  /** A store into the structure block of a blob whose blocks may be in any order. */
  lemma StoreInBlock(b: Blob, i: nat, s: seq<Byte>)
    requires Overwritable(b) && i + |s| <= |StructBlock(b)| && ClearOf(b, i, i + |s|) && s != []
    ensures OffStruct(b) + i + |s| <= |b|
    ensures var b' := Patch(b, OffStruct(b) + i, s);
            |b'| == |b| && StringsBlock(b') == StringsBlock(b) && StructBlock(b') == Patch(StructBlock(b), i, s)
  {
    hide Load32, Patch, StructBlock, StringsBlock;
    BlockBytes(b);
    var p := OffStruct(b) + i;
    HeaderKept(b, p, s);
    SameBounds(b, Patch(b, p, s));
    PatchSlice(b, p, s, OffStruct(b), OffStruct(b) + |StructBlock(b)|);
    if StringsBlock(b) != [] {
      PatchSlice(b, p, s, OffStrings(b), OffStrings(b) + |StringsBlock(b)|);
    }
  }

  lemma BlockBytes(b: Blob)
    requires Readable(b)
    ensures StructBlock(b) != [] ==>
              OffStruct(b) + |StructBlock(b)| <= |b| && StructBlock(b) == b[OffStruct(b)..OffStruct(b) + |StructBlock(b)|]
    ensures StringsBlock(b) != [] ==>
              OffStrings(b) + |StringsBlock(b)| <= |b| && StringsBlock(b) == b[OffStrings(b)..OffStrings(b) + |StringsBlock(b)|]
  {
    hide Load32;
  }

  /** Blobs with the same header fields have their blocks at the same places. */
  lemma SameBounds(b: Blob, b': Blob)
    requires |b'| == |b| && OffStruct(b') == OffStruct(b) && OffStrings(b') == OffStrings(b) && TotalSize(b') == TotalSize(b)
    requires Version(b') == Version(b) && SizeStrings(b') == SizeStrings(b) && (Version(b) >= 17 ==> SizeStruct(b') == SizeStruct(b))
    requires Readable(b)
    ensures |StructBlock(b')| == |StructBlock(b)| && |StringsBlock(b')| == |StringsBlock(b)|
    ensures StructBlock(b) != [] ==>
              OffStruct(b) + |StructBlock(b)| <= |b| && StructBlock(b') == b'[OffStruct(b)..OffStruct(b) + |StructBlock(b)|]
    ensures StringsBlock(b) != [] ==>
              OffStrings(b) + |StringsBlock(b)| <= |b| && StringsBlock(b') == b'[OffStrings(b)..OffStrings(b) + |StringsBlock(b)|]
  {
    hide Load32;
  }

  class Editor {
    const buf: array<Byte>

    constructor (blob: Blob)
      ensures fresh(buf) && buf[..] == blob
    {
      buf := new Byte[|blob|](i requires 0 <= i < |blob| => blob[i]);
    }

    /** fdt_splice_struct_ on top of fdt_splice_. */
    method SpliceStruct(o: nat, oldlen: nat, newlen: nat) returns (r: int)
      requires buf.Length >= HEADER && Ordered(buf[..]) && o + oldlen <= SizeStruct(buf[..]) && newlen < POW31
      modifies buf
      ensures buf.Length >= HEADER
      ensures if OffStrings(old(buf[..])) + SizeStrings(old(buf[..])) - oldlen + newlen > TotalSize(old(buf[..]))
              then r == -NOSPACE && buf[..] == old(buf[..])
              else r == 0 && Spliced(old(buf[..]), buf[..], o, oldlen, newlen)
      ensures Front(old(buf[..]), buf[..], EDITED)
    {
      hide Load32, Patch, StructBlock, StringsBlock, Spliced, Front;
      ghost var b := buf[..];
      FrontSelf(b, EDITED);
      var p := OffStruct(buf[..]) + o;
      var dsize := OffStrings(buf[..]) + SizeStrings(buf[..]);
      if dsize - oldlen + newlen > TotalSize(buf[..]) {
        return -NOSPACE;
      }
      Move(buf, p + newlen, p + oldlen, dsize - (p + oldlen));
      ghost var b1 := buf[..];
      PatchBody(b, p + newlen, b[p + oldlen..dsize]);
      FrontBody(b, b, p + newlen, b[p + oldlen..dsize], EDITED);
      Store32(buf, H_SIZE_STRUCT, SizeStruct(buf[..]) + newlen - oldlen);
      ghost var b2 := buf[..];
      PatchHeader(b1, H_SIZE_STRUCT, SizeStruct(b) + newlen - oldlen);
      FrontWord(b, b1, H_SIZE_STRUCT, SizeStruct(b) + newlen - oldlen, EDITED);
      Store32(buf, H_OFF_STRINGS, OffStrings(buf[..]) + newlen - oldlen);
      FrontWord(b, b2, H_OFF_STRINGS, OffStrings(b) + newlen - oldlen, EDITED);
      SpliceLemma(b, b1, b2, buf[..], o, oldlen, newlen);
      r := 0;
    }

    /** fdt_delprop. */
    method DelProp(node: I32, name: seq<Byte>, ghost p: Place, ghost c: Context, ghost n: Node)
      returns (r: int, ghost p': Place)
      requires buf.Length >= HEADER && Sane(buf[..])
      modifies buf
      ensures buf.Length >= HEADER
      ensures RwProbe(old(buf[..])) != 0 ==> r == RwProbe(old(buf[..]))
      ensures r != 0 ==> buf[..] == old(buf[..])
      ensures RwProbe(old(buf[..])) == 0 && NodeNext(StructBlock(old(buf[..])), node) < 0 ==> r == -BADOFFSET
      ensures r == 0 ==> Front(old(buf[..]), buf[..], EDITED)
      ensures r == 0 ==> CutsProp(old(buf[..]), buf[..], node, name)
      ensures RwProbe(old(buf[..])) == 0 && node >= 0 && NodeAt(old(buf[..]), node, p, c, n) ==>
                var i := FirstNamed(n.props, name);
                if i == |n.props| then r == -NOTFOUND
                else r == 0 && NodeAt(buf[..], node, p', c, WithoutProp(n, i)) &&
                     Decode(buf[..]) == Some(Plug(c, WithoutProp(n, i)))
    {
      hide Front, Load32, Patch, StructBlock, StringsBlock, Spliced, At, LexOne, NodeNext, FindProp, Decode;
      p' := p;
      if RwProbe(buf[..]) != 0 {
        return RwProbe(buf[..]), p';
      }
      ghost var b := buf[..];
      ProbeOrders(b);
      OrderedBlocks(b);
      var at, len := GetProperty(buf[..], node, name);
      if at < 0 {
        if NodeAt(b, node, p, c, n) && node >= 0 { PropMissing(b, node, p, c, n, name); }
        return at, p';
      }
      PropFound(b, node, name);
      r := SpliceStruct(at, 12 + Align4(len), 0);
      if NodeAt(b, node, p, c, n) && node >= 0 {
        p' := DelPropLemma(b, buf[..], node, p, c, n, name);
      }
    }

    /** fdt_nop_region_ over whole words. */
    method NopRegion(start: nat, words: nat)
      requires start + 4 * words <= buf.Length
      modifies buf
      ensures buf[..] == Patch(old(buf[..]), start, NopBytes(words))
    {
      hide Patch, NopBytes;
      ghost var b := buf[..];
      var k := 0;
      NopNone(b, start);
      while k < words
        invariant 0 <= k <= words
        invariant buf[..] == Patch(b, start, NopBytes(k))
      {
        Store32(buf, start + 4 * k, TAG_NOP);
        NopMore(b, start, k);
        k := k + 1;
      }
    }

    /** fdt_nop_property. */
    method NopProperty(node: I32, name: seq<Byte>, ghost p: Place, ghost c: Context, ghost n: Node)
      returns (r: int, ghost p': Place)
      requires buf.Length >= HEADER && Overwritable(buf[..])
      modifies buf
      ensures buf.Length >= HEADER
      ensures r != 0 ==> buf[..] == old(buf[..])
      ensures NodeNext(StructBlock(old(buf[..])), node) < 0 ==> r == -BADOFFSET
      ensures r == 0 ==> NopsProp(old(buf[..]), buf[..], node, name)
      ensures node >= 0 && NodeAt(old(buf[..]), node, p, c, n) && PropClear(old(buf[..]), node, name) ==>
                var i := FirstNamed(n.props, name);
                if i == |n.props| then r == -NOTFOUND
                else r == 0 && NodeAt(buf[..], node, p', c, WithoutProp(n, i)) &&
                     Decode(buf[..]) == Some(Plug(c, WithoutProp(n, i)))
    {
      hide Load32, Patch, StructBlock, StringsBlock, At, LexOne, NodeNext, FindProp, Decode, NopBytes;
      p' := p;
      ghost var b := buf[..];
      BlockInside(b);
      var at, len := GetProperty(buf[..], node, name);
      if at < 0 {
        if NodeAt(b, node, p, c, n) && node >= 0 { PropMissing(b, node, p, c, n, name); }
        return at, p';
      }
      PropFound(b, node, name);
      PropWords4(FindProp(StructBlock(b), StringsBlock(b), NodeNext(StructBlock(b), node), name).value);
      NopRegion(OffStruct(buf[..]) + at, (12 + len + 3) / 4);
      r := 0;
      if NodeAt(b, node, p, c, n) && node >= 0 && PropClear(b, node, name) {
        p' := NopPropLemma(b, buf[..], node, p, c, n, name);
      }
    }

    /** fdt_del_node. */
    method DelNode(node: I32, ghost p: Place, ghost c: Context, ghost n: Node) returns (r: int)
      requires buf.Length >= HEADER && Sane(buf[..])
      modifies buf
      ensures buf.Length >= HEADER
      ensures RwProbe(old(buf[..])) != 0 ==> r == RwProbe(old(buf[..]))
      ensures r != 0 ==> buf[..] == old(buf[..])
      ensures RwProbe(old(buf[..])) == 0 && node >= 0 && NodeNext(StructBlock(old(buf[..])), node) < 0 ==> r == -BADOFFSET
      ensures r == 0 ==> Front(old(buf[..]), buf[..], EDITED)
      ensures r == 0 ==> var e := EndOf(StructBlock(old(buf[..])), node);
                         0 <= node <= e && Spliced(old(buf[..]), buf[..], node, e - node, 0)
      ensures RwProbe(old(buf[..])) == 0 && node >= 0 && NodeAt(old(buf[..]), node, p, c, n) ==>
                r == 0 && Decode(buf[..]) == Erased(c)
    {
      hide Front, Load32, Patch, StructBlock, StringsBlock, Spliced, At, LexOne, NodeNext, Walk;
      if RwProbe(buf[..]) != 0 {
        return RwProbe(buf[..]);
      }
      ghost var b := buf[..];
      ProbeOrders(b);
      OrderedBlocks(b);
      var end := NodeEndOffset(buf[..], node);
      if node >= 0 && NodeAt(b, node, p, c, n) { EndOfNode(StructBlock(b), StringsBlock(b), node, p, c, n); PlaceEnds(b, node, p, c, n); }
      if end < 0 {
        return end;
      }
      EndInside(StructBlock(b), node);
      r := SpliceStruct(node, end - node, 0);
      if node >= 0 && NodeAt(b, node, p, c, n) {
        DelNodeLemma(b, buf[..], node, p, c, n);
      }
    }

    /** fdt_nop_node. */
    method NopNode(node: I32, ghost p: Place, ghost c: Context, ghost n: Node) returns (r: int)
      requires buf.Length >= HEADER && Overwritable(buf[..])
      modifies buf
      ensures buf.Length >= HEADER
      ensures r != 0 ==> buf[..] == old(buf[..])
      ensures node >= 0 && NodeNext(StructBlock(old(buf[..])), node) < 0 ==> r == -BADOFFSET
      ensures r == 0 ==> NopsNode(old(buf[..]), buf[..], node, EndOf(StructBlock(old(buf[..])), node))
      ensures node >= 0 && NodeAt(old(buf[..]), node, p, c, n) && ClearOf(old(buf[..]), node, p.end) ==>
                r == 0 && Decode(buf[..]) == Erased(c)
    {
      hide Load32, Patch, StructBlock, StringsBlock, At, LexOne, NodeNext, Walk, NopBytes;
      ghost var b := buf[..];
      BlockInside(b);
      var end := NodeEndOffset(buf[..], node);
      if node >= 0 && NodeAt(b, node, p, c, n) { EndOfNode(StructBlock(b), StringsBlock(b), node, p, c, n); PlaceEnds(b, node, p, c, n); }
      if end < 0 {
        return end;
      }
      EndInside(StructBlock(b), node);
      NopRegion(OffStruct(buf[..]) + node, (end - node + 3) / 4);
      r := 0;
      if node >= 0 && NodeAt(b, node, p, c, n) && ClearOf(b, node, p.end) {
        NopNodeLemma(b, buf[..], node, p, c, n);
      }
    }
  }

  // ---------- what the edits mean ----------

  /** The first property of that name is not in the strings block as well. */
  ghost predicate PropClear(b: Blob, o: int, name: seq<Byte>) {
    NodeNext(StructBlock(b), o) >= 0 ==>
      var f := FindProp(StructBlock(b), StringsBlock(b), NodeNext(StructBlock(b), o), name);
      f.Hit? ==> ClearOf(b, f.at, f.at + TokenBytes(f.value))
  }

  lemma BlockInside(b: Blob)
    requires Readable(b)
    ensures StructBlock(b) == [] || OffStruct(b) + |StructBlock(b)| <= |b|
    ensures |StructBlock(b)| < POW31 - 36
  {
    hide Load32;
  }

  ghost predicate NodeAt(b: Blob, o: int, p: Place, c: Context, n: Node) {
    o >= 0 && At(StructBlock(b), StringsBlock(b), o, p, c, n)
  }

  function WithoutProp(n: Node, i: nat): Node
    requires i < |n.props|
  {
    n.(props := n.props[..i] + n.props[i + 1..])
  }

  lemma NopNone(b: seq<Byte>, start: nat)
    requires start <= |b|
    ensures Patch(b, start, NopBytes(0)) == b
  {
  }

  /** One NOP word more. */
  lemma NopMore(b: seq<Byte>, start: nat, k: nat)
    requires start + 4 * k + 4 <= |b|
    ensures |Patch(b, start, NopBytes(k))| == |b|
    ensures Patch(Patch(b, start, NopBytes(k)), start + 4 * k, Word(TAG_NOP)) == Patch(b, start, NopBytes(k + 1))
  {
    PatchAppend(b, start, NopBytes(k), Word(TAG_NOP));
  }

  lemma PatchAppend(b: seq<Byte>, i: nat, s: seq<Byte>, t: seq<Byte>)
    requires i + |s| + |t| <= |b|
    ensures Patch(Patch(b, i, s), i + |s|, t) == Patch(b, i, s + t)
  {
    var x, y := Patch(Patch(b, i, s), i + |s|, t), Patch(b, i, s + t);
    assert forall k | 0 <= k < |x| :: x[k] == y[k];
  }

  lemma PropMissing(b: Blob, o: nat, p: Place, c: Context, n: Node, name: seq<Byte>)
    requires NodeAt(b, o, p, c, n)
    ensures NodeNext(StructBlock(b), o) >= 0
    ensures FindProp(StructBlock(b), StringsBlock(b), NodeNext(StructBlock(b), o), name).Miss? ==>
              FirstNamed(n.props, name) == |n.props| &&
              FindProp(StructBlock(b), StringsBlock(b), NodeNext(StructBlock(b), o), name) == Miss(NOTFOUND)
  {
    hide PropAt, At, FindProp, StructBlock, StringsBlock;
    var ts, y, at, j := PropOfNode(StructBlock(b), StringsBlock(b), o, p, c, n, name);
  }

  /** A hit is a property tag of the name. */
  lemma {:induction false} HitBounds(s: seq<Byte>, strs: seq<Byte>, o: nat, name: seq<Byte>)
    requires FindProp(s, strs, o, name).Hit?
    ensures var h := FindProp(s, strs, o, name);
            o <= h.at <= |s| && LexOne(s[h.at..]).Good? && LexOne(s[h.at..]).tok.Prop? && LexOne(s[h.at..]).tok.value == h.value &&
            Named(strs, LexOne(s[h.at..]).tok.nameoff) && NameAt(strs, LexOne(s[h.at..]).tok.nameoff) == name
    decreases |s| - o
  {
    hide LexOne, Named, NameAt;
    var l := LexOne(s[o..]);
    if l.tok.Nop? {
      HitBounds(s, strs, o + l.len, name);
    } else if !(Named(strs, l.tok.nameoff) && NameAt(strs, l.tok.nameoff) == name) {
      HitBounds(s, strs, o + l.len, name);
    }
  }

  lemma SumOfWords(o: nat, len: nat)
    requires o % 4 == 0 && len % 4 == 0
    ensures (o + len) % 4 == 0
  {
  }

  lemma {:induction false} HitAligned(s: seq<Byte>, strs: seq<Byte>, o: nat, name: seq<Byte>)
    requires FindProp(s, strs, o, name).Hit? && o % 4 == 0
    ensures FindProp(s, strs, o, name).at % 4 == 0
    decreases |s| - o
  {
    hide LexOne, Named, NameAt;
    var l := LexOne(s[o..]);
    SumOfWords(o, l.len);
    if l.tok.Nop? || !(Named(strs, l.tok.nameoff) && NameAt(strs, l.tok.nameoff) == name) {
      HitAligned(s, strs, o + l.len, name);
    }
  }

  lemma PropLength(t: seq<Byte>)
    requires LexOne(t).Good? && LexOne(t).tok.Prop?
    ensures LexOne(t).len == Align4(12 + |LexOne(t).tok.value|) == 12 + Align4(|LexOne(t).tok.value|)
    ensures 12 + |LexOne(t).tok.value| <= |t|
    ensures |t| % 4 == 0 ==> LexOne(t).len <= |t|
  {
  }

  lemma PropFound(b: Blob, o: int, name: seq<Byte>)
    requires Readable(b) && |StructBlock(b)| % 4 == 0 && NodeNext(StructBlock(b), o) >= 0
    requires FindProp(StructBlock(b), StringsBlock(b), NodeNext(StructBlock(b), o), name).Hit?
    ensures var h := FindProp(StructBlock(b), StringsBlock(b), NodeNext(StructBlock(b), o), name);
            h.at + 12 + Align4(|h.value|) <= |StructBlock(b)| && h.at % 4 == 0 && |h.value| < POW31 - 16
  {
    hide LexOne, Load32, StructBlock, StringsBlock, FindProp;
    BlockSize(b);
    NodeNextAligned(StructBlock(b), o);
    var s := StructBlock(b);
    HitBounds(s, StringsBlock(b), NodeNext(s, o), name);
    HitAligned(s, StringsBlock(b), NodeNext(s, o), name);
    PropLength(s[FindProp(s, StringsBlock(b), NodeNext(s, o), name).at..]);
  }

  /** The place of the property found, with the length of its token. */
  lemma PropSite(b: Blob, o: nat, p: Place, c: Context, n: Node, name: seq<Byte>)
    returns (ts: seq<Token>, y: seq<Item>, at: nat, j: nat)
    requires NodeAt(b, o, p, c, n) && FirstNamed(n.props, name) < |n.props|
    ensures var s, strs, i := StructBlock(b), StringsBlock(b), FirstNamed(n.props, name);
            NodeNext(s, o) >= 0 && FindProp(s, strs, NodeNext(s, o), name) == Hit(at, n.props[i].value) &&
            y == FlattenAll(n.children) + [Close] + After(c) && AllNamed(strs, ts) &&
            PropAt(s, strs, NodeNext(s, o), ts, n.props, y, i, at, j) &&
            at <= |s| && LexOne(s[at..]).Good? && LexOne(s[at..]).tok == ts[j] &&
            LexOne(s[at..]).len == 12 + Align4(|n.props[i].value|) && at + LexOne(s[at..]).len <= |s|
  {
    hide LexOne, Lexes, Lex, FindProp, StructBlock, StringsBlock, After, FlattenAll, AllNamed;
    var s, strs := StructBlock(b), StringsBlock(b);
    ts, y, at, j := PropOfNode(s, strs, o, p, c, n, name);
    SplitAtProp(s, strs, ts, at, j);
    PropLength(s[at..]);
  }

  lemma DelPropLemma(b: Blob, b': Blob, o: nat, p: Place, c: Context, n: Node, name: seq<Byte>) returns (p': Place)
    requires NodeAt(b, o, p, c, n)
    requires var s, strs := StructBlock(b), StringsBlock(b);
             NodeNext(s, o) >= 0 && FindProp(s, strs, NodeNext(s, o), name).Hit? &&
             Spliced(b, b', FindProp(s, strs, NodeNext(s, o), name).at,
                     12 + Align4(|FindProp(s, strs, NodeNext(s, o), name).value|), 0)
    ensures var i := FirstNamed(n.props, name);
            i < |n.props| && NodeAt(b', o, p', c, WithoutProp(n, i)) && Decode(b') == Some(Plug(c, WithoutProp(n, i)))
  {
    hide LexOne, Lexes, Lex, FindProp, StructBlock, StringsBlock, After, FlattenAll, AllNamed, PropAt, At, NodeNext, Items, Align4;
    PropMissing(b, o, p, c, n, name);
    if FirstNamed(n.props, name) == |n.props| {
      PropNone(b, o, p, c, n, name);
    }
    var i := FirstNamed(n.props, name);
    var ts, y, at, j := PropSite(b, o, p, c, n, name);
    var strs, t := StringsBlock(b), StructBlock(b');
    EmptyRun(strs);
    AttrsNone(y);
    assert t[at..at] == [];
    assert n.props[..i] + [] + n.props[i + 1..] == n.props[..i] + n.props[i + 1..];
    p' := EditProp(StructBlock(b), strs, o, p, c, n, i, ts, y, at, j, t, at, [], []);
  }

  lemma PropNone(b: Blob, o: nat, p: Place, c: Context, n: Node, name: seq<Byte>)
    requires NodeAt(b, o, p, c, n) && FirstNamed(n.props, name) == |n.props|
    ensures NodeNext(StructBlock(b), o) >= 0
    ensures FindProp(StructBlock(b), StringsBlock(b), NodeNext(StructBlock(b), o), name) == Miss(NOTFOUND)
  {
    hide PropAt, At, FindProp, StructBlock, StringsBlock;
    var ts, y, at, j := PropOfNode(StructBlock(b), StringsBlock(b), o, p, c, n, name);
  }

  /** The structure block after a run of NOP words has been stored at `o`. */
  lemma NopStored(b: Blob, b': Blob, o: nat, k: nat)
    requires Overwritable(b) && 0 < k && o + 4 * k <= |StructBlock(b)| && ClearOf(b, o, o + 4 * k)
    requires OffStruct(b) + o + 4 * k <= |b| && b' == Patch(b, OffStruct(b) + o, NopBytes(k))
    ensures StringsBlock(b') == StringsBlock(b)
    ensures Replaced(StructBlock(b), o, o + 4 * k, StructBlock(b'), o + 4 * k)
    ensures Lexes(StructBlock(b')[o..o + 4 * k], Nops(k)) && StructBlock(b')[o..o + 4 * k] == NopBytes(k)
    ensures Items(StringsBlock(b), Nops(k)) == [] && AllNamed(StringsBlock(b), Nops(k))
  {
    hide LexOne, Lexes, Load32, StructBlock, StringsBlock, Patch, Items, AllNamed, NopBytes, Nops;
    var s := StructBlock(b);
    StoreInBlock(b, o, NopBytes(k));
    NopRun(k, StringsBlock(b));
    PatchSlice(s, o, NopBytes(k), 0, o);
    PatchSlice(s, o, NopBytes(k), o + 4 * k, |s|);
    var t := StructBlock(b');
    assert t[0..o] == t[..o] && s[0..o] == s[..o] && t[o + 4 * k..|s|] == t[o + 4 * k..] && s[o + 4 * k..|s|] == s[o + 4 * k..];
  }

  /** The length of a property token. */
  function TokenBytes(value: seq<Byte>): nat {
    12 + Align4(|value|)
  }

  lemma PropWords4(value: seq<Byte>)
    ensures 4 * ((12 + |value| + 3) / 4) == TokenBytes(value)
  {
  }

  /** The first property of that name has been overwritten with NOP tags. */
  ghost predicate NopsProp(b: Blob, b': Blob, o: int, name: seq<Byte>) {
    var s := StructBlock(b);
    NodeNext(s, o) >= 0 && FindProp(s, StringsBlock(b), NodeNext(s, o), name).Hit? &&
    var h := FindProp(s, StringsBlock(b), NodeNext(s, o), name);
    && h.at + TokenBytes(h.value) <= |s| && OffStruct(b) + h.at + TokenBytes(h.value) <= |b|
    && 4 * ((12 + |h.value| + 3) / 4) == TokenBytes(h.value)
    && b' == Patch(b, OffStruct(b) + h.at, NopBytes((12 + |h.value| + 3) / 4))
  }

  /** The first property of that name has been cut out. */
  ghost predicate CutsProp(b: Blob, b': Blob, o: int, name: seq<Byte>) {
    var s := StructBlock(b);
    NodeNext(s, o) >= 0 && FindProp(s, StringsBlock(b), NodeNext(s, o), name).Hit? &&
    var h := FindProp(s, StringsBlock(b), NodeNext(s, o), name);
    Spliced(b, b', h.at, TokenBytes(h.value), 0)
  }

  /** The bytes from `o` up to `e` have been overwritten with NOP tags. */
  ghost predicate NopsNode(b: Blob, b': Blob, o: int, e: int) {
    && 0 <= o < e <= |StructBlock(b)| && o % 4 == 0 && e % 4 == 0 && OffStruct(b) + e <= |b|
    && b' == Patch(b, OffStruct(b) + o, NopBytes((e - o + 3) / 4))
  }

  lemma NopPropLemma(b: Blob, b': Blob, o: nat, p: Place, c: Context, n: Node, name: seq<Byte>) returns (p': Place)
    requires Overwritable(b) && NodeAt(b, o, p, c, n) && NopsProp(b, b', o, name)
    requires var h := FindProp(StructBlock(b), StringsBlock(b), NodeNext(StructBlock(b), o), name);
             ClearOf(b, h.at, h.at + TokenBytes(h.value))
    ensures var i := FirstNamed(n.props, name);
            i < |n.props| && NodeAt(b', o, p', c, WithoutProp(n, i)) && Decode(b') == Some(Plug(c, WithoutProp(n, i)))
  {
    hide LexOne, Lexes, Lex, FindProp, StructBlock, StringsBlock, After, FlattenAll, AllNamed, PropAt, At, NodeNext, Items, NopBytes, Nops, Patch, Load32;
    PropMissing(b, o, p, c, n, name);
    if FirstNamed(n.props, name) == |n.props| {
      PropNone(b, o, p, c, n, name);
    }
    var i := FirstNamed(n.props, name);
    var ts, y, at, j := PropSite(b, o, p, c, n, name);
    var k := (12 + |n.props[i].value| + 3) / 4;
    PropWords4(n.props[i].value);
    NopStored(b, b', at, k);
    AttrsNone(y);
    assert n.props[..i] + [] + n.props[i + 1..] == n.props[..i] + n.props[i + 1..];
    p' := EditProp(StructBlock(b), StringsBlock(b), o, p, c, n, i, ts, y, at, j, StructBlock(b'), at + 4 * k, Nops(k), []);
  }

  lemma PlaceEnds(b: Blob, o: nat, p: Place, c: Context, n: Node)
    requires NodeAt(b, o, p, c, n)
    ensures o < p.end <= |StructBlock(b)| && o % 4 == 0 && p.end % 4 == 0
  {
    hide LexOne, Lexes, Lex, Items, AllNamed, StructBlock, StringsBlock, Before, After, Flatten;
    var s := StructBlock(b);
    LexesAligned(s[..o], p.pre);
    LexesAligned(s[o..p.end], p.mid);
  }

  /** The end of a node lies inside a block of whole words. */
  lemma EndInside(s: seq<Byte>, o: int)
    requires EndOf(s, o) >= 0 && |s| % 4 == 0
    ensures 0 <= o < EndOf(s, o) <= |s| && o % 4 == 0 && EndOf(s, o) % 4 == 0
  {
    hide LexOne;
    NodeNextAligned(s, o);
    WalkInside(s, NodeNext(s, o), 0, 0);
  }

  lemma WholeWords(o: nat, len: nat, z: nat)
    requires o % 4 == 0 && len % 4 == 0 && z % 4 == 0 && o <= z && len < z - o + 4
    ensures (o + len) % 4 == 0 && o + len <= z
  {
  }

  lemma {:induction false} WalkInside(s: seq<Byte>, o: nat, d: int, t: int)
    requires |s| % 4 == 0 && o % 4 == 0
    ensures var w := Walk(s, o, d, t);
            match w
            case Left(at, _) => o < at <= |s| && at % 4 == 0
            case Found(at, _) => o <= at <= |s| && at % 4 == 0
            case Stop(e) => e > 0
    decreases |s| - o
  {
    hide LexOne;
    if o <= |s| && LexOne(s[o..]).Good? {
      var l := LexOne(s[o..]);
      WholeWords(o, l.len, |s|);
      match l.tok
      case Finish =>
      case Begin(_) => if d + 1 != t { WalkInside(s, o + l.len, d + 1, t); }
      case End => if d - 1 >= 0 { WalkInside(s, o + l.len, d - 1, t); }
      case Prop(_, _) => WalkInside(s, o + l.len, d, t);
      case Nop => WalkInside(s, o + l.len, d, t);
    }
  }

  lemma DelNodeLemma(b: Blob, b': Blob, o: nat, p: Place, c: Context, n: Node)
    requires NodeAt(b, o, p, c, n) && Spliced(b, b', o, p.end - o, 0)
    ensures Decode(b') == Erased(c)
  {
    hide LexOne, Lexes, Lex, Items, AllNamed, StructBlock, StringsBlock, Before, After, Flatten, PlugAll;
    var t := StructBlock(b');
    EmptyRun(StringsBlock(b));
    assert t[o..o] == [];
    EraseNode(StructBlock(b), StringsBlock(b), o, p, c, n, t, o, []);
  }

  lemma NopNodeLemma(b: Blob, b': Blob, o: nat, p: Place, c: Context, n: Node)
    requires Overwritable(b) && NodeAt(b, o, p, c, n) && NopsNode(b, b', o, p.end) && ClearOf(b, o, p.end)
    ensures Decode(b') == Erased(c)
  {
    hide LexOne, Lexes, Lex, Items, AllNamed, StructBlock, StringsBlock, Before, After, Flatten, PlugAll, Patch, NopBytes, Nops, Load32;
    var k := (p.end - o + 3) / 4;
    NopStored(b, b', o, k);
    EraseNode(StructBlock(b), StringsBlock(b), o, p, c, n, StructBlock(b'), o + 4 * k, Nops(k));
  }

  /** NOP tags between complete tokens and anything else make no difference. */
  lemma NopsMeanNothing(x: seq<Byte>, pre: seq<Token>, k: nat, z: seq<Byte>, strs: seq<Byte>)
    requires Lexes(x, pre)
    ensures DecodeBlocks(x + NopBytes(k) + z, strs) == DecodeBlocks(x + z, strs)
  {
    hide LexOne, Lexes, Lex, Items, AllNamed, NopBytes, Nops, ParseNode;
    NopRun(k, strs);
    LexesConcat(x, pre, NopBytes(k), Nops(k));
    LexAppend(x + NopBytes(k), pre + Nops(k), z);
    LexAppend(x, pre, z);
    if Lex(z).Tokens? {
      var us := Lex(z).toks;
      ItemsConcat(strs, pre + Nops(k), us);
      ItemsConcat(strs, pre, Nops(k));
      ItemsConcat(strs, pre, us);
      assert Items(strs, pre) + [] == Items(strs, pre);
    }
  }

  /** A stretch behind complete tokens, cut out or overwritten: both blobs decode to the same tree, or
      neither does. */
  lemma NopsMeanCut(b: Blob, deleted: Blob, nopped: Blob, o: nat, k: nat, pre: seq<Token>)
    requires Ordered(b) && SizeStruct(b) % 4 == 0 && 0 < k && o + 4 * k <= SizeStruct(b)
    requires o <= |StructBlock(b)| && Lexes(StructBlock(b)[..o], pre)
    requires Spliced(b, deleted, o, 4 * k, 0)
    requires OffStruct(b) + o + 4 * k <= |b| && nopped == Patch(b, OffStruct(b) + o, NopBytes(k))
    ensures Decode(nopped) == Decode(deleted)
  {
    hide LexOne, Lexes, Lex, StructBlock, StringsBlock, Patch, NopBytes, Nops, Load32, DecodeBlocks;
    OrderedBlocks(b);
    OrderedClear(b, o, o + 4 * k);
    NopStored(b, nopped, o, k);
    var s, d, n := StructBlock(b), StructBlock(deleted), StructBlock(nopped);
    NopsMeanNothing(s[..o], pre, k, s[o + 4 * k..], StringsBlock(b));
    assert d == d[..o] + d[o..];
    assert n == n[..o] + n[o..o + 4 * k] + n[o + 4 * k..];
  }

  /** Overwriting a node with NOP tags means the same as deleting it: for every blob whose tags can be
      followed up to the node, decodable or not. */
  lemma NopNodeMeansDelete(b: Blob, deleted: Blob, nopped: Blob, o: nat, pre: seq<Token>)
    requires Ordered(b) && SizeStruct(b) % 4 == 0 && o <= |StructBlock(b)| && Lexes(StructBlock(b)[..o], pre)
    requires var e := EndOf(StructBlock(b), o);
             e >= o && Spliced(b, deleted, o, e - o, 0) && NopsNode(b, nopped, o, e)
    ensures Decode(nopped) == Decode(deleted)
  {
    hide LexOne, Lexes, Patch, NopBytes, StructBlock, StringsBlock, Decode, Load32, EndOf;
    OrderedBlocks(b);
    NopsMeanCut(b, deleted, nopped, o, (EndOf(StructBlock(b), o) - o) / 4, pre);
  }

  /** The same for a property of the node at `o`. */
  lemma NopPropertyMeansDelete(b: Blob, deleted: Blob, nopped: Blob, o: int, name: seq<Byte>, pre: seq<Token>)
    requires Ordered(b) && SizeStruct(b) % 4 == 0 && CutsProp(b, deleted, o, name) && NopsProp(b, nopped, o, name)
    requires var at := FindProp(StructBlock(b), StringsBlock(b), NodeNext(StructBlock(b), o), name).at;
             at <= |StructBlock(b)| && Lexes(StructBlock(b)[..at], pre)
    ensures Decode(nopped) == Decode(deleted)
  {
    hide LexOne, Lexes, Patch, NopBytes, StructBlock, StringsBlock, Decode, Load32, FindProp, NodeNext, Spliced;
    OrderedBlocks(b);
    var h := FindProp(StructBlock(b), StringsBlock(b), NodeNext(StructBlock(b), o), name);
    NopsMeanCut(b, deleted, nopped, h.at, (12 + |h.value| + 3) / 4, pre);
  }
}

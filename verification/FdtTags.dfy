/** fdt_offset_ptr and fdt_next_tag of kernel/fdt/fdt.c: the tokenizer on a raw blob, with its
    32-bit arithmetic, agrees with `LexOne` on the structure block. */
module FdtTags {
  import opened Bytes
  import opened FdtFormat
  import opened FdtDecode

  type I32 = i: int | -POW31 <= i < POW31

  /** A blob whose `totalsize` bytes are really there and whose structure block lies behind the
      header, as fdt_check_header establishes, in a version this model covers. */
  predicate Readable(b: Blob) {
    TotalSize(b) <= |b| && TotalSize(b) < POW31 - 1 && Version(b) >= 16 && OffStruct(b) >= 36
  }

  lemma BlockSize(b: Blob)
    requires Readable(b)
    ensures |StructBlock(b)| < POW31 - 36
  {
    hide Load32;
  }

  function Wrap(x: int): U32 { x % POW32 }

  /** fdt_offset_ptr returns non-NULL. */
  predicate OffsetPtr(b: Blob, offset: I32, len: U32) {
    var uoffset := Wrap(offset);
    var absoffset := Wrap(uoffset + OffStruct(b));
    && offset >= 0
    && !(absoffset < uoffset || Wrap(absoffset + len) < absoffset || Wrap(absoffset + len) > TotalSize(b))
    && !(Version(b) >= 0x11 && (Wrap(uoffset + len) < uoffset || Wrap(uoffset + len) > SizeStruct(b)))
  }

  lemma OffsetPtrBounds(b: Blob, offset: I32, len: U32)
    requires Readable(b) && len > 0
    ensures OffsetPtr(b, offset, len) <==> offset >= 0 && offset + len <= |StructBlock(b)|
  {
    hide Load32;
    var o, t, z := OffStruct(b), TotalSize(b), SizeStruct(b);
    if offset >= 0 {
      assert Wrap(offset) == offset;
      assert Wrap(offset + o) == if offset + o < POW32 then offset + o else offset + o - POW32;
      assert Wrap(offset + len) == if offset + len < POW32 then offset + len else offset + len - POW32;
    }
  }

  /** The wrap-around tests are exactly a bounds test on the structure block. */
  lemma OffsetPtrBlock(b: Blob, offset: I32, len: U32)
    requires Readable(b) && len > 0
    ensures OffsetPtr(b, offset, len) <==> offset >= 0 && offset + len <= |StructBlock(b)|
    ensures OffsetPtr(b, offset, len) ==>
              OffStruct(b) + offset + len <= TotalSize(b) &&
              b[OffStruct(b) + offset..OffStruct(b) + offset + len] == StructBlock(b)[offset..offset + len]
  {
    hide Load32;
    OffsetPtrBounds(b, offset, len);
    if offset >= 0 && offset + len <= |StructBlock(b)| {
      hide OffsetPtr;
      var lo := OffStruct(b);
      var hi := lo + |StructBlock(b)|;
      assert StructBlock(b) == b[lo..hi];
      SliceOfSlice(b, lo, hi, offset, offset + len);
    }
  }

  /** The name loop of fdt_next_tag: the first NUL of the block at or after `from`. */
  method SkipName(b: Blob, from: I32) returns (p: bool, offset: I32)
    requires Readable(b) && 0 <= from <= |StructBlock(b)|
    ensures offset == NulFrom(StructBlock(b), from)
    ensures p <==> offset < |StructBlock(b)|
  {
    hide OffsetPtr;
    ghost var blk := StructBlock(b);
    offset := from;
    while true
      invariant from <= offset <= |blk| < POW31
      invariant forall k | from <= k < offset :: blk[k] != 0
      decreases |blk| - offset
    {
      OffsetPtrBlock(b, offset, 1);
      p := OffsetPtr(b, offset, 1);
      if !p {
        return;
      }
      ghost var lo := OffStruct(b) + offset;
      assert b[lo] == b[lo..lo + 1][0] == blk[offset..offset + 1][0];
      if b[OffStruct(b) + offset] == 0 {
        NulFromUnique(blk, from, offset);
        return;
      }
      offset := offset + 1;
    }
  }

  lemma NulFromRest(blk: seq<Byte>, start: nat, i: nat)
    requires start + i <= |blk|
    ensures NulFrom(Rest(blk, start), i) == NulFrom(blk, start + i) - start
  {
    var s := blk[start..];
    var n := NulFrom(blk, start + i);
    if n < |blk| {
      NulFromUnique(s, i, n - start);
    }
  }

  /** A word of the structure block, seen in the blob. */
  lemma BlockWord(b: Blob, o: nat, k: nat)
    requires Readable(b) && o + k + 4 <= |StructBlock(b)|
    ensures OffStruct(b) + o + k + 4 <= |b|
    ensures Load32(b, OffStruct(b) + o + k) == Load32(StructBlock(b)[o..], k)
  {
    hide OffsetPtr, StructBlock, Load32;
    BlockSize(b);
    var s := StructBlock(b);
    OffsetPtrBlock(b, o + k, 4);
    SliceOfSlice(s, o, |s|, k, k + 4);
    LoadFrom(b, OffStruct(b) + o + k, s[o..], k);
  }

  function TagOf(t: Token): (tag: U32) {
    match t
    case Begin(_) => TAG_BEGIN_NODE
    case End => TAG_END_NODE
    case Prop(_, _) => TAG_PROP
    case Nop => TAG_NOP
    case Finish => TAG_END
  }

  /** The unpadded end of a token's bytes. */
  function RawLen(t: Token): (n: nat)
    ensures n >= 4
  {
    match t
    case Begin(name) => 4 + |name| + 1
    case Prop(_, value) => 12 + |value|
    case _ => 4
  }

  /** What fdt_next_tag must answer, given the bytes from the tag on. */
  ghost predicate Answers(s: seq<Byte>, start: nat, tag: U32, next: int) {
    match LexOne(s)
    case Bad(e) => tag == TAG_END && next == -e
    case Good(tok, len) =>
      tag == TagOf(tok) && next == Align4(start + RawLen(tok)) && (start % 4 == 0 ==> next == start + len)
  }

  lemma AnswersShort(s: seq<Byte>, start: nat)
    requires |s| < 4
    ensures Answers(s, start, TAG_END, -TRUNCATED)
  {
  }

  lemma AnswersBegin(s: seq<Byte>, start: nat, n: nat)
    requires |s| >= 4 && Load32(s, 0) == TAG_BEGIN_NODE && n == NulFrom(s, 4)
    ensures n == |s| ==> Answers(s, start, TAG_END, -BADSTRUCTURE)
    ensures n < |s| ==> Answers(s, start, TAG_BEGIN_NODE, Align4(start + n + 1))
  {
    hide Load32;
  }

  lemma AnswersProp(s: seq<Byte>, start: nat)
    requires |s| >= 4 && Load32(s, 0) == TAG_PROP
    ensures |s| < 12 || 12 + Load32(s, 4) > |s| ==> Answers(s, start, TAG_END, -BADSTRUCTURE)
    ensures |s| >= 12 && 12 + Load32(s, 4) <= |s| ==> Answers(s, start, TAG_PROP, Align4(start + 12 + Load32(s, 4)))
  {
    hide Load32;
  }

  lemma AnswersOther(s: seq<Byte>, start: nat)
    requires |s| >= 4 && Load32(s, 0) != TAG_BEGIN_NODE && Load32(s, 0) != TAG_PROP
    ensures if Load32(s, 0) in {TAG_END, TAG_END_NODE, TAG_NOP}
            then Answers(s, start, Load32(s, 0), Align4(start + 4))
            else Answers(s, start, TAG_END, -BADSTRUCTURE)
  {
    hide Load32;
  }

  /** The property case of fdt_next_tag: the end of the value, unless the length word is missing or
      its sum with the offset overflows. */
  method SkipProp(b: Blob, start: I32) returns (p: bool, end: int)
    requires Readable(b) && start >= 0 && start + 4 <= |StructBlock(b)|
    ensures var s := Rest(StructBlock(b), start);
            if p then |s| >= 8 && end == start + 12 + Load32(s, 4) && end < POW31 + 7
            else |s| < 8 || 12 + Load32(s, 4) > |s|
  {
    hide OffsetPtr, StructBlock, Load32;
    BlockSize(b);
    ghost var blk := StructBlock(b);
    ghost var s := blk[start..];
    var offset := start + 4;
    end := offset;
    OffsetPtrBlock(b, offset, 4);
    p := OffsetPtr(b, offset, 4);
    if p {
      SliceOfSlice(blk, start, |blk|, 4, 8);
      LoadFrom(b, OffStruct(b) + offset, s, 4);
      var len := Load32(b, OffStruct(b) + offset);
      var sum := Wrap(len + offset);
      p := !(POW31 - 1 <= sum || sum < offset);
      end := offset + 8 + len;
    }
  }

  /** fdt_next_tag.  The name is skipped byte by byte; every read goes through fdt_offset_ptr. */
  method NextTag(b: Blob, start: I32) returns (tag: U32, next: I32)
    requires Readable(b)
    ensures start < 0 ==> tag == TAG_END && next == -TRUNCATED
    ensures start >= 0 ==> Answers(Rest(StructBlock(b), start), start, tag, next)
  {
    hide OffsetPtr, StructBlock, Load32, Answers, Align4;
    BlockSize(b);
    ghost var blk := StructBlock(b);
    ghost var s := if start >= 0 then Rest(blk, start) else [];
    next := -TRUNCATED;
    tag := TAG_END;
    OffsetPtrBlock(b, start, 4);
    if !OffsetPtr(b, start, 4) {
      if start >= 0 { AnswersShort(s, start); }
      return;
    }
    var base := OffStruct(b) + start;
    SliceOfSlice(blk, start, |blk|, 0, 4);
    LoadFrom(b, base, s, 0);
    tag := Load32(b, base);
    var offset := start + 4;
    next := -BADSTRUCTURE;
    if tag == TAG_BEGIN_NODE {
      var p;
      p, offset := SkipName(b, offset);
      NulFromRest(blk, start, 4);
      AnswersBegin(s, start, offset - start);
      if !p {
        tag := TAG_END;
        return;
      }
      offset := offset + 1;
    } else if tag == TAG_PROP {
      AnswersProp(s, start);
      var p;
      p, offset := SkipProp(b, start);
      if !p {
        tag := TAG_END;
        return;
      }
    } else {
      AnswersOther(s, start);
      if tag != TAG_END && tag != TAG_END_NODE && tag != TAG_NOP {
        tag := TAG_END;
        return;
      }
    }
    OffsetPtrBlock(b, start, offset - start);
    if !OffsetPtr(b, start, offset - start) {
      tag := TAG_END;
      return;
    }
    next := Align4(offset);
  }
}

/** The sequential writer of kernel/fdt/fdt_sw.c.  The structure block grows upward from the header,
    the strings block grows downward from the end of the buffer, and property names are stored as
    negative distances from that end until fdt_finish moves the strings and corrects them. */
module FdtWriter {
  import opened Bytes
  import opened FdtFormat
  import opened FdtTree
  import opened FdtDecode
  import opened FdtPlace
  import opened FdtTags
  import opened FdtBuffer

  const NO_NAME_DEDUP: U32 := 1
  const RSVMAP: nat := 48  // the header size rounded up to a reservation entry

  // ---------- the state kept in the buffer ----------

  /** Unused bytes between the two growing blocks. */
  function Free(b: Blob): int {
    TotalSize(b) - OffStruct(b) - SizeStruct(b) - SizeStrings(b)
  }

  /** The 'struct' state: the reservation block is closed by an empty entry, and the blocks growing
      towards each other do not overlap. */
  predicate Layout(b: Blob) {
    && Magic(b) == SW_MAGIC && Version(b) == 17 && OffStrings(b) == TotalSize(b)
    && TotalSize(b) <= |b| && TotalSize(b) < POW31 - 1
    && Free(b) >= 0
    && OffRsvmap(b) == RSVMAP && OffStruct(b) >= RSVMAP + 16 && OffStruct(b) % 16 == 0
    && b[OffStruct(b) - 16..OffStruct(b)] == Zeros(16)
  }

  /** The 'memrsv' state: only the reservation block has been written. */
  predicate Memrsv(b: Blob) {
    && Magic(b) == SW_MAGIC && Version(b) == 17 && OffStrings(b) == 0
    && 0 < TotalSize(b) <= |b| && TotalSize(b) < POW31 - 1
    && OffRsvmap(b) == RSVMAP && RSVMAP <= OffStruct(b) <= TotalSize(b) && OffStruct(b) % 16 == 0
    && SizeStruct(b) == 0 && SizeStrings(b) == 0
  }

  function SwStruct(b: Blob): (s: seq<Byte>)
    requires Layout(b)
  {
    b[OffStruct(b)..OffStruct(b) + SizeStruct(b)]
  }

  function SwStrings(b: Blob): (s: seq<Byte>)
    requires Layout(b)
  {
    b[TotalSize(b) - SizeStrings(b)..TotalSize(b)]
  }

  /** What a stored name word means once `size` bytes of strings start at offset zero. */
  function Reloc1(t: Token, size: nat): Token {
    match t
    case Prop(off, value) => Prop(Wrap(off + size), value)
    case _ => t
  }

  function Reloc(ts: seq<Token>, size: nat): (r: seq<Token>)
    ensures |r| == |ts| && forall i | 0 <= i < |ts| :: r[i] == Reloc1(ts[i], size)
  {
    seq(|ts|, i requires 0 <= i < |ts| => Reloc1(ts[i], size))
  }

  /** The invariant of the 'struct' state: complete tokens, every name a string of the table. */
  ghost predicate Writing(b: Blob, ts: seq<Token>) {
    && Layout(b) && Lexes(SwStruct(b), ts) && AllNamed(SwStrings(b), Reloc(ts, SizeStrings(b)))
    && forall i | 0 <= i < |ts| :: !ts[i].Nop?
  }

  /** The items written so far. */
  ghost function Written(b: Blob, ts: seq<Token>): seq<Item>
    requires Layout(b)
  {
    Items(SwStrings(b), Reloc(ts, SizeStrings(b)))
  }

  /** fdt_sw_probe_ and the two state probes. */
  function Probe(b: Blob): int {
    if Magic(b) == MAGIC then -BADSTATE else if Magic(b) != SW_MAGIC then -BADMAGIC else 0
  }

  function ProbeMemrsv(b: Blob): int {
    if Probe(b) != 0 then Probe(b) else if OffStrings(b) != 0 then -BADSTATE else 0
  }

  function ProbeStruct(b: Blob): int {
    if Probe(b) != 0 then Probe(b) else if OffStrings(b) != TotalSize(b) then -BADSTATE else 0
  }

  // ---------- names under a growing table ----------

  lemma NamedPrepend(more: seq<Byte>, strs: seq<Byte>, off: nat)
    requires Named(strs, off)
    ensures Named(more + strs, |more| + off) && NameAt(more + strs, |more| + off) == NameAt(strs, off)
  {
    var u := more + strs;
    NulFromUnique(u, |more| + off, |more| + NulFrom(strs, off));
    assert u[|more| + off..|more| + NulFrom(strs, off)] == strs[off..NulFrom(strs, off)];
  }

  lemma WrapUp(off: U32, size: nat, more: nat, strs: seq<Byte>)
    requires |strs| == size && size + more < POW31 && Named(strs, Wrap(off + size))
    ensures Wrap(off + (more + size)) == more + Wrap(off + size)
  {
  }

  /** Strings added in front of the table leave every name written so far in place. */
  lemma {:induction false} RelocGrow(more: seq<Byte>, strs: seq<Byte>, ts: seq<Token>)
    requires AllNamed(strs, Reloc(ts, |strs|)) && |more + strs| < POW31
    ensures AllNamed(more + strs, Reloc(ts, |more + strs|))
    ensures Items(more + strs, Reloc(ts, |more + strs|)) == Items(strs, Reloc(ts, |strs|))
  {
    hide Named, NameAt;
    if ts != [] {
      var a, b := Reloc(ts, |strs|), Reloc(ts, |more + strs|);
      assert a[1..] == Reloc(ts[1..], |strs|) && b[1..] == Reloc(ts[1..], |more + strs|);
      assert forall i | 0 <= i < |a[1..]| :: a[1..][i] == a[i + 1];
      RelocGrow(more, strs, ts[1..]);
      if ts[0].Prop? {
        assert a[0].Prop?;
        WrapUp(ts[0].nameoff, |strs|, |more|, strs);
        NamedPrepend(more, strs, a[0].nameoff);
      }
      assert forall i | 1 <= i < |b| :: b[i] == b[1..][i - 1];
    }
  }

  lemma RelocSnoc(ts: seq<Token>, t: Token, size: nat)
    ensures Reloc(ts + [t], size) == Reloc(ts, size) + [Reloc1(t, size)]
  {
  }

  // ---------- one more token ----------

  ghost predicate SameHeaderBut(b: Blob, b': Blob, i: nat) {
    |b'| == |b| && forall j | 0 <= j < HEADER && j % 4 == 0 && j != i :: Load32(b', j) == Load32(b, j)
  }

  /** A complete token stored in the free space directly above the structure block extends it. */
  lemma Extend(b: Blob, ts: seq<Token>, b': Blob, n: nat, tok: Token)
    requires Writing(b, ts) && n <= Free(b)
    requires SameHeaderBut(b, b', H_SIZE_STRUCT) && SizeStruct(b') == SizeStruct(b) + n
    requires var p := OffStruct(b) + SizeStruct(b);
             b'[OffStruct(b) - 16..p] == b[OffStruct(b) - 16..p] && LexOne(b'[p..p + n]) == Good(tok, n) && !tok.Finish? && !tok.Nop?
    requires b'[TotalSize(b) - SizeStrings(b)..TotalSize(b)] == SwStrings(b)
    requires tok.Prop? ==> Named(SwStrings(b), Wrap(tok.nameoff + SizeStrings(b)))
    ensures Writing(b', ts + [tok]) && Free(b') == Free(b) - n
    ensures SwStrings(b') == SwStrings(b)
    ensures Written(b', ts + [tok]) == Written(b, ts) + Item1(SwStrings(b), Reloc1(tok, SizeStrings(b)))
  {
    hide LexOne, Lexes, Load32, Named, NameAt, Items;
    var p := OffStruct(b) + SizeStruct(b);
    SliceOfSlice(b, OffStruct(b) - 16, p, 0, 16);
    SliceOfSlice(b', OffStruct(b) - 16, p, 0, 16);
    SliceOfSlice(b, OffStruct(b) - 16, p, 16, p - OffStruct(b) + 16);
    SliceOfSlice(b', OffStruct(b) - 16, p, 16, p - OffStruct(b) + 16);
    assert Layout(b') && SizeStrings(b') == SizeStrings(b) && TotalSize(b') == TotalSize(b);
    LexesOne(b'[p..p + n]);
    LexesConcat(SwStruct(b), ts, b'[p..p + n], [tok]);
    assert SwStruct(b') == b'[OffStruct(b)..p] + b'[p..p + n];
    RelocSnoc(ts, tok, SizeStrings(b));
    var strs, r := SwStrings(b), Reloc1(tok, SizeStrings(b));
    ItemsConcat(strs, Reloc(ts, SizeStrings(b)), [r]);
    ItemsOne(strs, r);
    assert AllNamed(strs, [r]);
  }

  /** The string `s` and its NUL stand at index `k` of the table. */
  predicate Stands(strtab: seq<Byte>, k: nat, s: seq<Byte>) {
    k + |s| < |strtab| && strtab[k..k + |s| + 1] == s + [0]
  }

  lemma StandsNamed(strtab: seq<Byte>, k: nat, s: seq<Byte>)
    requires Stands(strtab, k, s) && NulFree(s)
    ensures Named(strtab, k) && NameAt(strtab, k) == s
  {
    var w := strtab[k..k + |s| + 1];
    assert forall i | k <= i < k + |s| :: strtab[i] == w[i - k] == s[i - k];
    assert strtab[k + |s|] == w[|s|];
    NulFromUnique(strtab, k, k + |s|);
    assert strtab[k..k + |s|] == s;
  }

  /** fdt_find_string_: the first place where the string stands in the table, or -1. */
  method FindString(strtab: seq<Byte>, s: seq<Byte>) returns (p: int)
    ensures p >= 0 ==> Stands(strtab, p, s) && forall k: nat | k < p :: !Stands(strtab, k, s)
    ensures p < 0 ==> p == -1 && forall k: nat :: !Stands(strtab, k, s)
  {
    p := 0;
    while p + |s| + 1 <= |strtab|
      invariant 0 <= p
      invariant forall k: nat | k < p :: !Stands(strtab, k, s)
    {
      if strtab[p..p + |s| + 1] == s + [0] {
        return;
      }
      p := p + 1;
    }
    p := -1;
  }

  class Writer {
    const buf: array<Byte>
    ghost var toks: seq<Token>

    constructor (size: nat)
      requires size >= HEADER
      ensures buf.Length == size && fresh(buf)
    {
      buf := new Byte[size];
      toks := [];
    }

    /** Whenever the header says 'memrsv' state, the reservation block is being written; whenever it
        says 'struct' state, the buffer holds complete tokens. */
    ghost predicate Valid()
      reads this, buf
    {
      && buf.Length >= HEADER
      && (ProbeMemrsv(buf[..]) == 0 ==> Memrsv(buf[..]))
      && (ProbeStruct(buf[..]) == 0 ==> Writing(buf[..], toks))
    }

    /** The items written so far. */
    ghost function Items(): seq<Item>
      reads this, buf
      requires buf.Length >= HEADER && Layout(buf[..])
    {
      Written(buf[..], toks)
    }

    /** fdt_create_with_flags. */
    method Create(bufsize: I32, flags: U32) returns (r: int)
      requires HEADER <= buf.Length && bufsize <= buf.Length && bufsize < POW31 - 1
      modifies this, buf
      ensures r == if bufsize < RSVMAP then -NOSPACE else if flags >= 2 then -BADFLAGS else 0
      ensures r != 0 ==> buf[..] == old(buf[..]) && toks == old(toks)
      ensures r == 0 ==> Valid() && ProbeMemrsv(buf[..]) == 0 && TotalSize(buf[..]) == bufsize &&
                         OffStruct(buf[..]) == RSVMAP && LastComp(buf[..]) == flags
    {
      hide Load32, Patch, Lexes;
      if bufsize < RSVMAP {
        return -NOSPACE;
      }
      if flags >= 2 {
        return -BADFLAGS;
      }
      Store(buf, 0, Zeros(bufsize));
      ghost var b := buf[..];
      ZeroHeader(old(buf[..]), b, bufsize);
      toks := [];
      Store32(buf, H_MAGIC, SW_MAGIC);
      PatchHeader(b, H_MAGIC, SW_MAGIC);
      ghost var b1 := buf[..];
      Store32(buf, H_VERSION, 17);
      PatchHeader(b1, H_VERSION, 17);
      ghost var b2 := buf[..];
      Store32(buf, H_LAST_COMP, flags);
      PatchHeader(b2, H_LAST_COMP, flags);
      ghost var b3 := buf[..];
      Store32(buf, H_TOTALSIZE, bufsize);
      PatchHeader(b3, H_TOTALSIZE, bufsize);
      ghost var b4 := buf[..];
      Store32(buf, H_OFF_RSVMAP, RSVMAP);
      PatchHeader(b4, H_OFF_RSVMAP, RSVMAP);
      ghost var b5 := buf[..];
      Store32(buf, H_OFF_STRUCT, OffRsvmap(buf[..]));
      PatchHeader(b5, H_OFF_STRUCT, RSVMAP);
      r := 0;
    }

    /** fdt_add_reservemap_entry. */
    method AddReservemapEntry(address: U64, size: U64) returns (r: int)
      requires Valid()
      modifies buf
      ensures Valid()
      ensures ProbeMemrsv(old(buf[..])) != 0 ==> r == ProbeMemrsv(old(buf[..])) && buf[..] == old(buf[..])
      ensures ProbeMemrsv(old(buf[..])) == 0 ==>
                ProbeMemrsv(buf[..]) == 0 &&
                var o := OffStruct(old(buf[..]));
                if o + 16 > TotalSize(old(buf[..])) then r == -NOSPACE && buf[..] == old(buf[..])
                else r == 0 && OffStruct(buf[..]) == o + 16 && SameHeaderBut(old(buf[..]), buf[..], H_OFF_STRUCT) &&
                     o + 16 <= buf.Length && buf[RSVMAP..o] == old(buf[RSVMAP..OffStruct(buf[..])]) &&
                     buf[o..o + 16] == Word64(address) + Word64(size)
    {
      hide Load32, Patch, Lexes, Word64;
      if ProbeMemrsv(buf[..]) != 0 {
        return ProbeMemrsv(buf[..]);
      }
      ghost var b := buf[..];
      var offset := OffStruct(buf[..]);
      if offset + 16 > TotalSize(buf[..]) {
        return -NOSPACE;
      }
      Store(buf, offset, Word64(address) + Word64(size));
      ghost var b1 := buf[..];
      PatchBody(b, offset, Word64(address) + Word64(size));
      PatchSlice(b, offset, Word64(address) + Word64(size), RSVMAP, offset);
      Store32(buf, H_OFF_STRUCT, offset + 16);
      PatchHeader(b1, H_OFF_STRUCT, offset + 16);
      KeepBehind(b1, buf[..], RSVMAP, offset);
      KeepBehind(b1, buf[..], offset, offset + 16);
      r := 0;
    }

    /** fdt_finish_reservemap: from here on nodes and properties may be written. */
    method FinishReservemap() returns (r: int)
      requires Valid()
      modifies this, buf
      ensures Valid()
      ensures ProbeMemrsv(old(buf[..])) != 0 ==> r == ProbeMemrsv(old(buf[..])) && buf[..] == old(buf[..])
      ensures ProbeMemrsv(old(buf[..])) == 0 ==>
                var o := OffStruct(old(buf[..]));
                if o + 16 > TotalSize(old(buf[..])) then r == -NOSPACE && buf[..] == old(buf[..])
                else r == 0 && ProbeStruct(buf[..]) == 0 && Items() == [] && Free(buf[..]) == TotalSize(buf[..]) - (o + 16) &&
                     SizeStrings(buf[..]) == 0 && TotalSize(buf[..]) == TotalSize(old(buf[..])) &&
                     LastComp(buf[..]) == LastComp(old(buf[..])) && OffStruct(buf[..]) == o + 16 && o + 16 <= buf.Length &&
                     buf[RSVMAP..o] == old(buf[RSVMAP..OffStruct(buf[..])]) && buf[o..o + 16] == Zeros(16)
    {
      hide Load32, Patch;
      r := AddReservemapEntry(0, 0);
      if r != 0 {
        return;
      }
      ghost var b := buf[..];
      toks := [];
      Store32(buf, H_OFF_STRINGS, TotalSize(buf[..]));
      PatchHeader(b, H_OFF_STRINGS, TotalSize(b));
      KeepBehind(b, buf[..], OffStruct(b) - 16, OffStruct(b));
      KeepBehind(b, buf[..], RSVMAP, OffStruct(b) - 16);
      assert Word64(0) + Word64(0) == Zeros(16);
      ghost var e := buf[..];
      assert Layout(e) && SwStruct(e) == [];
    }

    /** fdt_grab_space_: reserves `len` bytes above the structure block; -1 stands for NULL. */
    method Grab(len: nat) returns (p: int)
      requires Valid() && ProbeStruct(buf[..]) == 0 && len < POW31
      modifies buf
      ensures p < 0 ==> buf[..] == old(buf[..]) && Free(buf[..]) < len
      ensures p >= 0 ==>
                p == OffStruct(old(buf[..])) + SizeStruct(old(buf[..])) && Free(old(buf[..])) >= len &&
                SizeStruct(old(buf[..])) + len < POW32 &&
                buf[..] == Patch(old(buf[..]), H_SIZE_STRUCT, Word(SizeStruct(old(buf[..])) + len))
      ensures Front(old(buf[..]), buf[..], WRITTEN)
    {
      hide Load32, Lexes, Front, Patch;
      FrontSelf(buf[..], WRITTEN);
      ghost var b := buf[..];
      var offset := SizeStruct(buf[..]);
      var spaceleft := TotalSize(buf[..]) - OffStruct(buf[..]) - SizeStrings(buf[..]);
      if offset + len > spaceleft {
        return -1;
      }
      p := OffStruct(buf[..]) + offset;
      Store32(buf, H_SIZE_STRUCT, offset + len);
      FrontWord(b, b, H_SIZE_STRUCT, offset + len, WRITTEN);
    }

    /** fdt_begin_node. */
    method BeginNode(name: seq<Byte>) returns (r: int)
      requires Valid() && NulFree(name) && |name| < POW31 - 16
      modifies this, buf
      ensures Valid()
      ensures ProbeStruct(old(buf[..])) != 0 ==> r == ProbeStruct(old(buf[..])) && buf[..] == old(buf[..])
      ensures ProbeStruct(old(buf[..])) == 0 ==>
                ProbeStruct(buf[..]) == 0 &&
                var n := Align4(4 + |name| + 1);
                if Free(old(buf[..])) < n then r == -NOSPACE && buf[..] == old(buf[..]) && toks == old(toks)
                else r == 0 && Items() == old(Items()) + [Open(name)] && Free(buf[..]) == Free(old(buf[..])) - n
      ensures ProbeStruct(old(buf[..])) == 0 ==> Front(old(buf[..]), buf[..], WRITTEN)
    {
      hide Front, Load32, Lexes, LexOne, Named, NameAt, FdtDecode.Items, Patch;
      if ProbeStruct(buf[..]) != 0 {
        return ProbeStruct(buf[..]);
      }
      ghost var b := buf[..];
      FrontSelf(b, WRITTEN);
      var n := Align4(4 + |name| + 1);
      var nh := Grab(n);
      if nh < 0 {
        return -NOSPACE;
      }
      ghost var b1 := buf[..];
      Store32(buf, nh, TAG_BEGIN_NODE);
      FrontBody(b, b1, nh, Word(TAG_BEGIN_NODE), WRITTEN);
      ghost var b2 := buf[..];
      Store(buf, nh + 4, name + [0]);
      FrontBody(b, b2, nh + 4, name + [0], WRITTEN);
      BeginChunk(b, toks, b1, b2, buf[..], name);
      toks := toks + [Begin(name)];
      r := 0;
    }

    /** fdt_end_node. */
    method EndNode() returns (r: int)
      requires Valid()
      modifies this, buf
      ensures Valid()
      ensures ProbeStruct(old(buf[..])) != 0 ==> r == ProbeStruct(old(buf[..])) && buf[..] == old(buf[..])
      ensures ProbeStruct(old(buf[..])) == 0 ==>
                ProbeStruct(buf[..]) == 0 &&
                if Free(old(buf[..])) < 4 then r == -NOSPACE && buf[..] == old(buf[..]) && toks == old(toks)
                else r == 0 && Items() == old(Items()) + [Close] && Free(buf[..]) == Free(old(buf[..])) - 4
      ensures ProbeStruct(old(buf[..])) == 0 ==> Front(old(buf[..]), buf[..], WRITTEN)
    {
      hide Front, Load32, Lexes, LexOne, Named, NameAt, FdtDecode.Items, Patch;
      if ProbeStruct(buf[..]) != 0 {
        return ProbeStruct(buf[..]);
      }
      ghost var b := buf[..];
      FrontSelf(b, WRITTEN);
      var en := Grab(4);
      if en < 0 {
        return -NOSPACE;
      }
      ghost var b1 := buf[..];
      Store32(buf, en, TAG_END_NODE);
      FrontBody(b, b1, en, Word(TAG_END_NODE), WRITTEN);
      EndChunk(b, toks, b1, buf[..]);
      toks := toks + [End];
      r := 0;
    }

    /** fdt_add_string_: stores the string below the table; 0 stands for no room.  With `overrun` the
        room test let a string through that reaches below the buffer; the model ends before that copy. */
    method AddString(s: seq<Byte>) returns (off: int, overrun: bool)
      requires Valid() && ProbeStruct(buf[..]) == 0 && NulFree(s) && |s| < POW31 - 16
      modifies buf
      ensures Valid() && ProbeStruct(buf[..]) == 0
      ensures overrun <==> SizeStrings(old(buf[..])) + |s| + 1 > TotalSize(old(buf[..]))
      ensures if overrun then buf[..] == old(buf[..])
              else if Free(old(buf[..])) < |s| + 1 then off == 0 && buf[..] == old(buf[..])
              else off == -(SizeStrings(old(buf[..])) + |s| + 1) && Free(buf[..]) == Free(old(buf[..])) - (|s| + 1) &&
                   Grown(old(buf[..]), buf[..], toks, s)
      ensures Front(old(buf[..]), buf[..], WRITTEN)
    {
      hide Front, Load32, Lexes, LexOne, Named, NameAt, FdtDecode.Items, Patch;
      ghost var b := buf[..];
      FrontSelf(b, WRITTEN);
      var strtabsize := SizeStrings(buf[..]);
      var len := |s| + 1;
      var offset := strtabsize + len;
      var structTop := OffStruct(buf[..]) + SizeStruct(buf[..]);
      var total := TotalSize(buf[..]);
      RoomTest(b, len);
      if Wrap(total - offset) < structTop {
        return 0, false;
      }
      if offset > total {
        return 0, true;
      }
      overrun := false;
      Store(buf, total - offset, s + [0]);
      ghost var b1 := buf[..];
      PatchBody(b, total - offset, s + [0]);
      FrontBody(b, b, total - offset, s + [0], WRITTEN);
      Store32(buf, H_SIZE_STRINGS, offset);
      FrontWord(b, b1, H_SIZE_STRINGS, offset, WRITTEN);
      StringChunk(b, toks, b1, buf[..], s);
      off := -offset;
    }

    /** fdt_find_add_string_, or fdt_add_string_ alone when names are not to be shared: the negative
        distance of the string from the end of the table, 0 for no room. */
    method NameOffset(s: seq<Byte>) returns (off: int, added: bool, overrun: bool)
      requires Valid() && ProbeStruct(buf[..]) == 0 && NulFree(s) && |s| < POW31 - 16
      modifies buf
      ensures Valid() && ProbeStruct(buf[..]) == 0
      ensures overrun <==> Overruns(old(buf[..]), s)
      ensures if overrun then buf[..] == old(buf[..])
              else if Free(old(buf[..])) < NameSpace(old(buf[..]), s) then off == 0 && buf[..] == old(buf[..])
              else off != 0 && Ready(buf[..], s, off) && Free(buf[..]) == Free(old(buf[..])) - NameSpace(old(buf[..]), s) &&
                   if added then Grown(old(buf[..]), buf[..], toks, s) else buf[..] == old(buf[..])
      ensures Front(old(buf[..]), buf[..], WRITTEN)
    {
      hide Front, Load32, Lexes, LexOne, Named, NameAt, FdtDecode.Items, Patch, Stands, Grown;
      added, overrun := false, false;
      ghost var b := buf[..];
      FrontSelf(b, WRITTEN);
      if LastComp(buf[..]) % 2 != NO_NAME_DEDUP {
        var strs := buf[TotalSize(buf[..]) - SizeStrings(buf[..])..TotalSize(buf[..])];
        var p := FindString(strs, s);
        if p >= 0 {
          StandsInside(strs, p, s);
          return p - SizeStrings(buf[..]), added, overrun;
        }
      }
      added := true;
      off, overrun := AddString(s);
      if !overrun && off != 0 {
        GrownReady(b, buf[..], toks, s);
      }
    }

    /** fdt_property: fdt_property_placeholder and the copy of the value; with `overrun` the copy of the
        name reaches below the buffer. */
    method Property(name: seq<Byte>, value: seq<Byte>) returns (r: int, overrun: bool)
      requires Valid() && NulFree(name) && |name| < POW31 - 16 && |value| < POW31 - 16
      modifies this, buf
      ensures Valid()
      ensures overrun <==> ProbeStruct(old(buf[..])) == 0 && Overruns(old(buf[..]), name)
      ensures overrun ==> buf[..] == old(buf[..]) && toks == old(toks)
      ensures ProbeStruct(old(buf[..])) != 0 ==> r == ProbeStruct(old(buf[..])) && buf[..] == old(buf[..])
      ensures ProbeStruct(old(buf[..])) == 0 && !overrun ==>
                ProbeStruct(buf[..]) == 0 &&
                var n := NameSpace(old(buf[..]), name) + Align4(12 + |value|);
                if Free(old(buf[..])) < n
                then r == -NOSPACE && Items() == old(Items()) && Free(buf[..]) == Free(old(buf[..]))
                else r == 0 && Items() == old(Items()) + [Attr(FdtTree.Property(name, value))] &&
                     Free(buf[..]) == Free(old(buf[..])) - n
      ensures ProbeStruct(old(buf[..])) == 0 ==> Front(old(buf[..]), buf[..], WRITTEN)
    {
      hide Front, Load32, Lexes, LexOne, Named, NameAt, FdtDecode.Items, Patch, Stands, Grown, NameSpace, Ready, AllNamed, Overruns;
      overrun := false;
      if ProbeStruct(buf[..]) != 0 {
        return ProbeStruct(buf[..]), overrun;
      }
      ghost var b := buf[..];
      var off, added;
      off, added, overrun := NameOffset(name);
      if overrun {
        return 0, overrun;
      }
      if off == 0 {
        return -NOSPACE, overrun;
      }
      ghost var b0 := buf[..];
      if added { GrownWritten(b, b0, toks, name); }
      var n := Align4(12 + |value|);
      var p := Grab(n);
      if p < 0 {
        if added {
          // fdt_del_last_string_
          Store32(buf, H_SIZE_STRINGS, SizeStrings(buf[..]) - (|name| + 1));
          FrontWord(b, b0, H_SIZE_STRINGS, SizeStrings(b0) - (|name| + 1), WRITTEN);
          Rollback(b, b0, buf[..], toks, name);
        }
        return -NOSPACE, overrun;
      }
      ghost var b1 := buf[..];
      FrontTrans(b, b0, b1, WRITTEN);
      FrontStruct(b, b0);
      PutProp(p, Wrap(off), value, b);
      PropChunk(b0, toks, b1, buf[..], name, value, off);
      toks := toks + [Prop(Wrap(off), value)];
      r := 0;
    }

    /** The stores of fdt_property_placeholder and fdt_property. */
    method PutProp(p: nat, off: U32, value: seq<Byte>, ghost b: Blob)
      requires buf.Length >= HEADER && Front(b, buf[..], WRITTEN) && OffStruct(b) <= p
      requires p + 12 + |value| <= buf.Length && |value| < POW32
      modifies buf
      ensures buf[..] == PropStores(old(buf[..]), p, off, value) && Front(b, buf[..], WRITTEN)
    {
      hide Patch, Front, Load32;
      FrontBody(b, buf[..], p, Word(TAG_PROP), WRITTEN);
      Store32(buf, p, TAG_PROP);
      FrontBody(b, buf[..], p + 8, Word(off), WRITTEN);
      Store32(buf, p + 8, off);
      FrontBody(b, buf[..], p + 4, Word(|value|), WRITTEN);
      Store32(buf, p + 4, |value|);
      FrontBody(b, buf[..], p + 12, value, WRITTEN);
      Store(buf, p + 12, value);
    }

    /** The loop of fdt_finish over the tags, correcting string offsets. */
    method FixNames(ghost b: Blob, ghost ts: seq<Token>)
      requires buf.Length >= HEADER && Fixing(b, ts, buf[..], 0, 0)
      modifies buf
      ensures buf.Length >= HEADER && Fixing(b, ts, buf[..], SizeStruct(b), |ts|)
      ensures old(Front(b, buf[..], WRITTEN)) ==> Front(b, buf[..], WRITTEN)
    {
      hide Front, Load32, Lexes, LexOne, Named, NameAt, FdtDecode.Items, Patch, AllNamed, Fixing, StructBlock;
      var offset: I32 := 0;
      ghost var j := 0;
      ghost var kept := Front(b, buf[..], WRITTEN);
      while true
        invariant 0 <= offset <= SizeStruct(b) && 0 <= j <= |ts| && offset % 4 == 0
        invariant Fixing(b, ts, buf[..], offset, j) && (kept ==> Front(b, buf[..], WRITTEN))
        decreases |ts| - j
      {
        FixingReads(b, ts, buf[..], offset, j);
        var tag, next := NextTag(buf[..], offset);
        if tag == TAG_END {
          break;
        }
        ghost var c := buf[..];
        if tag == TAG_PROP {
          var at := OffStruct(buf[..]) + offset + 8;
          var nameoff := Wrap(Load32(buf[..], at) + SizeStrings(buf[..]));
          if kept {
            FrontStruct(b, buf[..]);
            FrontBody(b, buf[..], at, Word(nameoff), WRITTEN);
          }
          Store32(buf, at, nameoff);
        }
        FixingStep(b, ts, c, buf[..], offset, j);
        offset := next;
        j := j + 1;
      }
      FixingEnd(b, ts, buf[..], offset, j);
    }

    /** fdt_finish: terminator, relocation of the string table, correction of every name word. */
    method Finish() returns (r: int)
      requires Valid()
      modifies this, buf
      ensures Valid()
      ensures ProbeStruct(old(buf[..])) != 0 ==> r == ProbeStruct(old(buf[..])) && buf[..] == old(buf[..])
      ensures ProbeStruct(old(buf[..])) == 0 ==>
                if Free(old(buf[..])) < 4 then r == -NOSPACE && buf[..] == old(buf[..])
                else r == 0 && Finished(old(buf[..]), old(toks), buf[..])
      ensures ProbeStruct(old(buf[..])) == 0 ==> Front(old(buf[..]), buf[..], WRITTEN)
    {
      hide Front, Load32, Lexes, LexOne, Named, NameAt, FdtDecode.Items, Patch, AllNamed, Fixing, StructBlock;
      if ProbeStruct(buf[..]) != 0 {
        return ProbeStruct(buf[..]);
      }
      ghost var b, ts := buf[..], toks;
      FrontSelf(b, WRITTEN);
      var end := Grab(4);
      if end < 0 {
        return -NOSPACE;
      }
      ghost var b1 := buf[..];
      Store32(buf, end, TAG_END);
      FrontBody(b, b1, end, Word(TAG_END), WRITTEN);
      ghost var b2 := buf[..];
      PatchHeader(b, H_SIZE_STRUCT, SizeStruct(b) + 4);
      PatchBody(b1, end, Word(TAG_END));
      var oldstr := TotalSize(buf[..]) - SizeStrings(buf[..]);
      var newstr := OffStruct(buf[..]) + SizeStruct(buf[..]);
      Move(buf, newstr, oldstr, SizeStrings(buf[..]));
      ghost var b3 := buf[..];
      PatchBody(b2, newstr, b2[oldstr..oldstr + SizeStrings(b)]);
      FrontBody(b, b2, newstr, b2[oldstr..oldstr + SizeStrings(b)], WRITTEN);
      Store32(buf, H_OFF_STRINGS, newstr);
      FrontWord(b, b3, H_OFF_STRINGS, newstr, WRITTEN);
      FixingStart(b, ts, b1, b2, b3, buf[..]);
      FixNames(b, ts);
      FixingReads(b, ts, buf[..], SizeStruct(b), |ts|);
      ghost var c := buf[..];
      Store32(buf, H_TOTALSIZE, newstr + SizeStrings(buf[..]));
      FrontWord(b, c, H_TOTALSIZE, newstr + SizeStrings(c), WRITTEN);
      ghost var c1 := buf[..];
      Store32(buf, H_LAST_COMP, 16);
      FrontWord(b, c1, H_LAST_COMP, 16, WRITTEN);
      ghost var c2 := buf[..];
      Store32(buf, H_MAGIC, MAGIC);
      FrontWord(b, c2, H_MAGIC, MAGIC, WRITTEN);
      FixingDone(b, ts, c, c1, c2, buf[..], SizeStruct(b), |ts|);
      r := 0;
    }
  }

  lemma FrontStruct(b: Blob, b': Blob)
    requires Front(b, b', WRITTEN)
    ensures OffStruct(b') == OffStruct(b) && HEADER <= OffStruct(b)
  {
    hide Load32;
  }

  /** The three states exclude each other: in the first two each group of calls is refused with BADSTATE in
      the other's state, and when the blob is finished all of them are. */
  lemma StatesApart(b: Blob)
    ensures Memrsv(b) ==> ProbeMemrsv(b) == 0 && ProbeStruct(b) == -BADSTATE
    ensures Layout(b) ==> ProbeStruct(b) == 0 && ProbeMemrsv(b) == -BADSTATE
    ensures Magic(b) == MAGIC ==> ProbeMemrsv(b) == -BADSTATE && ProbeStruct(b) == -BADSTATE
    ensures Magic(b) != MAGIC && Magic(b) != SW_MAGIC ==> ProbeMemrsv(b) == -BADMAGIC && ProbeStruct(b) == -BADMAGIC
  {
    hide Load32;
  }

  /** A buffer of 100 bytes and a name of 200 characters: the room test lets it through. */
  method LongName() returns (overrun: bool)
    ensures overrun
  {
    hide Load32, Lexes, AllNamed, Reloc;
    var w := new Writer(100);
    var r := w.Create(100, 0);
    r := w.FinishReservemap();
    r, overrun := w.Property(seq(200, i => 'x' as Byte), []);
  }

  /** The stores of fdt_begin_node make one begin token. */
  lemma BeginChunk(b: Blob, ts: seq<Token>, b1: Blob, b2: Blob, b3: Blob, name: seq<Byte>)
    requires Writing(b, ts) && NulFree(name) && Align4(4 + |name| + 1) <= Free(b)
    requires SizeStruct(b) + Align4(4 + |name| + 1) < POW32
    requires b1 == Patch(b, H_SIZE_STRUCT, Word(SizeStruct(b) + Align4(4 + |name| + 1)))
    requires b2 == Patch(b1, OffStruct(b) + SizeStruct(b), Word(TAG_BEGIN_NODE))
    requires b3 == Patch(b2, OffStruct(b) + SizeStruct(b) + 4, name + [0])
    ensures Writing(b3, ts + [Begin(name)]) && Free(b3) == Free(b) - Align4(4 + |name| + 1)
    ensures Written(b3, ts + [Begin(name)]) == Written(b, ts) + [Open(name)]
  {
    hide Load32, Lexes, LexOne, Named, NameAt, Items, Patch, Align4;
    var p, n := OffStruct(b) + SizeStruct(b), Align4(4 + |name| + 1);
    var body := name + [0];
    PatchHeader(b, H_SIZE_STRUCT, SizeStruct(b) + n);
    PatchBody(b1, p, Word(TAG_BEGIN_NODE));
    PatchBody(b2, p + 4, body);
    KeepSlice(b, b1, b2, b3, p, Word(TAG_BEGIN_NODE), p + 4, body, OffStruct(b) - 16, p);
    KeepSlice(b, b1, b2, b3, p, Word(TAG_BEGIN_NODE), p + 4, body, TotalSize(b) - SizeStrings(b), TotalSize(b));
    BeginBody(b1, b2, b3, p, n, name);
    Extend(b, ts, b3, n, Begin(name));
  }

  lemma BeginBody(b1: Blob, b2: Blob, b3: Blob, p: nat, n: nat, name: seq<Byte>)
    requires p + n <= |b1| && n == Align4(4 + |name| + 1) && NulFree(name)
    requires b2 == Patch(b1, p, Word(TAG_BEGIN_NODE)) && b3 == Patch(b2, p + 4, name + [0])
    ensures LexOne(b3[p..p + n]) == Good(Begin(name), n)
  {
    hide Load32, LexOne, Patch, Align4;
    var body := name + [0];
    PatchSlice(b1, p, Word(TAG_BEGIN_NODE), p, p + 4);
    PatchSlice(b2, p + 4, body, p, p + 4);
    PatchSlice(b2, p + 4, body, p + 4, p + 4 + |body|);
    var c := b3[p..p + n];
    SliceOfSlice(b3, p, p + n, 0, 4);
    SliceOfSlice(b3, p, p + n, 4, 4 + |body|);
    assert c[4..4 + |name|] == c[4..4 + |body|][..|name|];
    assert c[4 + |name|] == c[4..4 + |body|][|name|] == body[|name|] == 0;
    LexBegin(c, name);
  }

  /** Two stores leave a slice alone that neither touches. */
  lemma KeepSlice(b: Blob, b1: Blob, b2: Blob, b3: Blob, i: nat, s: seq<Byte>, j: nat, t: seq<Byte>, lo: nat, hi: nat)
    requires |b1| == |b| && b1[HEADER..] == b[HEADER..]
    requires i + |s| <= |b1| && b2 == Patch(b1, i, s) && j + |t| <= |b2| && b3 == Patch(b2, j, t)
    requires HEADER <= lo <= hi <= |b|
    requires (hi <= i || i + |s| <= lo) && (hi <= j || j + |t| <= lo)
    ensures b3[lo..hi] == b[lo..hi]
  {
    hide Patch;
    PatchSlice(b1, i, s, lo, hi);
    PatchSlice(b2, j, t, lo, hi);
    DropSlice(b1, HEADER, lo - HEADER, hi - HEADER);
    DropSlice(b, HEADER, lo - HEADER, hi - HEADER);
  }

  lemma EndChunk(b: Blob, ts: seq<Token>, b1: Blob, b2: Blob)
    requires Writing(b, ts) && 4 <= Free(b) && SizeStruct(b) + 4 < POW32
    requires b1 == Patch(b, H_SIZE_STRUCT, Word(SizeStruct(b) + 4))
    requires b2 == Patch(b1, OffStruct(b) + SizeStruct(b), Word(TAG_END_NODE))
    ensures Writing(b2, ts + [End]) && Free(b2) == Free(b) - 4
    ensures Written(b2, ts + [End]) == Written(b, ts) + [Close]
  {
    hide Load32, Lexes, LexOne, Named, NameAt, Items, Patch;
    var p := OffStruct(b) + SizeStruct(b);
    PatchHeader(b, H_SIZE_STRUCT, SizeStruct(b) + 4);
    PatchBody(b1, p, Word(TAG_END_NODE));
    var w := Word(TAG_END_NODE);
    KeepOne(b, b1, b2, p, w, OffStruct(b) - 16, p);
    KeepOne(b, b1, b2, p, w, TotalSize(b) - SizeStrings(b), TotalSize(b));
    PatchSlice(b1, p, w, p, p + 4);
    LexWord(TAG_END_NODE, []);
    assert w + [] == w;
    Extend(b, ts, b2, 4, End);
  }

  lemma KeepOne(b: Blob, b1: Blob, b2: Blob, i: nat, s: seq<Byte>, lo: nat, hi: nat)
    requires |b1| == |b| && b1[HEADER..] == b[HEADER..] && i + |s| <= |b1| && b2 == Patch(b1, i, s)
    requires HEADER <= lo <= hi <= |b| && (hi <= i || i + |s| <= lo)
    ensures b2[lo..hi] == b[lo..hi]
  {
    hide Patch;
    PatchSlice(b1, i, s, lo, hi);
    DropSlice(b1, HEADER, lo - HEADER, hi - HEADER);
    DropSlice(b, HEADER, lo - HEADER, hi - HEADER);
  }

  /** The string table grew downward by `s`; nothing written so far changed its meaning. */
  ghost predicate Grown(b: Blob, b': Blob, ts: seq<Token>, s: seq<Byte>) {
    && Writing(b, ts) && Writing(b', ts)
    && SwStrings(b') == (s + [0]) + SwStrings(b) && Written(b', ts) == Written(b, ts)
    && SizeStrings(b') == SizeStrings(b) + |s| + 1
    && SameHeaderBut(b, b', H_SIZE_STRINGS)
    && b'[OffStruct(b) - 16..OffStruct(b) + SizeStruct(b)] == b[OffStruct(b) - 16..OffStruct(b) + SizeStruct(b)]
  }

  lemma StringChunk(b: Blob, ts: seq<Token>, b1: Blob, b2: Blob, s: seq<Byte>)
    requires Writing(b, ts) && |s| + 1 <= Free(b) && NulFree(s)
    requires b1 == Patch(b, TotalSize(b) - (SizeStrings(b) + |s| + 1), s + [0])
    requires b2 == Patch(b1, H_SIZE_STRINGS, Word(SizeStrings(b) + |s| + 1))
    ensures Grown(b, b2, ts, s) && Free(b2) == Free(b) - (|s| + 1)
  {
    hide Load32, Lexes, LexOne, Named, NameAt, Items, Patch, AllNamed, Reloc;
    StringStores(b, b1, b2, s);
    var lo, hi := OffStruct(b) - 16, OffStruct(b) + SizeStruct(b);
    SliceOfSlice(b, lo, hi, 0, 16);
    SliceOfSlice(b2, lo, hi, 0, 16);
    SliceOfSlice(b, lo, hi, 16, hi - lo);
    SliceOfSlice(b2, lo, hi, 16, hi - lo);
    assert Layout(b2) && SwStruct(b2) == SwStruct(b);
    RelocGrow(s + [0], SwStrings(b), ts);
  }

  lemma StringStores(b: Blob, b1: Blob, b2: Blob, s: seq<Byte>)
    requires Layout(b) && |s| + 1 <= Free(b)
    requires b1 == Patch(b, TotalSize(b) - (SizeStrings(b) + |s| + 1), s + [0])
    requires b2 == Patch(b1, H_SIZE_STRINGS, Word(SizeStrings(b) + |s| + 1))
    ensures SameHeaderBut(b, b2, H_SIZE_STRINGS) && SizeStrings(b2) == SizeStrings(b) + |s| + 1
    ensures b2[OffStruct(b) - 16..OffStruct(b) + SizeStruct(b)] == b[OffStruct(b) - 16..OffStruct(b) + SizeStruct(b)]
    ensures b2[TotalSize(b) - (SizeStrings(b) + |s| + 1)..TotalSize(b)] == (s + [0]) + SwStrings(b)
  {
    hide Load32, Patch;
    var off := TotalSize(b) - (SizeStrings(b) + |s| + 1);
    var end := off + |s| + 1;
    var lo, hi := OffStruct(b) - 16, OffStruct(b) + SizeStruct(b);
    PatchBody(b, off, s + [0]);
    PatchHeader(b1, H_SIZE_STRINGS, SizeStrings(b) + |s| + 1);
    KeepBehind(b1, b2, lo, hi);
    KeepBehind(b1, b2, off, TotalSize(b));
    PatchSlice(b, off, s + [0], lo, hi);
    PatchSlice(b, off, s + [0], end, TotalSize(b));
    assert b1[off..TotalSize(b)] == b1[off..end] + b1[end..TotalSize(b)];
  }

  lemma KeepBehind(b: Blob, b': Blob, lo: nat, hi: nat)
    requires |b'| == |b| && b'[HEADER..] == b[HEADER..] && HEADER <= lo <= hi <= |b|
    ensures b'[lo..hi] == b[lo..hi]
  {
    DropSlice(b', HEADER, lo - HEADER, hi - HEADER);
    DropSlice(b, HEADER, lo - HEADER, hi - HEADER);
  }

  /** Bytes a property's name takes: none when it may be shared and stands in the table already. */
  ghost function NameSpace(b: Blob, name: seq<Byte>): nat
    requires Layout(b)
  {
    if LastComp(b) % 2 != NO_NAME_DEDUP && exists k: nat :: Stands(SwStrings(b), k, name) then 0 else |name| + 1
  }

  /** The name has to be added, and with it the table is longer than the whole buffer. */
  ghost predicate Overruns(b: Blob, name: seq<Byte>) {
    Layout(b) && NameSpace(b, name) > 0 && SizeStrings(b) + |name| + 1 > TotalSize(b)
  }

  /** The room test of fdt_add_string_, in unsigned 32 bits, is right about `len` more bytes exactly as
      long as the table with them is no longer than the buffer; beyond that it never refuses. */
  lemma RoomTest(b: Blob, len: nat)
    requires Layout(b) && 0 < len < POW31
    ensures var refused := Wrap(TotalSize(b) - (SizeStrings(b) + len)) < OffStruct(b) + SizeStruct(b);
            && (SizeStrings(b) + len <= TotalSize(b) <==> (refused <==> Free(b) < len))
            && (SizeStrings(b) + len > TotalSize(b) ==> !refused)
  {
    hide Load32;
  }

  /** The name stands in the table at distance -off from its end. */
  ghost predicate Ready(b: Blob, name: seq<Byte>, off: int) {
    Layout(b) && 0 <= SizeStrings(b) + off < SizeStrings(b) && Stands(SwStrings(b), SizeStrings(b) + off, name)
  }

  lemma StandsInside(strtab: seq<Byte>, k: nat, s: seq<Byte>)
    requires Stands(strtab, k, s)
    ensures k < |strtab|
  {
  }

  lemma StandsFirst(s: seq<Byte>, strs: seq<Byte>)
    ensures Stands((s + [0]) + strs, 0, s)
  {
    assert ((s + [0]) + strs)[0..|s| + 1] == s + [0];
  }

  lemma GrownReady(b: Blob, b': Blob, ts: seq<Token>, s: seq<Byte>)
    requires Grown(b, b', ts, s)
    ensures Ready(b', s, -(SizeStrings(b) + |s| + 1))
  {
    hide Load32, Lexes, Items, AllNamed, Stands;
    StandsFirst(s, SwStrings(b));
  }

  lemma GrownWritten(b: Blob, b': Blob, ts: seq<Token>, s: seq<Byte>)
    requires Grown(b, b', ts, s)
    ensures Layout(b) && Layout(b') && Written(b', ts) == Written(b, ts) && SizeStrings(b') >= |s| + 1
  {
    hide Load32, Lexes, Items, AllNamed;
  }

  lemma ReadyNamed(b: Blob, name: seq<Byte>, off: int)
    requires Ready(b, name, off) && NulFree(name)
    ensures var k := Wrap(Wrap(off) + SizeStrings(b));
            Named(SwStrings(b), k) && NameAt(SwStrings(b), k) == name
  {
    hide Load32;
    StandsNamed(SwStrings(b), SizeStrings(b) + off, name);
    assert Wrap(Wrap(off) + SizeStrings(b)) == SizeStrings(b) + off;
  }

  /** Dropping the string added last restores the table. */
  lemma Rollback(b: Blob, b0: Blob, b': Blob, ts: seq<Token>, name: seq<Byte>)
    requires Grown(b, b0, ts, name) && |name| + 1 <= SizeStrings(b0)
    requires b' == Patch(b0, H_SIZE_STRINGS, Word(SizeStrings(b0) - (|name| + 1)))
    ensures Writing(b', ts) && Written(b', ts) == Written(b, ts) && Free(b') == Free(b)
  {
    hide Load32, Lexes, Items, Patch, AllNamed, Reloc;
    RollbackStores(b, b0, b', name);
    var lo, hi := OffStruct(b) - 16, OffStruct(b) + SizeStruct(b);
    SliceOfSlice(b, lo, hi, 0, 16);
    SliceOfSlice(b', lo, hi, 0, 16);
    SliceOfSlice(b, lo, hi, 16, hi - lo);
    SliceOfSlice(b', lo, hi, 16, hi - lo);
    assert Layout(b') && SwStrings(b') == SwStrings(b) && SwStruct(b') == SwStruct(b);
  }

  lemma RollbackStores(b: Blob, b0: Blob, b': Blob, name: seq<Byte>)
    requires Layout(b) && Layout(b0) && |name| + 1 <= SizeStrings(b0)
    requires SwStrings(b0) == (name + [0]) + SwStrings(b) && SizeStrings(b0) == SizeStrings(b) + |name| + 1
    requires SameHeaderBut(b, b0, H_SIZE_STRINGS)
    requires b0[OffStruct(b) - 16..OffStruct(b) + SizeStruct(b)] == b[OffStruct(b) - 16..OffStruct(b) + SizeStruct(b)]
    requires b' == Patch(b0, H_SIZE_STRINGS, Word(SizeStrings(b0) - (|name| + 1)))
    ensures SameHeaderBut(b, b', H_SIZE_STRINGS) && SizeStrings(b') == SizeStrings(b)
    ensures b'[OffStruct(b) - 16..OffStruct(b) + SizeStruct(b)] == b[OffStruct(b) - 16..OffStruct(b) + SizeStruct(b)]
    ensures b'[TotalSize(b) - SizeStrings(b)..TotalSize(b)] == SwStrings(b)
  {
    hide Load32, Patch;
    PatchHeader(b0, H_SIZE_STRINGS, SizeStrings(b0) - (|name| + 1));
    var lo, hi, total, n := OffStruct(b) - 16, OffStruct(b) + SizeStruct(b), TotalSize(b), |name| + 1;
    KeepBehind(b0, b', lo, hi);
    KeepBehind(b0, b', total - SizeStrings(b), total);
    SliceOfSlice(b0, total - SizeStrings(b0), total, n, SizeStrings(b0));
    assert ((name + [0]) + SwStrings(b))[n..] == SwStrings(b);
    assert SwStrings(b0)[n..SizeStrings(b0)] == SwStrings(b0)[n..];
  }

  function PropStores(b: seq<Byte>, p: nat, off: U32, value: seq<Byte>): (r: seq<Byte>)
    requires p + 12 + |value| <= |b| && |value| < POW32
    ensures |r| == |b|
  {
    Patch(Patch(Patch(Patch(b, p, Word(TAG_PROP)), p + 8, Word(off)), p + 4, Word(|value|)), p + 12, value)
  }

  /** The stores of fdt_property make one property token. */
  lemma PropChunk(b: Blob, ts: seq<Token>, b1: Blob, b2: Blob, name: seq<Byte>, value: seq<Byte>, off: int)
    requires Writing(b, ts) && NulFree(name) && Ready(b, name, off) && |value| < POW31 - 16
    requires Align4(12 + |value|) <= Free(b) && SizeStruct(b) + Align4(12 + |value|) < POW32
    requires b1 == Patch(b, H_SIZE_STRUCT, Word(SizeStruct(b) + Align4(12 + |value|)))
    requires b2 == PropStores(b1, OffStruct(b) + SizeStruct(b), Wrap(off), value)
    ensures Writing(b2, ts + [Prop(Wrap(off), value)]) && Free(b2) == Free(b) - Align4(12 + |value|)
    ensures Written(b2, ts + [Prop(Wrap(off), value)]) == Written(b, ts) + [Attr(Property(name, value))]
  {
    hide Load32, Lexes, LexOne, Named, NameAt, Items, Patch, Align4, AllNamed, PropStores;
    var p, n := OffStruct(b) + SizeStruct(b), Align4(12 + |value|);
    PatchHeader(b, H_SIZE_STRUCT, SizeStruct(b) + n);
    ReadyNamed(b, name, off);
    PropOutside(b1, p, Wrap(off), value, OffStruct(b) - 16, p);
    PropOutside(b1, p, Wrap(off), value, TotalSize(b) - SizeStrings(b), TotalSize(b));
    KeepBehind(b, b1, OffStruct(b) - 16, p);
    KeepBehind(b, b1, TotalSize(b) - SizeStrings(b), TotalSize(b));
    PropToken(b1, p, Wrap(off), value);
    Extend(b, ts, b2, n, Prop(Wrap(off), value));
  }

  /** The four stores of a property leave alone what is outside. */
  lemma PropOutside(b: Blob, p: nat, off: U32, value: seq<Byte>, lo: nat, hi: nat)
    requires HEADER <= p && p + 12 + |value| <= |b| && |value| < POW32
    requires lo <= hi <= |b| && (hi <= p || p + 12 + |value| <= lo)
    ensures PropStores(b, p, off, value)[lo..hi] == b[lo..hi]
    ensures forall j | 0 <= j < HEADER && j % 4 == 0 :: Load32(PropStores(b, p, off, value), j) == Load32(b, j)
  {
    hide Load32, Patch;
    var b2 := Patch(b, p, Word(TAG_PROP));
    var b3 := Patch(b2, p + 8, Word(off));
    var b4 := Patch(b3, p + 4, Word(|value|));
    PatchBody(b, p, Word(TAG_PROP));
    PatchBody(b2, p + 8, Word(off));
    PatchBody(b3, p + 4, Word(|value|));
    PatchBody(b4, p + 12, value);
    PatchSlice(b, p, Word(TAG_PROP), lo, hi);
    PatchSlice(b2, p + 8, Word(off), lo, hi);
    PatchSlice(b3, p + 4, Word(|value|), lo, hi);
    PatchSlice(b4, p + 12, value, lo, hi);
  }

  /** What the four stores of a property spell. */
  lemma PropToken(b: Blob, p: nat, off: U32, value: seq<Byte>)
    requires p + Align4(12 + |value|) <= |b| && |value| < POW32
    ensures LexOne(PropStores(b, p, off, value)[p..p + Align4(12 + |value|)]) == Good(Prop(off, value), Align4(12 + |value|))
  {
    hide Load32, Patch, LexOne, Align4;
    var b2 := Patch(b, p, Word(TAG_PROP));
    var b3 := Patch(b2, p + 8, Word(off));
    var b4 := Patch(b3, p + 4, Word(|value|));
    var b5 := Patch(b4, p + 12, value);
    PatchSlice(b, p, Word(TAG_PROP), p, p + 4);
    PatchSlice(b2, p + 8, Word(off), p, p + 4);
    PatchSlice(b3, p + 4, Word(|value|), p, p + 4);
    PatchSlice(b4, p + 12, value, p, p + 4);
    PatchSlice(b3, p + 4, Word(|value|), p + 8, p + 12);
    PatchSlice(b4, p + 12, value, p + 8, p + 12);
    PatchSlice(b4, p + 12, value, p + 4, p + 8);
    var n := Align4(12 + |value|);
    SliceOfSlice(b5, p, p + n, 0, 4);
    SliceOfSlice(b5, p, p + n, 4, 8);
    SliceOfSlice(b5, p, p + n, 8, 12);
    SliceOfSlice(b5, p, p + n, 12, 12 + |value|);
    LexProp(b5[p..p + n], off, value);
  }

  type U64 = x: int | 0 <= x < 0x1_0000_0000_0000_0000

  /** cpu_to_fdt64. */
  function Word64(x: U64): (s: seq<Byte>)
    ensures |s| == 8
  {
    Word(x / POW32) + Word(x % POW32)
  }

  lemma ZeroHeader(b: Blob, b': Blob, n: nat)
    requires HEADER <= n <= |b| && b' == Patch(b, 0, Zeros(n))
    ensures forall j | 0 <= j < HEADER && j % 4 == 0 :: Load32(b', j) == 0
  {
    assert forall k | 0 <= k < n :: b'[k] == 0;
  }

  // ---------- fdt_finish ----------

  /** The structure block as fdt_finish closes it. */
  ghost function Closed(b: Blob): (s: seq<Byte>)
    requires Layout(b)
    ensures |s| == SizeStruct(b) + 4
  {
    SwStruct(b) + Word(TAG_END)
  }

  /** `c` is the buffer while names are being corrected: the first `j` tokens, up to offset `o`, are
      done, the rest still reads as it was written. */
  ghost predicate Fixing(b: Blob, ts: seq<Token>, c: Blob, o: nat, j: nat) {
    && Writing(b, ts) && 4 <= Free(b)
    && FixHeader(b, c) && FixEnds(b, c) && FixTokens(b, ts, c[OffStruct(b)..OffStruct(b) + SizeStruct(b) + 4], o, j)
  }

  /** The header while names are being corrected. */
  ghost predicate FixHeader(b: Blob, c: Blob) {
    && |c| == |b|
    && Magic(c) == SW_MAGIC && Version(c) == 17 && TotalSize(c) == TotalSize(b)
    && OffStruct(c) == OffStruct(b) && SizeStruct(c) == SizeStruct(b) + 4 && SizeStrings(c) == SizeStrings(b)
    && OffStrings(c) == OffStruct(c) + SizeStruct(c) && OffRsvmap(c) == RSVMAP
  }

  /** The blocks on both sides of the structure block. */
  ghost predicate FixEnds(b: Blob, c: Blob)
    requires Layout(b) && 4 <= Free(b) && |c| == |b|
  {
    var e := OffStruct(b) + SizeStruct(b) + 4;
    c[OffStruct(b) - 16..OffStruct(b)] == Zeros(16) && c[e..e + SizeStrings(b)] == SwStrings(b)
  }

  /** `s` is the closed structure block with the first `j` tokens corrected. */
  ghost predicate FixTokens(b: Blob, ts: seq<Token>, s: seq<Byte>, o: nat, j: nat)
    requires Layout(b)
  {
    && |s| == SizeStruct(b) + 4 && o <= SizeStruct(b) && j <= |ts|
    && Lexes(Closed(b)[..o], ts[..j])
    && Lexes(s[..o], Reloc(ts[..j], SizeStrings(b))) && s[o..] == Closed(b)[o..]
  }

  /** The stores with which fdt_finish closes the structure block and moves the strings behind it. */
  ghost predicate Closing(b: Blob, b1: Blob, b2: Blob, b3: Blob, c: Blob) {
    && Layout(b) && 4 <= Free(b) && SizeStruct(b) + 4 < POW32 && |b1| == |b| && |b2| == |b| && |b3| == |b| && |c| == |b|
    && b1 == Patch(b, H_SIZE_STRUCT, Word(SizeStruct(b) + 4))
    && var p := OffStruct(b) + SizeStruct(b);
       b2 == Patch(b1, p, Word(TAG_END)) &&
       b3 == Patch(b2, p + 4, b2[TotalSize(b) - SizeStrings(b)..TotalSize(b)]) &&
       c == Patch(b3, H_OFF_STRINGS, Word(p + 4))
  }

  lemma FixingStart(b: Blob, ts: seq<Token>, b1: Blob, b2: Blob, b3: Blob, c: Blob)
    requires Writing(b, ts) && Closing(b, b1, b2, b3, c)
    ensures Fixing(b, ts, c, 0, 0)
  {
    hide Load32, Lexes, LexOne, Items, Patch, AllNamed, Closing, FixHeader, FixEnds, FixTokens, Layout;
    ClosingRoom(b, b1, b2, b3, c);
    ClosingHeader(b, b1, b2, b3, c);
    ClosingEnds(b, b1, b2, b3, c);
    ClosingTokens(b, b1, b2, b3, c);
    FixNone(b, ts);
  }

  lemma ClosingRoom(b: Blob, b1: Blob, b2: Blob, b3: Blob, c: Blob)
    requires Closing(b, b1, b2, b3, c)
    ensures 4 <= Free(b) && OffStruct(b) + SizeStruct(b) + 4 <= |b| && |c| == |b|
  {
    hide Load32, Patch;
  }

  lemma ClosingHeader(b: Blob, b1: Blob, b2: Blob, b3: Blob, c: Blob)
    requires Closing(b, b1, b2, b3, c)
    ensures FixHeader(b, c)
  {
    hide Load32, Patch;
    var p := OffStruct(b) + SizeStruct(b);
    PatchHeader(b, H_SIZE_STRUCT, SizeStruct(b) + 4);
    PatchBody(b1, p, Word(TAG_END));
    PatchBody(b2, p + 4, b2[TotalSize(b) - SizeStrings(b)..TotalSize(b)]);
    PatchHeader(b3, H_OFF_STRINGS, p + 4);
  }

  lemma ClosingEnds(b: Blob, b1: Blob, b2: Blob, b3: Blob, c: Blob)
    requires Closing(b, b1, b2, b3, c)
    ensures FixEnds(b, c)
  {
    hide Load32, Patch;
    var p := OffStruct(b) + SizeStruct(b);
    var strs := b2[TotalSize(b) - SizeStrings(b)..TotalSize(b)];
    PatchHeader(b, H_SIZE_STRUCT, SizeStruct(b) + 4);
    PatchHeader(b3, H_OFF_STRINGS, p + 4);
    KeepOne(b, b1, b2, p, Word(TAG_END), TotalSize(b) - SizeStrings(b), TotalSize(b));
    KeepSlice(b, b1, b2, b3, p, Word(TAG_END), p + 4, strs, OffStruct(b) - 16, OffStruct(b));
    PatchSlice(b2, p + 4, strs, p + 4, p + 4 + |strs|);
    KeepBehind(b3, c, OffStruct(b) - 16, OffStruct(b));
    KeepBehind(b3, c, p + 4, p + 4 + |strs|);
  }

  lemma ClosingTokens(b: Blob, b1: Blob, b2: Blob, b3: Blob, c: Blob)
    requires Closing(b, b1, b2, b3, c)
    ensures c[OffStruct(b)..OffStruct(b) + SizeStruct(b) + 4] == Closed(b)
  {
    hide Load32, Patch;
    var p := OffStruct(b) + SizeStruct(b);
    var strs := b2[TotalSize(b) - SizeStrings(b)..TotalSize(b)];
    PatchHeader(b, H_SIZE_STRUCT, SizeStruct(b) + 4);
    PatchHeader(b3, H_OFF_STRINGS, p + 4);
    KeepSlice(b, b1, b2, b3, p, Word(TAG_END), p + 4, strs, OffStruct(b), p);
    PatchSlice(b1, p, Word(TAG_END), p, p + 4);
    PatchSlice(b2, p + 4, strs, p, p + 4);
    KeepBehind(b3, c, OffStruct(b), p + 4);
    assert b3[OffStruct(b)..p + 4] == b3[OffStruct(b)..p] + b3[p..p + 4];
  }

  lemma FixNone(b: Blob, ts: seq<Token>)
    requires Layout(b)
    ensures FixTokens(b, ts, Closed(b), 0, 0)
  {
    hide Load32, Lexes;
    assert Closed(b)[..0] == [] && ts[..0] == [] && Reloc([], SizeStrings(b)) == [];
    NoTokens();
  }

  lemma NoTokens()
    ensures Lexes([], [])
  {
  }

  /** The token that comes next in the closed block. */
  lemma NextToken(b: Blob, ts: seq<Token>, o: nat, j: nat)
    requires Writing(b, ts) && o <= SizeStruct(b) && j <= |ts| && Lexes(Closed(b)[..o], ts[..j])
    ensures var l := LexOne(Closed(b)[o..]);
            l.Good? &&
            if j == |ts| then l == Good(Finish, 4) && o == SizeStruct(b)
            else l.tok == ts[j] && !l.tok.Finish? && o + l.len <= SizeStruct(b) && Lexes(Closed(b)[..o + l.len], ts[..j + 1])
  {
    hide Load32, Lexes, LexOne, AllNamed;
    var t, z := Closed(b), SizeStruct(b);
    assert t[..z] == SwStruct(b);
    RunBetween(t, o, ts[..j], z, ts);
    assert ts[|ts[..j]|..] == ts[j..];
    if j == |ts| {
      assert ts[..j] == ts;
      RunBetween(t, z, ts, o, ts);
      LexWord(TAG_END, []);
      assert t[z..] == Word(TAG_END) + [];
    } else {
      HeadOfRun(t, o, z, ts[j..]);
      LexesSnoc(t, ts[..j], o);
      assert ts[..j] + [ts[j]] == ts[..j + 1];
    }
  }

  lemma FixingReads(b: Blob, ts: seq<Token>, c: Blob, o: nat, j: nat)
    requires Fixing(b, ts, c, o, j)
    ensures Readable(c) && StructBlock(c) == c[OffStruct(c)..OffStruct(c) + SizeStruct(c)]
    ensures o <= |StructBlock(c)| && Rest(StructBlock(c), o) == Closed(b)[o..]
    ensures SizeStrings(c) == SizeStrings(b) && OffStrings(c) == OffStruct(b) + SizeStruct(b) + 4
    ensures var l := LexOne(Closed(b)[o..]);
            l.Good? && (l.tok.Finish? <==> j == |ts|) && (j < |ts| ==> l.tok == ts[j]) && o + l.len < POW31 &&
            (l.tok.Prop? ==> OffStruct(c) + o + 12 <= |c| && Load32(c, OffStruct(c) + o + 8) == l.tok.nameoff)
  {
    hide Lexes, AllNamed;
    NextToken(b, ts, o, j);
    var t := Closed(b)[o..];
    PropWordsOf(t);
    hide Load32, LexOne;
    var s := c[OffStruct(c)..OffStruct(c) + SizeStruct(c)];
    assert StructBlock(c) == s;
    if LexOne(t).tok.Prop? {
      BlockWord(c, o, 8);
    }
  }

  lemma FixingEnd(b: Blob, ts: seq<Token>, c: Blob, o: nat, j: nat)
    requires Fixing(b, ts, c, o, j) && j == |ts|
    ensures o == SizeStruct(b)
  {
    hide Load32, Lexes, LexOne, AllNamed;
    NextToken(b, ts, o, j);
  }

  lemma PropWordsOf(t: seq<Byte>)
    ensures LexOne(t).Good? && LexOne(t).tok.Prop? ==> |t| >= 12 && Load32(t, 8) == LexOne(t).tok.nameoff
  {
  }

  lemma FixingStep(b: Blob, ts: seq<Token>, c: Blob, c': Blob, o: nat, j: nat)
    requires Fixing(b, ts, c, o, j) && j < |ts|
    requires if ts[j].Prop?
             then OffStruct(c) + o + 12 <= |c| &&
                  c' == Patch(c, OffStruct(c) + o + 8, Word(Wrap(ts[j].nameoff + SizeStrings(b))))
             else c' == c
    ensures LexOne(Closed(b)[o..]).Good? && LexOne(Closed(b)[o..]).tok == ts[j]
    ensures o + LexOne(Closed(b)[o..]).len <= SizeStruct(b)
    ensures Fixing(b, ts, c', o + LexOne(Closed(b)[o..]).len, j + 1)
  {
    hide Load32, Lexes, LexOne, Items, Patch, AllNamed, Closed, FixEnds;
    var lo, z := OffStruct(b), SizeStruct(b) + 4;
    NextToken(b, ts, o, j);
    if ts[j].Prop? {
      var w := Word(Wrap(ts[j].nameoff + SizeStrings(b)));
      PropInside(b, o);
      PatchBody(c, lo + o + 8, w);
      PatchSlice(c, lo + o + 8, w, lo, lo + z);
      FixEndsKept(b, c, c', o, w);
    }
    FixTokensStep(b, ts, c[lo..lo + z], c'[lo..lo + z], o, j);
  }

  lemma PropInside(b: Blob, o: nat)
    requires Layout(b) && o <= SizeStruct(b) && LexOne(Closed(b)[o..]).Good? && LexOne(Closed(b)[o..]).tok.Prop?
    requires o + LexOne(Closed(b)[o..]).len <= SizeStruct(b)
    ensures o + 12 <= SizeStruct(b)
  {
    hide Load32, LexOne;
    PropFits(Closed(b)[o..]);
  }

  lemma FixEndsKept(b: Blob, c: Blob, c': Blob, o: nat, w: seq<Byte>)
    requires Layout(b) && 4 <= Free(b) && |c| == |b| && FixEnds(b, c) && o + 12 <= SizeStruct(b) && |w| == 4
    requires c' == Patch(c, OffStruct(b) + o + 8, w) && |c'| == |b|
    ensures FixEnds(b, c')
  {
    hide Load32, Patch;
    var lo, z, ss := OffStruct(b), SizeStruct(b) + 4, SizeStrings(b);
    PatchSlice(c, lo + o + 8, w, lo - 16, lo);
    PatchSlice(c, lo + o + 8, w, lo + z, lo + z + ss);
  }

  /** One more token corrected. */
  lemma FixTokensStep(b: Blob, ts: seq<Token>, s: seq<Byte>, s': seq<Byte>, o: nat, j: nat)
    requires Layout(b) && FixTokens(b, ts, s, o, j) && j < |ts|
    requires var l := LexOne(Closed(b)[o..]);
             l.Good? && l.tok == ts[j] && !l.tok.Finish? && o + l.len <= SizeStruct(b) && Lexes(Closed(b)[..o + l.len], ts[..j + 1])
    requires if ts[j].Prop?
             then o + 12 <= |s| && s' == Patch(s, o + 8, Word(Wrap(ts[j].nameoff + SizeStrings(b))))
             else s' == s
    ensures FixTokens(b, ts, s', o + LexOne(Closed(b)[o..]).len, j + 1)
  {
    hide Load32, Lexes, LexOne, Patch, Layout;
    var t, ss := Closed(b), SizeStrings(b);
    var l := LexOne(t[o..]);
    if ts[j].Prop? {
      var w := Word(Wrap(ts[j].nameoff + ss));
      PropFits(t[o..]);
      PatchInside(s, s', o, l.len, w);
      PatchName(t[o..], Wrap(ts[j].nameoff + ss));
    }
    assert s[o..][l.len..] == s[o + l.len..] && t[o..][l.len..] == t[o + l.len..];
    assert LexOne(s'[o..]) == Good(Reloc1(ts[j], ss), l.len);
    LexesSnoc(s', Reloc(ts[..j], ss), o);
    RelocSnoc(ts[..j], ts[j], ss);
    assert ts[..j] + [ts[j]] == ts[..j + 1];
  }

  /** A store of the name word of the token at `o` leaves what is before and behind it. */
  lemma PatchInside(s: seq<Byte>, s': seq<Byte>, o: nat, len: nat, w: seq<Byte>)
    requires o + len <= |s| && 12 <= len && |w| == 4 && s' == Patch(s, o + 8, w)
    ensures |s'| == |s| && s'[..o] == s[..o] && s'[o..] == Patch(s[o..], 8, w) && s'[o + len..] == s[o + len..]
  {
    hide Patch;
    var z := |s|;
    PatchAt(s, o + 8, w);
    PatchSlice(s, o + 8, w, o, z);
    PatchSlice(s, o + 8, w, 0, o);
    PatchSlice(s, o + 8, w, o + len, z);
    assert s'[o..z] == s'[o..] && s[o..z] == s[o..] && s'[0..o] == s'[..o] && s[0..o] == s[..o];
    assert s'[o + len..z] == s'[o + len..] && s[o + len..z] == s[o + len..];
  }

  lemma PropFits(t: seq<Byte>)
    requires LexOne(t).Good? && LexOne(t).tok.Prop?
    ensures 12 <= LexOne(t).len && 12 <= |t|
  {
  }

  /** A finished blob: a well formed header, and exactly the items that were written. */
  ghost predicate Finished(b: Blob, ts: seq<Token>, c: Blob) {
    && Layout(b) && |c| == |b|
    && Magic(c) == MAGIC && Version(c) == 17 && LastComp(c) == 16
    && OffRsvmap(c) == RSVMAP && OffStruct(c) == OffStruct(b) && SizeStruct(c) == SizeStruct(b) + 4
    && SizeStrings(c) == SizeStrings(b) && OffStrings(c) == OffStruct(c) + SizeStruct(c)
    && TotalSize(c) == OffStrings(c) + SizeStrings(c) <= TotalSize(b)
    && c[OffStruct(c) - 16..OffStruct(c)] == Zeros(16)
    && StringsBlock(c) == SwStrings(b)
    && Lex(StructBlock(c)) == Tokens(Reloc(ts, SizeStrings(b)))
    && AllNamed(StringsBlock(c), Reloc(ts, SizeStrings(b)))
    && Items(StringsBlock(c), Reloc(ts, SizeStrings(b))) == Written(b, ts)
  }

  lemma FixingDone(b: Blob, ts: seq<Token>, c: Blob, c1: Blob, c2: Blob, c3: Blob, o: nat, j: nat)
    requires Fixing(b, ts, c, o, j) && j == |ts| && OffStrings(c) + SizeStrings(c) < POW32
    requires c1 == Patch(c, H_TOTALSIZE, Word(OffStrings(c) + SizeStrings(c)))
    requires c2 == Patch(c1, H_LAST_COMP, Word(16)) && c3 == Patch(c2, H_MAGIC, Word(MAGIC))
    ensures Finished(b, ts, c3)
  {
    hide Load32, Lexes, LexOne, Named, NameAt, Items, Patch, AllNamed, Lex;
    NextToken(b, ts, o, j);
    PatchHeader(c, H_TOTALSIZE, OffStrings(c) + SizeStrings(c));
    PatchHeader(c1, H_LAST_COMP, 16);
    PatchHeader(c2, H_MAGIC, MAGIC);
    var lo, z, ss := OffStruct(c), SizeStruct(c), SizeStrings(c);
    KeepThrice(c, c1, c2, c3, lo - 16, lo);
    KeepThrice(c, c1, c2, c3, lo, lo + z);
    KeepThrice(c, c1, c2, c3, lo + z, lo + z + ss);
    var s := c[lo..lo + z];
    assert StructBlock(c3) == s && StringsBlock(c3) == SwStrings(b);
    assert ts[..j] == ts;
    assert Closed(b)[o..] == Word(TAG_END);
    LexEndWord();
    LexAppend(s[..o], Reloc(ts, ss), s[o..]);
    assert s[..o] + s[o..] == s;
    assert Reloc(ts, ss) + [] == Reloc(ts, ss);
  }

  lemma LexEndWord()
    ensures Lex(Word(TAG_END)) == Tokens([])
  {
    LexWord(TAG_END, []);
    assert Word(TAG_END) + [] == Word(TAG_END);
  }

  lemma KeepThrice(c: Blob, c1: Blob, c2: Blob, c3: Blob, lo: nat, hi: nat)
    requires |c| == |c1| == |c2| == |c3| && HEADER <= lo <= hi <= |c|
    requires c1[HEADER..] == c[HEADER..] && c2[HEADER..] == c1[HEADER..] && c3[HEADER..] == c2[HEADER..]
    ensures c3[lo..hi] == c[lo..hi]
  {
    KeepBehind(c, c1, lo, hi);
    KeepBehind(c1, c2, lo, hi);
    KeepBehind(c2, c3, lo, hi);
  }
}

/** The editor operations that write new tokens: fdt_setprop and fdt_add_subnode (kernel/fdt/fdt_rw.c). */
module FdtInsert {
  import opened Common
  import opened Bytes
  import opened FdtFormat
  import opened FdtTree
  import opened FdtDecode
  import opened FdtPlace
  import opened FdtTags
  import opened FdtNav
  import opened FdtFamily
  import opened FdtProps
  import opened FdtFind
  import opened FdtBuffer
  import opened FdtSplice
  import opened FdtEdit
  import W = FdtWriter

  /** Bytes behind the strings block. */
  function Room(b: Blob): int {
    TotalSize(b) - OffStrings(b) - SizeStrings(b)
  }

  // ---------- strings ----------

  /** `s` and its NUL have been appended to the strings block. */
  ghost predicate Appended(b: Blob, b': Blob, s: seq<Byte>) {
    && Ordered(b) && Ordered(b') && |b'| == |b| && TotalSize(b') == TotalSize(b)
    && StructBlock(b') == StructBlock(b) && StringsBlock(b') == StringsBlock(b) + (s + [0])
    && SizeStruct(b') == SizeStruct(b) && SizeStrings(b') == SizeStrings(b) + |s| + 1 && Room(b') == Room(b) - (|s| + 1)
  }

  lemma AppendLemma(b: Blob, b1: Blob, b2: Blob, s: seq<Byte>)
    requires Ordered(b) && |s| + 1 <= Room(b)
    requires b1 == Patch(b, H_SIZE_STRINGS, Word(SizeStrings(b) + |s| + 1))
    requires b2 == Patch(b1, OffStrings(b) + SizeStrings(b), s + [0])
    ensures Appended(b, b2, s)
  {
    hide Load32, Patch, StructBlock, StringsBlock;
    var e, t := OffStrings(b) + SizeStrings(b), s + [0];
    PatchHeader(b, H_SIZE_STRINGS, SizeStrings(b) + |t|);
    PatchBody(b1, e, t);
    assert Ordered(b2);
    OrderedBlocks(b);
    OrderedBlocks(b2);
    var lo := OffStruct(b);
    W.KeepBehind(b, b1, lo, lo + SizeStruct(b));
    W.KeepBehind(b, b1, OffStrings(b), e);
    PatchSlice(b1, e, t, lo, lo + SizeStruct(b));
    PatchSlice(b1, e, t, OffStrings(b), e);
    assert b2[OffStrings(b)..e + |t|] == b2[OffStrings(b)..e] + b2[e..e + |t|];
  }

  /** fdt_del_last_string_ undoes the addition. */
  lemma RollbackLemma(b: Blob, b1: Blob, b2: Blob, s: seq<Byte>)
    requires Appended(b, b1, s) && |s| + 1 <= SizeStrings(b1)
    requires b2 == Patch(b1, H_SIZE_STRINGS, Word(SizeStrings(b1) - (|s| + 1)))
    ensures SameBlocks(b, b2)
  {
    hide Load32, Patch, StructBlock, StringsBlock;
    PatchHeader(b1, H_SIZE_STRINGS, SizeStrings(b1) - (|s| + 1));
    assert Ordered(b2);
    OrderedBlocks(b);
    OrderedBlocks(b1);
    OrderedBlocks(b2);
    var lo, st, ss := OffStruct(b1), OffStrings(b1), SizeStrings(b);
    W.KeepBehind(b1, b2, lo, lo + SizeStruct(b1));
    W.KeepBehind(b1, b2, st, st + ss);
    SliceOfSlice(b1, st, st + SizeStrings(b1), 0, ss);
    assert (StringsBlock(b) + (s + [0]))[0..ss] == StringsBlock(b);
  }

  /** fdt_find_add_string_: the string's offset in the table, added at its end when it is not there. */
  method FindAddString(ed: Editor, s: seq<Byte>) returns (off: int, added: bool)
    requires ed.buf.Length >= HEADER && Ordered(ed.buf[..]) && NulFree(s) && |s| < POW31 - 1
    modifies ed.buf
    ensures ed.buf.Length >= HEADER
    ensures off < 0 ==> off == -NOSPACE && ed.buf[..] == old(ed.buf[..]) && !added &&
                        Room(old(ed.buf[..])) < |s| + 1 && forall k: nat :: !W.Stands(StringsBlock(old(ed.buf[..])), k, s)
    ensures off >= 0 && !added ==> ed.buf[..] == old(ed.buf[..]) && W.Stands(StringsBlock(ed.buf[..]), off, s)
    ensures off >= 0 && added ==> Appended(old(ed.buf[..]), ed.buf[..], s) && off == |StringsBlock(old(ed.buf[..]))| &&
                                  forall k: nat :: !W.Stands(StringsBlock(old(ed.buf[..])), k, s)
    ensures Front(old(ed.buf[..]), ed.buf[..], EDITED)
  {
    hide Front, Load32, Patch, StructBlock, StringsBlock, W.Stands, Appended;
    ghost var b := ed.buf[..];
    OrderedBlocks(b);
    FrontSelf(b, EDITED);
    added := false;
    var st, size := OffStrings(ed.buf[..]), SizeStrings(ed.buf[..]);
    var p := W.FindString(ed.buf[st..st + size], s);
    if p >= 0 {
      return p, added;
    }
    if st + size + |s| + 1 > TotalSize(ed.buf[..]) {
      return -NOSPACE, added;
    }
    Store32(ed.buf, H_SIZE_STRINGS, size + |s| + 1);
    FrontWord(b, b, H_SIZE_STRINGS, size + |s| + 1, EDITED);
    ghost var b1 := ed.buf[..];
    added := true;
    FrontBody(b, b1, st + size, s + [0], EDITED);
    Store(ed.buf, st + size, s + [0]);
    AppendLemma(b, b1, ed.buf[..], s);
    return size, added;
  }

  lemma FrontOrdered(b: Blob)
    requires Ordered(b)
    ensures Front(b, b, EDITED)
  {
    hide Load32;
  }

  /** A store inside the structure block. */
  lemma FrontStored(a: Blob, b: Blob, i: nat, s: seq<Byte>)
    requires Front(a, b, EDITED) && OffStruct(b) + i + |s| <= |b|
    ensures Front(a, Patch(b, OffStruct(b) + i, s), EDITED)
  {
    hide Patch, Load32;
    FrontBody(a, b, OffStruct(b) + i, s, EDITED);
  }

  // ---------- fdt_setprop ----------

  /** The node with the property set: replaced in place, or put in front of the others. */
  function WithProp(n: Node, name: seq<Byte>, value: seq<Byte>): (n': Node) {
    var i := FirstNamed(n.props, name);
    if i < |n.props| then n.(props := n.props[..i] + [Property(name, value)] + n.props[i + 1..])
    else n.(props := [Property(name, value)] + n.props)
  }

  /** Bytes by which setting the property lengthens the blob. */
  ghost function SetSpace(n: Node, strs: seq<Byte>, name: seq<Byte>, value: seq<Byte>): int {
    var i := FirstNamed(n.props, name);
    if i < |n.props| then Align4(|value|) - Align4(|n.props[i].value|)
    else 12 + Align4(|value|) + (if exists k: nat :: W.Stands(strs, k, name) then 0 else |name| + 1)
  }

  /** The properties of any other name, in order. */
  function Others(ps: seq<Property>, name: seq<Byte>): seq<Property> {
    if ps == [] then [] else (if ps[0].name == name then [] else [ps[0]]) + Others(ps[1..], name)
  }

  lemma {:induction false} OthersConcat(a: seq<Property>, b: seq<Property>, name: seq<Byte>)
    ensures Others(a + b, name) == Others(a, name) + Others(b, name)
  {
    hide Others;
    if a == [] {
      OthersNone(name);
      assert a + b == b;
    } else {
      OthersConcat(a[1..], b, name);
      assert (a + b)[1..] == a[1..] + b;
      OthersStep(a, name);
      OthersStep(a + b, name);
    }
  }

  lemma OthersWithout(a: seq<Property>, q: Property, b: seq<Property>)
    ensures Others(a + [q] + b, q.name) == Others(a, q.name) + Others(b, q.name)
  {
    hide Others;
    OthersConcat(a + [q], b, q.name);
    OthersConcat(a, [q], q.name);
    OthersOne(q);
  }

  lemma OthersOne(q: Property)
    ensures Others([q], q.name) == []
  {
  }

  /** Setting one property leaves every other one, and their order, as it was. */
  lemma WithPropKeeps(n: Node, name: seq<Byte>, value: seq<Byte>)
    ensures var n' := WithProp(n, name, value);
            n'.name == n.name && n'.children == n.children &&
            FirstNamed(n'.props, name) < |n'.props| && n'.props[FirstNamed(n'.props, name)] == Property(name, value)
    ensures Others(WithProp(n, name, value).props, name) == Others(n.props, name)
    ensures WithProp(WithProp(n, name, value), name, value) == WithProp(n, name, value)
  {
    hide Others;
    var i, q := FirstNamed(n.props, name), Property(name, value);
    var n' := WithProp(n, name, value);
    var k := if i < |n.props| then i else 0;
    FirstNamedHas(n.props, name);
    hide FirstNamed;
    FirstNamedIs(n'.props, name, k);
    OthersKept(n, name, value);
    SetAgain(n', name, value, k);
  }

  /** A property that has its value already. */
  lemma SetAgain(n: Node, name: seq<Byte>, value: seq<Byte>, k: nat)
    requires k < |n.props| && k == FirstNamed(n.props, name) && n.props[k] == Property(name, value)
    ensures WithProp(n, name, value) == n
  {
    hide FirstNamed;
    assert n.props[..k] + [n.props[k]] + n.props[k + 1..] == n.props;
  }

  lemma OthersKept(n: Node, name: seq<Byte>, value: seq<Byte>)
    ensures Others(WithProp(n, name, value).props, name) == Others(n.props, name)
  {
    var i, q := FirstNamed(n.props, name), Property(name, value);
    FirstNamedHas(n.props, name);
    hide Others, FirstNamed;
    if i < |n.props| {
      assert n.props[..i] + [n.props[i]] + n.props[i + 1..] == n.props;
      OthersWithout(n.props[..i], n.props[i], n.props[i + 1..]);
      OthersWithout(n.props[..i], q, n.props[i + 1..]);
    } else {
      OthersWithout([], q, n.props);
      assert [] + [q] + n.props == [q] + n.props;
      OthersNone(name);
    }
  }

  lemma OthersStep(ps: seq<Property>, name: seq<Byte>)
    requires ps != []
    ensures Others(ps, name) == (if ps[0].name == name then [] else [ps[0]]) + Others(ps[1..], name)
  {
  }

  lemma OthersNone(name: seq<Byte>)
    ensures Others([], name) == []
  {
  }

  lemma {:induction false} FirstNamedHas(ps: seq<Property>, name: seq<Byte>)
    ensures FirstNamed(ps, name) <= |ps| && (FirstNamed(ps, name) < |ps| ==> ps[FirstNamed(ps, name)].name == name)
  {
    if ps != [] && ps[0].name != name {
      FirstNamedHas(ps[1..], name);
    }
  }

  lemma FirstNamedIs(ps: seq<Property>, name: seq<Byte>, k: nat)
    requires k < |ps| && ps[k].name == name && forall i | 0 <= i < k :: ps[i].name != name
    ensures FirstNamed(ps, name) == k
  {
  }

  /** The property at `at` has been given another value; its name word is untouched. */
  ghost predicate Resized(b: Blob, b': Blob, at: nat, oldlen: nat, value: seq<Byte>) {
    && Ordered(b) && Ordered(b') && |b'| == |b| && StringsBlock(b') == StringsBlock(b)
    && var s, t := StructBlock(b), StructBlock(b');
       && Replaced(s, at, at + 12 + Align4(oldlen), t, at + 12 + Align4(|value|))
       && |value| < POW32 && at + 12 + |value| <= |t|
       && t[at..at + 4] == s[at..at + 4] && t[at + 4..at + 8] == Word(|value|)
       && t[at + 8..at + 12] == s[at + 8..at + 12] && t[at + 12..at + 12 + |value|] == value
  }

  /** The tail of fdt_resize_property_ and the copy of fdt_setprop. */
  method Resize(ed: Editor, at: nat, oldlen: nat, value: seq<Byte>) returns (r: int)
    requires ed.buf.Length >= HEADER && Ordered(ed.buf[..]) && |value| < POW31 - 16
    requires at + 12 + Align4(oldlen) <= SizeStruct(ed.buf[..])
    modifies ed.buf
    ensures ed.buf.Length >= HEADER
    ensures if Align4(|value|) - Align4(oldlen) > Room(old(ed.buf[..]))
            then r == -NOSPACE && ed.buf[..] == old(ed.buf[..])
            else r == 0 && Resized(old(ed.buf[..]), ed.buf[..], at, oldlen, value)
    ensures Front(old(ed.buf[..]), ed.buf[..], EDITED)
  {
    hide Front, Load32, Patch, StructBlock, StringsBlock, Align4, Replaced;
    ghost var b := ed.buf[..];
    r := ed.SpliceStruct(at + 12, Align4(oldlen), Align4(|value|));
    if r != 0 {
      return;
    }
    ghost var b1 := ed.buf[..];
    SplicedSizes(b, b1, at + 12, Align4(oldlen), Align4(|value|));
    Store32(ed.buf, OffStruct(ed.buf[..]) + at + 4, |value|);
    StoreInStruct(b1, at + 4, Word(|value|));
    FrontStored(b, b1, at + 4, Word(|value|));
    ghost var b2 := ed.buf[..];
    Store(ed.buf, OffStruct(ed.buf[..]) + at + 12, value);
    StoreInStruct(b2, at + 12, value);
    FrontStored(b, b2, at + 12, value);
    TwoStores(StructBlock(b), StructBlock(b1), StructBlock(b2), StructBlock(ed.buf[..]), at, Align4(oldlen), value);
  }

  lemma SplicedSizes(b: Blob, b': Blob, o: nat, oldlen: nat, newlen: nat)
    requires Spliced(b, b', o, oldlen, newlen)
    ensures SizeStruct(b') == SizeStruct(b) - oldlen + newlen && SizeStruct(b) >= o + oldlen
    ensures |StructBlock(b')| == SizeStruct(b')
  {
    hide Load32, StructBlock, StringsBlock;
    OrderedBlocks(b);
    OrderedBlocks(b');
  }

  lemma TwoStores(s: seq<Byte>, s1: seq<Byte>, s2: seq<Byte>, t: seq<Byte>, at: nat, oldlen: nat, value: seq<Byte>)
    requires |value| < POW32 && Replaced(s, at + 12, at + 12 + oldlen, s1, at + 12 + Align4(|value|))
    requires s2 == Patch(s1, at + 4, Word(|value|)) && t == Patch(s2, at + 12, value)
    ensures Replaced(s, at, at + 12 + oldlen, t, at + 12 + Align4(|value|))
    ensures t[at..at + 4] == s[at..at + 4] && t[at + 4..at + 8] == Word(|value|)
    ensures t[at + 8..at + 12] == s[at + 8..at + 12] && t[at + 12..at + 12 + |value|] == value
  {
    hide Patch, Align4;
    var w, e := Word(|value|), at + 12 + Align4(|value|);
    PatchSlice(s1, at + 4, w, 0, at);
    PatchSlice(s1, at + 4, w, at, at + 4);
    PatchSlice(s1, at + 4, w, at + 8, at + 12);
    PatchSlice(s1, at + 4, w, e, |s1|);
    PatchSlice(s2, at + 12, value, 0, at);
    PatchSlice(s2, at + 12, value, at, at + 4);
    PatchSlice(s2, at + 12, value, at + 4, at + 8);
    PatchSlice(s2, at + 12, value, at + 8, at + 12);
    PatchSlice(s2, at + 12, value, e, |s1|);
    assert s1[at..at + 4] == s1[..at + 12][at..at + 4] == s[at..at + 4];
    assert s1[at + 8..at + 12] == s1[..at + 12][at + 8..at + 12] == s[at + 8..at + 12];
    assert s1[0..at] == s1[..at + 12][..at] == s[..at + 12][..at] == s[..at];
    assert t[0..at] == t[..at] && t[e..|s1|] == t[e..] && s1[e..|s1|] == s1[e..];
  }

  /** A property token has been written at `a`. */
  ghost predicate PropWritten(b: Blob, b': Blob, a: nat, off: U32, value: seq<Byte>) {
    && Ordered(b) && Ordered(b') && |b'| == |b| && StringsBlock(b') == StringsBlock(b)
    && Replaced(StructBlock(b), a, a, StructBlock(b'), a + 12 + Align4(|value|))
    && Lexes(StructBlock(b')[a..a + 12 + Align4(|value|)], [Prop(off, value)])
  }

  /** The splice and the stores of fdt_add_property_, and the copy of fdt_setprop. */
  method InsertToken(ed: Editor, a: nat, off: U32, value: seq<Byte>) returns (r: int)
    requires ed.buf.Length >= HEADER && Ordered(ed.buf[..]) && |value| < POW31 - 16 && a <= SizeStruct(ed.buf[..])
    modifies ed.buf
    ensures ed.buf.Length >= HEADER
    ensures if 12 + Align4(|value|) > Room(old(ed.buf[..])) then r == -NOSPACE && ed.buf[..] == old(ed.buf[..])
            else r == 0 && PropWritten(old(ed.buf[..]), ed.buf[..], a, off, value)
    ensures Front(old(ed.buf[..]), ed.buf[..], EDITED)
  {
    hide Front, Load32, Patch, StructBlock, StringsBlock, Align4, Replaced, LexOne, Lexes;
    ghost var b := ed.buf[..];
    r := ed.SpliceStruct(a, 0, 12 + Align4(|value|));
    if r != 0 {
      return;
    }
    ghost var b1 := ed.buf[..];
    SplicedSizes(b, b1, a, 0, 12 + Align4(|value|));
    var p := OffStruct(ed.buf[..]) + a;
    Store32(ed.buf, p, TAG_PROP);
    StoreInStruct(b1, a, Word(TAG_PROP));
    FrontStored(b, b1, a, Word(TAG_PROP));
    ghost var b2 := ed.buf[..];
    Store32(ed.buf, p + 8, off);
    StoreInStruct(b2, a + 8, Word(off));
    FrontStored(b, b2, a + 8, Word(off));
    ghost var b3 := ed.buf[..];
    Store32(ed.buf, p + 4, |value|);
    StoreInStruct(b3, a + 4, Word(|value|));
    FrontStored(b, b3, a + 4, Word(|value|));
    ghost var b4 := ed.buf[..];
    Store(ed.buf, p + 12, value);
    StoreInStruct(b4, a + 12, value);
    FrontStored(b, b4, a + 12, value);
    FourStores(StructBlock(b), StructBlock(b1), StructBlock(b2), StructBlock(b3), StructBlock(b4), StructBlock(ed.buf[..]), a, off, value);
  }

  lemma FourStores(s: seq<Byte>, s1: seq<Byte>, s2: seq<Byte>, s3: seq<Byte>, s4: seq<Byte>, t: seq<Byte>,
                   a: nat, off: U32, value: seq<Byte>)
    requires |value| < POW31 && Replaced(s, a, a, s1, a + 12 + Align4(|value|))
    requires s2 == Patch(s1, a, Word(TAG_PROP)) && s3 == Patch(s2, a + 8, Word(off))
    requires s4 == Patch(s3, a + 4, Word(|value|)) && t == Patch(s4, a + 12, value)
    ensures Replaced(s, a, a, t, a + 12 + Align4(|value|))
    ensures Lexes(t[a..a + 12 + Align4(|value|)], [Prop(off, value)])
  {
    hide Patch, LexOne, Lexes;
    var w1, w2, w3, e := Word(TAG_PROP), Word(off), Word(|value|), a + 12 + Align4(|value|);
    PatchSlice(s1, a, w1, 0, a);
    PatchSlice(s2, a + 8, w2, 0, a);
    PatchSlice(s3, a + 4, w3, 0, a);
    PatchSlice(s4, a + 12, value, 0, a);
    PatchSlice(s1, a, w1, e, |s1|);
    PatchSlice(s2, a + 8, w2, e, |s1|);
    PatchSlice(s3, a + 4, w3, e, |s1|);
    PatchSlice(s4, a + 12, value, e, |s1|);
    assert t[0..a] == t[..a] && s1[0..a] == s1[..a] && t[e..|s1|] == t[e..] && s1[e..|s1|] == s1[e..];
    PatchSlice(s2, a + 8, w2, a, a + 4);
    PatchSlice(s3, a + 4, w3, a, a + 4);
    PatchSlice(s4, a + 12, value, a, a + 4);
    PatchSlice(s3, a + 4, w3, a + 8, a + 12);
    PatchSlice(s4, a + 12, value, a + 8, a + 12);
    PatchSlice(s4, a + 12, value, a + 4, a + 8);
    PropToken(t, a, e, off, value);
  }

  lemma AlignTwelve(n: nat)
    ensures Align4(12 + n) == 12 + Align4(n) && n <= Align4(n)
  {
  }

  lemma PropToken(t: seq<Byte>, a: nat, e: nat, off: U32, value: seq<Byte>)
    requires |value| < POW31 && e == a + 12 + Align4(|value|) <= |t|
    requires t[a..a + 4] == Word(TAG_PROP) && t[a + 4..a + 8] == Word(|value|) && t[a + 8..a + 12] == Word(off)
    requires t[a + 12..a + 12 + |value|] == value
    ensures Lexes(t[a..e], [Prop(off, value)])
  {
    AlignTwelve(|value|);
    hide LexOne, Lexes, Align4;
    SliceOfSlice(t, a, e, 0, 4);
    SliceOfSlice(t, a, e, 4, 8);
    SliceOfSlice(t, a, e, 8, 12);
    SliceOfSlice(t, a, e, 12, 12 + |value|);
    LexProp(t[a..e], off, value);
    LexesOne(t[a..e]);
  }

  /** fdt_setprop: fdt_resize_property_, or fdt_add_property_ when there is no such property. */
  method SetProp(ed: Editor, node: I32, name: seq<Byte>, value: seq<Byte>, ghost p: Place, ghost c: Context, ghost n: Node)
    returns (r: int, ghost p': Place)
    requires ed.buf.Length >= HEADER && Sane(ed.buf[..]) && NulFree(name) && |name| < POW31 - 1 && |value| < POW31 - 16
    modifies ed.buf
    ensures ed.buf.Length >= HEADER
    ensures RwProbe(old(ed.buf[..])) != 0 ==> r == RwProbe(old(ed.buf[..]))
    ensures r != 0 ==> SameBlocks(old(ed.buf[..]), ed.buf[..])
    ensures RwProbe(old(ed.buf[..])) == 0 && NodeNext(StructBlock(old(ed.buf[..])), node) < 0 ==> r == -BADOFFSET
    ensures RwProbe(old(ed.buf[..])) == 0 && NodeAt(old(ed.buf[..]), node, p, c, n) ==>
              if SetSpace(n, StringsBlock(old(ed.buf[..])), name, value) > Room(old(ed.buf[..])) then r == -NOSPACE
              else r == 0 && NodeAt(ed.buf[..], node, p', c, WithProp(n, name, value)) &&
                   Decode(ed.buf[..]) == Some(Plug(c, WithProp(n, name, value)))
    ensures RwProbe(old(ed.buf[..])) == 0 ==> Front(old(ed.buf[..]), ed.buf[..], EDITED)
  {
    hide Front, Load32, Patch, StructBlock, StringsBlock, At, LexOne, NodeNext, FindProp, Decode, Align4, Resized, PropWritten,
         Appended, W.Stands, SetSpace, FirstNamed, Ordered;
    p' := p;
    if RwProbe(ed.buf[..]) != 0 {
      return RwProbe(ed.buf[..]), p';
    }
    ghost var b := ed.buf[..];
    ProbeOrders(b);
    OrderedBlocks(b);
    FrontOrdered(b);
    var at, len := GetProperty(ed.buf[..], node, name);
    if NodeAt(b, node, p, c, n) { PropMissing(b, node, p, c, n, name); }
    if at >= 0 {
      PropFound(b, node, name);
      r := Resize(ed, at, len, value);
      if NodeAt(b, node, p, c, n) {
        SetSpaceOld(b, node, p, c, n, name, value);
        if r == 0 {
          p' := SetExisting(b, ed.buf[..], node, p, c, n, name, value);
        }
      }
      return;
    }
    if at != -NOTFOUND {
      return at, p';
    }
    r, p' := AddProperty(ed, node, name, value, p, c, n);
  }

  /** fdt_add_property_ and the copy of the value. */
  method AddProperty(ed: Editor, node: I32, name: seq<Byte>, value: seq<Byte>, ghost p: Place, ghost c: Context, ghost n: Node)
    returns (r: int, ghost p': Place)
    requires ed.buf.Length >= HEADER && Ordered(ed.buf[..]) && SizeStruct(ed.buf[..]) % 4 == 0
    requires NulFree(name) && |name| < POW31 - 1 && |value| < POW31 - 16
    modifies ed.buf
    ensures ed.buf.Length >= HEADER
    ensures r != 0 ==> SameBlocks(old(ed.buf[..]), ed.buf[..])
    ensures NodeAt(old(ed.buf[..]), node, p, c, n) && FirstNamed(n.props, name) == |n.props| ==>
              if SetSpace(n, StringsBlock(old(ed.buf[..])), name, value) > Room(old(ed.buf[..])) then r == -NOSPACE
              else r == 0 && NodeAt(ed.buf[..], node, p', c, WithProp(n, name, value)) &&
                   Decode(ed.buf[..]) == Some(Plug(c, WithProp(n, name, value)))
    ensures Front(old(ed.buf[..]), ed.buf[..], EDITED)
  {
    hide Front, Load32, Patch, StructBlock, StringsBlock, At, LexOne, NodeNext, Decode, Align4, PropWritten, Appended, W.Stands, FirstNamed;
    p' := p;
    ghost var b := ed.buf[..];
    OrderedBlocks(b);
    FrontSelf(b, EDITED);
    var next := CheckNodeOffset(ed.buf[..], node);
    if NodeAt(b, node, p, c, n) { NodeNextOf(b, node, p, c, n); }
    if next < 0 {
      return next, p';
    }
    NodeNextInside(StructBlock(b), node);
    var off, added := FindAddString(ed, name);
    if off < 0 {
      return off, p';
    }
    ghost var b0 := ed.buf[..];
    StringReady(b, b0, name, off, added);
    r := InsertToken(ed, next, off, value);
    FrontTrans(b, b0, ed.buf[..], EDITED);
    if r != 0 {
      if added {
        Store32(ed.buf, H_SIZE_STRINGS, SizeStrings(ed.buf[..]) - (|name| + 1));
        FrontWord(b, b0, H_SIZE_STRINGS, SizeStrings(b0) - (|name| + 1), EDITED);
        RollbackLemma(b, b0, ed.buf[..], name);
      }
      return;
    }
    if NodeAt(b, node, p, c, n) && FirstNamed(n.props, name) == |n.props| {
      p' := SetNew(b, b0, ed.buf[..], node, p, c, n, name, value, off, if added then name + [0] else []);
    }
  }

  lemma NodeNextOf(b: Blob, o: nat, p: Place, c: Context, n: Node)
    requires NodeAt(b, o, p, c, n)
    ensures NodeNext(StructBlock(b), o) >= 0
  {
    NodeNextAt(StructBlock(b), StringsBlock(b), o, p, c, n);
  }

  lemma NodeNextInside(s: seq<Byte>, o: int)
    requires NodeNext(s, o) >= 0 && |s| % 4 == 0
    ensures NodeNext(s, o) <= |s|
  {
    hide LexOne;
    assert |s[o..]| == |s| - o;
  }

  /** What either outcome of fdt_find_add_string_ gives. */
  lemma StringReady(b: Blob, b0: Blob, name: seq<Byte>, off: nat, added: bool)
    requires Ordered(b) && NulFree(name)
    requires if added then Appended(b, b0, name) && off == |StringsBlock(b)|
             else b0 == b && W.Stands(StringsBlock(b), off, name)
    ensures off < POW32 && Ordered(b0) && SizeStruct(b0) == SizeStruct(b) && StructBlock(b0) == StructBlock(b)
    ensures Room(b0) == Room(b) - (if added then |name| + 1 else 0) && (added ==> SizeStrings(b0) >= |name| + 1)
    ensures StringsBlock(b0) == StringsBlock(b) + (if added then name + [0] else [])
    ensures Named(StringsBlock(b0), off) && NameAt(StringsBlock(b0), off) == name
  {
    hide Load32, StructBlock, StringsBlock, Named, NameAt;
    OrderedBlocks(b);
    var u := StringsBlock(b) + (if added then name + [0] else []);
    if added {
      assert u[off..off + |name| + 1] == name + [0];
    } else {
      assert u == StringsBlock(b);
    }
    W.StandsNamed(u, off, name);
  }

  lemma SetSpaceOld(b: Blob, o: nat, p: Place, c: Context, n: Node, name: seq<Byte>, value: seq<Byte>)
    requires NodeAt(b, o, p, c, n) && NodeNext(StructBlock(b), o) >= 0
    requires FindProp(StructBlock(b), StringsBlock(b), NodeNext(StructBlock(b), o), name).Hit?
    ensures SetSpace(n, StringsBlock(b), name, value) ==
            Align4(|value|) - Align4(|FindProp(StructBlock(b), StringsBlock(b), NodeNext(StructBlock(b), o), name).value|)
  {
    hide LexOne, Lexes, Lex, FindProp, StructBlock, StringsBlock, After, FlattenAll, AllNamed, PropAt, At, NodeNext, Items, Align4;
    if FirstNamed(n.props, name) == |n.props| {
      PropNone(b, o, p, c, n, name);
    }
    var ts, y, at, j := PropSite(b, o, p, c, n, name);
  }

  lemma SetExisting(b: Blob, b': Blob, o: nat, p: Place, c: Context, n: Node, name: seq<Byte>, value: seq<Byte>)
    returns (p': Place)
    requires NodeAt(b, o, p, c, n) && |value| < POW31
    requires var s, strs := StructBlock(b), StringsBlock(b);
             NodeNext(s, o) >= 0 && FindProp(s, strs, NodeNext(s, o), name).Hit? &&
             Resized(b, b', FindProp(s, strs, NodeNext(s, o), name).at, |FindProp(s, strs, NodeNext(s, o), name).value|, value)
    ensures NodeAt(b', o, p', c, WithProp(n, name, value)) && Decode(b') == Some(Plug(c, WithProp(n, name, value)))
  {
    hide LexOne, Lexes, Lex, FindProp, StructBlock, StringsBlock, After, FlattenAll, AllNamed, PropAt, At, NodeNext, Items, Align4,
         Named, NameAt, Load32;
    if FirstNamed(n.props, name) == |n.props| {
      PropNone(b, o, p, c, n, name);
    }
    var i := FirstNamed(n.props, name);
    var s, strs, t := StructBlock(b), StringsBlock(b), StructBlock(b');
    var ts, y, at, j := PropSite(b, o, p, c, n, name);
    HitBounds(s, strs, NodeNext(s, o), name);
    var off, e := LexOne(s[at..]).tok.nameoff, at + 12 + Align4(|value|);
    OldWords(s, at);
    PropToken(t, at, e, off, value);
    OneProp(strs, off, Property(name, value));
    p' := EditProp(s, strs, o, p, c, n, i, ts, y, at, j, t, e, [Prop(off, value)], [Property(name, value)]);
  }

  lemma OldWords(s: seq<Byte>, at: nat)
    requires at <= |s| && LexOne(s[at..]).Good? && LexOne(s[at..]).tok.Prop?
    ensures at + 12 <= |s| && s[at..at + 4] == Word(TAG_PROP) && s[at + 8..at + 12] == Word(LexOne(s[at..]).tok.nameoff)
  {
    var t := s[at..];
    PropBytes(t);
    hide LexOne, Load32;
    WordLoad(t, 0);
    WordLoad(t, 8);
    SliceOfSlice(s, at, |s|, 0, 4);
    SliceOfSlice(s, at, |s|, 8, 12);
  }

  lemma SetNew(b: Blob, b0: Blob, b': Blob, o: nat, p: Place, c: Context, n: Node, name: seq<Byte>, value: seq<Byte>,
               off: U32, more: seq<Byte>) returns (p': Place)
    requires NodeAt(b, o, p, c, n) && FirstNamed(n.props, name) == |n.props| && NodeNext(StructBlock(b), o) >= 0
    requires StructBlock(b0) == StructBlock(b) && StringsBlock(b0) == StringsBlock(b) + more
    requires Named(StringsBlock(b0), off) && NameAt(StringsBlock(b0), off) == name
    requires PropWritten(b0, b', NodeNext(StructBlock(b), o), off, value)
    ensures NodeAt(b', o, p', c, WithProp(n, name, value)) && Decode(b') == Some(Plug(c, WithProp(n, name, value)))
  {
    hide LexOne, Lexes, Lex, StructBlock, StringsBlock, AllNamed, At, NodeNext, Items, Align4, Named, NameAt, Load32;
    var s := StructBlock(b);
    p' := InsertProp(s, StringsBlock(b), o, p, c, n, StructBlock(b'), more, NodeNext(s, o) + 12 + Align4(|value|), off,
                     Property(name, value));
  }

  /** fdt_getprop then reads what was set. */
  lemma GetAfterSet(b: Blob, o: nat, p: Place, c: Context, n: Node, name: seq<Byte>, value: seq<Byte>)
    requires NodeAt(b, o, p, c, WithProp(n, name, value))
    ensures var s := StructBlock(b);
            NodeNext(s, o) >= 0 && FindProp(s, StringsBlock(b), NodeNext(s, o), name).Hit? &&
            FindProp(s, StringsBlock(b), NodeNext(s, o), name).value == value
  {
    hide PropAt, At, FindProp, StructBlock, StringsBlock, FirstNamed;
    WithPropKeeps(n, name, value);
    var ts, y, at, j := PropOfNode(StructBlock(b), StringsBlock(b), o, p, c, WithProp(n, name, value), name);
  }

  // ---------- fdt_add_subnode ----------

  function NodeLen(name: seq<Byte>): nat {
    4 + Align4(|name| + 1) + 4
  }

  /** An empty node has been written at `a`. */
  ghost predicate NodeWritten(b: Blob, b': Blob, a: nat, name: seq<Byte>) {
    && Ordered(b) && Ordered(b') && |b'| == |b| && StringsBlock(b') == StringsBlock(b)
    && Replaced(StructBlock(b), a, a, StructBlock(b'), a + NodeLen(name))
    && Lexes(StructBlock(b')[a..a + NodeLen(name)], [Begin(name), End])
  }

  /** The splice and the stores of fdt_add_subnode_namelen. */
  method InsertNode(ed: Editor, a: nat, name: seq<Byte>) returns (r: int)
    requires ed.buf.Length >= HEADER && Ordered(ed.buf[..]) && NulFree(name) && |name| < POW31 - 32 && a <= SizeStruct(ed.buf[..])
    modifies ed.buf
    ensures ed.buf.Length >= HEADER
    ensures if NodeLen(name) > Room(old(ed.buf[..])) then r == -NOSPACE && ed.buf[..] == old(ed.buf[..])
            else r == 0 && NodeWritten(old(ed.buf[..]), ed.buf[..], a, name)
    ensures Front(old(ed.buf[..]), ed.buf[..], EDITED)
  {
    hide Front, Load32, Patch, StructBlock, StringsBlock, Align4, Replaced, LexOne, Lexes, Zeros;
    ghost var b := ed.buf[..];
    r := ed.SpliceStruct(a, 0, NodeLen(name));
    if r != 0 {
      return;
    }
    ghost var b1 := ed.buf[..];
    SplicedSizes(b, b1, a, 0, NodeLen(name));
    var p := OffStruct(ed.buf[..]) + a;
    Store32(ed.buf, p, TAG_BEGIN_NODE);
    StoreInStruct(b1, a, Word(TAG_BEGIN_NODE));
    FrontStored(b, b1, a, Word(TAG_BEGIN_NODE));
    ghost var b2 := ed.buf[..];
    Store(ed.buf, p + 4, Zeros(Align4(|name| + 1)));
    StoreInStruct(b2, a + 4, Zeros(Align4(|name| + 1)));
    FrontStored(b, b2, a + 4, Zeros(Align4(|name| + 1)));
    ghost var b3 := ed.buf[..];
    Store(ed.buf, p + 4, name);
    StoreInStruct(b3, a + 4, name);
    FrontStored(b, b3, a + 4, name);
    ghost var b4 := ed.buf[..];
    Store32(ed.buf, p + NodeLen(name) - 4, TAG_END_NODE);
    StoreInStruct(b4, a + NodeLen(name) - 4, Word(TAG_END_NODE));
    FrontStored(b, b4, a + NodeLen(name) - 4, Word(TAG_END_NODE));
    NodeStores(StructBlock(b), StructBlock(b1), StructBlock(b2), StructBlock(b3), StructBlock(b4), StructBlock(ed.buf[..]), a, name);
  }

  lemma NodeStores(s: seq<Byte>, s1: seq<Byte>, s2: seq<Byte>, s3: seq<Byte>, s4: seq<Byte>, t: seq<Byte>, a: nat, name: seq<Byte>)
    requires NulFree(name) && Replaced(s, a, a, s1, a + NodeLen(name))
    requires s2 == Patch(s1, a, Word(TAG_BEGIN_NODE)) && s3 == Patch(s2, a + 4, Zeros(Align4(|name| + 1)))
    requires s4 == Patch(s3, a + 4, name) && t == Patch(s4, a + NodeLen(name) - 4, Word(TAG_END_NODE))
    ensures Replaced(s, a, a, t, a + NodeLen(name))
    ensures Lexes(t[a..a + NodeLen(name)], [Begin(name), End])
  {
    hide Patch, LexOne, Lexes, Zeros;
    var w1, z, w2 := Word(TAG_BEGIN_NODE), Zeros(Align4(|name| + 1)), Word(TAG_END_NODE);
    var e, m := a + NodeLen(name), a + NodeLen(name) - 4;
    PatchSlice(s1, a, w1, 0, a);
    PatchSlice(s2, a + 4, z, 0, a);
    PatchSlice(s3, a + 4, name, 0, a);
    PatchSlice(s4, m, w2, 0, a);
    PatchSlice(s1, a, w1, e, |s1|);
    PatchSlice(s2, a + 4, z, e, |s1|);
    PatchSlice(s3, a + 4, name, e, |s1|);
    PatchSlice(s4, m, w2, e, |s1|);
    assert t[0..a] == t[..a] && s1[0..a] == s1[..a] && t[e..|s1|] == t[e..] && s1[e..|s1|] == s1[e..];
    PatchSlice(s2, a + 4, z, a, a + 4);
    PatchSlice(s3, a + 4, name, a, a + 4);
    PatchSlice(s4, m, w2, a, a + 4);
    PatchSlice(s4, m, w2, a + 4, a + 4 + |name|);
    var k := a + 4 + |name|;
    PatchSlice(s3, a + 4, name, k, k + 1);
    PatchSlice(s4, m, w2, k, k + 1);
    PatchSlice(s2, a + 4, z, a + 4, m);
    NodeTokens(t, a, name, s3);
  }

  lemma NodeTokens(t: seq<Byte>, a: nat, name: seq<Byte>, s3: seq<Byte>)
    requires NulFree(name) && a + NodeLen(name) <= |t| == |s3|
    requires t[a..a + 4] == Word(TAG_BEGIN_NODE) && t[a + 4..a + 4 + |name|] == name
    requires var k := a + 4 + |name|; t[k..k + 1] == s3[k..k + 1]
    requires s3[a + 4..a + NodeLen(name) - 4] == Zeros(Align4(|name| + 1))
    requires t[a + NodeLen(name) - 4..a + NodeLen(name)] == Word(TAG_END_NODE)
    ensures Lexes(t[a..a + NodeLen(name)], [Begin(name), End])
  {
    hide LexOne, Lexes;
    var e, m, k := a + NodeLen(name), a + NodeLen(name) - 4, a + 4 + |name|;
    assert Zeros(Align4(|name| + 1))[|name|] == 0;
    assert t[k] == t[k..k + 1][0] == s3[k..k + 1][0] == s3[a + 4..m][|name|];
    var c := t[a..m];
    SliceOfSlice(t, a, m, 0, 4);
    SliceOfSlice(t, a, m, 4, 4 + |name|);
    LexBegin(c, name);
    LexesOne(c);
    LexWord(TAG_END_NODE, []);
    assert Word(TAG_END_NODE) + [] == Word(TAG_END_NODE);
    LexesOne(t[m..e]);
    LexesConcat(c, [Begin(name)], t[m..e], [End]);
    assert c + t[m..e] == t[a..e] && [Begin(name)] + [End] == [Begin(name), End];
  }

  /** The loop that looks for the end of the parent's properties. */
  method SkipProps(b: Blob, start: I32) returns (offset: I32)
    requires Readable(b) && start >= 0 && start % 4 == 0
    ensures offset == AfterProps(StructBlock(b), start)
  {
    hide LexOne, StructBlock;
    BlockSize(b);
    ghost var s := StructBlock(b);
    offset := start;
    while true
      invariant 0 <= offset && offset % 4 == 0
      invariant AfterProps(s, offset) == AfterProps(s, start)
      decreases |s| + 4 - offset
    {
      LexEmpty();
      var tag, next := NextTag(b, offset);
      if tag != TAG_PROP && tag != TAG_NOP {
        return;
      }
      offset := next;
    }
  }

  /** When the scan for a child ran into no damaged tag, neither does the one over the properties. */
  lemma {:induction false} AfterPropsInside(s: seq<Byte>, o: nat, d: int, t: int)
    ensures Walk(s, o, d, t) == Walk(s, AfterProps(s, o), d, t)
    ensures AfterProps(s, o) > |s| ==> Walk(s, o, d, t) == Stop(TRUNCATED)
    decreases |s| - o
  {
    hide LexOne;
    if o <= |s| && LexOne(s[o..]).Good? && (LexOne(s[o..]).tok.Prop? || LexOne(s[o..]).tok.Nop?) {
      AfterPropsInside(s, o + LexOne(s[o..]).len, d, t);
    }
  }

  lemma NotFoundInside(s: seq<Byte>, o: int, name: seq<Byte>)
    requires NodeNext(s, o) >= 0 && SubNamed(s, NodeNext(s, o), 0, name) == -NOTFOUND
    ensures AfterProps(s, NodeNext(s, o)) <= |s|
  {
    hide LexOne, Walk, NameMatches, AfterProps;
    AfterPropsInside(s, NodeNext(s, o), 0, 1);
  }

  /** The first half of fdt_add_subnode_namelen: where the new node goes, or why it cannot. */
  method SubnodeSpot(b: Blob, parent: I32, name: seq<Byte>, ghost p: Place, ghost c: Context, ghost n: Node) returns (r: int)
    requires Ordered(b)
    ensures r >= 0 ==> NodeNext(StructBlock(b), parent) >= 0 && r <= SizeStruct(b) &&
                       r == AfterProps(StructBlock(b), NodeNext(StructBlock(b), parent))
    ensures NodeAt(b, parent, p, c, n) ==> if FirstMatch(n.children, name) < |n.children| then r == -EXISTS else r >= 0
  {
    hide Load32, StructBlock, StringsBlock, At, LexOne, NodeNext, Align4, SubNamed, AfterProps, FirstMatch, NameMatches;
    OrderedBlocks(b);
    ghost var s := StructBlock(b);
    r := SubnodeOffset(b, parent, name);
    if NodeAt(b, parent, p, c, n) {
      ghost var at, pa := SubNamedIsFirstMatch(s, StringsBlock(b), parent, p, c, n, name);
    }
    if r >= 0 {
      return -EXISTS;
    }
    if r != -NOTFOUND {
      return;
    }
    if parent < 0 {
      // fdt_next_tag finds no begin tag there.
      return -INTERNAL;
    }
    NotFoundInside(s, parent, name);
    NodeNextAligned(s, parent);
    var next := CheckNodeOffset(b, parent);
    r := SkipProps(b, next);
  }

  /** fdt_add_subnode. */
  method AddSubnode(ed: Editor, parent: I32, name: seq<Byte>, ghost p: Place, ghost c: Context, ghost n: Node)
    returns (r: int, ghost p': Place, ghost q: Place)
    requires ed.buf.Length >= HEADER && Sane(ed.buf[..]) && NulFree(name) && |name| < POW31 - 32
    modifies ed.buf
    ensures ed.buf.Length >= HEADER
    ensures RwProbe(old(ed.buf[..])) != 0 ==> r == RwProbe(old(ed.buf[..]))
    ensures r < 0 ==> ed.buf[..] == old(ed.buf[..])
    ensures RwProbe(old(ed.buf[..])) == 0 && NodeAt(old(ed.buf[..]), parent, p, c, n) ==>
              if FirstMatch(n.children, name) < |n.children| then r == -EXISTS
              else if NodeLen(name) > Room(old(ed.buf[..])) then r == -NOSPACE
              else NodeAt(ed.buf[..], parent, p', c, WithChild(n, name)) &&
                   NodeAt(ed.buf[..], r, q, ChildContext(c, WithChild(n, name), 0), Node(name, [], [])) &&
                   Decode(ed.buf[..]) == Some(Plug(c, WithChild(n, name)))
    ensures RwProbe(old(ed.buf[..])) == 0 ==> Front(old(ed.buf[..]), ed.buf[..], EDITED)
  {
    hide Front, Load32, Patch, StructBlock, StringsBlock, At, LexOne, NodeNext, Decode, Align4, NodeWritten, AfterProps, Ordered,
         FirstMatch, NodeLen;
    p', q := p, p;
    if RwProbe(ed.buf[..]) != 0 {
      return RwProbe(ed.buf[..]), p', q;
    }
    ghost var b := ed.buf[..];
    ProbeOrders(b);
    FrontOrdered(b);
    var offset := SubnodeSpot(ed.buf[..], parent, name, p, c, n);
    if offset < 0 {
      return offset, p', q;
    }
    r := InsertNode(ed, offset, name);
    if r != 0 {
      return;
    }
    r := offset;
    if NodeAt(b, parent, p, c, n) {
      p' := AddLemma(b, ed.buf[..], parent, p, c, n, name);
      q := NewChild(b, ed.buf[..], parent, p', c, n, name);
    }
  }

  /** The node with an empty child in front of the others. */
  function WithChild(n: Node, name: seq<Byte>): Node {
    n.(children := [Node(name, [], [])] + n.children)
  }

  lemma AddLemma(b: Blob, b': Blob, o: nat, p: Place, c: Context, n: Node, name: seq<Byte>) returns (p': Place)
    requires NodeAt(b, o, p, c, n) && NodeNext(StructBlock(b), o) >= 0
    requires NodeWritten(b, b', AfterProps(StructBlock(b), NodeNext(StructBlock(b), o)), name)
    ensures NodeAt(b', o, p', c, WithChild(n, name)) && Decode(b') == Some(Plug(c, WithChild(n, name)))
  {
    hide LexOne, Lexes, Lex, StructBlock, StringsBlock, At, NodeNext, Align4, Load32, AfterProps;
    var s := StructBlock(b);
    p' := InsertChild(s, StringsBlock(b), o, p, c, n, StructBlock(b'), AfterProps(s, NodeNext(s, o)) + NodeLen(name), name);
  }

  lemma {:induction false} AfterPropsUp(s: seq<Byte>, o: nat)
    ensures AfterProps(s, o) >= o
    decreases |s| - o
  {
    hide LexOne;
    if o <= |s| && LexOne(s[o..]).Good? && (LexOne(s[o..]).tok.Prop? || LexOne(s[o..]).tok.Nop?) {
      AfterPropsUp(s, o + LexOne(s[o..]).len);
    }
  }

  /** A token in front of `a` reads the same when the bytes in front of `a` are the same. */
  lemma SameToken(s: seq<Byte>, t: seq<Byte>, o: nat, a: nat)
    requires a <= |s| && a <= |t| && t[..a] == s[..a] && o <= a
    requires LexOne(s[o..]).Good? && o + LexOne(s[o..]).len <= a
    ensures LexOne(t[o..]) == LexOne(s[o..])
  {
    hide LexOne;
    var len := LexOne(s[o..]).len;
    LexOnePrefix(s[o..], len);
    assert s[o..][..len] == s[..a][o..o + len] == t[..a][o..o + len] == t[o..][..len];
    LexOneLocal(t[o..][..len], t[o..][len..]);
    assert t[o..][..len] + t[o..][len..] == t[o..];
  }

  /** The end of the attributes stays where it was when a begin tag is put there. */
  lemma {:induction false} AfterPropsKept(s: seq<Byte>, t: seq<Byte>, o: nat, a: nat)
    requires a <= |s| && a <= |t| && t[..a] == s[..a] && AfterProps(s, o) == a
    requires LexOne(t[a..]).Good? && LexOne(t[a..]).tok.Begin?
    ensures AfterProps(t, o) == a
    decreases |s| - o
  {
    hide LexOne;
    if o <= |s| && LexOne(s[o..]).Good? && (LexOne(s[o..]).tok.Prop? || LexOne(s[o..]).tok.Nop?) {
      AfterPropsUp(s, o + LexOne(s[o..]).len);
      SameToken(s, t, o, a);
      AfterPropsKept(s, t, o + LexOne(s[o..]).len, a);
    }
  }

  /** The offset at which the node was written is the place of the new child. */
  lemma NewChild(b: Blob, b': Blob, o: nat, p': Place, c: Context, n: Node, name: seq<Byte>) returns (q: Place)
    requires NodeNext(StructBlock(b), o) >= 0 && NodeAt(b', o, p', c, WithChild(n, name))
    requires NodeWritten(b, b', AfterProps(StructBlock(b), NodeNext(StructBlock(b), o)), name)
    ensures NodeAt(b', AfterProps(StructBlock(b), NodeNext(StructBlock(b), o)), q, ChildContext(c, WithChild(n, name), 0), Node(name, [], []))
  {
    hide LexOne, Lexes, Lex, StructBlock, StringsBlock, At, Load32, AfterProps, Walk, ChildContext, NodeLen;
    var s, t, strs := StructBlock(b), StructBlock(b'), StringsBlock(b');
    var f := NodeNext(s, o);
    var a := AfterProps(s, f);
    AfterPropsUp(s, f);
    SameToken(s, t, o, a);
    HeadOfRun(t, a, a + NodeLen(name), [Begin(name), End]);
    AfterPropsKept(s, t, f, a);
    AfterPropsInside(t, f, 0, 1);
    WalkTag(t, a, name);
    var o', q' := FirstSubnodeIsFirstChild(t, strs, o, p', c, WithChild(n, name));
    q := q';
  }

  lemma WalkTag(s: seq<Byte>, a: nat, name: seq<Byte>)
    requires a <= |s| && LexOne(s[a..]).Good? && LexOne(s[a..]).tok == Begin(name)
    ensures Walk(s, a, 0, 1) == Found(a, 1)
  {
    hide LexOne;
  }
}

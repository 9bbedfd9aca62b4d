/** Writing a tree in preorder and decoding the blob gives the tree back. */
module FdtRoundTrip {
  import opened Common
  import opened Bytes
  import opened FdtFormat
  import opened FdtTree
  import opened FdtDecode
  import opened FdtTags
  import opened FdtProps
  import opened FdtCheck
  import opened FdtBuffer
  import opened FdtWriter
  import E = FdtEdit

  /** What the writer's C strings and int lengths can carry. */
  predicate Writable(n: Node)
    decreases n
  {
    && NulFree(n.name) && |n.name| < POW31 - 16
    && (forall i | 0 <= i < |n.props| :: NulFree(n.props[i].name) && |n.props[i].value| < POW31 - 16)
    && (forall i | 0 <= i < |n.children| :: Writable(n.children[i]))
  }

  function PropsSpace(ps: seq<Property>): nat {
    if ps == [] then 0 else |ps[0].name| + 1 + Align4(12 + |ps[0].value|) + PropsSpace(ps[1..])
  }

  /** Bytes that always suffice for a node: no name is shared. */
  function NodeSpace(n: Node): nat
    decreases n, 1
  {
    Align4(4 + |n.name| + 1) + PropsSpace(n.props) + NodesSpace(n.children) + 4
  }

  function NodesSpace(ns: seq<Node>): nat
    decreases ns, 0
  {
    if ns == [] then 0 else NodeSpace(ns[0]) + NodesSpace(ns[1..])
  }

  lemma LayoutFront(b: Blob)
    requires Layout(b)
    ensures Front(b, b, WRITTEN)
  {
    hide Load32;
  }

  /** The properties of a node, with room left for what follows. */
  method WriteProps(w: Writer, ps: seq<Property>, ghost more: nat)
    requires w.Valid() && ProbeStruct(w.buf[..]) == 0 && PropsSpace(ps) + more <= Free(w.buf[..])
    requires forall i | 0 <= i < |ps| :: NulFree(ps[i].name) && |ps[i].value| < POW31 - 16
    modifies w, w.buf
    ensures w.Valid() && ProbeStruct(w.buf[..]) == 0
    ensures w.Items() == old(w.Items()) + Attrs(ps)
    ensures Free(w.buf[..]) >= old(Free(w.buf[..])) - PropsSpace(ps)
    ensures Front(old(w.buf[..]), w.buf[..], WRITTEN)
  {
    hide Lexes, AllNamed, Written, Free, NameSpace, Align4, Load32, Attrs, Overruns, Front;
    ghost var b := w.buf[..];
    LayoutFront(b);
    ghost var start := w.Items();
    NoAttrs(start, ps);
    for i := 0 to |ps|
      invariant w.Valid() && ProbeStruct(w.buf[..]) == 0 && Front(b, w.buf[..], WRITTEN)
      invariant w.Items() == start + Attrs(ps[..i])
      invariant Free(w.buf[..]) >= old(Free(w.buf[..])) - PropsSpace(ps) + PropsSpace(ps[i..])
    {
      PropFitsIn(w.buf[..], w.toks, ps[i], ps[i..]);
      assert ps[i..][1..] == ps[i + 1..];
      ghost var b1 := w.buf[..];
      var r, overrun := w.Property(ps[i].name, ps[i].value);
      FrontTrans(b, b1, w.buf[..], WRITTEN);
      AttrsSnoc(start, ps, i);
    }
    assert ps[..|ps|] == ps && ps[|ps|..] == [];
  }

  method WriteNode(w: Writer, n: Node)
    requires w.Valid() && ProbeStruct(w.buf[..]) == 0 && Writable(n) && NodeSpace(n) <= Free(w.buf[..])
    modifies w, w.buf
    ensures w.Valid() && ProbeStruct(w.buf[..]) == 0
    ensures w.Items() == old(w.Items()) + Flatten(n)
    ensures Free(w.buf[..]) >= old(Free(w.buf[..])) - NodeSpace(n)
    ensures Front(old(w.buf[..]), w.buf[..], WRITTEN)
    decreases n, 1
  {
    hide Lexes, AllNamed, Written, Free, Flatten, FlattenAll, NodesSpace, NameSpace, Align4, Load32, Attrs, Front;
    ghost var b := w.buf[..];
    ghost var start := w.Items();
    var r := w.BeginNode(n.name);
    ghost var b1 := w.buf[..];
    WriteProps(w, n.props, NodesSpace(n.children) + 4);
    FrontTrans(b, b1, w.buf[..], WRITTEN);
    ghost var b2 := w.buf[..];
    WriteNodes(w, n.children);
    FrontTrans(b, b2, w.buf[..], WRITTEN);
    ghost var b3 := w.buf[..];
    ghost var body := w.Items();
    r := w.EndNode();
    FrontTrans(b, b3, w.buf[..], WRITTEN);
    FlattenIs(n);
    Regroup(start, [Open(n.name)], Attrs(n.props), FlattenAll(n.children), [Close]);
  }

  lemma AttrsSnoc(a: seq<Item>, ps: seq<Property>, i: nat)
    requires i < |ps|
    ensures a + Attrs(ps[..i + 1]) == a + Attrs(ps[..i]) + [Attr(ps[i])]
  {
    assert Attrs(ps[..i + 1]) == Attrs(ps[..i]) + [Attr(ps[i])];
  }

  lemma NoAttrs(a: seq<Item>, ps: seq<Property>)
    ensures a + Attrs(ps[..0]) == a
  {
  }

  lemma FlattenIs(n: Node)
    ensures Flatten(n) == [Open(n.name)] + Attrs(n.props) + FlattenAll(n.children) + [Close]
  {
  }

  lemma PropFitsIn(b: Blob, ts: seq<Token>, p: Property, ps: seq<Property>)
    requires Writing(b, ts) && ps != [] && ps[0] == p && Free(b) >= PropsSpace(ps)
    ensures NameSpace(b, p.name) + Align4(12 + |p.value|) <= |p.name| + 1 + Align4(12 + |p.value|)
    ensures PropsSpace(ps) == |p.name| + 1 + Align4(12 + |p.value|) + PropsSpace(ps[1..])
    ensures !Overruns(b, p.name) && |p.name| < POW31 - 16
  {
    hide Lexes, Load32, AllNamed, Align4;
  }

  method WriteNodes(w: Writer, ns: seq<Node>)
    requires w.Valid() && ProbeStruct(w.buf[..]) == 0 && NodesSpace(ns) <= Free(w.buf[..])
    requires forall i | 0 <= i < |ns| :: Writable(ns[i])
    modifies w, w.buf
    ensures w.Valid() && ProbeStruct(w.buf[..]) == 0
    ensures w.Items() == old(w.Items()) + FlattenAll(ns)
    ensures Free(w.buf[..]) >= old(Free(w.buf[..])) - NodesSpace(ns)
    ensures Front(old(w.buf[..]), w.buf[..], WRITTEN)
    decreases ns, 0
  {
    hide Lexes, AllNamed, Written, Free, Flatten, NodeSpace, NameSpace, Align4, Load32, Writable, Front;
    ghost var b := w.buf[..];
    LayoutFront(b);
    if ns != [] {
      ghost var start := w.Items();
      WriteNode(w, ns[0]);
      ghost var b1 := w.buf[..];
      WriteNodes(w, ns[1..]);
      FrontTrans(b, b1, w.buf[..], WRITTEN);
      assert start + Flatten(ns[0]) + FlattenAll(ns[1..]) == start + (Flatten(ns[0]) + FlattenAll(ns[1..]));
    } else {
      assert w.Items() + [] == w.Items();
    }
  }

  /** struct fdt_reserve_entry. */
  datatype Reservation = Reservation(address: U64, size: U64)

  function RsvBytes(r: Reservation): (s: seq<Byte>)
    ensures |s| == 16
  {
    Word64(r.address) + Word64(r.size)
  }

  /** These entries stand at the start of the reservation block. */
  ghost predicate Reserved(b: Blob, rsv: seq<Reservation>) {
    RSVMAP + 16 * |rsv| <= |b| && forall i | 0 <= i < |rsv| :: b[RSVMAP + 16 * i..RSVMAP + 16 * i + 16] == RsvBytes(rsv[i])
  }

  lemma ReservedMore(b: Blob, b': Blob, rsv: seq<Reservation>, r: Reservation)
    requires Reserved(b, rsv) && RSVMAP + 16 * |rsv| + 16 <= |b'|
    requires b'[RSVMAP..RSVMAP + 16 * |rsv|] == b[RSVMAP..RSVMAP + 16 * |rsv|]
    requires b'[RSVMAP + 16 * |rsv|..RSVMAP + 16 * |rsv| + 16] == RsvBytes(r)
    ensures Reserved(b', rsv + [r])
  {
    hide RsvBytes;
    var e := RSVMAP + 16 * |rsv|;
    forall i | 0 <= i < |rsv|
      ensures b'[RSVMAP + 16 * i..RSVMAP + 16 * i + 16] == RsvBytes(rsv[i])
    {
      SliceOfSlice(b, RSVMAP, e, 16 * i, 16 * i + 16);
      SliceOfSlice(b', RSVMAP, e, 16 * i, 16 * i + 16);
    }
  }

  lemma ReservedKept(b: Blob, b': Blob, rsv: seq<Reservation>)
    requires Reserved(b, rsv) && Front(b, b', WRITTEN) && RSVMAP + 16 * |rsv| <= OffStruct(b)
    ensures Reserved(b', rsv)
  {
    hide RsvBytes, Load32;
    forall i | 0 <= i < |rsv|
      ensures b'[RSVMAP + 16 * i..RSVMAP + 16 * i + 16] == RsvBytes(rsv[i])
    {
      SliceOfSlice(b, HEADER, OffStruct(b), RSVMAP + 16 * i - HEADER, RSVMAP + 16 * i + 16 - HEADER);
      SliceOfSlice(b', HEADER, OffStruct(b), RSVMAP + 16 * i - HEADER, RSVMAP + 16 * i + 16 - HEADER);
    }
  }

  /** Only an entry of size zero reads as the end of the block. */
  lemma ReservedEnd(b: Blob, rsv: seq<Reservation>, i: nat)
    requires Reserved(b, rsv) && i < |rsv| && OffRsvmap(b) == RSVMAP && TotalSize(b) <= |b| && RsvFits(b, i)
    ensures RsvZero(b, i) <==> rsv[i].size == 0
  {
    hide Load32;
    var a := RSVMAP + 16 * i;
    SliceOfSlice(b, a, a + 16, 8, 16);
    var x, y := Word64(rsv[i].address), Word64(rsv[i].size);
    assert (x + y)[8..16] == y;
    Word64Zero(rsv[i].size);
  }

  lemma Word64Zero(x: U64)
    ensures Word64(x) == [0, 0, 0, 0, 0, 0, 0, 0] <==> x == 0
  {
    var h, l := x / POW32, x % POW32;
    WordZero(h);
    WordZero(l);
    assert Word64(x)[..4] == Word(h) && Word64(x)[4..] == Word(l);
    assert [0, 0, 0, 0, 0, 0, 0, 0][..4] == [0, 0, 0, 0] && [0, 0, 0, 0, 0, 0, 0, 0][4..] == [0, 0, 0, 0];
  }

  lemma WordZero(w: U32)
    ensures Word(w) == [0, 0, 0, 0] <==> w == 0
  {
    LoadWord(w);
  }

  /** fdt_add_reservemap_entry for every entry. */
  method WriteReservations(w: Writer, rsv: seq<Reservation>)
    requires w.Valid() && ProbeMemrsv(w.buf[..]) == 0 && OffStruct(w.buf[..]) == RSVMAP
    requires RSVMAP + 16 * |rsv| <= TotalSize(w.buf[..])
    modifies w.buf
    ensures w.Valid() && ProbeMemrsv(w.buf[..]) == 0 && OffStruct(w.buf[..]) == RSVMAP + 16 * |rsv|
    ensures TotalSize(w.buf[..]) == old(TotalSize(w.buf[..])) && LastComp(w.buf[..]) == old(LastComp(w.buf[..]))
    ensures Reserved(w.buf[..], rsv)
  {
    hide Load32, Lexes, Word64, RsvBytes, Reserved, AllNamed, Written;
    ghost var total, last := TotalSize(w.buf[..]), LastComp(w.buf[..]);
    NoneReserved(w.buf[..]);
    assert rsv[..0] == [];
    for i := 0 to |rsv|
      invariant w.Valid() && ProbeMemrsv(w.buf[..]) == 0 && OffStruct(w.buf[..]) == RSVMAP + 16 * i
      invariant TotalSize(w.buf[..]) == total && LastComp(w.buf[..]) == last && Reserved(w.buf[..], rsv[..i])
    {
      ghost var b := w.buf[..];
      var r := w.AddReservemapEntry(rsv[i].address, rsv[i].size);
      RsvBytesAre(rsv[i]);
      ReservedMore(b, w.buf[..], rsv[..i], rsv[i]);
      assert rsv[..i] + [rsv[i]] == rsv[..i + 1];
    }
    assert rsv[..|rsv|] == rsv;
  }

  lemma NoneReserved(b: Blob)
    requires RSVMAP <= |b|
    ensures Reserved(b, [])
  {
  }

  lemma RsvBytesAre(r: Reservation)
    ensures RsvBytes(r) == Word64(r.address) + Word64(r.size) && RsvBytes(Reservation(0, 0)) == Zeros(16)
  {
    assert Word64(0) + Word64(0) == Zeros(16);
  }

  /** fdt_create_with_flags, the reservations, fdt_finish_reservemap, the nodes in preorder, fdt_finish: in a
      buffer that is large enough every call succeeds and the blob decodes to exactly the tree, names
      shared or not, with exactly the reservations and the entry that ends them; the editor takes it, and
      with a nameless root fdt_check_full accepts it. */
  method WriteTree(w: Writer, bufsize: I32, flags: U32, rsv: seq<Reservation>, t: Node) returns (r: int)
    requires HEADER <= w.buf.Length && bufsize <= w.buf.Length && bufsize < POW31 - 1
    requires Writable(t) && flags < 2 && RSVMAP + 16 * |rsv| + 16 + NodeSpace(t) + 4 <= bufsize
    modifies w, w.buf
    ensures r == 0 && Decode(w.buf[..]) == Some(t)
    ensures OffRsvmap(w.buf[..]) == RSVMAP && OffStruct(w.buf[..]) == RSVMAP + 16 * (|rsv| + 1)
    ensures Reserved(w.buf[..], rsv + [Reservation(0, 0)])
    ensures t.name == [] ==> Accepted(w.buf[..])
    ensures E.Sane(w.buf[..]) && E.RwProbe(w.buf[..]) == 0
  {
    hide Lexes, AllNamed, Written, Flatten, FlattenAll, NodeSpace, NodesSpace, NameSpace, Align4, Load32, Finished, Front, Reserved,
         RsvBytes, Zeros;
    r := w.Create(bufsize, flags);
    WriteReservations(w, rsv);
    ghost var b0 := w.buf[..];
    r := w.FinishReservemap();
    ghost var b1 := w.buf[..];
    RsvBytesAre(Reservation(0, 0));
    ReservedMore(b0, b1, rsv, Reservation(0, 0));
    WriteNode(w, t);
    ghost var b, ts := w.buf[..], w.toks;
    assert [] + Flatten(t) == Flatten(t);
    r := w.Finish();
    FrontTrans(b1, b, w.buf[..], WRITTEN);
    ReservedKept(b1, w.buf[..], rsv + [Reservation(0, 0)]);
    FrontStruct(b1, w.buf[..]);
    FinishedDecodes(b, ts, w.buf[..], t);
    FinishedIsEditable(b, ts, w.buf[..]);
    FinishedRsvmap(b, ts, w.buf[..]);
    if t.name == [] {
      FinishedIsAccepted(b, ts, w.buf[..], t);
    }
  }

  lemma FinishedRsvmap(b: Blob, ts: seq<Token>, c: Blob)
    requires Finished(b, ts, c)
    ensures OffRsvmap(c) == RSVMAP
  {
    hide Load32, Lex, Items, AllNamed, StructBlock, StringsBlock;
  }

  lemma FinishedDecodes(b: Blob, ts: seq<Token>, c: Blob, t: Node)
    requires Finished(b, ts, c) && Written(b, ts) == Flatten(t)
    ensures Decode(c) == Some(t)
  {
    hide Load32, Lex, Items, AllNamed, StructBlock, StringsBlock;
    DecodeIff(StructBlock(c), StringsBlock(c), t);
  }

  lemma WordMore(n: nat)
    requires n % 4 == 0
    ensures (n + 4) % 4 == 0
  {
  }

  /** What the writer finishes, the editor takes. */
  lemma FinishedIsEditable(b: Blob, ts: seq<Token>, c: Blob)
    requires Finished(b, ts, c) && Writing(b, ts)
    ensures E.Sane(c) && E.Ordered(c) && E.RwProbe(c) == 0
  {
    hide Load32, Lex, Items, AllNamed, StructBlock, StringsBlock, Lexes, E.RwProbe, Reloc;
    LexesAligned(SwStruct(b), ts);
    WordMore(SizeStruct(b));
    E.ProbeIff(c);
  }

  lemma FinishedIsAccepted(b: Blob, ts: seq<Token>, c: Blob, t: Node)
    requires Finished(b, ts, c) && Written(b, ts) == Flatten(t) && Writing(b, ts) && t.name == []
    ensures Accepted(c)
  {
    hide Load32, Lex, Items, AllNamed, StructBlock, StringsBlock, Lexes;
    FinishedDecodes(b, ts, c, t);
    var o := OffStruct(c) - 16;
    var i := (o - RSVMAP) / 16;
    assert RsvFits(c, i);
    SliceOfSlice(c, o, o + 16, 8, 16);
    assert Zeros(16)[8..16] == [0, 0, 0, 0, 0, 0, 0, 0];
    assert RsvZero(c, i);
    hide CheckTags;
    var rs := Reloc(ts, SizeStrings(b));
    NoFinish(SwStruct(b), ts);
    LastIsEnd(StringsBlock(c), rs, t);
    DecodedIsAccepted(StructBlock(c), StringsBlock(c), t);
  }

  /** The writer puts no NOP tag behind the root. */
  lemma LastIsEnd(strs: seq<Byte>, ts: seq<Token>, t: Node)
    requires Items(strs, ts) == Flatten(t) && forall i | 0 <= i < |ts| :: !ts[i].Nop? && !ts[i].Finish?
    ensures ts != [] && ts[|ts| - 1].End?
  {
    hide Items;
    var f := Items(strs, ts);
    assert f != [] && f[|f| - 1] == Close;
    hide Flatten;
    assert ts != [] by { ItemsNil(strs); }
    var m := |ts| - 1;
    ItemsConcat(strs, ts[..m], [ts[m]]);
    ItemsOne(strs, ts[m]);
    assert ts == ts[..m] + [ts[m]];
  }

  lemma {:induction false} NoFinish(s: seq<Byte>, ts: seq<Token>)
    requires Lexes(s, ts)
    ensures forall i | 0 <= i < |ts| :: !ts[i].Finish?
    decreases |ts|
  {
    hide LexOne;
    if ts != [] {
      NoFinish(s[LexOne(s).len..], ts[1..]);
      assert forall i | 1 <= i < |ts| :: ts[i] == ts[1..][i - 1];
    }
  }
}

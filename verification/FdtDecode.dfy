/** The blob: header fields, the structure and strings blocks they delimit, and the tree they
    describe.  `Decode` is the meaning every operation on blobs is stated against. */
module FdtDecode {
  import opened Common
  import opened Bytes
  import opened FdtFormat
  import opened FdtTree

  const MAGIC: U32 := 0xd00dfeed
  const SW_MAGIC: U32 := 0x2ff20112
  const HEADER: nat := 40

  type Blob = b: seq<Byte> | |b| >= HEADER witness Zeros(HEADER)

  // Word positions of struct fdt_header.
  const H_MAGIC: nat := 0
  const H_TOTALSIZE: nat := 4
  const H_OFF_STRUCT: nat := 8
  const H_OFF_STRINGS: nat := 12
  const H_OFF_RSVMAP: nat := 16
  const H_VERSION: nat := 20
  const H_LAST_COMP: nat := 24
  const H_SIZE_STRINGS: nat := 32
  const H_SIZE_STRUCT: nat := 36

  function TotalSize(b: Blob): U32 { Load32(b, H_TOTALSIZE) }
  function OffStruct(b: Blob): U32 { Load32(b, H_OFF_STRUCT) }
  function OffStrings(b: Blob): U32 { Load32(b, H_OFF_STRINGS) }
  function OffRsvmap(b: Blob): U32 { Load32(b, H_OFF_RSVMAP) }
  function Version(b: Blob): U32 { Load32(b, H_VERSION) }
  function LastComp(b: Blob): U32 { Load32(b, H_LAST_COMP) }
  function SizeStrings(b: Blob): U32 { Load32(b, H_SIZE_STRINGS) }
  function SizeStruct(b: Blob): U32 { Load32(b, H_SIZE_STRUCT) }
  function Magic(b: Blob): U32 { Load32(b, H_MAGIC) }

  function Min(a: int, b: int): int { if a < b then a else b }

  function Slice(b: seq<Byte>, lo: nat, hi: nat): (s: seq<Byte>) {
    if lo <= hi <= |b| then b[lo..hi] else []
  }

  /** Bytes a tag may be read from: inside the blob and, from version 17 on, inside the block. */
  function StructBlock(b: Blob): (s: seq<Byte>) {
    Slice(b, OffStruct(b),
          if Version(b) >= 17 then Min(TotalSize(b), OffStruct(b) + SizeStruct(b)) else TotalSize(b))
  }

  function StringsBlock(b: Blob): (s: seq<Byte>) {
    Slice(b, OffStrings(b),
          if Version(b) >= 17 then Min(TotalSize(b), OffStrings(b) + SizeStrings(b)) else TotalSize(b))
  }

  /** The NUL-terminated string at `off` of the strings block. */
  predicate Named(strs: seq<Byte>, off: nat) {
    off < |strs| && NulFrom(strs, off) < |strs|
  }

  function NameAt(strs: seq<Byte>, off: nat): (s: seq<Byte>) {
    if off <= |strs| then strs[off..NulFrom(strs, off)] else []
  }

  predicate AllNamed(strs: seq<Byte>, ts: seq<Token>) {
    forall i | 0 <= i < |ts| :: ts[i].Prop? ==> Named(strs, ts[i].nameoff)
  }

  /** The items a token run stands for: names resolved, NOP tags gone. */
  function Items(strs: seq<Byte>, ts: seq<Token>): (s: seq<Item>) {
    if ts == [] then [] else Item1(strs, ts[0]) + Items(strs, ts[1..])
  }

  function Item1(strs: seq<Byte>, t: Token): (r: seq<Item>)
    ensures |r| <= 1
  {
    match t
    case Begin(name) => [Open(name)]
    case End => [Close]
    case Prop(off, value) => [Attr(Property(NameAt(strs, off), value))]
    case Nop => []
    case Finish => []
  }

  /** The tree that a structure block and a strings block describe. */
  function DecodeBlocks(struct: seq<Byte>, strs: seq<Byte>): (r: Option<Node>) {
    match Lex(struct)
    case Broken(_) => None
    case Tokens(ts) =>
      if !AllNamed(strs, ts) then None
      else
        match ParseNode(Items(strs, ts))
        case Fail => None
        case Done(n, rest) => if rest == [] then Some(n) else None
  }

  function Decode(b: Blob): (r: Option<Node>) {
    DecodeBlocks(StructBlock(b), StringsBlock(b))
  }

  lemma ItemsConcat(strs: seq<Byte>, ts: seq<Token>, us: seq<Token>)
    ensures Items(strs, ts + us) == Items(strs, ts) + Items(strs, us)
    ensures AllNamed(strs, ts + us) <==> AllNamed(strs, ts) && AllNamed(strs, us)
  {
    ItemsOfConcat(strs, ts, us);
    NamesOfConcat(strs, ts, us);
  }

  lemma {:induction false} ItemsOfConcat(strs: seq<Byte>, ts: seq<Token>, us: seq<Token>)
    ensures Items(strs, ts + us) == Items(strs, ts) + Items(strs, us)
  {
    hide Item1;
    if ts == [] {
      assert ts + us == us;
      assert [] + Items(strs, us) == Items(strs, us);
    } else {
      assert (ts + us)[1..] == ts[1..] + us && (ts + us)[0] == ts[0];
      ItemsOfConcat(strs, ts[1..], us);
      var a, x, y := Item1(strs, ts[0]), Items(strs, ts[1..]), Items(strs, us);
      assert a + (x + y) == (a + x) + y;
    }
  }

  lemma NamesOfConcat(strs: seq<Byte>, ts: seq<Token>, us: seq<Token>)
    ensures AllNamed(strs, ts + us) <==> AllNamed(strs, ts) && AllNamed(strs, us)
  {
    hide Named;
    var all := ts + us;
    if AllNamed(strs, all) {
      assert forall i | 0 <= i < |ts| :: all[i] == ts[i];
      assert forall i | 0 <= i < |us| :: all[|ts| + i] == us[i];
    }
    if AllNamed(strs, ts) && AllNamed(strs, us) {
      assert forall i | 0 <= i < |all| :: all[i] == if i < |ts| then ts[i] else us[i - |ts|];
    }
  }

  lemma ItemsOne(strs: seq<Byte>, t: Token)
    ensures Items(strs, [t]) == Item1(strs, t)
  {
    assert [t][1..] == [];
  }

  /** A block whose tokens spell out a tree decodes to it, and only such a block does. */
  lemma DecodeIff(struct: seq<Byte>, strs: seq<Byte>, n: Node)
    ensures DecodeBlocks(struct, strs) == Some(n) <==>
            Lex(struct).Tokens? && AllNamed(strs, Lex(struct).toks) && Items(strs, Lex(struct).toks) == Flatten(n)
  {
    if Lex(struct).Tokens? && AllNamed(strs, Lex(struct).toks) {
      var s := Items(strs, Lex(struct).toks);
      if ParseNode(s).Done? && ParseNode(s).rest == [] {
        ParseSound(s);
        assert Flatten(ParseNode(s).value) + [] == Flatten(ParseNode(s).value);
      }
      if s == Flatten(n) {
        ParseComplete(n, []);
        assert Flatten(n) + [] == Flatten(n);
      }
    }
  }

  /** Strings may be appended to a strings block without changing any name already in it. */
  lemma NamedAppend(strs: seq<Byte>, more: seq<Byte>, off: nat)
    requires Named(strs, off)
    ensures Named(strs + more, off) && NameAt(strs + more, off) == NameAt(strs, off)
  {
    NulFromUnique(strs + more, off, NulFrom(strs, off));
    assert (strs + more)[off..NulFrom(strs, off)] == strs[off..NulFrom(strs, off)];
  }

  lemma {:induction false} ItemsAppendStrings(strs: seq<Byte>, more: seq<Byte>, ts: seq<Token>)
    requires AllNamed(strs, ts)
    ensures AllNamed(strs + more, ts) && Items(strs + more, ts) == Items(strs, ts)
  {
    if ts != [] {
      ItemsAppendStrings(strs, more, ts[1..]);
      if ts[0].Prop? {
        NamedAppend(strs, more, ts[0].nameoff);
      }
      assert ts == [ts[0]] + ts[1..];
      assert forall i | 1 <= i < |ts| :: ts[i] == ts[1..][i - 1];
    }
  }
}

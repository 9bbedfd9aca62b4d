/** One blob written out byte by byte, as chapter 5 of the Devicetree Specification v0.4 lays it out: the
    header of section 5.2, the reservation block of 5.3, the structure block of 5.4 and the strings block
    of 5.5.  It ties the constants and field offsets of the model to the format. */
module FdtSample {
  import opened Common
  import opened Bytes
  import opened FdtFormat
  import opened FdtTree
  import opened FdtDecode
  import opened FdtCheck

  function Head(): (s: seq<Byte>)
    ensures |s| == 40
  {
    [0xd0, 0x0d, 0xfe, 0xed] + Sizes() + Versions()  // magic
  }

  function Sizes(): (s: seq<Byte>)
    ensures |s| == 16
  {
    [0, 0, 0, 94,   // totalsize
     0, 0, 0, 56,   // off_dt_struct
     0, 0, 0, 92,   // off_dt_strings
     0, 0, 0, 40]   // off_mem_rsvmap
  }

  function Versions(): (s: seq<Byte>)
    ensures |s| == 20
  {
    [0, 0, 0, 17,   // version
     0, 0, 0, 16,   // last_comp_version
     0, 0, 0, 0,    // boot_cpuid_phys
     0, 0, 0, 2,    // size_dt_strings
     0, 0, 0, 36]   // size_dt_struct
  }

  function Rsv(): (s: seq<Byte>)
    ensures |s| == 16
  {
    [0, 0, 0, 0, 0, 0, 0, 0, 0, 0, 0, 0, 0, 0, 0, 0]
  }

  function Struct(): (s: seq<Byte>)
    ensures |s| == 36
  {
    [0, 0, 0, 1, 0, 0, 0, 0] + PropOn()  // FDT_BEGIN_NODE with an empty name
  }

  function PropOn(): (s: seq<Byte>)
    ensures |s| == 28
  {
    // FDT_PROP, length 1, name at 0, the value and padding
    [0, 0, 0, 3, 0, 0, 0, 1, 0, 0, 0, 0, 7, 0, 0, 0] + Tail()
  }

  function Tail(): (s: seq<Byte>)
    ensures |s| == 12
  {
    [0, 0, 0, 4,   // FDT_NOP
     0, 0, 0, 2,   // FDT_END_NODE
     0, 0, 0, 9]   // FDT_END
  }

  function Strings(): (s: seq<Byte>)
    ensures |s| == 2
  {
    [97, 0]
  }

  function Sample(): (b: Blob)
    ensures |b| == 94
  {
    Head() + (Rsv() + (Struct() + Strings()))
  }

  // ---------- header ----------

  lemma BigEndian(s: seq<Byte>, i: nat, a: Byte, b: Byte, c: Byte, d: Byte)
    requires i + 4 <= |s| && s[i] == a && s[i + 1] == b && s[i + 2] == c && s[i + 3] == d
    ensures Load32(s, i) == a * 0x100_0000 + b * 0x1_0000 + c * 0x100 + d
  {
  }

  lemma FirstBytes()
    ensures var h := Head();
            && h[0] == 0xd0 && h[1] == 0x0d && h[2] == 0xfe && h[3] == 0xed
            && forall i | 0 <= i < 16 :: h[4 + i] == Sizes()[i]
  {
    hide Sizes, Versions;
  }

  lemma LastBytes()
    ensures forall i | 0 <= i < 20 :: Head()[20 + i] == Versions()[i]
  {
    hide Sizes, Versions;
  }

  lemma InHead(i: nat, a: Byte, b: Byte, c: Byte, d: Byte)
    requires i + 4 <= 40 && Head()[i] == a && Head()[i + 1] == b && Head()[i + 2] == c && Head()[i + 3] == d
    ensures Load32(Sample(), i) == a * 0x100_0000 + b * 0x1_0000 + c * 0x100 + d
  {
    hide Load32, Head, Rsv, Struct, Strings;
    BigEndian(Sample(), i, a, b, c, d);
  }

  lemma FirstWords()
    ensures Magic(Sample()) == MAGIC && TotalSize(Sample()) == 94 && OffStruct(Sample()) == 56
    ensures OffStrings(Sample()) == 92 && OffRsvmap(Sample()) == 40
  {
    hide Load32, Head, Sample;
    FirstBytes();
    InHead(0, 0xd0, 0x0d, 0xfe, 0xed);
    assert forall i | 4 <= i < 20 :: Head()[i] == Sizes()[i - 4];
    InHead(4, 0, 0, 0, 94);
    InHead(8, 0, 0, 0, 56);
    InHead(12, 0, 0, 0, 92);
    InHead(16, 0, 0, 0, 40);
  }

  lemma LastWords()
    ensures Version(Sample()) == 17 && LastComp(Sample()) == 16 && SizeStrings(Sample()) == 2 && SizeStruct(Sample()) == 36
  {
    hide Load32, Head, Sample;
    LastBytes();
    assert forall i | 20 <= i < 40 :: Head()[i] == Versions()[i - 20];
    InHead(20, 0, 0, 0, 17);
    InHead(24, 0, 0, 0, 16);
    InHead(32, 0, 0, 0, 2);
    InHead(36, 0, 0, 0, 36);
  }

  // ---------- blocks ----------

  lemma Blocks()
    ensures StructBlock(Sample()) == Struct() && StringsBlock(Sample()) == Strings()
  {
    FirstWords();
    LastWords();
    hide Load32, Head, Rsv, Struct, Strings;
    assert Sample()[56..92] == Struct() && Sample()[92..94] == Strings();
  }

  lemma Terminated()
    ensures RsvFits(Sample(), 0) && RsvZero(Sample(), 0)
  {
    FirstWords();
    hide Load32, Head, Struct, Strings;
    assert Sample()[48..56] == Rsv()[8..16];
  }

  lemma BeginTag()
    ensures LexOne(Struct()) == Good(Begin([]), 8) && Struct()[8..] == PropOn()
  {
    hide LexOne, PropOn;
    assert Struct()[..4] == Word(1) && Struct()[4..4] == [] && Struct()[4] == 0;
    LexBegin(Struct(), []);
  }

  lemma PropTag()
    ensures LexOne(PropOn()) == Good(Prop(0, [7]), 16) && PropOn()[16..] == Tail()
  {
    hide LexOne, Tail;
    assert PropOn()[..4] == Word(3) && PropOn()[4..8] == Word(1) && PropOn()[8..12] == Word(0) && PropOn()[12..13] == [7];
    LexProp(PropOn(), 0, [7]);
  }

  lemma TailWords()
    ensures Tail() == Word(4) + (Word(2) + Word(9))
  {
    assert Word(4) == [0, 0, 0, 4] && Word(2) == [0, 0, 0, 2] && Word(9) == [0, 0, 0, 9];
  }

  lemma Tags()
    ensures Lex(Struct()) == Tokens([Begin([]), Prop(0, [7]), Nop, End])
  {
    hide LexOne, Word, Struct, PropOn, Tail;
    BeginTag();
    PropTag();
    TailWords();
    LexWord(4, Word(2) + Word(9));
    LexWord(2, Word(9));
    LexWord(9, []);
    assert Word(9) + [] == Word(9) && (Word(2) + Word(9))[4..] == Word(9);
    assert (Word(4) + (Word(2) + Word(9)))[4..] == Word(2) + Word(9);
    assert Lex(Word(9)) == Tokens([]);
    assert Lex(Word(2) + Word(9)) == Tokens([End]);
    assert Lex(Word(4) + (Word(2) + Word(9))) == Tokens([Nop, End]);
    assert Lex(PropOn()) == Tokens([Prop(0, [7]), Nop, End]);
  }

  lemma SampleItems()
    ensures var ts := [Begin([]), Prop(0, [7]), Nop, End];
            AllNamed(Strings(), ts) && Items(Strings(), ts) == Flatten(Node([], [Property([97], [7])], []))
  {
    assert NulFrom(Strings(), 0) == 1 && Strings()[0..1] == [97];
    var ts := [Begin([]), Prop(0, [7]), Nop, End];
    assert ts[1..] == [Prop(0, [7]), Nop, End] && ts[1..][1..] == [Nop, End] && [Nop, End][1..] == [End] && [End][1..] == [];
    assert Items(Strings(), [End]) == [Close];
    assert Items(Strings(), [Nop, End]) == [Close];
    assert Items(Strings(), [Prop(0, [7]), Nop, End]) == [Attr(Property([97], [7])), Close];
    assert FlattenAll([]) == [];
  }

  /** The sample is a tree whose nameless root has one property, and the full check accepts it. */
  lemma SampleDecodes()
    ensures Decode(Sample()) == Some(Node([], [Property([97], [7])], [])) && Accepted(Sample())
  {
    hide Load32, Lex, Items, AllNamed, StructBlock, StringsBlock, Flatten, Sample, Struct, Strings, RsvZero, RsvFits, CheckTags;
    FirstWords();
    LastWords();
    Blocks();
    Tags();
    SampleItems();
    Terminated();
    DecodeIff(Struct(), Strings(), Node([], [Property([97], [7])], []));
    DecodedIsAccepted(Struct(), Strings(), Node([], [Property([97], [7])], []));
  }
}
